/** Worked positions of the game, computed through the model. */
module WorkedCases {
  import opened OrderedSet
  import opened NumberTheory
  import opened MoveEngine

  /** The divisors of 12 in scan order: the pairs (1, 12), (2, 6), (3, 4). */
  lemma PairsOfTwelve()
    ensures FactorPairs(12, 1) == [1, 12, 2, 6, 3, 4]
  {
    assert FactorPairs(12, 4) == [];
    assert FactorPairs(12, 3) == [3, 4];
    assert FactorPairs(12, 2) == [2, 6, 3, 4];
  }

  /** The multiples of 12 on the board above 12. */
  lemma MultiplesOfTwelve()
    ensures Multiples(12) == [24, 36, 48, 60, 72, 84, 96]
  {
    var r := Multiples(12);
    MultiplesShape(12);
    assert |r| == 7;
    assert r[0] == 24 && r[1] == 36 && r[2] == 48 && r[3] == 60;
    assert r[4] == 72 && r[5] == 84 && r[6] == 96;
  }

  /** The candidates for 12 split around 12 itself, and the kept values
      joined up again. */
  lemma RegroupTwelve()
    ensures [1, 12, 2, 6, 3, 4] + [24, 36, 48, 60, 72, 84, 96] ==
      [1] + [12] + [2, 6, 3, 4, 24, 36, 48, 60, 72, 84, 96]
    ensures [1] + [2, 6, 3, 4, 24, 36, 48, 60, 72, 84, 96] ==
      [1, 2, 6, 3, 4, 24, 36, 48, 60, 72, 84, 96]
  {
  }

  /** Dropping 12 from the divisors and multiples of 12. */
  lemma DropTwelve()
    ensures Without([1] + [12] + [2, 6, 3, 4, 24, 36, 48, 60, 72, 84, 96], {12} + {}) ==
      [1] + [2, 6, 3, 4, 24, 36, 48, 60, 72, 84, 96]
  {
    WithoutGap([1], [12], [2, 6, 3, 4, 24, 36, 48, 60, 72, 84, 96], {12} + {});
  }

  /** The legal moves after 12 on an empty board, in scan order: the
      divisors without 12, then 24, 36, ..., 96. */
  lemma CandidatesOfTwelve()
    ensures FactorPairs(12, 1) + Multiples(12) == [1] + [12] + [2, 6, 3, 4, 24, 36, 48, 60, 72, 84, 96]
  {
    PairsOfTwelve();
    MultiplesOfTwelve();
    RegroupTwelve();
  }

  lemma ValidMovesAfterTwelve()
    ensures ValidMoves(12, {}) == [1, 2, 6, 3, 4, 24, 36, 48, 60, 72, 84, 96]
  {
    ValidMovesScanOrder(12, {});
    CandidatesOfTwelve();
    DropTwelve();
    RegroupTwelve();
  }

  /** Dropping 12 and the claimed 2 from the divisors of 12. */
  lemma DropFromPairsOfTwelve()
    ensures Without([1] + [12, 2] + [6, 3, 4], {12} + {2, 24}) == [1] + [6, 3, 4]
  {
    WithoutGap([1], [12, 2], [6, 3, 4], {12} + {2, 24});
  }

  /** Dropping the claimed 24 from the multiples of 12. */
  lemma DropFromMultiplesOfTwelve()
    ensures Without([] + [24] + [36, 48, 60, 72, 84, 96], {12} + {2, 24}) == [] + [36, 48, 60, 72, 84, 96]
  {
    WithoutGap([], [24], [36, 48, 60, 72, 84, 96], {12} + {2, 24});
  }

  /** The pieces of the candidates for 12 around the claimed 2 and 24. */
  lemma RegroupTwelveClaimed()
    ensures [1, 12, 2, 6, 3, 4] == [1] + [12, 2] + [6, 3, 4]
    ensures [24, 36, 48, 60, 72, 84, 96] == [] + [24] + [36, 48, 60, 72, 84, 96]
    ensures [1] + [6, 3, 4] + ([] + [36, 48, 60, 72, 84, 96]) == [1, 6, 3, 4, 36, 48, 60, 72, 84, 96]
  {
  }

  /** After 12 with 2 and 24 already claimed, those two are no longer
      offered; the rest keep their scan order. */
  lemma ValidMovesAfterTwelveWithClaims()
    ensures ValidMoves(12, {2, 24}) == [1, 6, 3, 4, 36, 48, 60, 72, 84, 96]
  {
    ValidMovesScanOrder(12, {2, 24});
    PairsOfTwelve();
    MultiplesOfTwelve();
    WithoutAppend([1, 12, 2, 6, 3, 4], [24, 36, 48, 60, 72, 84, 96], {12} + {2, 24});
    RegroupTwelveClaimed();
    DropFromPairsOfTwelve();
    DropFromMultiplesOfTwelve();
  }

  /** The computer's scan after 12 meets 6 before 3 (the pairs come as
      1, 12, 2, 6, 3, 4). When 6 and 3 leave the opponent equally few
      replies and 6 beats the running best, the scan keeps 6, although 3 is
      the smaller number: the tie goes to scan order, not to size. */
  lemma TieGoesToScanOrder(count: nat -> nat, best: Best)
    requires count(6) == count(3) && (best.NoBest? || count(6) < best.replies)
    ensures Scan([6, 3], count, best) == Best(6, count(6))
  {
    assert [6, 3][1..] == [3];
    assert [3][1..] == [];
  }

  /** 97 is prime: no `i` from 2 to 9 divides it. */
  lemma PairsOfNinetySeven()
    ensures FactorPairs(97, 1) == [1, 97]
  {
    assert FactorPairs(97, 10) == [];
    assert FactorPairs(97, 9) == [];
    assert FactorPairs(97, 8) == [];
    assert FactorPairs(97, 7) == [];
    assert FactorPairs(97, 6) == [];
    assert FactorPairs(97, 5) == [];
    assert FactorPairs(97, 4) == [];
    assert FactorPairs(97, 3) == [];
    assert FactorPairs(97, 2) == [];
  }

  /** Dropping 97 from its divisors. */
  lemma DropNinetySeven()
    ensures Without([1, 97] + [], {97} + {}) == [1]
  {
    assert {97} + {} == {97};
    assert [1, 97] + [] == [1, 97];
  }

  /** 97 is prime and its first multiple is off the board: only 1 remains. */
  lemma ValidMovesAfterNinetySeven()
    ensures ValidMoves(97, {}) == [1]
  {
    PairsOfNinetySeven();
    assert Multiples(97) == [];
    ValidMovesScanOrder(97, {});
    DropNinetySeven();
  }
}
