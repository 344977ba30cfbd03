/** Move generation and the computer player's move choice
    (`getValidMoves` and `getAIMove` in services/gameLogic.ts). */
module MoveEngine {
  import opened OrderedSet
  import opened NumberTheory

  /** `number | null`. */
  datatype Option<T> = None | Some(value: T)

  /** The game's rule for a move after `lastMove`: a divisor of `lastMove`
      or one of its multiples on the board, other than `lastMove` itself,
      and not claimed yet. */
  predicate IsLegal(m: int, lastMove: int, selected: set<int>) {
    lastMove >= 1 && (Divides(m, lastMove) || MultipleOnBoard(m, lastMove)) &&
    m != lastMove && m !in selected
  }

  /** A value listed by `getFactors(n)` or `getMultiples(n)` is a divisor
      or an on-board multiple of `n`, and every such value is listed. */
  lemma Candidate(n: nat, m: int)
    ensures m in Factors(n) + Multiples(n) <==> n >= 1 && (Divides(m, n) || MultipleOnBoard(m, n))
  {
    FactorsAreDivisors(n, m);
    MultiplesAreMultiples(n, m);
  }

  /** A legal move is positive, and on the board when `lastMove` is. */
  lemma LegalOnBoard(m: int, lastMove: int, selected: set<int>)
    requires IsLegal(m, lastMove, selected)
    ensures 1 <= m
    ensures lastMove <= BoardSize ==> m <= BoardSize
  {
    if Divides(m, lastMove) {
      CoDivisor(lastMove, m);
    }
  }

  /** The steps of `getValidMoves` (lines 27-33): the divisors and then the
      multiples of `lastMove` gathered in a set, `lastMove` deleted, the
      claimed numbers filtered out. The result holds each candidate other
      than `lastMove` and the claimed numbers, once. */
  function Gather(lastMove: nat, selected: set<int>): (r: seq<int>)
    ensures Distinct(r)
    ensures forall m :: m in r <==>
      m in Factors(lastMove) + Multiples(lastMove) && m != lastMove && m !in selected
  {
    Without(Without(FromSeq(Factors(lastMove) + Multiples(lastMove)), {lastMove}), selected)
  }

  /** The steps keep exactly the legal moves. */
  lemma GatherIsLegal(lastMove: nat, selected: set<int>)
    ensures forall m :: m in Gather(lastMove, selected) <==> IsLegal(m, lastMove, selected)
    ensures forall m :: m in Gather(lastMove, selected) ==> m >= 1
  {
    forall m
      ensures m in Gather(lastMove, selected) <==> IsLegal(m, lastMove, selected)
      ensures m in Gather(lastMove, selected) ==> m >= 1
    {
      Candidate(lastMove, m);
      if IsLegal(m, lastMove, selected) {
        LegalOnBoard(m, lastMove, selected);
      }
    }
  }

  /** `getValidMoves(lastMove, selected)`: exactly the legal moves, each
      once. `getMultiples` does not return for a negative number, hence the
      type of `lastMove`. */
  function ValidMoves(lastMove: nat, selected: set<int>): (r: seq<nat>)
    ensures Distinct(r)
    ensures forall m :: m in r <==> IsLegal(m, lastMove, selected)
  {
    var moves := Gather(lastMove, selected);
    GatherIsLegal(lastMove, selected);
    assert forall i :: 0 <= i < |moves| ==> moves[i] in moves;
    moves
  }

  /** Every valid move is on the board when `lastMove` is. */
  lemma ValidMovesOnBoard(lastMove: nat, selected: set<int>, m: int)
    requires 1 <= lastMove <= BoardSize && m in ValidMoves(lastMove, selected)
    ensures 1 <= m <= BoardSize
  {
    LegalOnBoard(m, lastMove, selected);
  }

  /** Two duplicate-free sequences with no value in common concatenate to a
      duplicate-free sequence. */
  lemma DistinctAppend(a: seq<int>, b: seq<int>)
    requires Distinct(a) && Distinct(b)
    requires forall x :: x in a ==> x !in b
    ensures Distinct(a + b)
  {
    forall i, j | 0 <= i < j < |a + b|
      ensures (a + b)[i] != (a + b)[j]
    {
      if i < |a| && |a| <= j {
        assert (a + b)[i] in a;
        assert (a + b)[j] in b;
      }
    }
  }

  /** The order in which `getValidMoves` yields its moves, which is the
      computer player's scan order: the factor pairs `i, lastMove / i` for
      ascending `i`, then the multiples in ascending order, with `lastMove`
      and the claimed numbers dropped. */
  lemma ValidMovesScanOrder(lastMove: nat, selected: set<int>)
    ensures ValidMoves(lastMove, selected) == Without(FactorPairs(lastMove, 1) + Multiples(lastMove), {lastMove} + selected)
  {
    var f := Factors(lastMove);
    var g := Multiples(lastMove);
    forall x | x in f
      ensures x !in g
    {
      if x in g {
        FactorsBelowMultiples(lastMove, x, x);
        assert false;
      }
    }
    MultiplesIncreasing(lastMove);
    DistinctAppend(f, g);
    FromSeqOfDistinct(f + g);
    WithoutTwice(f + g, {lastMove}, selected);
    FactorsInPairOrder(lastMove);
  }

  // ---------------------------------------------------------------------
  // getAIMove
  // ---------------------------------------------------------------------

  /** How many replies the opponent has after `move` is claimed
      (lines 48-50: `selected` with `move` added, then `getValidMoves`). */
  function Replies(move: nat, selected: set<int>): (r: nat)
    ensures r == 0 <==> forall m :: !IsLegal(m, move, selected + {move})
  {
    var replies := ValidMoves(move, selected + {move});
    assert |replies| > 0 ==> replies[0] in replies;
    |replies|
  }

  /** The count the computer minimises, as a function of the move. */
  function ReplyCount(selected: set<int>): nat -> nat {
    m => Replies(m, selected)
  }

  /** The running choice of lines 43-44: `NoBest` is `bestMove = null` with
      `minOpponentMoves = Infinity`. */
  datatype Best = NoBest | Best(move: nat, replies: nat)

  /** The `for ... of` loop at lines 47-56, folding the candidates left to
      right into the running choice, for any way `count` of scoring a
      candidate. The test of line 52 replaces the choice only on a strictly
      smaller count, and every count is below the starting Infinity. Once
      one candidate has been seen the choice is never `NoBest` again. */
  function Scan(moves: seq<nat>, count: nat -> nat, best: Best): (r: Best)
    ensures |moves| > 0 || best.Best? ==> r.Best?
    ensures r.Best? ==> r.move in moves || r == best
    decreases |moves|
  {
    if |moves| == 0 then best
    else
      var n := count(moves[0]);
      Scan(moves[1..], count, if best.NoBest? || n < best.replies then Best(moves[0], n) else best)
  }

  /** `getAIMove(lastMove, selected)`: no move when nothing is legal,
      otherwise the move the scan settles on. */
  function AIMove(lastMove: nat, selected: set<int>): (r: Option<nat>)
    ensures r.None? <==> |ValidMoves(lastMove, selected)| == 0
    ensures r.Some? ==> r.value in ValidMoves(lastMove, selected)
  {
    var valid := ValidMoves(lastMove, selected);
    if |valid| == 0 then None
    else
      match Scan(valid, ReplyCount(selected), NoBest)
      case NoBest =>
        // the random pick of line 64: the first candidate always beats
        // Infinity, so a non-empty scan never ends here
        assert false; None
      case Best(m, replies) =>
        // lines 59-61 return bestMove at once when it leaves no reply (a
        // falsy 0 would skip them); line 64 returns the same move otherwise,
        // so the two branches agree on purpose
        if replies == 0 && m != 0 then Some(m) else Some(m)
  }

  /** Position `k` holds the first minimum of `count` over `moves`: no
      candidate scores less, and every earlier one scores more. */
  ghost predicate FirstMinimumAt(moves: seq<nat>, count: nat -> nat, k: int) {
    0 <= k < |moves| &&
    (forall j :: 0 <= j < |moves| ==> count(moves[k]) <= count(moves[j])) &&
    (forall j :: 0 <= j < k ==> count(moves[k]) < count(moves[j]))
  }

  /** `best` is what a correct greedy scan of `moves` must hold: nothing for
      no candidates, else the first minimum with its own score. */
  ghost predicate IsFirstMinimum(moves: seq<nat>, count: nat -> nat, best: Best) {
    if |moves| == 0 then best.NoBest?
    else
      best.Best? && best.replies == count(best.move) &&
      exists k :: FirstMinimumAt(moves, count, k) && moves[k] == best.move
  }

  /** One more candidate: the strict `<` keeps the earlier of two equal
      scores. */
  lemma ScanStepKeepsFirstMinimum(done: seq<nat>, x: nat, count: nat -> nat, best: Best)
    requires IsFirstMinimum(done, count, best)
    ensures IsFirstMinimum(done + [x], count,
      if best.NoBest? || count(x) < best.replies then Best(x, count(x)) else best)
  {
    var next := done + [x];
    if |done| == 0 {
      assert FirstMinimumAt(next, count, 0);
    } else {
      var k :| FirstMinimumAt(done, count, k) && done[k] == best.move;
      if count(x) < best.replies {
        assert FirstMinimumAt(next, count, |done|);
      } else {
        assert FirstMinimumAt(next, count, k);
      }
    }
  }

  /** Scanning `rest` after `done` extends the first minimum of `done` to
      the first minimum of `done + rest`. */
  lemma {:induction false} ScanKeepsFirstMinimum(done: seq<nat>, rest: seq<nat>, count: nat -> nat, best: Best)
    requires IsFirstMinimum(done, count, best)
    ensures IsFirstMinimum(done + rest, count, Scan(rest, count, best))
    decreases |rest|
  {
    if |rest| == 0 {
      assert done + rest == done;
    } else {
      var x := rest[0];
      ScanStepKeepsFirstMinimum(done, x, count, best);
      assert done + [x] + rest[1..] == done + rest;
      ScanKeepsFirstMinimum(done + [x], rest[1..], count,
        if best.NoBest? || count(x) < best.replies then Best(x, count(x)) else best);
    }
  }

  /** The scan from no choice picks the first minimum of the candidates. */
  lemma ScanFindsFirstMinimum(moves: seq<nat>, count: nat -> nat)
    ensures IsFirstMinimum(moves, count, Scan(moves, count, NoBest))
  {
    assert [] + moves == moves;
    ScanKeepsFirstMinimum([], moves, count, NoBest);
  }

  /** The computer's move is the first candidate, in scan order, that
      leaves the opponent the fewest replies. */
  lemma AIMoveIsFirstMinimum(lastMove: nat, selected: set<int>)
    ensures AIMove(lastMove, selected).Some? ==>
      exists k :: FirstMinimumAt(ValidMoves(lastMove, selected), ReplyCount(selected), k) &&
                  ValidMoves(lastMove, selected)[k] == AIMove(lastMove, selected).value
  {
    ScanFindsFirstMinimum(ValidMoves(lastMove, selected), ReplyCount(selected));
  }

  /** No legal move leaves the opponent fewer replies than the computer's
      move. */
  lemma AIMoveMinimisesReplies(lastMove: nat, selected: set<int>, c: nat)
    requires AIMove(lastMove, selected).Some? && IsLegal(c, lastMove, selected)
    ensures Replies(AIMove(lastMove, selected).value, selected) <= Replies(c, selected)
  {
    var valid := ValidMoves(lastMove, selected);
    AIMoveIsFirstMinimum(lastMove, selected);
    var k :| FirstMinimumAt(valid, ReplyCount(selected), k) && valid[k] == AIMove(lastMove, selected).value;
    var j :| 0 <= j < |valid| && valid[j] == c;
    assert ReplyCount(selected)(valid[k]) <= ReplyCount(selected)(valid[j]);
  }

  /** The computer's move is legal: never `lastMove`, never claimed, and on
      the board whenever `lastMove` is; and there is no move exactly when
      nothing is legal. */
  lemma AIMoveIsLegal(lastMove: nat, selected: set<int>)
    ensures AIMove(lastMove, selected).Some? ==> IsLegal(AIMove(lastMove, selected).value, lastMove, selected)
    ensures AIMove(lastMove, selected).Some? && lastMove <= BoardSize ==> 1 <= AIMove(lastMove, selected).value <= BoardSize
    ensures AIMove(lastMove, selected).None? <==> forall m :: !IsLegal(m, lastMove, selected)
  {
    var r := AIMove(lastMove, selected);
    var valid := ValidMoves(lastMove, selected);
    if r.Some? {
      LegalOnBoard(r.value, lastMove, selected);
    }
    if |valid| > 0 {
      assert valid[0] in valid;
    }
  }

  /** When some legal move leaves the opponent no reply, the computer takes
      such a move (the case lines 58-61 single out). */
  lemma AIMoveTakesWin(lastMove: nat, selected: set<int>, c: nat)
    requires IsLegal(c, lastMove, selected) && Replies(c, selected) == 0
    ensures AIMove(lastMove, selected).Some?
    ensures Replies(AIMove(lastMove, selected).value, selected) == 0
  {
    assert c in ValidMoves(lastMove, selected);
    AIMoveMinimisesReplies(lastMove, selected, c);
  }

  /** The loop at lines 43-56 as the source runs it: the candidates in
      order, a candidate replacing the current best only on a strictly
      smaller reply count. It ends with the scan's choice, which scores no
      more than any candidate. */
  method ScanMoves(valid: seq<nat>, count: nat -> nat) returns (best: Best)
    ensures best == Scan(valid, count, NoBest)
    ensures best.NoBest? <==> |valid| == 0
    ensures best.Best? ==> best.move in valid && best.replies == count(best.move)
    ensures best.Best? ==> forall j :: 0 <= j < |valid| ==> best.replies <= count(valid[j])
  {
    best := NoBest;
    var k := 0;
    while k < |valid|
      invariant 0 <= k <= |valid|
      invariant Scan(valid[k..], count, best) == Scan(valid, count, NoBest)
      invariant best.NoBest? <==> k == 0
      invariant best.Best? ==> best.move in valid && best.replies == count(best.move)
      invariant best.Best? ==> forall j :: 0 <= j < k ==> best.replies <= count(valid[j])
    {
      var move := valid[k];
      var opponentMoves := count(move);
      assert valid[k..][1..] == valid[k + 1..];
      if best.NoBest? || opponentMoves < best.replies {
        best := Best(move, opponentMoves);
      }
      k := k + 1;
    }
    assert valid[k..] == [];
  }

  /** `getAIMove` as the source runs it: no move for no candidates, else
      the loop, then the early return of lines 59-61 and the return of
      line 64. It agrees with `AIMove`, so `AIMoveMinimisesReplies` and
      `AIMoveIsFirstMinimum` hold of its result. */
  method ChooseMove(lastMove: nat, selected: set<int>) returns (r: Option<nat>)
    ensures r.None? <==> |ValidMoves(lastMove, selected)| == 0
    ensures r.Some? ==> r.value in ValidMoves(lastMove, selected)
    ensures r == AIMove(lastMove, selected)
  {
    var valid := ValidMoves(lastMove, selected);
    if |valid| == 0 {
      return None;
    }
    var best := ScanMoves(valid, ReplyCount(selected));
    match best
    case NoBest =>
      assert false;
    case Best(m, replies) =>
      // the early return of lines 59-61; line 64 below returns the same
      // move, so both paths agree on purpose
      if replies == 0 && m != 0 {
        return Some(m);
      }
      r := Some(m);
  }
}
