/** The players ("sliders"): a random one that takes the first legal move
    of a shuffled order, and greedy ones that maximise the reward summed
    over one, two or three moves of lookahead. The board is a type parameter
    and its `slide(op)` on a copy is the function `slide`, which returns the
    board afterwards and the reward, -1 when the move is illegal. */
module Sliders {
  import opened Actions

  /** `board(b).slide(op)`: the board after the move and the reward. */
  type Mover<!B> = (B, int) -> (B, int)

  /** The reward `slide` reports for an illegal move. */
  const Illegal: int := -1

  /** The lookahead depths of the two- and three-step sliders. */
  const TwoMoves: nat := 2
  const ThreeMoves: nat := 3

  /** The four move codes, in the order the greedy sliders try them. */
  const OpCount: nat := 4

  function Reward<B>(slide: Mover<B>, b: B, op: int): int {
    slide(b, op).1
  }

  function After<B>(slide: Mover<B>, b: B, op: int): B {
    slide(b, op).0
  }

  // ---------------------------------------------------------------------
  // Running maximum with strict `>`, starting from the sentinel -1
  // ---------------------------------------------------------------------

  /** The value of `bestReward` after scanning `s` with `if (x > best) best = x`
      from `best = -1`: the maximum of -1 and the elements. */
  function Best(s: seq<int>): (m: int)
    ensures m >= -1
  {
    if s == [] then -1
    else var m := Best(s[..|s| - 1]); if s[|s| - 1] > m then s[|s| - 1] else m
  }

  /** The value of `bestOp` after the same scan: the index of the update
      that set `Best`, or -1 when none did. */
  function ArgBest(s: seq<int>): (k: int)
    ensures -1 <= k < |s|
  {
    if s == [] then -1
    else if s[|s| - 1] > Best(s[..|s| - 1]) then |s| - 1
    else ArgBest(s[..|s| - 1])
  }

  /** `Best` bounds every element, so it is the maximum of -1 and the
      elements; `ArgBest` is -1 exactly when no element exceeds -1, and
      otherwise the first index holding that maximum. */
  lemma {:induction false} BestIsFirstMaximum(s: seq<int>)
    ensures forall i :: 0 <= i < |s| ==> s[i] <= Best(s)
    ensures ArgBest(s) == -1 <==> Best(s) == -1
    ensures ArgBest(s) == -1 <==> forall i :: 0 <= i < |s| ==> s[i] <= -1
    ensures ArgBest(s) >= 0 ==> s[ArgBest(s)] == Best(s)
    ensures ArgBest(s) >= 0 ==> forall i :: 0 <= i < ArgBest(s) ==> s[i] < Best(s)
    decreases |s|
  {
    if s != [] {
      var init := s[..|s| - 1];
      BestIsFirstMaximum(init);
      assert forall i :: 0 <= i < |init| ==> s[i] == init[i];
    }
  }

  /** One step of the scan: the next element replaces the best so far only
      when it is strictly greater. */
  lemma ScanStep(s: seq<int>, k: nat)
    requires k < |s|
    ensures Best(s[..k + 1]) == if s[k] > Best(s[..k]) then s[k] else Best(s[..k])
    ensures ArgBest(s[..k + 1]) == if s[k] > Best(s[..k]) then k else ArgBest(s[..k])
  {
    assert s[..k + 1][..k] == s[..k];
  }

  /** `a` is what an argmax over `s` with the sentinel -1 returns: no action
      exactly when no score exceeds -1, otherwise a move of maximal score,
      the first one among equals. */
  predicate Chooses(a: Action, s: seq<int>) {
    match a
    case NoAction => forall i :: 0 <= i < |s| ==> s[i] <= -1
    case Slide(op) =>
      0 <= op < |s| && s[op] > -1 &&
      (forall i :: 0 <= i < |s| ==> s[i] <= s[op]) &&
      (forall i :: 0 <= i < op ==> s[i] < s[op])
    case Place(_, _, _) => false
  }

  /** At most one action satisfies `Chooses`. */
  lemma ChoosesUnique(a: Action, a': Action, s: seq<int>)
    requires Chooses(a, s) && Chooses(a', s)
    ensures a == a'
  {
    if a.Slide? && a'.Slide? {
      assert !(a.op < a'.op);
      assert !(a'.op < a.op);
    }
  }

  /** The action the greedy sliders return after the scan: it is the
      argmax `Chooses` describes. */
  function Choice(s: seq<int>): (a: Action)
    ensures Chooses(a, s)
  {
    BestIsFirstMaximum(s);
    if Best(s) != -1 then Slide(ArgBest(s)) else NoAction
  }

  // ---------------------------------------------------------------------
  // Lookahead scores
  // ---------------------------------------------------------------------

  /** The best total a `depth`-move lookahead finds from `b` (the inner
      `bestReward2`, `bestReward3`): -1 when nothing beats the sentinel,
      0 at depth 0. */
  function Lookahead<B>(slide: Mover<B>, b: B, depth: nat): (r: int)
    ensures r >= -1
    decreases depth, 2
  {
    if depth == 0 then 0 else Best(Scores(slide, b, depth))
  }

  /** The total the outer loop of a `depth`-step greedy slider compares for
      `op`: its reward plus the best `depth - 1`-move lookahead from the
      board it leaves, illegal or not. */
  function Score<B>(slide: Mover<B>, b: B, op: int, depth: nat): (r: int)
    requires depth >= 1
    ensures r >= Reward(slide, b, op) - 1
    decreases depth, 0
  {
    Reward(slide, b, op) + Lookahead(slide, After(slide, b, op), depth - 1)
  }

  function Scores<B>(slide: Mover<B>, b: B, depth: nat): (s: seq<int>)
    requires depth >= 1
    ensures |s| == OpCount
    ensures forall op :: 0 <= op < OpCount ==> s[op] == Score(slide, b, op, depth)
    decreases depth, 1
  {
    [Score(slide, b, 0, depth), Score(slide, b, 1, depth), Score(slide, b, 2, depth), Score(slide, b, 3, depth)]
  }

  /** A lookahead of depth >= 1 is the maximum of -1 and the four scores:
      every move's reward plus the best continuation is at most it, and it
      is attained by some move unless it is the sentinel -1. */
  lemma LookaheadIsBest<B>(slide: Mover<B>, b: B, depth: nat)
    requires depth >= 1
    ensures forall op :: 0 <= op < OpCount ==>
      Reward(slide, b, op) + Lookahead(slide, After(slide, b, op), depth - 1) <= Lookahead(slide, b, depth)
    ensures Lookahead(slide, b, depth) == -1 ||
      exists op :: 0 <= op < OpCount &&
        Lookahead(slide, b, depth) == Reward(slide, b, op) + Lookahead(slide, After(slide, b, op), depth - 1)
  {
    var s := Scores(slide, b, depth);
    BestIsFirstMaximum(s);
    forall op | 0 <= op < OpCount
      ensures Reward(slide, b, op) + Lookahead(slide, After(slide, b, op), depth - 1) <= Lookahead(slide, b, depth)
    {
      assert s[op] == Score(slide, b, op, depth);
    }
    if Lookahead(slide, b, depth) != -1 {
      var op := ArgBest(s);
      assert s[op] == Score(slide, b, op, depth);
    }
  }

  function Max(x: int, y: int): int {
    if y > x then y else x
  }

  lemma BestOfFour(s: seq<int>)
    requires |s| == 4
    ensures Best(s) == Max(Max(Max(Max(-1, s[0]), s[1]), s[2]), s[3])
  {
    var s1, s2, s3 := s[..1], s[..2], s[..3];
    assert s1[..0] == [] && s2[..1] == s1 && s3[..2] == s2 && s[..3] == s3;
    assert Best(s1) == Max(-1, s[0]);
    assert Best(s2) == Max(Best(s1), s[1]);
    assert Best(s3) == Max(Best(s2), s[2]);
  }

  /** One level of lookahead, written out over the four moves. */
  lemma LookaheadUnfold<B>(slide: Mover<B>, b: B, depth: nat)
    requires depth >= 1
    ensures Lookahead(slide, b, depth) ==
      Max(Max(Max(Max(-1, Score(slide, b, 0, depth)), Score(slide, b, 1, depth)),
        Score(slide, b, 2, depth)), Score(slide, b, 3, depth))
  {
    BestOfFour(Scores(slide, b, depth));
  }

  /** With one move of lookahead the scores are the plain rewards. */
  lemma OneStepScores<B>(slide: Mover<B>, b: B)
    ensures forall op :: 0 <= op < OpCount ==> Scores(slide, b, 1)[op] == Reward(slide, b, op)
  {
  }

  // ---------------------------------------------------------------------
  // random_slider
  // ---------------------------------------------------------------------

  /** The scan over a given order: the first move whose reward is not the
      illegal sentinel, or no action when every move is illegal. */
  method FirstLegal<B>(before: B, slide: Mover<B>, order: seq<int>) returns (a: Action)
    ensures a.NoAction? <==> forall i :: 0 <= i < |order| ==> Reward(slide, before, order[i]) == Illegal
    ensures a.Slide? ==> Reward(slide, before, a.op) != Illegal
    ensures a.Slide? ==>
      exists k :: 0 <= k < |order| && order[k] == a.op && forall j :: 0 <= j < k ==> Reward(slide, before, order[j]) == Illegal
    ensures !a.Place?
  {
    for i := 0 to |order|
      invariant forall j :: 0 <= j < i ==> Reward(slide, before, order[j]) == Illegal
    {
      var op := order[i];
      var moved := slide(before, op);
      if moved.1 != Illegal {
        return Slide(op);
      }
    }
    return NoAction;
  }

  predicate IsOpOrder(order: seq<int>) {
    multiset(order) == multiset{0, 1, 2, 3}
  }

  /** The random slider: its move order is shuffled in place before each
      scan, and the shuffle's outcome is an input of the model. */
  class RandomSlider {
    var opcode: seq<int>

    ghost predicate Valid()
      reads this
    {
      IsOpOrder(opcode)
    }

    constructor ()
      ensures Valid() && opcode == [0, 1, 2, 3]
    {
      opcode := [0, 1, 2, 3];
    }

    method TakeAction<B>(before: B, slide: Mover<B>, shuffled: seq<int>) returns (a: Action)
      requires Valid()
      requires multiset(shuffled) == multiset(opcode)
      modifies this
      ensures Valid() && opcode == shuffled
      ensures a.NoAction? <==> forall i :: 0 <= i < |opcode| ==> Reward(slide, before, opcode[i]) == Illegal
      ensures a.Slide? ==> a.op in opcode && Reward(slide, before, a.op) != Illegal
      ensures a.Slide? ==>
        exists k :: 0 <= k < |opcode| && opcode[k] == a.op && forall j :: 0 <= j < k ==> Reward(slide, before, opcode[j]) == Illegal
      ensures !a.Place?
    {
      opcode := shuffled;
      a := FirstLegal(before, slide, opcode);
    }
  }

  // ---------------------------------------------------------------------
  // greedy1step_slider, greedy2step_slider, greedy3step_slider
  // ---------------------------------------------------------------------

  /** One move: the legal move of greatest reward, the first among equals;
      no action exactly when every reward is -1 or less. */
  method Greedy1Step<B>(before: B, slide: Mover<B>) returns (a: Action)
    ensures Chooses(a, Scores(slide, before, 1))
  {
    ghost var s := Scores(slide, before, 1);
    var bestOp, bestReward := -1, -1;
    for op := 0 to OpCount
      invariant bestReward == Best(s[..op]) && bestOp == ArgBest(s[..op])
    {
      var reward := slide(before, op).1;
      ScanStep(s, op);
      if reward > bestReward {
        bestReward := reward;
        bestOp := op;
      }
    }
    assert s[..OpCount] == s;
    if bestReward != -1 {
      a := Slide(bestOp);
    } else {
      a := NoAction;
    }
    assert a == Choice(s);
  }

  /** The innermost loop of the two- and three-step sliders: the best reward
      among the four moves from `b`. */
  method BestReward<B>(b: B, slide: Mover<B>) returns (best: int)
    ensures best == Lookahead(slide, b, 1)
    ensures best >= -1 && forall op :: 0 <= op < OpCount ==> Reward(slide, b, op) <= best
  {
    ghost var s := Scores(slide, b, 1);
    best := -1;
    for op := 0 to OpCount
      invariant best == Best(s[..op])
    {
      var reward := slide(b, op).1;
      ScanStep(s, op);
      if reward > best {
        best := reward;
      }
    }
    assert s[..OpCount] == s;
    LookaheadIsBest(slide, b, 1);
  }

  /** Two moves: the first move maximising its reward plus the best reward
      after it, the first among equals; no action exactly when no total
      exceeds -1. */
  method Greedy2Step<B>(before: B, slide: Mover<B>) returns (a: Action)
    ensures Chooses(a, Scores(slide, before, 2))
  {
    ghost var s := Scores(slide, before, 2);
    var bestOp, bestReward := -1, -1;
    for op := 0 to OpCount
      invariant bestReward == Best(s[..op]) && bestOp == ArgBest(s[..op])
    {
      var first := slide(before, op);
      var bestReward2 := BestReward(first.0, slide);
      assert first.1 + bestReward2 == s[op];
      ScanStep(s, op);
      if first.1 + bestReward2 > bestReward {
        bestReward := first.1 + bestReward2;
        bestOp := op;
      }
    }
    assert s[..OpCount] == s;
    if bestReward != -1 {
      a := Slide(bestOp);
    } else {
      a := NoAction;
    }
    assert a == Choice(s);
  }

  /** The middle loop of the three-step slider: the best total of a move
      from `b` and the best reward after it. */
  method BestTwoStep<B>(b: B, slide: Mover<B>) returns (best: int)
    ensures best == Lookahead(slide, b, TwoMoves)
  {
    ghost var s := Scores(slide, b, TwoMoves);
    best := -1;
    for op := 0 to OpCount
      invariant best == Best(s[..op])
    {
      var second := slide(b, op);
      var bestReward3 := BestReward(second.0, slide);
      assert second.1 + bestReward3 == s[op];
      ScanStep(s, op);
      if second.1 + bestReward3 > best {
        best := second.1 + bestReward3;
      }
    }
    assert s[..OpCount] == s;
  }

  /** Three moves: as `Greedy2Step`, with the follow-up value itself a
      two-move lookahead. */
  method Greedy3Step<B>(before: B, slide: Mover<B>) returns (a: Action)
    ensures Chooses(a, Scores(slide, before, ThreeMoves))
  {
    ghost var s := Scores(slide, before, ThreeMoves);
    var bestOp, bestReward := -1, -1;
    for op := 0 to OpCount
      invariant bestReward == Best(s[..op]) && bestOp == ArgBest(s[..op])
    {
      var first := slide(before, op);
      var bestReward2 := BestTwoStep(first.0, slide);
      assert first.1 + bestReward2 == s[op];
      ScanStep(s, op);
      if first.1 + bestReward2 > bestReward {
        bestReward := first.1 + bestReward2;
        bestOp := op;
      }
    }
    assert s[..OpCount] == s;
    if bestReward != -1 {
      a := Slide(bestOp);
    } else {
      a := NoAction;
    }
    assert a == Choice(s);
  }

  // ---------------------------------------------------------------------
  // The two- and three-step sliders score illegal first moves too
  // ---------------------------------------------------------------------

  /** A board on which every move is illegal and leaves it as it is has
      nothing to look ahead to: -1 at every depth from 1 on. */
  lemma {:induction false} DeadBoard<B>(slide: Mover<B>, b: B, depth: nat)
    requires depth >= 1
    requires forall op :: 0 <= op < OpCount ==> Reward(slide, b, op) == Illegal && After(slide, b, op) == b
    ensures Lookahead(slide, b, depth) == -1
    decreases depth
  {
    if depth > 1 {
      DeadBoard(slide, b, depth - 1);
    }
    var rest := Lookahead(slide, b, depth - 1);
    assert rest <= 0;
    var s := Scores(slide, b, depth);
    assert s[0] == Illegal + rest && s[1] == Illegal + rest;
    assert s[2] == Illegal + rest && s[3] == Illegal + rest;
    LookaheadUnfold(slide, b, depth);
  }

  /** On a board where only move 1 can be legal, the lookahead is the
      better of move 1's total and an illegal move's -1 plus the lookahead
      of the unchanged board. */
  lemma OnlyMoveOne<B>(slide: Mover<B>, b: B, depth: nat)
    requires depth >= 1
    requires forall op :: 0 <= op < OpCount && op != 1 ==> Reward(slide, b, op) == Illegal && After(slide, b, op) == b
    ensures Lookahead(slide, b, depth) ==
      Max(Max(-1, Illegal + Lookahead(slide, b, depth - 1)), Score(slide, b, 1, depth))
  {
    var s := Scores(slide, b, depth);
    assert s[0] == Illegal + Lookahead(slide, b, depth - 1);
    assert s[2] == s[0] && s[3] == s[0];
    LookaheadUnfold(slide, b, depth);
  }

  /** A board numbered 0..n on which only move 1 is legal, walking from
      board `b` to `b + 1` for a reward of 5 until board `n`, where nothing
      is legal any more; every illegal move leaves the board as it is. */
  function Chain(n: int): Mover<int> {
    (b: int, op: int) => if op == 1 && 0 <= b < n then (b + 1, 5) else (b, Illegal)
  }

  lemma ChainMoves(n: int, b: int, op: int)
    ensures Reward(Chain(n), b, op) == if op == 1 && 0 <= b < n then 5 else Illegal
    ensures After(Chain(n), b, op) == if op == 1 && 0 <= b < n then b + 1 else b
  {
  }

  /** Before board `n`, a `Chain(n)` board looks ahead through move 1. */
  lemma ChainLive(n: int, b: int, depth: nat)
    requires 0 <= b < n && depth >= 1
    ensures Lookahead(Chain(n), b, depth) ==
      Max(Max(-1, Illegal + Lookahead(Chain(n), b, depth - 1)), 5 + Lookahead(Chain(n), b + 1, depth - 1))
  {
    forall op | 0 <= op < OpCount
      ensures op != 1 ==> Reward(Chain(n), b, op) == Illegal && After(Chain(n), b, op) == b
    {
      ChainMoves(n, b, op);
    }
    ChainMoves(n, b, 1);
    OnlyMoveOne(Chain(n), b, depth);
  }

  /** Board `n` of `Chain(n)` is dead. */
  lemma ChainDead(n: int, depth: nat)
    requires depth >= 1
    ensures Lookahead(Chain(n), n, depth) == -1
  {
    forall op | 0 <= op < OpCount
      ensures Reward(Chain(n), n, op) == Illegal && After(Chain(n), n, op) == n
    {
      ChainMoves(n, n, op);
    }
    DeadBoard(Chain(n), n, depth);
  }

  /** On `Chain(n)` for n = 1 or 2, from board 0, move 1 walks to the dead
      board n: an n-move lookahead collects 5 per move, and from board 1 it
      finds -1 (n = 1, dead) or 5 followed by a dead board (n = 2). */
  lemma ChainValues(n: int)
    requires n == 1 || n == 2
    ensures Lookahead(Chain(n), 0, n) == 5 * n
    ensures Lookahead(Chain(n), 1, n) == if n == 1 then -1 else 4
  {
    ChainDead(n, 1);
    assert Lookahead(Chain(n), n, 1) == -1;
    ChainLive(n, 0, 1);
    if n == 1 {
      assert Lookahead(Chain(n), 0, 1) == 5;
    } else {
      ChainLive(n, 1, 1);
      assert Lookahead(Chain(n), 1, 1) == 5;
      assert Lookahead(Chain(n), 0, 1) == 5;
      ChainLive(n, 1, 2);
      assert Lookahead(Chain(n), 1, 2) == 4;
      ChainLive(n, 0, 2);
    }
  }

  /** An illegal first move still collects the lookahead of the unchanged
      board: on `Chain(depth - 1)` move 0 is illegal, ties with move 1 at
      depth 2 and 3, and wins as the first of the tie. */
  lemma IllegalFirstMoveChosen(depth: nat)
    requires depth == 2 || depth == 3
    ensures Reward(Chain(depth - 1), 0, 0) == Illegal
    ensures Chooses(Slide(0), Scores(Chain(depth - 1), 0, depth))
  {
    var n := depth - 1;
    forall op | 0 <= op < OpCount
      ensures Reward(Chain(n), 0, op) == (if op == 1 then 5 else Illegal)
      ensures After(Chain(n), 0, op) == (if op == 1 then 1 else 0)
    {
      ChainMoves(n, 0, op);
    }
    ChainValues(n);
    var s := Scores(Chain(n), 0, depth);
    assert s[0] == s[1] == s[2] == s[3] > -1;
  }

  /** A board where move 1 is legal with reward 0 and leads to a board with
      no legal move; every other move is illegal. */
  function ZeroThenStuck(): Mover<int> {
    (b: int, op: int) => if op == 1 && b == 0 then (1, 0) else (b, Illegal)
  }

  lemma StuckMoves(b: int, op: int)
    ensures Reward(ZeroThenStuck(), b, op) == if op == 1 && b == 0 then 0 else Illegal
    ensures After(ZeroThenStuck(), b, op) == if op == 1 && b == 0 then 1 else b
  {
  }

  /** On any board where only move 1 is legal, with reward 0, and leads to a
      dead board, every total of the two- and three-step sliders is at most
      -1: move 1 totals 0 plus the dead board's -1. */
  lemma DeadFollowUp<B>(slide: Mover<B>, b: B, dead: B, depth: nat)
    requires depth == 2 || depth == 3
    requires forall op :: 0 <= op < OpCount && op != 1 ==> Reward(slide, b, op) == Illegal && After(slide, b, op) == b
    requires Reward(slide, b, 1) == 0 && After(slide, b, 1) == dead
    requires forall op :: 0 <= op < OpCount ==> Reward(slide, dead, op) == Illegal && After(slide, dead, op) == dead
    ensures Chooses(NoAction, Scores(slide, b, depth))
  {
    DeadBoard(slide, dead, depth - 1);
    OnlyMoveOne(slide, b, 1);
    assert Lookahead(slide, b, 1) == 0;
    if depth == 3 {
      DeadBoard(slide, dead, 1);
      OnlyMoveOne(slide, b, 2);
    }
    assert Lookahead(slide, b, depth - 1) <= 0;
    var s := Scores(slide, b, depth);
    assert s[1] == -1;
    assert s[0] <= -1 && s[2] <= -1 && s[3] <= -1;
  }

  /** A legal first move whose follow-ups are all illegal totals -1, which
      never beats the sentinel: the slider gives up although move 1 is legal. */
  lemma LegalMoveDropped(depth: nat)
    requires depth == 2 || depth == 3
    ensures Reward(ZeroThenStuck(), 0, 1) != Illegal
    ensures Chooses(NoAction, Scores(ZeroThenStuck(), 0, depth))
  {
    forall op | 0 <= op < OpCount
      ensures op != 1 ==> Reward(ZeroThenStuck(), 0, op) == Illegal && After(ZeroThenStuck(), 0, op) == 0
      ensures Reward(ZeroThenStuck(), 1, op) == Illegal && After(ZeroThenStuck(), 1, op) == 1
    {
      StuckMoves(0, op);
      StuckMoves(1, op);
    }
    StuckMoves(0, 1);
    DeadFollowUp(ZeroThenStuck(), 0, 1, depth);
  }

  function LegalMoves<B>(slide: Mover<B>, b: B): (legal: seq<bool>)
    ensures |legal| == OpCount
    ensures forall op :: 0 <= op < OpCount ==> legal[op] == (Reward(slide, b, op) != Illegal)
  {
    seq(OpCount, op requires 0 <= op < OpCount => Reward(slide, b, op) != Illegal)
  }

  /** `a` is an argmax of `s` over the legal moves only: no action exactly
      when no move is legal, otherwise a legal move whose score no legal
      move exceeds, the first one among equals. */
  predicate ChoosesLegal(a: Action, legal: seq<bool>, s: seq<int>)
    requires |legal| == |s|
  {
    match a
    case NoAction => forall i :: 0 <= i < |s| ==> !legal[i]
    case Slide(op) =>
      0 <= op < |s| && legal[op] &&
      (forall i :: 0 <= i < |s| && legal[i] ==> s[i] <= s[op]) &&
      (forall i :: 0 <= i < op && legal[i] ==> s[i] < s[op])
    case Place(_, _, _) => false
  }

  /** The greedy slider with illegal first moves skipped: it never returns
      an illegal move and gives up only when no move is legal. */
  method GreedyLegal<B>(before: B, slide: Mover<B>, depth: nat) returns (a: Action)
    requires depth >= 1
    ensures ChoosesLegal(a, LegalMoves(slide, before), Scores(slide, before, depth))
  {
    ghost var legal := LegalMoves(slide, before);
    ghost var s := Scores(slide, before, depth);
    var found, bestOp, best := false, -1, 0;
    for op := 0 to OpCount
      invariant found <==> exists i :: 0 <= i < op && legal[i]
      invariant found ==> 0 <= bestOp < op && legal[bestOp] && best == s[bestOp]
      invariant found ==> forall i :: 0 <= i < op && legal[i] ==> s[i] <= best
      invariant found ==> forall i :: 0 <= i < bestOp && legal[i] ==> s[i] < best
    {
      var first := slide(before, op);
      if first.1 != Illegal {
        var total := Score(slide, before, op, depth);
        if !found || total > best {
          found, bestOp, best := true, op, total;
        }
      }
    }
    if found {
      a := Slide(bestOp);
    } else {
      a := NoAction;
    }
  }
}
