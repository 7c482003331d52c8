/** The environment ("placer"): after each player move it puts the hint tile
    on an empty cell of the edge the move exposed, and draws the next hint
    from the bag of remaining tiles 1..3. */
module Placer {
  import opened Actions
  import Features

  /** What the placer reads from the board after the player's move
      (board.h is not part of this model):
      `cells[pos]` is `after(pos)`, `last` is `after.last()` (the direction
      of the last slide, or 4), `bag[t - 1]` is `after.bag(t)` and `hint`
      is `after.hint()`, 0 when there is none. */
  datatype BoardView = BoardView(cells: seq<int>, last: int, bag: seq<nat>, hint: int)

  predicate WellFormed(v: BoardView) {
    |v.cells| == 16 && 0 <= v.last < 5 && |v.bag| == 3
  }

  predicate IsEmpty(v: BoardView, pos: int) {
    0 <= pos < |v.cells| && v.cells[pos] == 0
  }

  /** The candidate cells for each value of `last`: the edge opposite the
      last slide, or the whole board before the first one. */
  function Spaces(last: int): (s: seq<int>)
    requires 0 <= last < 5
    ensures forall i :: 0 <= i < |s| ==> 0 <= s[i] < 16
  {
    if last == 0 then [12, 13, 14, 15]
    else if last == 1 then [0, 4, 8, 12]
    else if last == 2 then [0, 1, 2, 3]
    else if last == 3 then [3, 7, 11, 15]
    else [0, 1, 2, 3, 4, 5, 6, 7, 8, 9, 10, 11, 12, 13, 14, 15]
  }

  /** After a slide, the candidates are a row or a column of the feature
      table: the bottom row, the left column, the top row, the right column. */
  lemma SpacesAreEdges()
    ensures Spaces(0) == Features.Feature[3]
    ensures Spaces(1) == Features.Feature[4]
    ensures Spaces(2) == Features.Feature[0]
    ensures Spaces(3) == Features.Feature[7]
    ensures forall c :: 0 <= c < 16 ==> c in Spaces(4)
  {
  }

  function Repeat(t: int, k: nat): (r: seq<int>)
    ensures |r| == k && forall i :: 0 <= i < k ==> r[i] == t
  {
    seq(k, _ => t)
  }

  /** One more tile of kind `t` behind the tiles filled so far. */
  lemma FillStep(filled: seq<int>, t: int, k: nat)
    ensures filled + Repeat(t, k) + [t] == filled + Repeat(t, k + 1)
  {
    assert Repeat(t, k + 1) == Repeat(t, k) + [t];
  }

  /** The bag as the placer fills it: `bag[0]` ones, then `bag[1]` twos,
      then `bag[2]` threes (the kinds 1..t only). */
  function Tiles(bag: seq<nat>, t: nat): (r: seq<int>)
    requires t <= |bag|
    ensures |r| == Count(bag, t)
    ensures forall i :: 0 <= i < |r| ==> 1 <= r[i] <= t
  {
    if t == 0 then [] else Tiles(bag, t - 1) + Repeat(t, bag[t - 1])
  }

  /** Number of tiles of the kinds 1..t. */
  function Count(bag: seq<nat>, t: nat): nat
    requires t <= |bag|
  {
    if t == 0 then 0 else Count(bag, t - 1) + bag[t - 1]
  }

  lemma {:induction false} CountGrows(bag: seq<nat>, t: nat, u: nat)
    requires t <= u <= |bag|
    ensures Count(bag, t) <= Count(bag, u)
    decreases u - t
  {
    if t < u { CountGrows(bag, t, u - 1); }
  }

  /** Number of tiles left in the bag. */
  function Total(bag: seq<nat>): (n: nat)
    requires |bag| == 3
    ensures n == bag[0] + bag[1] + bag[2]
  {
    assert Count(bag, 1) == bag[0];
    assert Count(bag, 2) == bag[0] + bag[1];
    assert Count(bag, 3) == Count(bag, 2) + bag[2];
    Count(bag, 3)
  }

  /** `int bag[3]` filled by the placer's nested loops. */
  method FillBag(counts: seq<nat>) returns (bag: array<int>, num: nat)
    requires |counts| == 3 && Total(counts) <= 3
    ensures fresh(bag) && bag.Length == 3
    ensures num == Total(counts) && bag[..num] == Tiles(counts, 3)
  {
    bag := new int[3];
    num := 0;
    for t := 1 to 4
      invariant num == Count(counts, t - 1) <= 3
      invariant bag[..num] == Tiles(counts, t - 1)
    {
      CountGrows(counts, t, 3);
      for i := 0 to counts[t - 1]
        invariant num == Count(counts, t - 1) + i <= 3
        invariant bag[..num] == Tiles(counts, t - 1) + Repeat(t, i)
      {
        ghost var filled := bag[..num];
        bag[num] := t;
        assert bag[..num + 1] == filled + [t];
        num := num + 1;
        FillStep(Tiles(counts, t - 1), t, i);
      }
    }
  }

  /** A permutation of the indices 0..n-1: the outcome of `std::shuffle`. */
  predicate IsPermutation(perm: seq<nat>, n: nat) {
    |perm| == n &&
    (forall i :: 0 <= i < n ==> perm[i] < n) &&
    (forall i, j :: 0 <= i < j < n ==> perm[i] != perm[j])
  }

  function Shuffled(tiles: seq<int>, perm: seq<nat>): (d: seq<int>)
    requires IsPermutation(perm, |tiles|)
    ensures |d| == |tiles|
  {
    seq(|tiles|, i requires 0 <= i < |tiles| => tiles[perm[i]])
  }

  /** Tiles the placer draws: the new hint only, or the tile as well when
      the board has no hint. */
  function Need(hint: int): nat {
    if hint != 0 then 1 else 2
  }

  /** Two draws from different positions take two tiles out of the bag. */
  lemma TwoDraws(s: seq<int>, p: nat, q: nat)
    requires p < |s| && q < |s| && p != q
    ensures multiset{s[p], s[q]} <= multiset(s)
  {
    var rest := s[..p] + s[p + 1..];
    assert s == s[..p] + [s[p]] + s[p + 1..];
    assert multiset(s) == multiset(rest) + multiset{s[p]};
    assert s[q] == if q < p then rest[q] else rest[q - 1];
    assert s[q] in multiset(rest);
  }

  /** The indices of `perm` with the gap at `p` closed: an index into the
      sequence left once position `p` is taken out. */
  function CloseGap(perm: seq<nat>, p: nat): (q: seq<nat>)
    ensures |q| == |perm|
  {
    seq(|perm|, i requires 0 <= i < |perm| => if perm[i] <= p then perm[i] else perm[i] - 1)
  }

  /** Taking the last index `p` out of a permutation of 0..n-1 and closing
      the gap leaves a permutation of 0..n-2. */
  lemma CloseGapPermutation(perm: seq<nat>, n: nat)
    requires n > 0 && IsPermutation(perm, n)
    ensures IsPermutation(CloseGap(perm[..n - 1], perm[n - 1]), n - 1)
  {
    var p := perm[n - 1];
    var q := CloseGap(perm[..n - 1], p);
    forall i | 0 <= i < n - 1
      ensures q[i] < n - 1
    {
      assert perm[i] != p;
    }
    forall i, j | 0 <= i < j < n - 1
      ensures q[i] != q[j]
    {
      assert perm[i] != perm[j] && perm[i] != p && perm[j] != p;
    }
  }

  /** Shuffling what is left once the last draw's position is taken out
      gives the shuffle without its last element. */
  lemma ShuffledDropLast(tiles: seq<int>, perm: seq<nat>)
    requires |tiles| > 0 && IsPermutation(perm, |tiles|)
    ensures IsPermutation(CloseGap(perm[..|tiles| - 1], perm[|tiles| - 1]), |tiles| - 1)
    ensures var p := perm[|tiles| - 1];
      Shuffled(tiles[..p] + tiles[p + 1..], CloseGap(perm[..|tiles| - 1], p)) == Shuffled(tiles, perm)[..|tiles| - 1]
  {
    var n := |tiles|;
    var p := perm[n - 1];
    var rest := tiles[..p] + tiles[p + 1..];
    var q := CloseGap(perm[..n - 1], p);
    CloseGapPermutation(perm, n);
    forall i | 0 <= i < n - 1
      ensures rest[q[i]] == tiles[perm[i]]
    {
      assert perm[i] != p;
    }
  }

  /** Shuffling by a permutation of the indices keeps every tile and adds
      none: the result is a permutation of the input. */
  lemma {:induction false} ShuffledPermutes(tiles: seq<int>, perm: seq<nat>)
    requires IsPermutation(perm, |tiles|)
    ensures multiset(Shuffled(tiles, perm)) == multiset(tiles)
    decreases |tiles|
  {
    var n := |tiles|;
    if n > 0 {
      var p := perm[n - 1];
      var rest := tiles[..p] + tiles[p + 1..];
      ShuffledDropLast(tiles, perm);
      ShuffledPermutes(rest, CloseGap(perm[..n - 1], p));
      var d := Shuffled(tiles, perm);
      assert d == d[..n - 1] + [tiles[p]];
      assert tiles == tiles[..p] + [tiles[p]] + tiles[p + 1..];
    }
  }

  /** A shuffled copy holds only elements of the original. */
  lemma ShuffledFrom(tiles: seq<int>, perm: seq<nat>)
    requires IsPermutation(perm, |tiles|)
    ensures forall k :: 0 <= k < |tiles| ==> Shuffled(tiles, perm)[k] in tiles
  {
    forall k | 0 <= k < |tiles| ensures Shuffled(tiles, perm)[k] in tiles {
      assert Shuffled(tiles, perm)[k] == tiles[perm[k]];
    }
  }

  /** The candidate cells in the order `std::shuffle` left them. */
  function Order(after: BoardView, spacePerm: seq<nat>): (order: seq<int>)
    requires WellFormed(after)
    requires IsPermutation(spacePerm, |Spaces(after.last)|)
    ensures |order| == |Spaces(after.last)|
    ensures multiset(order) == multiset(Spaces(after.last))
  {
    ShuffledPermutes(Spaces(after.last), spacePerm);
    Shuffled(Spaces(after.last), spacePerm)
  }

  /** The tile and the next hint taken from the end of the shuffled bag:
      the tile is the board's hint when it has one. Both are tile kinds
      1..3. */
  function Drawn(counts: seq<nat>, perm: seq<nat>, hint: int): (r: (int, int))
    requires |counts| == 3
    requires Need(hint) <= Total(counts)
    requires IsPermutation(perm, Total(counts))
    ensures 1 <= r.1 <= 3
    ensures hint != 0 ==> r.0 == hint
    ensures hint == 0 ==> 1 <= r.0 <= 3
  {
    var d := Shuffled(Tiles(counts, 3), perm);
    (if hint != 0 then hint else d[|d| - 1], d[|d| - Need(hint)])
  }

  /** The next hint is a tile of the bag; without a hint on the board the
      tile placed is one too, drawn from a different position of the bag. */
  lemma DrawnFromBag(counts: seq<nat>, perm: seq<nat>, hint: int)
    requires |counts| == 3
    requires Need(hint) <= Total(counts)
    requires IsPermutation(perm, Total(counts))
    ensures Drawn(counts, perm, hint).1 in Tiles(counts, 3)
    ensures hint == 0 ==>
      multiset{Drawn(counts, perm, hint).0, Drawn(counts, perm, hint).1} <= multiset(Tiles(counts, 3))
  {
    var tiles := Tiles(counts, 3);
    var n := |tiles|;
    assert tiles[perm[n - Need(hint)]] == Drawn(counts, perm, hint).1;
    if hint == 0 {
      assert tiles[perm[n - 1]] == Drawn(counts, perm, hint).0;
      TwoDraws(tiles, perm[n - 1], perm[n - 2]);
    }
  }

  /** The draws after the bag is filled: the bag is shuffled in place,
      then the tile (unless the board has a hint) and the next hint are
      taken from its end. */
  method Draw(counts: seq<nat>, perm: seq<nat>, hint: int) returns (tile: int, next: int)
    requires |counts| == 3
    requires Need(hint) <= Total(counts) <= 3
    requires IsPermutation(perm, Total(counts))
    ensures (tile, next) == Drawn(counts, perm, hint)
  {
    var bag, num := FillBag(counts);
    var tiles := bag[..num];
    forall i | 0 <= i < num {
      bag[i] := tiles[perm[i]];
    }
    ghost var d := Shuffled(tiles, perm);
    assert bag[..num] == d;
    tile := hint;
    if tile == 0 {
      num := num - 1;
      tile := bag[num];
    }
    num := num - 1;
    next := bag[num];
  }

  /** The scan over the shuffled candidates: the index of the first empty
      one, or -1 when every candidate is occupied. */
  method FirstEmpty(after: BoardView, order: seq<int>) returns (k: int)
    ensures -1 <= k < |order|
    ensures k == -1 <==> forall j :: 0 <= j < |order| ==> !IsEmpty(after, order[j])
    ensures k >= 0 ==> IsEmpty(after, order[k]) && forall j :: 0 <= j < k ==> !IsEmpty(after, order[j])
  {
    for i := 0 to |order|
      invariant forall j :: 0 <= j < i ==> !IsEmpty(after, order[j])
    {
      if IsEmpty(after, order[i]) {
        return i;
      }
    }
    return -1;
  }

  /** `random_placer::take_action`: the candidates of `after.last()` are
      shuffled by `spacePerm`; the first empty one receives the hint tile
      (or a drawn one), and the next hint is drawn from the bag shuffled by
      `bagPerm`. The array `bag[3]` overflows with more than three tiles and
      `bag[--num]` underflows with too few; the requires exclude exactly
      those cases, when a cell is found. */
  method TakeAction(after: BoardView, spacePerm: seq<nat>, bagPerm: seq<nat>) returns (a: Action)
    requires WellFormed(after)
    requires IsPermutation(spacePerm, |Spaces(after.last)|)
    requires IsPermutation(bagPerm, Total(after.bag))
    requires (exists k :: 0 <= k < |spacePerm| && IsEmpty(after, Order(after, spacePerm)[k])) ==>
      Need(after.hint) <= Total(after.bag) <= 3
    ensures a.NoAction? <==> forall k :: 0 <= k < |spacePerm| ==> !IsEmpty(after, Order(after, spacePerm)[k])
    ensures a.Place? ==> a.pos in Spaces(after.last) && IsEmpty(after, a.pos)
    ensures a.Place? ==>
      exists k :: 0 <= k < |spacePerm| && Order(after, spacePerm)[k] == a.pos &&
        forall j :: 0 <= j < k ==> !IsEmpty(after, Order(after, spacePerm)[j])
    ensures a.Place? ==> Need(after.hint) <= Total(after.bag) && (a.tile, a.hint) == Drawn(after.bag, bagPerm, after.hint)
    ensures !a.Slide?
  {
    var order := Shuffled(Spaces(after.last), spacePerm);
    var k := FirstEmpty(after, order);
    if k < 0 {
      return NoAction;
    }
    assert order == Order(after, spacePerm) && IsEmpty(after, order[k]);
    ShuffledFrom(Spaces(after.last), spacePerm);
    var tile, hint := Draw(after.bag, bagPerm, after.hint);
    a := Place(order[k], tile, hint);
  }
}
