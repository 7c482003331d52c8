/** The weight-carrying agent: its network of weight tables and the
    `init=` option that sizes them. */
module Weights {
  import opened Props
  import Features

  /** The largest `size_t` value. */
  const SizeMax: int := SizeModulus - 1

  /** Entries per table the TD-learning slider allocates (`pow(2, 15)`). */
  const TilesNum: nat := 32768

  /** One weight table, seen through its length; its entries are
      floating-point weights and are not part of this model. */
  datatype Weight = Weight(size: nat)

  predicate IsDigit(c: char) {
    '0' <= c <= '9'
  }

  /** `info` with every non-digit turned into a space: each digit stays in
      its place, and nothing but digits and spaces is left. */
  function Blanked(s: string): (r: string)
    ensures |r| == |s|
    ensures forall i :: 0 <= i < |s| && IsDigit(s[i]) ==> r[i] == s[i]
    ensures forall i :: 0 <= i < |r| ==> IsDigit(r[i]) || r[i] == ' '
  {
    seq(|s|, i requires 0 <= i < |s| => if IsDigit(s[i]) then s[i] else ' ')
  }

  /** Length of the leading run of digits. */
  function DigitLen(s: string): (n: nat)
    ensures n <= |s|
    ensures forall i :: 0 <= i < n ==> IsDigit(s[i])
    ensures n < |s| ==> !IsDigit(s[n])
  {
    if s == [] || !IsDigit(s[0]) then 0 else 1 + DigitLen(s[1..])
  }

  /** The maximal runs of digits of `s`, left to right; each is a
      non-empty string of digits. */
  function DigitRuns(s: string): (runs: seq<string>)
    ensures forall r :: r in runs ==> r != [] && forall i :: 0 <= i < |r| ==> IsDigit(r[i])
    decreases |s|
  {
    if s == [] then []
    else if !IsDigit(s[0]) then DigitRuns(s[1..])
    else var n := DigitLen(s); [s[..n]] + DigitRuns(s[n..])
  }

  /** The digits of `s` in order, everything else dropped. */
  function Digits(s: string): string {
    if s == [] then [] else (if IsDigit(s[0]) then [s[0]] else []) + Digits(s[1..])
  }

  function Concat(runs: seq<string>): string {
    if runs == [] then [] else runs[0] + Concat(runs[1..])
  }

  lemma {:induction false} DigitsOfRun(s: string, n: nat)
    requires n <= |s|
    requires forall i :: 0 <= i < n ==> IsDigit(s[i])
    ensures Digits(s) == s[..n] + Digits(s[n..])
    decreases n
  {
    if n > 0 {
      DigitsOfRun(s[1..], n - 1);
      assert s[1..][n - 1..] == s[n..];
      assert s[..n] == [s[0]] + s[1..][..n - 1];
    }
  }

  /** Together the runs hold every digit of `s`, in order. */
  lemma {:induction false} DigitRunsCover(s: string)
    ensures Concat(DigitRuns(s)) == Digits(s)
    decreases |s|
  {
    if s == [] {
    } else if !IsDigit(s[0]) {
      DigitRunsCover(s[1..]);
    } else {
      var n := DigitLen(s);
      DigitRunsCover(s[n..]);
      DigitsOfRun(s, n);
      assert DigitRuns(s)[1..] == DigitRuns(s[n..]);
    }
  }

  lemma {:induction false} WordLenOfBlanked(s: string)
    ensures WordLen(Blanked(s)) == DigitLen(s)
    decreases |s|
  {
    if s != [] && IsDigit(s[0]) {
      assert Blanked(s)[1..] == Blanked(s[1..]);
      WordLenOfBlanked(s[1..]);
    }
  }

  /** The tokens of the blanked string are exactly the maximal digit runs of
      the original: any non-digit separates two sizes. */
  lemma {:induction false} BlankedTokens(s: string)
    ensures Tokens(Blanked(s)) == DigitRuns(s)
    decreases |s|
  {
    var b := Blanked(s);
    if s == [] {
    } else if !IsDigit(s[0]) {
      assert b[1..] == Blanked(s[1..]);
      BlankedTokens(s[1..]);
    } else {
      var n := DigitLen(s);
      WordLenOfBlanked(s);
      assert b[..n] == s[..n];
      assert b[n..] == Blanked(s[n..]);
      BlankedTokens(s[n..]);
    }
  }

  /** The value of a digit; runs hold only digits, so the 0 given to any
      other character is never read. */
  function DigitValue(c: char): (v: nat)
    ensures v <= 9
  {
    if IsDigit(c) then (c as int) - ('0' as int) else 0
  }

  /** The number a run of digits reads as in base ten; `k` digits stay
      below `10^k`. */
  function Decimal(d: string): (n: nat)
    ensures n < Pow10(|d|)
  {
    if d == [] then 0 else 10 * Decimal(d[..|d| - 1]) + DigitValue(d[|d| - 1])
  }

  function Pow10(n: nat): (p: nat)
    ensures p >= 1
  {
    if n == 0 then 1 else 10 * Pow10(n - 1)
  }

  /** Every run of at most 19 digits fits in a `size_t`. */
  lemma DecimalBound(d: string)
    ensures |d| <= 19 ==> Decimal(d) <= SizeMax
  {
    if |d| <= 19 {
      Pow10Monotone(|d|, 19);
      Pow10Nineteen();
    }
  }

  lemma Pow10Nineteen()
    ensures Pow10(19) == 10000000000000000000
  {
    assert Pow10(4) == 10000;
    assert Pow10(9) == 1000000000;
    assert Pow10(14) == 100000000000000;
  }

  lemma {:induction false} Pow10Monotone(m: nat, n: nat)
    requires m <= n
    ensures Pow10(m) <= Pow10(n)
    decreases n - m
  {
    if m < n { Pow10Monotone(m, n - 1); }
  }

  /** What `in >> size` reads from the runs: one size per run, until the
      first run too large for `size_t` sets the stream's failbit. At most
      one size per run, each within `size_t`. */
  function Readable(runs: seq<string>): (sizes: seq<nat>)
    ensures |sizes| <= |runs|
    ensures forall i :: 0 <= i < |sizes| ==> sizes[i] <= SizeMax
  {
    if runs == [] || Decimal(runs[0]) > SizeMax then []
    else [Decimal(runs[0])] + Readable(runs[1..])
  }

  /** The sizes `init_weights` reads from `info`: the leading digit runs
      read as numbers, in order. */
  function Sizes(info: string): (sizes: seq<nat>)
    ensures |sizes| <= |DigitRuns(info)|
    ensures forall i :: 0 <= i < |sizes| ==> sizes[i] == Decimal(DigitRuns(info)[i])
  {
    ReadableRuns(DigitRuns(info));
    Readable(DigitRuns(info))
  }

  /** The sizes are the runs read as numbers, in order; reading stops only
      at a run that does not fit in `size_t`. */
  lemma {:induction false} ReadableRuns(runs: seq<string>)
    ensures forall i :: 0 <= i < |Readable(runs)| ==> Readable(runs)[i] == Decimal(runs[i])
    ensures |Readable(runs)| < |runs| ==> Decimal(runs[|Readable(runs)|]) > SizeMax
    decreases |runs|
  {
    if runs != [] && Decimal(runs[0]) <= SizeMax {
      ReadableRuns(runs[1..]);
    }
  }

  /** When no run overflows, `info` yields exactly one size per digit run. */
  lemma SizesOfShortRuns(info: string)
    requires forall r :: r in DigitRuns(info) ==> |r| <= 19
    ensures |Sizes(info)| == |DigitRuns(info)|
    ensures forall i :: 0 <= i < |Sizes(info)| ==> Sizes(info)[i] == Decimal(DigitRuns(info)[i])
  {
    var runs := DigitRuns(info);
    ReadableRuns(runs);
    if |Readable(runs)| < |runs| {
      DecimalBound(runs[|Readable(runs)|]);
    }
  }

  /** One fresh table per size. */
  function Tables(sizes: seq<nat>): (ws: seq<Weight>)
    ensures |ws| == |sizes|
    ensures forall i :: 0 <= i < |sizes| ==> ws[i].size == sizes[i]
  {
    seq(|sizes|, i requires 0 <= i < |sizes| => Weight(sizes[i]))
  }

  lemma TablesCons(x: nat, sizes: seq<nat>)
    ensures Tables([x] + sizes) == [Weight(x)] + Tables(sizes)
  {
  }

  /** Reading one size that fits makes one table, ahead of the tables the
      rest of the runs make. */
  lemma ReadOne(net: seq<Weight>, runs: seq<string>, k: nat)
    requires k < |runs| && Decimal(runs[k]) <= SizeMax
    ensures net + Tables(Readable(runs[k..])) == (net + [Weight(Decimal(runs[k]))]) + Tables(Readable(runs[k + 1..]))
  {
    assert runs[k..][1..] == runs[k + 1..];
    TablesCons(Decimal(runs[k]), Readable(runs[k + 1..]));
  }

  /** Reading stops at the end of the runs or at a run that overflows. */
  lemma ReadStops(net: seq<Weight>, runs: seq<string>, k: nat)
    requires k <= |runs|
    requires k == |runs| || Decimal(runs[k]) > SizeMax
    ensures net + Tables(Readable(runs[k..])) == net
  {
    assert Tables(Readable(runs[k..])) == [];
  }

  /** The in-place rewrite of `res`: digits stay, everything else becomes a
      space, so the stream sees exactly the digit runs of `info`. */
  method BlankNonDigits(info: string) returns (res: string)
    ensures |res| == |info|
    ensures forall i :: 0 <= i < |info| ==> (IsDigit(info[i]) ==> res[i] == info[i]) && (!IsDigit(info[i]) ==> res[i] == ' ')
    ensures Tokens(res) == DigitRuns(info)
  {
    res := info;
    for i := 0 to |res|
      invariant |res| == |info|
      invariant forall j :: 0 <= j < i ==> res[j] == Blanked(info)[j]
      invariant forall j :: i <= j < |res| ==> res[j] == info[j]
    {
      if !IsDigit(res[i]) {
        res := res[i := ' '];
      }
    }
    assert res == Blanked(info);
    BlankedTokens(info);
  }

  /** An agent with weight tables. */
  class WeightAgent {
    var meta: map<string, string>
    var net: seq<Weight>

    /** Parses the arguments, then sizes the network from `init=` when it is
        given. */
    constructor (args: string)
      ensures meta == Bag(args)
      ensures net == if "init" in meta then Tables(Sizes(meta["init"])) else []
    {
      var m := ParseArgs(args);
      meta := m;
      net := [];
      new;
      if "init" in meta {
        InitWeights(meta["init"]);
      }
    }

    /** Appends one table per digit run of `info`, keeping the tables
        already there. */
    method InitWeights(info: string)
      modifies this
      ensures meta == old(meta)
      ensures net == old(net) + Tables(Sizes(info))
    {
      var res := BlankNonDigits(info);
      ReadSizes(Tokens(res));
    }

    /** `for (size_t size; in >> size; net.emplace_back(size))` over the
        tokens of the stream. */
    method ReadSizes(runs: seq<string>)
      modifies this
      ensures meta == old(meta)
      ensures net == old(net) + Tables(Readable(runs))
    {
      var k := 0;
      assert runs[k..] == runs;
      while k < |runs| && Decimal(runs[k]) <= SizeMax
        invariant 0 <= k <= |runs|
        invariant meta == old(meta)
        invariant old(net) + Tables(Readable(runs)) == net + Tables(Readable(runs[k..]))
      {
        ReadOne(net, runs, k);
        net := net + [Weight(Decimal(runs[k]))];
        k := k + 1;
      }
      ReadStops(net, runs, k);
    }

    /** Appends `count` tables of `size` entries each. */
    method AppendTables(count: nat, size: nat)
      modifies this
      ensures meta == old(meta)
      ensures net == old(net) + seq(count, _ => Weight(size))
    {
      for i := 0 to count
        invariant meta == old(meta)
        invariant net == old(net) + seq(i, _ => Weight(size))
      {
        net := net + [Weight(size)];
      }
    }
  }
}
