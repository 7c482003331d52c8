/** The property bag every agent carries: the argument string is cut into
    whitespace-separated tokens, each token is split at its first '=' into a
    key and a value, and the pairs are stored in a map where a later token
    overwrites an earlier one with the same key. */
module Props {

  datatype Option<T> = None | Some(value: T)

  /** `std::string::npos` on a 64-bit target, and the modulus of `size_t`. */
  const SizeModulus: int := 0x1_0000_0000_0000_0000
  const Npos: int := SizeModulus - 1

  /** The arguments every agent starts from, before the caller's own. */
  const Defaults: string := Named("unknown", "unknown")

  /** Whitespace as `operator>>` on a string stream sees it in the "C" locale. */
  predicate IsSpace(c: char) {
    c == ' ' || c == '\t' || c == '\n' || c == '\r' || c == 11 as char || c == 12 as char
  }

  /** Length of the leading run of non-whitespace characters. */
  function WordLen(s: string): (n: nat)
    ensures n <= |s|
    ensures forall i :: 0 <= i < n ==> !IsSpace(s[i])
    ensures n < |s| ==> IsSpace(s[n])
  {
    if s == [] || IsSpace(s[0]) then 0 else 1 + WordLen(s[1..])
  }

  /** The successive tokens `ss >> pair` extracts from `s`. */
  function Tokens(s: string): (toks: seq<string>)
    ensures |toks| <= |s|
    ensures toks == [] <==> forall i :: 0 <= i < |s| ==> IsSpace(s[i])
    decreases |s|
  {
    if s == [] then []
    else if IsSpace(s[0]) then Tokens(s[1..])
    else var n := WordLen(s); [s[..n]] + Tokens(s[n..])
  }

  /** A token is never empty and never holds whitespace. */
  lemma {:induction false} TokensAreWords(s: string)
    ensures forall t :: t in Tokens(s) ==> t != [] && forall i :: 0 <= i < |t| ==> !IsSpace(t[i])
    decreases |s|
  {
    if s == [] {
    } else if IsSpace(s[0]) {
      TokensAreWords(s[1..]);
    } else {
      var n := WordLen(s);
      TokensAreWords(s[n..]);
    }
  }

  lemma {:induction false} WordLenAppend(a: string, b: string)
    requires a != [] && IsSpace(a[|a| - 1])
    ensures WordLen(a + b) == WordLen(a) < |a|
    decreases |a|
  {
    if IsSpace(a[0]) {
    } else {
      assert (a + b)[1..] == a[1..] + b;
      WordLenAppend(a[1..], b);
    }
  }

  /** Text that ends in whitespace tokenises independently of what follows. */
  lemma {:induction false} TokensAppend(a: string, b: string)
    requires a == [] || IsSpace(a[|a| - 1])
    ensures Tokens(a + b) == Tokens(a) + Tokens(b)
    decreases |a|
  {
    if a == [] {
      assert a + b == b;
    } else if IsSpace(a[0]) {
      assert (a + b)[1..] == a[1..] + b;
      TokensAppend(a[1..], b);
    } else {
      var n := WordLen(a);
      WordLenAppend(a, b);
      assert (a + b)[..n] == a[..n];
      assert (a + b)[n..] == a[n..] + b;
      TokensAppend(a[n..], b);
    }
  }

  lemma {:induction false} WordLenOfWord(w: string, rest: string)
    requires forall i :: 0 <= i < |w| ==> !IsSpace(w[i])
    requires rest != [] && IsSpace(rest[0])
    ensures WordLen(w + rest) == |w|
    decreases |w|
  {
    if w != [] {
      assert (w + rest)[1..] == w[1..] + rest;
      WordLenOfWord(w[1..], rest);
    }
  }

  /** A single word followed by whitespace is one token. */
  lemma WordThenSpace(w: string, sp: char)
    requires w != [] && IsSpace(sp)
    requires forall i :: 0 <= i < |w| ==> !IsSpace(w[i])
    ensures Tokens(w + [sp]) == [w]
  {
    var s := w + [sp];
    WordLenOfWord(w, [sp]);
    assert s[..|w|] == w;
    assert s[|w|..] == [sp];
    assert [sp][1..] == [];
    assert Tokens([sp]) == [];
  }

  /** Index of the first `c` in `s`, or `|s|` when there is none. */
  function IndexOf(s: string, c: char): (r: nat)
    ensures r <= |s| && c !in s[..r]
    ensures r < |s| ==> s[r] == c
  {
    if s == [] || s[0] == c then 0 else 1 + IndexOf(s[1..], c)
  }

  /** `s.find(c)`: the index of the first `c`, or `npos`. */
  function Find(s: string, c: char): (r: int)
    ensures c in s ==> 0 <= r < |s| && s[r] == c && c !in s[..r]
    ensures c !in s ==> r == Npos
  {
    var i := IndexOf(s, c);
    if i < |s| then i else assert s[..i] == s; Npos
  }

  /** `s.substr(pos, len)`: at most `len` characters from `pos` on. */
  function Substr(s: string, pos: nat, len: int): (r: string)
    requires pos <= |s|
    ensures pos + |r| <= |s| && r == s[pos..pos + |r|]
    ensures 0 <= len < |s| - pos ==> |r| == len
    ensures len >= |s| - pos ==> |r| == |s| - pos
  {
    if len < |s| - pos then s[pos..pos + (if len < 0 then 0 else len)] else s[pos..]
  }

  /** The key of a token: everything before its first '='. */
  function Key(t: string): (k: string)
    ensures k <= t && '=' !in k
  {
    Substr(t, 0, Find(t, '='))
  }

  /** The value of a token: everything after its first '='; `npos + 1`
      wraps to 0 in `size_t`, so a token without '=' is its own value. */
  function Value(t: string): (v: string)
    ensures |v| <= |t|
    ensures |t| <= Npos ==> v == t[|t| - |v|..]
  {
    var f := Find(t, '=');
    var from := (f + 1) % SizeModulus;
    assert from <= |t| by {
      if '=' !in t { assert from == 0; }
    }
    Substr(t, from, Npos)
  }

  /** The text a key and a value are written as in an argument string. */
  function Pair(k: string, v: string): string {
    k + "=" + v
  }

  /** Splitting a written pair gives back its key and its value, for any
      string shorter than `npos` whose key holds no '='. */
  lemma SplitPair(k: string, v: string)
    requires '=' !in k
    requires |Pair(k, v)| < Npos
    ensures Key(Pair(k, v)) == k && Value(Pair(k, v)) == v
  {
    var t := Pair(k, v);
    assert t[..|k|] == k;
    FindFirst(t, '=', |k|);
    assert Key(t) == t[..|k|];
    assert Value(t) == t[|k| + 1..];
    assert t[|k| + 1..] == v;
  }

  /** `find` stops at the first occurrence. */
  lemma FindFirst(s: string, c: char, i: nat)
    requires i < |s| && s[i] == c && c !in s[..i]
    ensures Find(s, c) == i
  {
    assert s[i] in s[..i + 1];
  }

  /** With an '=', the key and the value are the two sides of the first '='. */
  lemma SplitAtEquals(t: string)
    requires '=' in t
    requires |t| < Npos
    ensures Pair(Key(t), Value(t)) == t
    ensures '=' !in Key(t)
  {
    var f := Find(t, '=');
    assert Key(t) == t[..f];
    assert Value(t) == t[f + 1..];
    assert t == t[..f] + [t[f]] + t[f + 1..];
  }

  /** Without an '=', both key and value are the whole token (`npos + 1`
      is 0). */
  lemma SplitWithoutEquals(t: string)
    requires '=' !in t
    requires |t| < Npos
    ensures Key(t) == t && Value(t) == t
  {
  }

  /** The map the insertion loop builds from a token sequence: every
      token's key is in it. */
  function Collect(toks: seq<string>): (m: map<string, string>)
    ensures forall i :: 0 <= i < |toks| ==> Key(toks[i]) in m
  {
    if toks == [] then map[]
    else
      var init := toks[..|toks| - 1];
      assert forall i :: 0 <= i < |init| ==> init[i] == toks[i];
      Collect(init)[Key(toks[|toks| - 1]) := Value(toks[|toks| - 1])]
  }

  /** One more token stores its value under its key. */
  lemma CollectStep(toks: seq<string>, i: nat)
    requires i < |toks|
    ensures Collect(toks[..i + 1]) == Collect(toks[..i])[Key(toks[i]) := Value(toks[i])]
  {
    assert toks[..i + 1][..i] == toks[..i];
  }

  /** A key is present exactly when some token carries it. */
  lemma {:induction false} CollectKeys(toks: seq<string>, k: string)
    ensures k in Collect(toks) <==> exists i :: 0 <= i < |toks| && Key(toks[i]) == k
    decreases |toks|
  {
    if toks != [] {
      var init := toks[..|toks| - 1];
      CollectKeys(init, k);
      if k in Collect(init) {
        var i :| 0 <= i < |init| && Key(init[i]) == k;
        assert Key(toks[i]) == k;
      }
      if exists i :: 0 <= i < |toks| && Key(toks[i]) == k {
        var i :| 0 <= i < |toks| && Key(toks[i]) == k;
        if i < |init| { assert Key(init[i]) == k; }
      }
    }
  }

  /** Each key maps to the value of the last token that carries it. */
  lemma {:induction false} CollectLastWins(toks: seq<string>, i: nat)
    requires i < |toks|
    requires forall j :: i < j < |toks| ==> Key(toks[j]) != Key(toks[i])
    ensures Key(toks[i]) in Collect(toks) && Collect(toks)[Key(toks[i])] == Value(toks[i])
    decreases |toks|
  {
    if i < |toks| - 1 {
      var init := toks[..|toks| - 1];
      assert init[i] == toks[i];
      CollectLastWins(init, i);
    }
  }

  /** Tokens appended later override every earlier token with the same key. */
  lemma {:induction false} CollectOverride(early: seq<string>, late: seq<string>, k: string)
    ensures k in Collect(late) ==> k in Collect(early + late) && Collect(early + late)[k] == Collect(late)[k]
    ensures k !in Collect(late) ==>
      (k in Collect(early + late) <==> k in Collect(early)) &&
      (k in Collect(early) ==> Collect(early + late)[k] == Collect(early)[k])
    decreases |late|
  {
    if late == [] {
      assert early + late == early;
    } else {
      var init := late[..|late| - 1];
      assert (early + late)[..|early + late| - 1] == early + init;
      CollectOverride(early, init, k);
    }
  }

  /** The `name=<n> role=<r> ` prefix an agent's constructor puts before
      its caller's arguments. */
  function Named(n: string, r: string): string {
    Pair("name", n) + " " + Pair("role", r) + " "
  }

  /** A value that can stand in an argument string as one token. */
  predicate Plain(v: string) {
    |v| < 0x1_0000_0000 && forall i :: 0 <= i < |v| ==> !IsSpace(v[i])
  }

  lemma PlainPair(k: string, v: string)
    requires forall i :: 0 <= i < |k| ==> !IsSpace(k[i])
    requires Plain(v)
    ensures forall i :: 0 <= i < |Pair(k, v)| ==> !IsSpace(Pair(k, v)[i])
  {
    var p := Pair(k, v);
    forall i | 0 <= i < |p| ensures !IsSpace(p[i]) {
      if i < |k| {
        assert p[i] == k[i];
      } else if i > |k| {
        assert p[i] == v[i - |k| - 1];
      }
    }
  }

  lemma NamedPrefixTokens(n: string, r: string)
    requires Plain(n) && Plain(r)
    ensures Tokens(Named(n, r)) == [Pair("name", n), Pair("role", r)]
  {
    var a, b := Pair("name", n), Pair("role", r);
    assert Named(n, r) == (a + " ") + (b + " ");
    PlainPair("name", n);
    PlainPair("role", r);
    WordThenSpace(a, ' ');
    WordThenSpace(b, ' ');
    TokensAppend(a + " ", b + " ");
  }

  lemma NamedTokens(n: string, r: string, args: string)
    requires Plain(n) && Plain(r)
    ensures Tokens(Named(n, r) + args) == [Pair("name", n), Pair("role", r)] + Tokens(args)
  {
    var p := Named(n, r);
    assert p[|p| - 1] == ' ';
    NamedPrefixTokens(n, r);
    TokensAppend(p, args);
  }

  /** Behind a `Named(n, r)` prefix, "name" and "role" are always present and
      a caller's own `name=`/`role=` wins over `n`/`r`. */
  lemma {:induction false} NamedLastWins(n: string, r: string, args: string, k: string)
    requires Plain(n) && Plain(r)
    requires k == "name" || k == "role"
    ensures k in Collect(Tokens(Named(n, r) + args))
    ensures k in Collect(Tokens(args)) ==>
      Collect(Tokens(Named(n, r) + args))[k] == Collect(Tokens(args))[k]
    ensures k !in Collect(Tokens(args)) ==>
      Collect(Tokens(Named(n, r) + args))[k] == (if k == "name" then n else r)
  {
    var defs := [Pair("name", n), Pair("role", r)];
    NamedTokens(n, r, args);
    SplitPair("name", n);
    SplitPair("role", r);
    CollectOverride(defs, Tokens(args), k);
    if k == "name" { CollectLastWins(defs, 0); } else { CollectLastWins(defs, 1); }
  }

  /** The bag built from `args`: the defaults first, so that a caller's
      `name=` or `role=` replaces "unknown"; `name` and `role` are always
      present. */
  function Bag(args: string): (m: map<string, string>)
    ensures "name" in m && "role" in m
  {
    NamedLastWins("unknown", "unknown", args, "name");
    NamedLastWins("unknown", "unknown", args, "role");
    Collect(Tokens(Defaults + args))
  }

  /** An agent built with `Named(n, r) + args` (as every player and
      environment is) is called `n` with role `r` unless `args` says
      otherwise, whatever the defaults were. */
  lemma NamedAgent(n: string, r: string, args: string, k: string)
    requires Plain(n) && Plain(r)
    requires k == "name" || k == "role"
    ensures k in Bag(Named(n, r) + args)
    ensures k in Collect(Tokens(args)) ==> Bag(Named(n, r) + args)[k] == Collect(Tokens(args))[k]
    ensures k !in Collect(Tokens(args)) ==> Bag(Named(n, r) + args)[k] == (if k == "name" then n else r)
  {
    assert Defaults + (Named(n, r) + args) == Named("unknown", "unknown") + (Named(n, r) + args);
    NamedLastWins("unknown", "unknown", Named(n, r) + args, k);
    NamedLastWins(n, r, args, k);
  }

  /** The constructor's loop: one map insertion per extracted token. */
  method ParseArgs(args: string) returns (meta: map<string, string>)
    ensures meta == Bag(args)
    ensures "name" in meta && "role" in meta
  {
    var toks := Tokens(Defaults + args);
    meta := map[];
    var i := 0;
    while i < |toks|
      invariant 0 <= i <= |toks|
      invariant meta == Collect(toks[..i])
    {
      CollectStep(toks, i);
      meta := meta[Key(toks[i]) := Value(toks[i])];
      i := i + 1;
    }
    assert toks[..i] == toks;
  }

  /** The base agent: its property bag and the messages that amend it. */
  class Agent {
    var meta: map<string, string>

    /** `name()` and `role()` can always be answered. */
    ghost predicate Valid()
      reads this
    {
      "name" in meta && "role" in meta
    }

    constructor (args: string)
      ensures Valid()
      ensures meta == Bag(args)
    {
      var m := ParseArgs(args);
      meta := m;
    }

    /** `meta.at(key)`, which throws `out_of_range` for an absent key. */
    function Property(key: string): (r: Option<string>)
      reads this
      ensures r.Some? <==> key in meta
      ensures r.Some? ==> r.value == meta[key]
    {
      if key in meta then Some(meta[key]) else None
    }

    function Name(): (r: string)
      reads this
      requires Valid()
      ensures Property("name") == Some(r)
    {
      meta["name"]
    }

    function Role(): (r: string)
      reads this
      requires Valid()
      ensures Property("role") == Some(r)
    {
      meta["role"]
    }

    /** Sets the entry keyed by the text before the first '=' and nothing else. */
    method Notify(msg: string)
      requires Valid()
      modifies this
      ensures Valid()
      ensures meta == old(meta)[Key(msg) := Value(msg)]
      ensures forall k :: k != Key(msg) ==> Property(k) == old(Property(k))
    {
      meta := meta[Key(msg) := Value(msg)];
    }
  }
}
