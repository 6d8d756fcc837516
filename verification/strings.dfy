/** Generic facts about building strings by concatenation and counting
    characters in them, used by the Markdown renderer. */
module Strings {

  /** f(x) for every element x of xs, concatenated in order. */
  function ConcatMap<T>(f: T -> string, xs: seq<T>): string {
    if |xs| == 0 then "" else f(xs[0]) + ConcatMap(f, xs[1..])
  }

  /** f(first + k, xs[k]) for every position k of xs, concatenated in order. */
  function ConcatNumbered<T>(f: (nat, T) -> string, xs: seq<T>, first: nat): string {
    if |xs| == 0 then "" else f(first, xs[0]) + ConcatNumbered(f, xs[1..], first + 1)
  }

  lemma {:induction false} ConcatMapAppend<T>(f: T -> string, a: seq<T>, b: seq<T>)
    ensures ConcatMap(f, a + b) == ConcatMap(f, a) + ConcatMap(f, b)
    decreases |a|
  {
    if |a| == 0 {
      assert a + b == b;
    } else {
      ConcatMapAppend(f, a[1..], b);
      assert (a + b)[1..] == a[1..] + b;
    }
  }

  lemma {:induction false} ConcatNumberedAppend<T>(f: (nat, T) -> string, a: seq<T>, b: seq<T>, first: nat)
    ensures ConcatNumbered(f, a + b, first) == ConcatNumbered(f, a, first) + ConcatNumbered(f, b, first + |a|)
    decreases |a|
  {
    if |a| == 0 {
      assert a + b == b;
    } else {
      ConcatNumberedAppend(f, a[1..], b, first + 1);
      assert (a + b)[1..] == a[1..] + b;
    }
  }

  lemma ConcatMapSingle<T>(f: T -> string, x: T)
    ensures ConcatMap(f, [x]) == f(x)
  {
    assert [x][1..] == [];
  }

  lemma ConcatNumberedSingle<T>(f: (nat, T) -> string, x: T, first: nat)
    ensures ConcatNumbered(f, [x], first) == f(first, x)
  {
    assert [x][1..] == [];
  }

  lemma ConcatMapSnoc<T>(f: T -> string, xs: seq<T>, x: T)
    ensures ConcatMap(f, xs + [x]) == ConcatMap(f, xs) + f(x)
  {
    ConcatMapAppend(f, xs, [x]);
    ConcatMapSingle(f, x);
  }

  lemma ConcatNumberedSnoc<T>(f: (nat, T) -> string, xs: seq<T>, x: T, first: nat)
    ensures ConcatNumbered(f, xs + [x], first) == ConcatNumbered(f, xs, first) + f(first + |xs|, x)
  {
    ConcatNumberedAppend(f, xs, [x], first);
    ConcatNumberedSingle(f, x, first + |xs|);
  }

  lemma AppendAssoc(a: string, b: string, c: string)
    ensures (a + b) + c == a + (b + c)
  {
  }

  /** The first k characters of a + b are those of a when a has at least k. */
  lemma PrefixOfAppend(a: string, b: string, k: nat)
    requires k <= |a|
    ensures (a + b)[..k] == a[..k]
  {
  }

  /** The last k characters of a + b are those of b when b has at least k. */
  lemma SuffixOfAppend(a: string, b: string, k: nat)
    requires k <= |b|
    ensures (a + b)[|a + b| - k..] == b[|b| - k..]
  {
  }

  /** The three parts of a + d + t can be read back by position. */
  lemma ThreeParts(a: string, d: string, t: string)
    ensures var s := a + d + t;
      && s[..|a|] == a && s[|a|..|s| - |t|] == d && s[|s| - |t|..] == t
  {
    var s := a + d + t;
    assert s[..|a|] == a;
    assert s[|a|..|s| - |t|] == d;
    assert s[|s| - |t|..] == t;
  }

  /** The parts of a + d + q + p + b + c can be read back by position
      (q and p together). */
  lemma SixParts(a: string, d: string, q: string, p: string, b: string, c: string)
    ensures var s := a + d + q + p + b + c;
      && s[..|a|] == a
      && s[|a|..|s| - |c| - |b| - |q| - |p|] == d
      && s[|s| - |c| - |b| - |q| - |p|..|s| - |c| - |b|] == q + p
      && s[|s| - |c| - |b|..|s| - |c|] == b
      && s[|s| - |c|..] == c
  {
    var s := a + d + q + p + b + c;
    assert s[..|a|] == a;
    assert s[|a|..|s| - |c| - |b| - |q| - |p|] == d;
    assert s[|s| - |c| - |b| - |q| - |p|..|s| - |c| - |b|] == q + p;
    assert s[|s| - |c| - |b|..|s| - |c|] == b;
    assert s[|s| - |c|..] == c;
  }

  /** Number of occurrences of c in s. */
  function Count(c: char, s: string): nat {
    if |s| == 0 then 0 else (if s[0] == c then 1 else 0) + Count(c, s[1..])
  }

  lemma {:induction false} CountAppend(c: char, s: string, t: string)
    ensures Count(c, s + t) == Count(c, s) + Count(c, t)
    decreases |s|
  {
    if |s| == 0 {
      assert s + t == t;
    } else {
      CountAppend(c, s[1..], t);
      assert (s + t)[1..] == s[1..] + t;
    }
  }

  lemma {:induction false} CountAbsent(c: char, s: string)
    requires forall i :: 0 <= i < |s| ==> s[i] != c
    ensures Count(c, s) == 0
    decreases |s|
  {
    if |s| > 0 {
      CountAbsent(c, s[1..]);
    }
  }

  lemma CountLeading(c: char, t: string)
    ensures Count(c, [c] + t) == 1 + Count(c, t)
  {
    assert ([c] + t)[1..] == t;
  }
}
