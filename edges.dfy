/** Child tables. A node's `std::map<char, Node*>` becomes a Dafny `map`;
    iterating over it in the source visits the keys in ascending order of
    the signed C++ `char`, which `Ascending` reproduces. */
module Edges {

  /** Where a symbol sorts as a signed 8-bit C++ `char`: the bytes 0x80 to
      0xFF come first, as -128 to -1. Symbols beyond a byte keep their code. */
  function Rank(c: char): (r: int)
    ensures c as int < 128 || 256 <= c as int ==> r == c as int
    ensures 128 <= c as int < 256 ==> r == c as int - 256 && r < 0
  {
    if 128 <= c as int < 256 then c as int - 256 else c as int
  }

  /** Symbols of equal rank are equal. */
  lemma RankInjective(a: char, b: char)
    ensures Rank(a) == Rank(b) ==> a == b
  {
  }

  /** The smallest symbol of a non-empty set. */
  ghost function Least(s: set<char>): (k: char)
    requires s != {}
    ensures k in s && forall j :: j in s ==> Rank(k) <= Rank(j)
  {
    var k :| k in s;
    if s == {k} then
      assert forall j :: j in s ==> j == k;
      k
    else
      var m := Least(s - {k});
      assert forall j :: j in s ==> j == k || j in s - {k};
      if Rank(k) < Rank(m) then k else m
  }

  /** The symbols of `s` in ascending order: the iteration order of a `std::map`. */
  ghost function Ascending(s: set<char>): (r: seq<char>)
    ensures |r| == |s|
    ensures forall i :: 0 <= i < |r| ==> r[i] in s
    ensures forall k :: k in s ==> k in r
    decreases |s|
  {
    if s == {} then []
    else
      var k := Least(s);
      assert |s - {k}| == |s| - 1;
      [k] + Ascending(s - {k})
  }

  /** Each symbol of `r` sorts before the next. */
  ghost predicate StrictlyAscending(r: seq<char>) {
    forall i, j :: 0 <= i < j < |r| ==> Rank(r[i]) < Rank(r[j])
  }

  /** `Ascending` lists each symbol once, smallest first. */
  lemma {:induction false} AscendingSorted(s: set<char>)
    ensures StrictlyAscending(Ascending(s))
    decreases |s|
  {
    if s != {} {
      var k := Least(s);
      assert |s - {k}| == |s| - 1;
      var rest := Ascending(s - {k});
      AscendingSorted(s - {k});
      forall i | 0 <= i < |rest| ensures Rank(k) < Rank(rest[i]) {
        assert rest[i] in s - {k} && rest[i] in s;
        RankInjective(k, rest[i]);
      }
      var r := [k] + rest;
      forall i, j | 0 <= i < j < |r| ensures Rank(r[i]) < Rank(r[j]) {
        assert r[j] == rest[j - 1];
        if i > 0 { assert r[i] == rest[i - 1]; }
      }
      assert Ascending(s) == r;
    }
  }

  /** The smallest symbol of `s` comes first in `Ascending(s)`. */
  lemma AscendingFirst(s: set<char>, k: char)
    requires k in s && forall j :: j in s ==> Rank(k) <= Rank(j)
    ensures Ascending(s) == [k] + Ascending(s - {k})
  {
    RankInjective(k, Least(s));
    assert k == Least(s);
  }

  lemma AppendAssoc<T>(a: seq<T>, b: seq<T>, c: seq<T>)
    ensures a + (b + c) == (a + b) + c
  {
  }

  /** The symbols of `m` in ascending order, taken smallest first. */
  method AscendingKeys<T>(m: map<char, T>) returns (r: seq<char>)
    ensures r == Ascending(m.Keys)
  {
    r := [];
    var rest := m.Keys;
    while rest != {}
      invariant r + Ascending(rest) == Ascending(m.Keys)
      decreases |rest|
    {
      var k :| k in rest && forall j :: j in rest ==> Rank(k) <= Rank(j);
      AscendingFirst(rest, k);
      AppendAssoc(r, [k], Ascending(rest - {k}));
      r := r + [k];
      rest := rest - {k};
    }
  }

  /** The entries of `xs` are pairwise distinct. */
  ghost predicate Distinct(xs: seq<int>) {
    forall i, j :: 0 <= i < j < |xs| ==> xs[i] != xs[j]
  }

  /** Dropping the last entry of a list without repeats leaves a list
      without repeats that lacks that entry. */
  lemma DistinctButLast(xs: seq<int>)
    requires xs != [] && Distinct(xs)
    ensures Distinct(xs[..|xs| - 1]) && xs[|xs| - 1] !in xs[..|xs| - 1]
    ensures xs == xs[..|xs| - 1] + [xs[|xs| - 1]]
  {
    var ys := xs[..|xs| - 1];
    forall j | 0 <= j < |ys| ensures ys[j] == xs[j] && ys[j] != xs[|xs| - 1] {}
  }

  /** A prefix one longer is the prefix with the next element appended. */
  lemma TakeOneMore<T>(s: seq<T>, i: nat)
    requires i < |s|
    ensures s[..i + 1] == s[..i] + [s[i]]
  {
  }
}
