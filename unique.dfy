/**
 * The final de-duplication: `list.filter((dep, idx) => list.indexOf(dep) === idx)`,
 * which keeps each string at its first occurrence and drops the later ones.
 */
module Unique {

  /** `Array.prototype.indexOf`: the position of `x` in `s`, or -1 when it does not occur. */
  function IndexOf(s: seq<string>, x: string): (i: int)
    ensures -1 <= i < |s|
    ensures i == -1 <==> x !in s
    ensures 0 <= i ==> s[i] == x
  {
    if s == [] then -1
    else if s[0] == x then 0
    else
      var k := IndexOf(s[1..], x);
      if k == -1 then -1 else k + 1
  }

  /** `IndexOf` finds the first occurrence: no occurrence of `x` precedes it. */
  lemma {:induction false} IndexOfFirst(s: seq<string>, x: string, j: nat)
    requires j < |s| && s[j] == x
    ensures 0 <= IndexOf(s, x) <= j
  {
    if s[0] != x {
      IndexOfFirst(s[1..], x, j - 1);
    }
  }

  /** No string occurs twice. */
  predicate NoDuplicates(s: seq<string>)
  {
    forall i, j :: 0 <= i < j < |s| ==> s[i] != s[j]
  }

  /** Strictly ordered by first occurrence in `s`. */
  predicate OrderedByFirst(s: seq<string>, t: seq<string>)
  {
    forall a, b :: 0 <= a < b < |t| ==> IndexOf(s, t[a]) < IndexOf(s, t[b])
  }

  /** The filter run over the positions `i..` of `s`: keep `s[k]` when `indexOf(s[k]) == k`. */
  function KeepFirstFrom(s: seq<string>, i: nat): seq<string>
    requires i <= |s|
    decreases |s| - i
  {
    if i == |s| then []
    else (if IndexOf(s, s[i]) == i then [s[i]] else []) + KeepFirstFrom(s, i + 1)
  }

  /** The filter over `i..` keeps exactly the strings whose first occurrence is at `i` or later. */
  lemma {:induction false} KeepFirstFromMembers(s: seq<string>, i: nat, x: string)
    requires i <= |s|
    ensures x in KeepFirstFrom(s, i) <==> x in s && i <= IndexOf(s, x)
    decreases |s| - i
  {
    if i < |s| {
      KeepFirstFromMembers(s, i + 1, x);
      if x == s[i] {
        IndexOfFirst(s, x, i);
      }
    }
  }

  /** A string placed before a list it occurs strictly before in `s` keeps the list ordered. */
  lemma OrderedCons(s: seq<string>, x: string, rest: seq<string>)
    requires OrderedByFirst(s, rest)
    requires forall y :: y in rest ==> IndexOf(s, x) < IndexOf(s, y)
    ensures OrderedByFirst(s, [x] + rest)
  {
    var r := [x] + rest;
    assert r[1..] == rest;
    forall b | 0 < b < |r| ensures IndexOf(s, r[0]) < IndexOf(s, r[b]) {
      assert r[b] in rest;
    }
    forall a, b | 0 < a < b < |r| ensures IndexOf(s, r[a]) < IndexOf(s, r[b]) {
      assert r[a] == rest[a - 1] && r[b] == rest[b - 1];
    }
  }

  /** The filter over `i..` keeps its strings in the order of their first occurrence. */
  lemma {:induction false} KeepFirstFromOrdered(s: seq<string>, i: nat)
    requires i <= |s|
    ensures OrderedByFirst(s, KeepFirstFrom(s, i))
    decreases |s| - i
  {
    if i < |s| {
      KeepFirstFromOrdered(s, i + 1);
      var rest := KeepFirstFrom(s, i + 1);
      if IndexOf(s, s[i]) == i {
        forall y | y in rest ensures IndexOf(s, s[i]) < IndexOf(s, y) {
          KeepFirstFromMembers(s, i + 1, y);
        }
        OrderedCons(s, s[i], rest);
      }
    }
  }

  /** The filter over all positions keeps exactly the strings of `s`. */
  lemma KeepFirstKeepsAll(s: seq<string>)
    ensures forall x :: x in KeepFirstFrom(s, 0) <==> x in s
  {
    forall x ensures x in KeepFirstFrom(s, 0) <==> x in s {
      KeepFirstFromMembers(s, 0, x);
    }
  }

  /**
   * The de-duplication of index.js. The result has no duplicates, holds exactly
   * the strings of `s`, and orders them by the position of their first
   * occurrence in `s`.
   */
  function RemoveDuplicates(s: seq<string>): (r: seq<string>)
    ensures NoDuplicates(r)
    ensures forall x :: x in r <==> x in s
    ensures OrderedByFirst(s, r)
  {
    KeepFirstKeepsAll(s);
    KeepFirstFromOrdered(s, 0);
    KeepFirstFrom(s, 0)
  }

  /** In a list with no duplicates, every string occurs first where it stands. */
  lemma DistinctIndexOf(s: seq<string>, i: nat)
    requires i < |s| && NoDuplicates(s)
    ensures IndexOf(s, s[i]) == i
  {
    IndexOfFirst(s, s[i], i);
    var k := IndexOf(s, s[i]);
    assert s[k] == s[i];
  }

  /** A list with no duplicates is left as it is. */
  lemma {:induction false} KeepFirstFromDistinct(s: seq<string>, i: nat)
    requires i <= |s| && NoDuplicates(s)
    ensures KeepFirstFrom(s, i) == s[i..]
    decreases |s| - i
  {
    if i < |s| {
      KeepFirstFromDistinct(s, i + 1);
      DistinctIndexOf(s, i);
      assert s[i..] == [s[i]] + s[i + 1..];
    }
  }

  /** De-duplication leaves a duplicate-free list unchanged, and is therefore idempotent. */
  lemma RemoveDuplicatesIdempotent(s: seq<string>)
    ensures NoDuplicates(s) ==> RemoveDuplicates(s) == s
    ensures RemoveDuplicates(RemoveDuplicates(s)) == RemoveDuplicates(s)
  {
    if NoDuplicates(s) {
      KeepFirstFromDistinct(s, 0);
    }
    KeepFirstFromDistinct(RemoveDuplicates(s), 0);
  }

  /**
   * The three properties of `RemoveDuplicates` determine its result: any
   * duplicate-free list with the same strings, ordered by first occurrence
   * in `s`, is that result.
   */
  lemma {:induction false} RemoveDuplicatesUnique(s: seq<string>, t: seq<string>)
    requires NoDuplicates(t)
    requires forall x :: x in t <==> x in s
    requires OrderedByFirst(s, t)
    ensures t == RemoveDuplicates(s)
  {
    SortedByFirstEqual(s, t, RemoveDuplicates(s));
  }

  /** The head of such a list occurs first in `s`. */
  lemma HeadOccursFirst(s: seq<string>, t: seq<string>, a: nat)
    requires OrderedByFirst(s, t) && a < |t|
    ensures IndexOf(s, t[0]) <= IndexOf(s, t[a])
  {
    if a > 0 {
      assert IndexOf(s, t[0]) < IndexOf(s, t[a]);
    }
  }

  /** Of two such lists with the same strings of `s`, the heads agree. */
  lemma HeadsAgree(s: seq<string>, t: seq<string>, u: seq<string>)
    requires t != [] && u != [] && t[0] in s
    requires OrderedByFirst(s, t) && OrderedByFirst(s, u)
    requires u[0] in t && t[0] in u
    ensures t[0] == u[0]
  {
    var a :| 0 <= a < |t| && t[a] == u[0];
    var b :| 0 <= b < |u| && u[b] == t[0];
    HeadOccursFirst(s, t, a);
    HeadOccursFirst(s, u, b);
    var k := IndexOf(s, t[0]);
    assert s[k] == t[0] && s[k] == u[0];
  }

  /** Past equal heads, the tails of two such lists hold the same strings. */
  lemma TailsAgree(s: seq<string>, t: seq<string>, u: seq<string>, x: string)
    requires t != [] && u != [] && t[0] == u[0]
    requires OrderedByFirst(s, t) && OrderedByFirst(s, u)
    requires x in t <==> x in u
    ensures x in t[1..] <==> x in u[1..]
  {
    if x in t[1..] {
      var a :| 1 <= a < |t| && t[a] == x;
      assert IndexOf(s, t[0]) < IndexOf(s, t[a]);
    }
    if x in u[1..] {
      var b :| 1 <= b < |u| && u[b] == x;
      assert IndexOf(s, u[0]) < IndexOf(s, u[b]);
    }
  }

  /** Two lists with the same strings are empty together. */
  lemma SameStringsEmpty(t: seq<string>, u: seq<string>)
    requires forall x :: x in t <==> x in u
    ensures t == [] <==> u == []
  {
    if t != [] {
      assert t[0] in u;
    }
    if u != [] {
      assert u[0] in t;
    }
  }

  /** Two lists of strings of `s`, both strictly ordered by first occurrence in `s`, with the same strings, are equal. */
  lemma {:induction false} SortedByFirstEqual(s: seq<string>, t: seq<string>, u: seq<string>)
    requires forall x :: x in t ==> x in s
    requires forall x :: x in t <==> x in u
    requires OrderedByFirst(s, t) && OrderedByFirst(s, u)
    ensures t == u
    decreases |t|
  {
    SameStringsEmpty(t, u);
    if t != [] {
      assert t[0] in u && u[0] in u;
      HeadsAgree(s, t, u);
      forall x ensures x in t[1..] <==> x in u[1..] {
        TailsAgree(s, t, u, x);
      }
      SortedByFirstEqual(s, t[1..], u[1..]);
      assert t == [t[0]] + t[1..] && u == [u[0]] + u[1..];
    }
  }
}
