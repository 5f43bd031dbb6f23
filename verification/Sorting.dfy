// Sorting, as the library calls `sort` and `dedup` provide it.
module Sorting {

  ghost predicate StrictlyAscending(s: seq<nat>) {
    forall i, j :: 0 <= i < j < |s| ==> s[i] < s[j]
  }

  /** `x` put into its place, or nothing new when it is there already. */
  function Insert(s: seq<nat>, x: nat): seq<nat> {
    if |s| == 0 || s[|s| - 1] < x then s + [x]
    else if s[|s| - 1] == x then s
    else Insert(s[..|s| - 1], x) + [s[|s| - 1]]
  }

  /** The distinct elements in ascending order: `sort_unstable` followed by `dedup`. */
  function SortDedup(s: seq<nat>): seq<nat> {
    if |s| == 0 then [] else Insert(SortDedup(s[..|s| - 1]), s[|s| - 1])
  }

  lemma {:induction false} InsertMembers(s: seq<nat>, x: nat)
    ensures forall y :: y in Insert(s, x) <==> y in s || y == x
  {
    if |s| > 0 && s[|s| - 1] > x {
      InsertMembers(s[..|s| - 1], x);
      assert s == s[..|s| - 1] + [s[|s| - 1]];
    }
  }

  lemma {:induction false} InsertAscends(s: seq<nat>, x: nat)
    requires StrictlyAscending(s)
    ensures StrictlyAscending(Insert(s, x))
  {
    if |s| > 0 && s[|s| - 1] > x {
      var n := |s| - 1;
      var t := Insert(s[..n], x);
      InsertAscends(s[..n], x);
      InsertMembers(s[..n], x);
      forall i | 0 <= i < |t| ensures t[i] < s[n] {
        var y := t[i];
        assert y in t;
        assert y in s[..n] || y == x;
      }
    }
  }

  lemma {:induction false} SortDedupSorts(s: seq<nat>)
    ensures StrictlyAscending(SortDedup(s))
    ensures forall y :: y in SortDedup(s) <==> y in s
  {
    if |s| > 0 {
      var n := |s| - 1;
      SortDedupSorts(s[..n]);
      InsertAscends(SortDedup(s[..n]), s[n]);
      InsertMembers(SortDedup(s[..n]), s[n]);
      assert s == s[..n] + [s[n]];
    }
  }

  lemma NonEmptyToo(s: seq<nat>, t: seq<nat>)
    requires forall y :: y in s ==> y in t
    ensures |s| > 0 ==> |t| > 0
  {
    if |s| > 0 {
      var y := s[0];
      assert y in s;
      assert y in t;
    }
  }

  /** A strictly ascending sequence is determined by its elements. */
  lemma {:induction false} AscendingUnique(s: seq<nat>, t: seq<nat>)
    requires StrictlyAscending(s) && StrictlyAscending(t)
    requires forall y :: y in s <==> y in t
    ensures s == t
  {
    NonEmptyToo(s, t);
    NonEmptyToo(t, s);
    if |s| > 0 {
      var m, n := |s| - 1, |t| - 1;
      assert s[m] in s && s[m] in t && t[n] in t && t[n] in s;
      assert s[m] == t[n];
      forall y ensures y in s[..m] <==> y in t[..n] {
        assert y in s[..m] ==> y in s && y != s[m];
        assert y in t[..n] ==> y in t && y != t[n];
        if y in s && y != s[m] { assert y in s[..m] + [s[m]]; }
        if y in t && y != t[n] { assert y in t[..n] + [t[n]]; }
      }
      AscendingUnique(s[..m], t[..n]);
      assert s == s[..m] + [s[m]] && t == t[..n] + [t[n]];
    }
  }
}
