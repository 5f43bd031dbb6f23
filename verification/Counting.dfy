// Counting the members of finite sets along a sequence.
module Counting {

  /** How many positions of `s` hold an element of `a`. */
  function CountIn(s: seq<nat>, a: set<nat>): nat {
    if |s| == 0 then 0 else CountIn(s[..|s| - 1], a) + (if s[|s| - 1] in a then 1 else 0)
  }

  lemma {:induction false} CountInNext(s: seq<nat>, k: nat, a: set<nat>)
    requires k < |s|
    ensures CountIn(s[..k + 1], a) == CountIn(s[..k], a) + (if s[k] in a then 1 else 0)
  {
    assert s[..k + 1][..k] == s[..k];
  }

  lemma {:induction false} CountInFirst(s: seq<nat>, a: set<nat>)
    requires |s| > 0
    ensures CountIn(s, a) == CountIn(s[1..], a) + (if s[0] in a then 1 else 0)
  {
    if |s| > 1 {
      CountInFirst(s[..|s| - 1], a);
      assert s[..|s| - 1][1..] == s[1..][..|s| - 2];
    }
  }

  lemma CountInEmpty(a: set<nat>)
    ensures CountIn([], a) == 0
  { }

  lemma {:induction false} CountInMonotone(s: seq<nat>, a: set<nat>, b: set<nat>)
    requires a <= b
    ensures CountIn(s, a) <= CountIn(s, b) <= |s|
  {
    if |s| > 0 {
      CountInMonotone(s[..|s| - 1], a, b);
    }
  }

  ghost predicate NoRepeats(s: seq<nat>) {
    forall i, j :: 0 <= i < j < |s| ==> s[i] != s[j]
  }

  ghost function Elements(s: seq<nat>): set<nat> { set x | x in s }

  /** Without repeats, counting positions counts elements. */
  lemma {:induction false} CountInCardinality(s: seq<nat>, a: set<nat>)
    requires NoRepeats(s) && a <= Elements(s)
    ensures CountIn(s, a) == |a|
  {
    if |s| == 0 {
      assert a == {};
    } else {
      var n := |s| - 1;
      assert s == s[..n] + [s[n]];
      CountInSame(s[..n], a, a - {s[n]});
      CountInCardinality(s[..n], a - {s[n]});
      if s[n] !in a {
        assert a - {s[n]} == a;
      }
    }
  }

  lemma {:induction false} CountInSame(s: seq<nat>, a: set<nat>, b: set<nat>)
    requires forall x :: x in s ==> (x in a <==> x in b)
    ensures CountIn(s, a) == CountIn(s, b)
  {
    if |s| > 0 {
      assert s[|s| - 1] in s;
      CountInSame(s[..|s| - 1], a, b);
    }
  }

  lemma {:induction false} ElementsCardinality(s: seq<nat>)
    requires NoRepeats(s)
    ensures |Elements(s)| == |s|
  {
    if |s| > 0 {
      var n := |s| - 1;
      ElementsCardinality(s[..n]);
      assert s == s[..n] + [s[n]];
      assert Elements(s) == Elements(s[..n]) + {s[n]};
    }
  }

  lemma {:induction false} SubsetCardinality(a: set<nat>, b: set<nat>)
    requires a <= b
    ensures |a| <= |b|
    ensures |a| == |b| ==> a == b
  {
    assert b == a + (b - a);
    assert |b| == |a| + |b - a|;
    if |a| == |b| {
      assert b - a == {};
    }
  }

  lemma ProperSubsetCardinality(a: set<nat>, b: set<nat>, e: nat)
    requires a <= b && e in b && e !in a
    ensures |a| < |b|
  {
    SubsetCardinality(a, b);
  }

  /** A set that grows inside `all` leaves fewer elements outside it. */
  lemma FewerOutside(all: set<nat>, before: set<nat>, after: set<nat>)
    requires before <= after <= all && before != after
    ensures |all - after| < |all - before|
  {
    var x :| x in after && x !in before;
    SubsetCardinality(all - after, all - before);
    assert x in all - before && x !in all - after;
  }
}
