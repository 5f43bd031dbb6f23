// The in-place odometer over action profiles: order, completeness, and sums over all profiles.
module Odometer {
  import opened RealSums
  import opened MixedRadix

  type Profile = seq<int>

  predicate ValidProfile(counts: seq<nat>, p: Profile) {
    |p| == |counts| && forall i :: 0 <= i < |p| ==> 0 <= p[i] < counts[i]
  }

  /** Every role has at least one action. */
  predicate Playable(counts: seq<nat>) {
    forall i :: 0 <= i < |counts| ==> counts[i] > 0
  }

  /** The number of action profiles. */
  function Size(counts: seq<nat>): (r: int)
    ensures r >= 0
  {
    if |counts| == 0 then 1
    else
      FlatNonNegative(Size(counts[..|counts| - 1]), counts[|counts| - 1]);
      Flat(Size(counts[..|counts| - 1]), counts[|counts| - 1], 0)
  }

  /** The position of a profile in the order in which the last role moves fastest. */
  function Rank(counts: seq<nat>, p: Profile): int
    requires |p| == |counts|
  {
    if |counts| == 0 then 0
    else Flat(Rank(counts[..|counts| - 1], p[..|p| - 1]), counts[|counts| - 1], p[|p| - 1])
  }

  /** The profile at a position. */
  function Unrank(counts: seq<nat>, i: nat): (p: Profile)
    requires Playable(counts)
    ensures |p| == |counts|
  {
    if |counts| == 0 then []
    else
      var c := counts[|counts| - 1];
      Unrank(counts[..|counts| - 1], Quot(i, c)) + [Rem(i, c)]
  }

  function Zeros(n: nat): Profile { seq(n, _ => 0) }

  /** One tick: the next profile, and whether there was one. */
  function Tick(counts: seq<nat>, p: Profile): (r: (bool, Profile))
    requires |p| == |counts|
    ensures |r.1| == |p|
  {
    if |p| == 0 then (false, [])
    else
      var n := |p| - 1;
      if p[n] + 1 < counts[n] then (true, p[..n] + [p[n] + 1])
      else
        var (more, q) := Tick(counts[..n], p[..n]);
        (more, q + [0])
  }

  /** One unfolding of `Tick`, for a profile with at least one role. */
  lemma TickLast(counts: seq<nat>, p: Profile, n: nat)
    requires |p| == |counts| == n + 1
    ensures p[n] + 1 < counts[n] ==> Tick(counts, p) == (true, p[..n] + [p[n] + 1])
    ensures p[n] + 1 >= counts[n] ==> Tick(counts, p) == (Tick(counts[..n], p[..n]).0, Tick(counts[..n], p[..n]).1 + [0])
  { }

  lemma ZerosPush(q: Profile, n: nat)
    ensures q + [0] + Zeros(n) == q + Zeros(n + 1)
    ensures Zeros(n) + [0] == Zeros(n + 1)
  { }

  /** The in-place form: increments from the last role on, carrying through the roles that wrap. */
  method AdvanceProfile(profile: array<int>, counts: seq<nat>) returns (more: bool)
    requires profile.Length == |counts|
    modifies profile
    ensures (more, profile[..]) == Tick(counts, old(profile[..]))
  {
    ghost var p := profile[..];
    var role := profile.Length;
    assert counts[..role] == counts && p[..role] == p;
    assert Tick(counts, p).1 + Zeros(0) == Tick(counts, p).1;
    hide Tick;
    while role > 0
      invariant 0 <= role <= profile.Length
      invariant forall k :: 0 <= k < role ==> profile[k] == p[k]
      invariant forall k :: role <= k < profile.Length ==> profile[k] == 0
      invariant Tick(counts, p) == (Tick(counts[..role], p[..role]).0, Tick(counts[..role], p[..role]).1 + Zeros(|p| - role))
    {
      role := role - 1;
      TickLast(counts[..role + 1], p[..role + 1], role);
      assert p[..role + 1][..role] == p[..role] && counts[..role + 1][..role] == counts[..role];
      profile[role] := profile[role] + 1;
      if profile[role] < counts[role] {
        assert profile[..] == p[..role] + [p[role] + 1] + Zeros(|p| - role - 1);
        return true;
      }
      profile[role] := 0;
      ZerosPush(Tick(counts[..role], p[..role]).1, |p| - role - 1);
    }
    more := false;
    assert counts[..0] == [] && p[..0] == [];
    EmptyTick();
    assert profile[..] == [] + Zeros(|p|);
  }

  lemma EmptyTick()
    ensures Tick([], []) == (false, [])
  { }

  // ---- ranks ----

  lemma {:induction false} RankInRange(counts: seq<nat>, p: Profile)
    requires ValidProfile(counts, p)
    ensures 0 <= Rank(counts, p) < Size(counts)
  {
    hide Flat, Quot, Rem;
    if |counts| > 0 {
      var n := |counts| - 1;
      RankInRange(counts[..n], p[..n]);
      FlatBounds(Rank(counts[..n], p[..n]), Size(counts[..n]), counts[n], p[n]);
    }
  }

  lemma {:induction false} UnrankRank(counts: seq<nat>, p: Profile)
    requires Playable(counts) && ValidProfile(counts, p)
    ensures Rank(counts, p) >= 0 && Unrank(counts, Rank(counts, p)) == p
  {
    hide Flat, Quot, Rem;
    RankInRange(counts, p);
    if |counts| > 0 {
      var n := |counts| - 1;
      RankInRange(counts[..n], p[..n]);
      UnrankRank(counts[..n], p[..n]);
      FlatQuot(Rank(counts[..n], p[..n]), counts[n], p[n]);
    }
  }

  lemma {:induction false} RankUnrank(counts: seq<nat>, i: nat)
    requires Playable(counts) && i < Size(counts)
    ensures ValidProfile(counts, Unrank(counts, i)) && Rank(counts, Unrank(counts, i)) == i
  {
    hide Flat, Quot, Rem;
    if |counts| > 0 {
      var n := |counts| - 1;
      var c := counts[n];
      QuotFlat(i, c);
      FlatBounds(Quot(i, c), Size(counts[..n]), c, Rem(i, c));
      RankUnrank(counts[..n], Quot(i, c));
    }
  }

  lemma {:induction false} ZerosFirst(counts: seq<nat>)
    requires Playable(counts)
    ensures ValidProfile(counts, Zeros(|counts|)) && Rank(counts, Zeros(|counts|)) == 0
  {
    if |counts| > 0 {
      var n := |counts| - 1;
      assert Zeros(|counts|)[..n] == Zeros(n);
      ZerosFirst(counts[..n]);
      assert Flat(0, counts[n], 0) == 0;
    }
  }

  lemma {:induction false} RankPush(counts: seq<nat>, q: Profile, d: int)
    requires |q| + 1 == |counts|
    ensures ValidProfile(counts, q + [d]) <==> ValidProfile(counts[..|q|], q) && 0 <= d < counts[|q|]
    ensures Rank(counts, q + [d]) == Flat(Rank(counts[..|q|], q), counts[|q|], d)
    ensures Size(counts) == Flat(Size(counts[..|q|]), counts[|q|], 0)
  {
    assert (q + [d])[..|q|] == q;
    if ValidProfile(counts, q + [d]) {
      forall i | 0 <= i < |q| ensures 0 <= q[i] < counts[i] {
        assert q[i] == (q + [d])[i];
      }
      assert (q + [d])[|q|] == d;
    }
  }

  /** A tick moves to the next rank, and reports the end exactly at the last profile, back at zero. */
  lemma {:induction false} TickIsNext(counts: seq<nat>, p: Profile)
    requires Playable(counts) && ValidProfile(counts, p)
    ensures var (more, q) := Tick(counts, p);
            && ValidProfile(counts, q)
            && (more <==> Rank(counts, p) + 1 < Size(counts))
            && (if more then Rank(counts, q) == Rank(counts, p) + 1 else q == Zeros(|p|))
  {
    RankInRange(counts, p);
    if |counts| > 0 {
      var n := |counts| - 1;
      var init, c := counts[..n], counts[n];
      assert p == p[..n] + [p[n]];
      RankPush(counts, p[..n], p[n]);
      TickIsNext(init, p[..n]);
      RankInRange(init, p[..n]);
      var t, r := Size(init), Rank(init, p[..n]);
      FlatBounds(r, t, c, p[n]);
      FlatBounds(r + 1, t, c, 0);
      TickLast(counts, p, n);
      hide Flat, Rank, Size, ValidProfile, Tick;
      if p[n] + 1 < c {
        FlatBounds(r, t, c, p[n] + 1);
        RankPush(counts, p[..n], p[n] + 1);
      } else {
        var (more, q) := Tick(init, p[..n]);
        RankPush(counts, q, 0);
        ZerosPush(q, n);
      }
    }
  }

  /** Every profile is visited at exactly one position. */
  lemma EveryProfileOnce(counts: seq<nat>, p: Profile)
    requires Playable(counts) && ValidProfile(counts, p)
    ensures exists i: nat :: i < Size(counts) && Unrank(counts, i) == p
    ensures forall i: nat, j: nat :: i < Size(counts) && j < Size(counts) && Unrank(counts, i) == p == Unrank(counts, j) ==> i == j
  {
    RankInRange(counts, p);
    UnrankRank(counts, p);
    forall i: nat, j: nat | i < Size(counts) && j < Size(counts) && Unrank(counts, i) == p == Unrank(counts, j) ensures i == j {
      RankUnrank(counts, i);
      RankUnrank(counts, j);
    }
  }

  // ---- sums over all profiles ----

  /** `f` summed over the actions of the last role. */
  function SumOut(f: Profile -> real, c: nat): Profile -> real {
    q => SumF(a => f(q + [a]), c)
  }

  /** The sum of `f` over all profiles, as nested sums over the roles. */
  ghost function Nested(counts: seq<nat>, f: Profile -> real): real {
    if |counts| == 0 then f([])
    else
      var n := |counts| - 1;
      Nested(counts[..n], SumOut(f, counts[n]))
  }

  lemma {:induction false} SumSplit(e: int -> real, tail: int -> real, m: nat, c: nat)
    requires forall lo :: 0 <= lo < c ==> tail(lo) == e(m + lo)
    ensures SumF(e, m + c) == SumF(e, m) + SumF(tail, c)
  {
    if c > 0 {
      SumSplit(e, tail, m, c - 1);
    }
  }

  /** A sum of `t * c` terms, block by block. */
  lemma {:induction false} BlockSum(e: int -> real, block: int -> real, t: nat, c: nat)
    requires forall hi :: 0 <= hi < t ==> block(hi) == SumF(lo => e(Flat(hi, c, lo)), c)
    ensures Flat(t, c, 0) >= 0 && SumF(e, Flat(t, c, 0)) == SumF(block, t)
  {
    FlatNonNegative(t, c);
    if t == 0 {
      assert Flat(0, c, 0) == 0;
    } else {
      var h := t - 1;
      BlockSum(e, block, h, c);
      assert Flat(t, c, 0) == Flat(h, c, 0) + c;
      forall lo | 0 <= lo < c ensures Flat(h, c, lo) == Flat(h, c, 0) + lo { }
      hide Flat;
      SumSplit(e, lo => e(Flat(h, c, lo)), Flat(h, c, 0), c);
    }
  }

  lemma UnrankPush(counts: seq<nat>, hi: nat, lo: nat)
    requires Playable(counts) && |counts| > 0 && lo < counts[|counts| - 1]
    requires hi < Size(counts[..|counts| - 1])
    ensures 0 <= Flat(hi, counts[|counts| - 1], lo) < Size(counts)
    ensures Unrank(counts, Flat(hi, counts[|counts| - 1], lo)) == Unrank(counts[..|counts| - 1], hi) + [lo]
  {
    hide Flat, Quot, Rem;
    var c := counts[|counts| - 1];
    FlatQuot(hi, c, lo);
    FlatBounds(hi, Size(counts[..|counts| - 1]), c, lo);
  }

  lemma BlockIsSumOut(counts: seq<nat>, f: Profile -> real, e: int -> real, hi: nat)
    requires Playable(counts) && |counts| > 0 && hi < Size(counts[..|counts| - 1])
    requires forall i :: 0 <= i < Size(counts) ==> e(i) == f(Unrank(counts, i))
    ensures var n := |counts| - 1;
            SumOut(f, counts[n])(Unrank(counts[..n], hi)) == SumF(lo => e(Flat(hi, counts[n], lo)), counts[n])
  {
    hide Unrank, Flat, Size;
    var n := |counts| - 1;
    var q, c := Unrank(counts[..n], hi), counts[n];
    forall lo | 0 <= lo < c ensures e(Flat(hi, c, lo)) == f(q + [lo]) {
      UnrankPush(counts, hi, lo);
    }
    SumExt(lo => e(Flat(hi, c, lo)), a => f(q + [a]), c);
  }

  /** Summing over the ranks in odometer order is summing over all profiles. */
  lemma {:induction false} RankSumIsNested(counts: seq<nat>, f: Profile -> real, e: int -> real)
    requires Playable(counts)
    requires forall i :: 0 <= i < Size(counts) ==> e(i) == f(Unrank(counts, i))
    ensures SumF(e, Size(counts)) == Nested(counts, f)
  {
    if |counts| == 0 {
      assert e(0) == f([]);
    } else {
      hide Unrank, SumOut, Flat;
      var n := |counts| - 1;
      var init, g := counts[..n], SumOut(f, counts[n]);
      var block := (hi: int) => if 0 <= hi then g(Unrank(init, hi)) else 0.0;
      forall hi | 0 <= hi < Size(init) ensures block(hi) == SumF(lo => e(Flat(hi, counts[n], lo)), counts[n]) {
        BlockIsSumOut(counts, f, e, hi);
      }
      BlockSum(e, block, Size(init), counts[n]);
      RankSumIsNested(init, g, block);
    }
  }
}
