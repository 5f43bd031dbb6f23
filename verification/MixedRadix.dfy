// Composing and splitting indices by blocks of equal length.
module MixedRadix {

  /** Mixed-radix composition: block `hi` of length `c`, offset `lo`. */
  function Flat(hi: int, c: int, lo: int): int { hi * c + lo }

  function Quot(i: nat, c: nat): nat
    requires c > 0
  {
    i / c
  }

  function Rem(i: nat, c: nat): nat
    requires c > 0
  {
    i % c
  }

  lemma FlatNonNegative(t: nat, c: nat)
    ensures Flat(t, c, 0) >= 0
  { }

  lemma WholeBlocks(d: int, c: int)
    requires c >= 0
    ensures d >= 0 ==> d * c >= 0
    ensures d >= 1 ==> d * c >= c
    ensures d <= -1 ==> d * c <= -c
  {
    if d >= 1 {
      var m := d - 1;
      assert m * c >= 0 && d * c == m * c + c;
    } else if d <= -1 {
      var m := -d - 1;
      assert m * c >= 0 && d * c == -(m * c) - c;
    }
  }

  /** Composing and decomposing are inverse. */
  lemma FlatQuot(q: nat, c: nat, r: nat)
    requires r < c
    ensures Flat(q, c, r) >= 0 && Quot(Flat(q, c, r), c) == q && Rem(Flat(q, c, r), c) == r
  {
    var x := q * c + r;
    WholeBlocks(q, c);
    var d := x / c - q;
    assert x == (x / c) * c + x % c;
    assert d * c == r - x % c;
    WholeBlocks(d, c);
  }

  lemma QuotFlat(i: nat, c: nat)
    requires c > 0
    ensures Flat(Quot(i, c), c, Rem(i, c)) == i && Rem(i, c) < c
  { }

  lemma FlatBounds(q: int, t: int, c: nat, lo: nat)
    requires lo < c
    ensures q >= 0 ==> Flat(q, c, lo) >= 0
    ensures q < t <==> Flat(q, c, lo) < Flat(t, c, 0)
    ensures Flat(q, c, lo) + 1 == Flat(q, c, lo + 1)
    ensures lo == c - 1 ==> Flat(q, c, lo) + 1 == Flat(q + 1, c, 0)
  {
    WholeBlocks(q, c);
    WholeBlocks(t - q, c);
    assert (t - q) * c == t * c - q * c;
  }
}
