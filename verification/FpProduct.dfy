/** The rounded product of two 64-bit significands from four 32-bit partial products. */
module FpProducts {
  const UINT32 := 0x1_0000_0000
  const UINT64 := 0x1_0000_0000_0000_0000

  datatype Fp = Fp(f: nat, e: int)

  /** A 64-bit register keeps the low 64 bits. */
  function Wrap(n: nat): (r: nat)
    ensures r < UINT64 && (n < UINT64 ==> r == n)
  {
    n % UINT64
  }

  /** operator*, every operation on 64-bit registers. */
  function Product(x: Fp, y: Fp): Fp {
    var (a, b, c, d) := (x.f / UINT32, x.f % UINT32, y.f / UINT32, y.f % UINT32);
    var (ac, bc, ad, bd) := (Wrap(a * c), Wrap(b * c), Wrap(a * d), Wrap(b * d));
    var mid := Wrap(Wrap(Wrap(bd / UINT32 + ad % UINT32) + bc % UINT32) + 0x8000_0000);
    Fp(Wrap(Wrap(Wrap(ac + ad / UINT32) + bc / UINT32) + mid / UINT32), x.e + y.e + 64)
  }

  /** Every partial product and every sum fits its register. */
  ghost predicate NothingOverflows(x: Fp, y: Fp) {
    var (a, b, c, d) := (x.f / UINT32, x.f % UINT32, y.f / UINT32, y.f % UINT32);
    && a * c < UINT64 && b * c < UINT64 && a * d < UINT64 && b * d < UINT64
    && b * d / UINT32 + a * d % UINT32 + b * c % UINT32 + 0x8000_0000 < UINT64
    && a * c + a * d / UINT32 + b * c / UINT32
       + (b * d / UINT32 + a * d % UINT32 + b * c % UINT32 + 0x8000_0000) / UINT32 < UINT64
  }

  /** x * y / 2^64 to the nearest integer, halves up. */
  function Rounded(x: nat, y: nat): nat { (x * y + UINT64 / 2) / UINT64 }

  lemma ProductBound(a: nat, b: nat, n: nat)
    requires a < n && b < n
    ensures a * b <= (n - 1) * (n - 1)
  {
  }

  /** The schoolbook identity: what the partial products add up to. */
  lemma PartialProducts(a: nat, b: nat, c: nat, d: nat)
    ensures (a * UINT32 + b) * (c * UINT32 + d) == a * c * UINT64 + (a * d + b * c) * UINT32 + b * d
  {
  }

  /** Carrying the rounded middle: exact, because nothing below bit 32 of b * d can carry. */
  lemma CarryOnce(ac: nat, ad: nat, bc: nat, bd: nat)
    ensures var mid := bd / UINT32 + ad % UINT32 + bc % UINT32 + 0x8000_0000;
            (ac * UINT64 + (ad + bc) * UINT32 + bd + 0x8000_0000_0000_0000) / UINT64
            == ac + ad / UINT32 + bc / UINT32 + mid / UINT32
  {
    var mid := bd / UINT32 + ad % UINT32 + bc % UINT32 + 0x8000_0000;
    var high := ac + ad / UINT32 + bc / UINT32 + mid / UINT32;
    var low := mid % UINT32 * UINT32 + bd % UINT32;
    assert ac * UINT64 + (ad + bc) * UINT32 + bd + 0x8000_0000_0000_0000 == high * UINT64 + low;
    assert low < UINT64;
  }

  /** The registers never overflow: for all 64-bit significands the product is the rounded one. */
  lemma ProductIsRounded(x: Fp, y: Fp)
    requires x.f < UINT64 && y.f < UINT64
    ensures Product(x, y) == Fp(Rounded(x.f, y.f), x.e + y.e + 64)
    ensures var f := Product(x, y).f;
            0x1_0000_0000_0000_0000 * f <= x.f * y.f + 0x8000_0000_0000_0000 < 0x1_0000_0000_0000_0000 * (f + 1)
    ensures Rounded(x.f, y.f) < UINT64 && NothingOverflows(x, y)
  {
    var (a, b, c, d) := (x.f / UINT32, x.f % UINT32, y.f / UINT32, y.f % UINT32);
    ProductBound(a, c, UINT32);
    ProductBound(a, d, UINT32);
    ProductBound(b, c, UINT32);
    ProductBound(b, d, UINT32);
    PartialProducts(a, b, c, d);
    CarryOnce(a * c, a * d, b * c, b * d);
  }
}
