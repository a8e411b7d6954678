/** The curve parameters the key exchange uses (secp256k1, section 2.4.1 of
    SEC 2) and the points of the curve engine, as far as the exchange looks
    into them: their two coordinates. */
module Secp256k1 {
  import opened Decimal

  /** The prime of the base field. */
  const P: int := 0xFFFF_FFFF_FFFF_FFFF_FFFF_FFFF_FFFF_FFFF_FFFF_FFFF_FFFF_FFFF_FFFF_FFFE_FFFF_FC2F

  /** The coefficients of y^2 = x^3 + a*x + b. */
  const A: int := 0
  const B: int := 7

  /** The order of the group generated by G. */
  const N: int := 0xFFFF_FFFF_FFFF_FFFF_FFFF_FFFF_FFFF_FFFE_BAAE_DCE6_AF48_A03B_BFD2_5E8C_D036_4141

  /** A point of the curve engine: affine coordinates, or the point at
      infinity, whose coordinates the engine stores as Python's `None`. */
  datatype Point = Affine(x: int, y: int) | Infinity

  /** The generator point. */
  const G: Point := Affine(
    0x79BE_667E_F9DC_BBAC_55A0_6295_CE87_0B07_029B_FCDB_2DCE_28D9_59F2_815B_16F8_1798,
    0x483A_DA77_26A3_C465_5DA4_FBFC_0E11_08A8_FD17_B448_A685_5419_9C47_D08F_FB10_D4B8)

  /** `str(p._Point__x) + str(p._Point__y)`: the two coordinates as decimal
      strings, side by side with nothing between them; `str(None)` is "None". */
  function CoordinateText(p: Point): string
  {
    match p
    case Affine(x, y) => Dec(x) + Dec(y)
    case Infinity => "None" + "None"
  }

  /** The text reads back: cut after as many characters as `str(x)` has, the
      two halves parse to the two coordinates; non-negative coordinates give
      only digits; the point at infinity gives "NoneNone". */
  lemma CoordinateTextReadsBack(p: Point)
    ensures p.Infinity? ==> CoordinateText(p) == "NoneNone"
    ensures p.Affine? ==>
              var r, n := CoordinateText(p), |Dec(p.x)|;
              n <= |r| && IsIntString(r[..n]) && ParseInt(r[..n]) == p.x
              && IsIntString(r[n..]) && ParseInt(r[n..]) == p.y
    ensures p.Affine? && p.x >= 0 && p.y >= 0 ==> AllDigits(CoordinateText(p))
  {
    if p.Affine? {
      var r, n := CoordinateText(p), |Dec(p.x)|;
      assert r[..n] == Dec(p.x) && r[n..] == Dec(p.y);
    }
  }

  /** Affine coordinates carry no delimiter: two different points can have
      the same text. */
  lemma CoordinateTextNotInjective()
    ensures Affine(1, 23) != Affine(12, 3)
    ensures CoordinateText(Affine(1, 23)) == CoordinateText(Affine(12, 3)) == "123"
  {
  }
}
