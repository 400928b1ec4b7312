/** The 8.4 pseudo-floating-point codec of encode.h. */
module PseudoFp {
  import opened Bits

  const HIBIT := 128
  const EMASK := 15
  const MMASK := 240
  const MAX_VALUE := (256 - 16) * Pow2(15)

  /** COAP_PSEUDOFP_DECODE_8_4 */
  function Decode(r: nat): nat {
    if r < HIBIT then r else And(r, MMASK) * Pow2(And(r, EMASK))
  }

  /** coap_fls: the 1-based position of the highest set bit. */
  function Fls(v: nat): nat {
    if v == 0 then 0 else 1 + Fls(v / 2)
  }

  /** The exponent of a value that does not fit seven bits. */
  function Exponent(v: nat): nat
    requires v >= HIBIT
  {
    FlsAtLeast(v);
    Fls(v) - 8
  }

  /** v >> ls */
  function ShiftRight(v: nat, ls: nat): nat {
    Quotient(v, Pow2(ls))
  }

  /** COAP_PSEUDOFP_ENCODE_8_4_DOWN */
  function EncodeDown(v: nat): nat {
    if v < HIBIT then v
    else
      var ls := Exponent(v);
      And(ShiftRight(v, ls), MMASK) + ls
  }

  /** COAP_PSEUDOFP_ENCODE_8_4_UP */
  function EncodeUp(v: nat): nat {
    if v < HIBIT then v
    else
      var ls := Exponent(v);
      var s := And(ShiftRight(v + Pow2(4 + ls) - 1, ls), MMASK);
      if s == 0 then HIBIT + ls + 1 else s + ls
  }

  lemma {:induction false} FlsBounds(v: nat)
    requires v > 0
    ensures Fls(v) >= 1 && Pow2(Fls(v) - 1) <= v < Pow2(Fls(v))
  {
    if v > 1 {
      FlsBounds(v / 2);
    }
  }

  lemma {:induction false} FlsUnique(v: nat, k: nat)
    requires Pow2(k) <= v < Pow2(k + 1)
    ensures Fls(v) == k + 1
  {
    if k > 0 {
      FlsUnique(v / 2, k - 1);
    }
  }

  lemma FlsAtLeast(v: nat)
    requires v >= HIBIT
    ensures Fls(v) >= 8
  {
    FlsBounds(v);
    SmallPowers();
    if Fls(v) < 8 {
      Pow2Monotone(Fls(v), 7);
    }
  }

  lemma AndShift(x: nat, y: nat)
    ensures And(x, 2 * y) == 2 * And(x / 2, y)
  {
    var z := 2 * y;
    assert z / 2 == y && z % 2 == 0;
    if x == 0 || y == 0 {
    } else {
      assert And(x, z) == 2 * And(x / 2, z / 2);
    }
  }

  /** Masking the high nibble of a byte, and of a byte with a carry beyond it. */
  lemma HighNibble(x: nat)
    ensures And(x, MMASK) == 16 * (x / 16 % 16) && And(x, EMASK) == x % 16
  {
    hide And;
    SmallPowers();
    AndMask(x / 16, 4);
    AndMask(x, 4);
    AndShift(x, 120);
    AndShift(x / 2, 60);
    AndShift(x / 4, 30);
    AndShift(x / 8, 15);
    assert x / 2 / 2 == x / 4 && x / 4 / 2 == x / 8 && x / 8 / 2 == x / 16;
  }

  /** A byte from 128 up decodes to its mantissa times a power of two. */
  lemma DecodeBig(r: nat)
    requires HIBIT <= r < 256
    ensures Decode(r) == 16 * (r / 16) * Pow2(r % 16) && 8 <= r / 16 <= 15
  {
    hide And, Pow2;
    HighNibble(r);
    assert r / 16 % 16 == r / 16;
  }

  /** A byte below 128 stands for itself, another for its high nibble, in place, times two to its low nibble. */
  lemma DecodeIs(r: nat)
    requires r < 256
    ensures Decode(r) == if r < 128 then r else 16 * (r / 16) * Pow2(r % 16)
    ensures MAX_VALUE == 7_864_320
  {
    hide And;
    if r >= 128 {
      DecodeBig(r);
    }
    TwoTo15();
  }

  lemma TwoTo15()
    ensures Pow2(15) == 32768
  {
    hide Pow2;
    SmallPowers();
    Pow2Add(8, 7);
  }

  /** v lies between 128 p and 256 p; m is its quotient by p, f the rest. */
  ghost predicate Normal(v: nat, ls: nat, p: nat, m: nat, f: nat) {
    v >= HIBIT && Fls(v) == ls + 8 && p == Pow2(ls) && v == m * p + f && f < p && 128 <= m < 256
  }

  lemma Normalise(v: nat) returns (ls: nat, p: nat, m: nat, f: nat)
    requires v >= HIBIT
    ensures Normal(v, ls, p, m, f)
  {
    hide Fls, Pow2;
    FlsAtLeast(v);
    FlsBounds(v);
    SmallPowers();
    ls := Fls(v) - 8;
    p := Pow2(ls);
    m, f := DivideInto(v, p);
    Pow2Add(ls, 7);
    Pow2Add(ls, 8);
    MulLess(m, 128, p);
    MulLess(255, m, p);
  }

  /** Rounding down drops the low nibble of the quotient. */
  lemma DownIs(v: nat, ls: nat, p: nat, m: nat, f: nat)
    requires Normal(v, ls, p, m, f)
    ensures EncodeDown(v) == 16 * (m / 16) + ls
  {
    hide Fls, Pow2, And;
    QuotientUnique(v, p, m, f);
    HighNibble(m);
    assert m / 16 % 16 == m / 16;
  }

  /** The quotient after adding 16 p - 1. */
  function Raised(m: nat, f: nat): nat {
    if f == 0 then m + 15 else m + 16
  }

  lemma RaisedQuotient(v: nat, p: nat, m: nat, f: nat)
    requires v == m * p + f && f < p
    ensures (v + 16 * p - 1) / p == Raised(m, f)
  {
    Distribute(m, 16, p);
    Distribute(m + 15, 1, p);
    QuotientUnique(v + 16 * p - 1, p, Raised(m, f), if f == 0 then p - 1 else f - 1);
  }

  /** Rounding up; a carry out of the byte becomes the next exponent. */
  lemma UpIs(v: nat, ls: nat, p: nat, m: nat, f: nat)
    requires Normal(v, ls, p, m, f)
    ensures EncodeUp(v) == if Raised(m, f) >= 256 then HIBIT + ls + 1 else 16 * (Raised(m, f) / 16) + ls
  {
    hide Fls, Pow2, And;
    RaisedQuotient(v, p, m, f);
    SmallPowers();
    Pow2Add(4, ls);
    HighNibble(Raised(m, f));
    NibbleOf(Raised(m, f));
  }

  lemma NibbleOf(x: nat)
    requires 143 <= x <= 271
    ensures 16 * (x / 16 % 16) == if x >= 256 then 0 else 16 * (x / 16)
  {
  }

  /** Where a byte from 128 up lies, seen from v: below all of its scale, above it, or on it. */
  lemma Compare(v: nat, ls: nat, p: nat, m: nat, f: nat, r: nat)
    requires Normal(v, ls, p, m, f) && HIBIT <= r < 256
    ensures r % 16 < ls ==> Decode(r) < 128 * p
    ensures r % 16 == ls ==> Decode(r) == 16 * (r / 16) * p
    ensures r % 16 > ls ==> Decode(r) >= 256 * p
  {
    hide Decode, Fls, Pow2;
    DecodeBig(r);
    var a, e, q := 16 * (r / 16), r % 16, Pow2(r % 16);
    if e < ls {
      Pow2Monotone(e + 1, ls);
      Doubled(e);
      MulMonotone(a, 240, q);
    } else if e > ls {
      Pow2Monotone(ls + 1, e);
      Doubled(ls);
      MulMonotone(128, a, q);
    }
  }

  lemma Doubled(e: nat)
    ensures Pow2(e + 1) == 2 * Pow2(e)
  {
  }

  lemma MulMonotone(a: nat, b: nat, q: nat)
    requires a <= b
    ensures a * q <= b * q
  {
    MulLess(a, b, q);
  }

  /** Up to MAX_VALUE the exponent fits its four bits, and at the largest exponent so does the mantissa. */
  lemma ExponentFits(v: nat, ls: nat, p: nat, m: nat, f: nat)
    requires Normal(v, ls, p, m, f) && v <= MAX_VALUE
    ensures ls <= 15 && (ls == 15 ==> m < 240 || (m == 240 && f == 0))
  {
    hide Fls, Pow2;
    var q := Pow2(15);
    assert m * p <= 240 * q;
    if ls >= 16 {
      Pow2Monotone(16, ls);
      Doubled(15);
      MulMonotone(128, m, p);
    } else if ls == 15 {
      MulLess(240, m, q);
    }
  }

  lemma DecodeParts(a: nat, ls: nat)
    requires 8 <= a <= 15 && ls <= 15
    ensures HIBIT <= 16 * a + ls < 256 && Decode(16 * a + ls) == 16 * a * Pow2(ls)
  {
    hide Decode, Pow2;
    DecodeBig(16 * a + ls);
  }

  lemma DownBeats(v: nat, ls: nat, p: nat, m: nat, f: nat, r: nat)
    requires Normal(v, ls, p, m, f) && r < 256 && Decode(r) <= v
    ensures Decode(r) <= 16 * (m / 16) * p
  {
    hide Fls, Pow2;
    MulMonotone(128, 16 * (m / 16), p);
    MulLess(m, 256, p);
    if r >= HIBIT {
      hide Decode;
      Compare(v, ls, p, m, f, r);
      if r % 16 == ls {
        MulLess(m, 16 * (r / 16), p);
        MulMonotone(r / 16, m / 16, 16 * p);
        assert 16 * (r / 16) <= m;
        MulMonotone(16 * (r / 16), 16 * (m / 16), p);
      }
    } else {
      assert 128 * p >= 128;
    }
  }

  lemma DownCovers(v: nat, p: nat, m: nat, f: nat)
    requires v == m * p + f && f < p && 128 <= m < 256
    ensures var g := 16 * (m / 16); g * p <= v && 8 * (v - g * p) < v
  {
    var g := 16 * (m / 16);
    Distribute(g, m - g, p);
    MulMonotone(m - g, 15, p);
    MulMonotone(128, m, p);
    MulMonotone(g, m, p);
  }

  /** The DOWN encoder gives the largest representable value not above v, short of v by less than an eighth of v. */
  lemma DownIsFloor(v: nat)
    requires v <= MAX_VALUE
    ensures var d := EncodeDown(v);
            && d < 256 && Decode(d) <= v && (v < HIBIT ==> Decode(d) == v) && (v >= HIBIT ==> 8 * (v - Decode(d)) < v)
            && forall r :: 0 <= r < 256 && Decode(r) <= v ==> Decode(r) <= Decode(d)
  {
    if v >= HIBIT {
      hide Decode, EncodeDown, Fls, Pow2;
      var ls, p, m, f := Normalise(v);
      ExponentFits(v, ls, p, m, f);
      DownIs(v, ls, p, m, f);
      DecodeParts(m / 16, ls);
      DownCovers(v, p, m, f);
      forall r | 0 <= r < 256 && Decode(r) <= v
        ensures Decode(r) <= Decode(EncodeDown(v))
      {
        DownBeats(v, ls, p, m, f, r);
      }
    }
  }

  /** A multiple of p by a multiple of 16 that reaches v reaches the raised quotient's multiple of 16. */
  lemma MultipleReaches(p: nat, m: nat, f: nat, k: nat)
    requires f < p && 16 * k * p >= m * p + f
    ensures 16 * k >= 16 * (Raised(m, f) / 16)
  {
    var a := 16 * k;
    MulLess(a, m, p);
    Distribute(m, 1, p);
    MulLess(a, m + 1, p);
  }

  /** The multiple of p that v is rounded up to. */
  function RoundedUp(m: nat, f: nat): nat {
    if Raised(m, f) >= 256 then 256 else 16 * (Raised(m, f) / 16)
  }

  lemma UpBeats(v: nat, ls: nat, p: nat, m: nat, f: nat, r: nat)
    requires Normal(v, ls, p, m, f) && r < 256 && Decode(r) >= v
    ensures RoundedUp(m, f) * p <= Decode(r)
  {
    hide Fls, Pow2, And;
    var g := 16 * (Raised(m, f) / 16);
    MulMonotone(128, m, p);
    MulMonotone(g, 256, p);
    if r >= HIBIT {
      hide Decode, Raised;
      Compare(v, ls, p, m, f, r);
      if r % 16 == ls {
        MultipleReaches(p, m, f, r / 16);
        MulMonotone(g, 16 * (r / 16), p);
      }
    }
  }

  lemma UpCovers(v: nat, p: nat, m: nat, f: nat)
    requires v == m * p + f && f < p && 128 <= m < 256
    ensures var g := RoundedUp(m, f);
            v <= g * p && 8 * (g * p - v) < v
  {
    var g := RoundedUp(m, f);
    Distribute(m, g - m, p);
    MulMonotone(g - m, 16, p);
    MulMonotone(128, m, p);
    if f == 0 {
      MulMonotone(m, g, p);
      MulMonotone(g - m, 15, p);
    } else {
      MulLess(m, g, p);
    }
  }

  /** The UP encoding stands for that multiple. */
  lemma UpDecoded(v: nat, ls: nat, p: nat, m: nat, f: nat)
    requires Normal(v, ls, p, m, f) && v <= MAX_VALUE
    ensures EncodeUp(v) < 256 && Decode(EncodeUp(v)) == RoundedUp(m, f) * p
  {
    hide Decode, EncodeUp, Fls, Pow2;
    ExponentFits(v, ls, p, m, f);
    UpIs(v, ls, p, m, f);
    var x := Raised(m, f);
    if x >= 256 {
      DecodeParts(8, ls + 1);
      Doubled(ls);
    } else {
      DecodeParts(x / 16, ls);
    }
  }

  /** The UP encoder gives the smallest representable value not below v, the carry case included, over v by less
      than an eighth of v. */
  lemma UpIsCeiling(v: nat)
    requires v <= MAX_VALUE
    ensures var d := EncodeUp(v);
            && d < 256 && v <= Decode(d) && (v < HIBIT ==> Decode(d) == v) && (v >= HIBIT ==> 8 * (Decode(d) - v) < v)
            && forall r :: 0 <= r < 256 && v <= Decode(r) ==> Decode(d) <= Decode(r)
  {
    if v >= HIBIT {
      hide Decode, EncodeUp, Fls, Pow2, RoundedUp;
      var ls, p, m, f := Normalise(v);
      UpDecoded(v, ls, p, m, f);
      UpCovers(v, p, m, f);
      forall r | 0 <= r < 256 && v <= Decode(r)
        ensures Decode(EncodeUp(v)) <= Decode(r)
      {
        UpBeats(v, ls, p, m, f, r);
      }
    }
  }

  lemma NormalOf(a: nat, e: nat)
    requires 128 <= a < 256
    ensures Normal(a * Pow2(e), e, Pow2(e), a, 0)
  {
    hide Fls, Pow2;
    var p := Pow2(e);
    SmallPowers();
    Pow2Add(e, 7);
    Pow2Add(e, 8);
    MulMonotone(128, a, p);
    MulLess(a, 256, p);
    assert Pow2(e + 7) == 128 * p && Pow2((e + 7) + 1) == 256 * p;
    FlsUnique(a * p, e + 7);
  }

  /** A value whose quotient is a multiple of 16 with no rest is encoded without rounding. */
  lemma Exact(v: nat, e: nat, p: nat, k: nat)
    requires Normal(v, e, p, 16 * k, 0)
    ensures EncodeDown(v) == 16 * k + e && EncodeUp(v) == 16 * k + e
  {
    hide EncodeDown, EncodeUp, Fls, Pow2, And;
    DownIs(v, e, p, 16 * k, 0);
    UpIs(v, e, p, 16 * k, 0);
    assert Raised(16 * k, 0) == 16 * k + 15 && 16 * k + 15 < 256;
  }

  /** Both encoders give back every byte from its decoded value. */
  lemma EncodersInvertDecode(r: nat)
    requires r < 256
    ensures EncodeDown(Decode(r)) == r && EncodeUp(Decode(r)) == r
  {
    if r >= HIBIT {
      hide Normal, Decode, EncodeDown, EncodeUp, Fls, Pow2, And;
      DecodeBig(r);
      NormalOf(16 * (r / 16), r % 16);
      Exact(Decode(r), r % 16, Pow2(r % 16), r / 16);
    }
  }
}
