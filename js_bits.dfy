/**
 * The JavaScript 32-bit integer operators on integral numbers: ToInt32, ToUint32,
 * `<<`, `>>`, `>>>`, `&`, `|` and `~`. Every operand is first reduced modulo 2^32;
 * shift counts are taken modulo 32.
 */
module JsBits {

  const TwoTo32: nat := 0x1_0000_0000

  function Pow2(n: nat): (r: nat)
    ensures r >= 1
  {
    if n == 0 then 1 else 2 * Pow2(n - 1)
  }

  /** ToUint32: the residue modulo 2^32 (the `>>> 0` idiom). */
  function ToUint32(x: int): (r: nat)
    ensures r < TwoTo32
  {
    x % TwoTo32
  }

  /** ToInt32: the residue modulo 2^32 read as two's complement (the `| 0` idiom). */
  function ToInt32(x: int): (r: int)
    ensures -0x8000_0000 <= r < 0x8000_0000
  {
    var u := ToUint32(x);
    if u >= 0x8000_0000 then u - TwoTo32 else u
  }

  function ShiftCount(n: int): (k: nat)
    ensures k < 32
  {
    ToUint32(n) % 32
  }

  /** `x << n` */
  function ShiftLeft(x: int, n: int): int
  {
    ToInt32(ToUint32(x) * Pow2(ShiftCount(n)))
  }

  /** `x >> n`: arithmetic (sign-propagating) shift, i.e. floor division. */
  function ShiftRight(x: int, n: int): int
  {
    ToInt32(x) / Pow2(ShiftCount(n))
  }

  /** `x >>> n`: logical shift of the unsigned reading. */
  function ShiftRightUnsigned(x: int, n: int): int
  {
    ToUint32(x) / Pow2(ShiftCount(n))
  }

  /** Bitwise and of two naturals, one binary digit at a time. */
  function AndNat(a: nat, b: nat): (r: nat)
    ensures r <= a && r <= b
    decreases a
  {
    if a == 0 || b == 0 then 0
    else 2 * AndNat(a / 2, b / 2) + (if a % 2 == 1 && b % 2 == 1 then 1 else 0)
  }

  /** Bitwise or of two naturals, one binary digit at a time. */
  function OrNat(a: nat, b: nat): nat
    decreases a
  {
    if a == 0 then b
    else if b == 0 then a
    else 2 * OrNat(a / 2, b / 2) + (if a % 2 == 1 || b % 2 == 1 then 1 else 0)
  }

  /** `a & b` */
  function And(a: int, b: int): int
  {
    ToInt32(AndNat(ToUint32(a), ToUint32(b)))
  }

  /** `a | b` */
  function Or(a: int, b: int): int
  {
    ToInt32(OrNat(ToUint32(a), ToUint32(b)))
  }

  /** `~a` */
  function Not(a: int): int
  {
    ToInt32(TwoTo32 - 1 - ToUint32(a))
  }

  // ---------------------------------------------------------------------------
  // Arithmetic facts used by the lemmas below.

  /** Splitting off the lowest binary digit commutes with reduction modulo 2p. */
  lemma ModDouble(x: nat, p: nat)
    requires p >= 1
    ensures x % (2 * p) == 2 * ((x / 2) % p) + x % 2
  {
    var q, r := x / 2, x % 2;
    var a, b := q / p, q % p;
    assert x == (2 * p) * a + (2 * b + r) by {
      assert q == p * a + b;
      assert x == 2 * q + r;
    }
    DivModUnique(x, 2 * p, a, 2 * b + r);
  }

  /** Division and remainder are determined by any decomposition x == m*q + r with 0 <= r < m. */
  lemma DivModUnique(x: int, m: int, q: int, r: int)
    requires m > 0 && 0 <= r < m && x == m * q + r
    ensures x / m == q && x % m == r
  {
    var q', r' := x / m, x % m;
    assert m * q' + r' == m * q + r;
    if q' > q {
      assert m * (q' - q) == m * q' - m * q;
      MulAtLeast(m, q' - q);
    } else if q' < q {
      assert m * (q - q') == m * q - m * q';
      MulAtLeast(m, q - q');
    }
  }

  lemma {:induction false} MulAtLeast(m: nat, d: nat)
    requires d >= 1
    ensures m * d >= m
  {
    if d > 1 {
      MulAtLeast(m, d - 1);
      assert m * d == m * (d - 1) + m;
    }
  }

  /** The powers of two that the 8-, 16- and 32-bit operators use. */
  lemma Pow2Values()
    ensures Pow2(8) == 0x100 && Pow2(16) == 0x1_0000 && Pow2(24) == 0x100_0000
    ensures Pow2(30) == 0x4000_0000 && Pow2(31) == 0x8000_0000 && Pow2(32) == TwoTo32
  {
    assert Pow2(1) == 2;
    assert Pow2(2) == 4;
    assert Pow2(3) == 8;
    assert Pow2(4) == 16;
    assert Pow2(5) == 32;
    assert Pow2(6) == 64;
    assert Pow2(7) == 128;
    assert Pow2(8) == 256;
    assert Pow2(9) == 512;
    assert Pow2(10) == 1024;
    assert Pow2(11) == 2048;
    assert Pow2(12) == 4096;
    assert Pow2(13) == 8192;
    assert Pow2(14) == 16384;
    assert Pow2(15) == 32768;
    assert Pow2(16) == 65536;
    assert Pow2(17) == 131072;
    assert Pow2(18) == 262144;
    assert Pow2(19) == 524288;
    assert Pow2(20) == 1048576;
    assert Pow2(21) == 2097152;
    assert Pow2(22) == 4194304;
    assert Pow2(23) == 8388608;
    assert Pow2(24) == 16777216;
    assert Pow2(25) == 33554432;
    assert Pow2(26) == 67108864;
    assert Pow2(27) == 134217728;
    assert Pow2(28) == 268435456;
    assert Pow2(29) == 536870912;
    assert Pow2(30) == 1073741824;
    assert Pow2(31) == 2147483648;
    assert Pow2(32) == 4294967296;
  }

  // ---------------------------------------------------------------------------
  // Masks

  /** Anding with a mask of k low one-bits keeps the residue modulo 2^k. */
  lemma {:induction false} AndLowMask(x: nat, k: nat)
    ensures AndNat(x, Pow2(k) - 1) == x % Pow2(k)
  {
    if k == 0 {
      assert Pow2(k) - 1 == 0;
    } else {
      AndLowMask(x / 2, k - 1);
      LowMaskStep(x, Pow2(k - 1), Pow2(k));
    }
  }

  lemma LowMaskStep(x: nat, p: nat, pk: nat)
    requires p >= 1 && pk == 2 * p
    requires AndNat(x / 2, p - 1) == (x / 2) % p
    ensures AndNat(x, pk - 1) == x % pk
  {
    if x == 0 {
      assert AndNat(x, pk - 1) == 0;
    } else {
      AndOddMask(x, p);
      ModDouble(x, p);
    }
  }

  lemma AndOddMask(x: nat, p: nat)
    requires p >= 1
    ensures AndNat(x, 2 * p - 1) == 2 * AndNat(x / 2, p - 1) + x % 2
  {
    var m := 2 * p - 1;
    assert m / 2 == p - 1 && m % 2 == 1;
  }

  lemma AndEvenMask(x: nat, h: nat)
    ensures AndNat(x, 2 * h) == 2 * AndNat(x / 2, h)
  {
    if x != 0 && h != 0 {
      assert (2 * h) / 2 == h && (2 * h) % 2 == 0;
    }
  }

  /** `x & ~1` on a 32-bit value clears its lowest bit. */
  lemma ClearLowestBit(x: nat)
    requires x < TwoTo32
    ensures AndNat(x, TwoTo32 - 2) == x - x % 2
  {
    var h := x / 2;
    assert x - x % 2 == 2 * h && h < 0x8000_0000;
    AndEvenMask(x, 0x7FFF_FFFF);
    assert AndNat(h, 0x7FFF_FFFF) == h by {
      assert Pow2(31) == 0x8000_0000 by { Pow2Values(); }
      LowBitsOfSmall(h, 31);
    }
  }

  /** `x & ~3` on a 32-bit value clears its two lowest bits. */
  lemma ClearLowestTwoBits(x: nat)
    requires x < TwoTo32
    ensures AndNat(x, TwoTo32 - 4) == x - x % 4
  {
    var y := x / 4;
    HalveTwice(x);
    assert y < 0x4000_0000;
    AndEvenMask(x, 0x7FFF_FFFE);
    AndEvenMask(x / 2, 0x3FFF_FFFF);
    assert AndNat(y, 0x3FFF_FFFF) == y by {
      assert Pow2(30) == 0x4000_0000 by { Pow2Values(); }
      LowBitsOfSmall(y, 30);
    }
  }

  lemma HalveTwice(x: nat)
    ensures (x / 2) / 2 == x / 4 && x - x % 4 == 4 * (x / 4)
  {
    var h := x / 2;
    assert x == 4 * (h / 2) + 2 * (h % 2) + x % 2;
    DivModUnique(x, 4, h / 2, 2 * (h % 2) + x % 2);
  }

  /** A value below 2^k is unchanged by the mask of k low one-bits. */
  lemma LowBitsOfSmall(y: nat, k: nat)
    requires k == 30 || k == 31
    requires y < Pow2(k)
    ensures AndNat(y, Pow2(k) - 1) == y
  {
    AndLowMask(y, k);
    DivModUnique(y, Pow2(k), 0, y);
  }

  /** Or-ing a value below 2^k into a multiple of 2^k is addition. */
  lemma {:induction false} OrDisjoint(lo: nat, hi: nat, k: nat)
    requires lo < Pow2(k)
    ensures OrNat(lo, hi * Pow2(k)) == lo + hi * Pow2(k)
  {
    if lo == 0 || hi == 0 {
    } else {
      assert k > 0;
      var p := Pow2(k - 1);
      assert hi * Pow2(k) == 2 * (hi * p);
      assert (hi * Pow2(k)) / 2 == hi * p && (hi * Pow2(k)) % 2 == 0;
      OrDisjoint(lo / 2, hi, k - 1);
    }
  }

  // ---------------------------------------------------------------------------
  // The operator idioms

  /** `x | 0` is ToInt32. */
  lemma OrZero(x: int)
    ensures Or(x, 0) == ToInt32(x)
  {
  }

  /** Reducing modulo 2^32 first does not change the residue modulo 2^8 or 2^16. */
  lemma Uint32Residues(x: int)
    ensures ToUint32(x) % 0x100 == x % 0x100
    ensures ToUint32(x) % 0x1_0000 == x % 0x1_0000
  {
    var u, t := ToUint32(x), x / TwoTo32;
    assert x == TwoTo32 * t + u;
    DivModUnique(x, 0x100, 0x100_0000 * t + u / 0x100, u % 0x100);
    DivModUnique(x, 0x1_0000, 0x1_0000 * t + u / 0x1_0000, u % 0x1_0000);
  }

  /** `x & 0xFF` keeps the residue modulo 2^8. */
  lemma AndByteMask(x: int)
    ensures And(x, 0xFF) == x % 0x100
  {
    var u := ToUint32(x);
    var r := AndNat(u, 0xFF);
    assert r == x % 0x100 by {
      assert Pow2(8) == 0x100 by { Pow2Values(); }
      AndLowMask(u, 8);
      Uint32Residues(x);
    }
    assert And(x, 0xFF) == ToInt32(r) by { assert ToUint32(0xFF) == 0xFF; }
    SmallIsInt32(r);
  }

  /** `x & 0xFFFF` keeps the residue modulo 2^16. */
  lemma AndHalfWordMask(x: int)
    ensures And(x, 0xFFFF) == x % 0x1_0000
  {
    var u := ToUint32(x);
    var r := AndNat(u, 0xFFFF);
    assert r == x % 0x1_0000 by {
      assert Pow2(16) == 0x1_0000 by { Pow2Values(); }
      AndLowMask(u, 16);
      Uint32Residues(x);
    }
    assert And(x, 0xFFFF) == ToInt32(r) by { assert ToUint32(0xFFFF) == 0xFFFF; }
    SmallIsInt32(r);
  }

  /** ToInt32 leaves a value of the non-negative int32 range unchanged. */
  lemma SmallIsInt32(r: int)
    requires 0 <= r < 0x8000_0000
    ensures ToInt32(r) == r
  {
    DivModUnique(r, TwoTo32, 0, r);
  }

  /** `(x & 0xFFFFFFFF) >>> 0` is the residue modulo 2^32. */
  lemma AndWordMask(x: int)
    ensures ToUint32(And(x, 0xFFFF_FFFF)) == ToUint32(x)
  {
    var u := ToUint32(x);
    assert ToUint32(0xFFFF_FFFF) == 0xFFFF_FFFF;
    assert Pow2(32) == TwoTo32 by { Pow2Values(); }
    AndLowMask(u, 32);
    DivModUnique(u, TwoTo32, 0, u);
    assert AndNat(u, 0xFFFF_FFFF) == u;
    var w := ToInt32(u);
    if u >= 0x8000_0000 {
      DivModUnique(w, TwoTo32, -1, u);
    } else {
      DivModUnique(w, TwoTo32, 0, u);
    }
  }

  /**
   * `x << 24 >> 24` keeps the low 8 bits of x and sign-extends them: the result
   * lies in [-2^7, 2^7) and is congruent to x modulo 2^8.
   */
  lemma SignExtend8(x: int)
    ensures var r := ShiftRight(ShiftLeft(x, 24), 24);
            -0x80 <= r < 0x80 && (x - r) % 0x100 == 0
  {
    var l := ToUint32(x) % 0x100;
    var s: int := if l >= 0x80 then (l as int) - 0x100 else l;
    ShiftLeft24(x, l, s);
    ShiftRight24(s);
    Uint32Residues(x);
    LowDigitCongruent(x, 0x100, l, s);
  }

  lemma ShiftLeft24(x: int, l: nat, s: int)
    requires l == ToUint32(x) % 0x100
    requires s == if l >= 0x80 then l - 0x100 else l
    ensures ShiftLeft(x, 24) == s * 0x100_0000
  {
    Pow2Values();
    assert ShiftCount(24) == 24;
    var u := ToUint32(x);
    ShiftedOutDigits(u, 0x100, 0x100_0000);
  }

  lemma ShiftRight24(s: int)
    requires -0x80 <= s < 0x80
    ensures ShiftRight(s * 0x100_0000, 24) == s
  {
    Pow2Values();
    assert ShiftCount(24) == 24;
    var w := s * 0x100_0000;
    assert ToInt32(w) == w;
    DivModUnique(w, 0x100_0000, s, 0);
  }

  /**
   * `x << 16 >> 16` keeps the low 16 bits of x and sign-extends them: the result
   * lies in [-2^15, 2^15) and is congruent to x modulo 2^16.
   */
  lemma SignExtend16(x: int)
    ensures var r := ShiftRight(ShiftLeft(x, 16), 16);
            -0x8000 <= r < 0x8000 && (x - r) % 0x1_0000 == 0
  {
    var l := ToUint32(x) % 0x1_0000;
    var s: int := if l >= 0x8000 then (l as int) - 0x1_0000 else l;
    ShiftLeft16(x, l, s);
    ShiftRight16(s);
    Uint32Residues(x);
    LowDigitCongruent(x, 0x1_0000, l, s);
  }

  lemma ShiftLeft16(x: int, l: nat, s: int)
    requires l == ToUint32(x) % 0x1_0000
    requires s == if l >= 0x8000 then l - 0x1_0000 else l
    ensures ShiftLeft(x, 16) == s * 0x1_0000
  {
    Pow2Values();
    assert ShiftCount(16) == 16;
    var u := ToUint32(x);
    ShiftedOutDigits(u, 0x1_0000, 0x1_0000);
  }

  lemma ShiftRight16(s: int)
    requires -0x8000 <= s < 0x8000
    ensures ShiftRight(s * 0x1_0000, 16) == s
  {
    Pow2Values();
    assert ShiftCount(16) == 16;
    var w := s * 0x1_0000;
    assert ToInt32(w) == w;
    DivModUnique(w, 0x1_0000, s, 0);
  }

  /** Multiplying by c with m * c == 2^32 keeps only the residue of u modulo m. */
  lemma ShiftedOutDigits(u: nat, m: nat, c: nat)
    requires m >= 1 && m * c == TwoTo32
    ensures (u * c) % TwoTo32 == (u % m) * c
  {
    var a, l := u / m, u % m;
    assert u * c == (m * a + l) * c;
    assert (m * a + l) * c == (m * c) * a + l * c;
    assert l * c < m * c by { MulStrict(l, m, c); }
    DivModUnique(u * c, TwoTo32, a, l * c);
  }

  lemma MulStrict(l: nat, m: nat, c: nat)
    requires l < m && c >= 1
    ensures l * c < m * c
  {
    assert m * c - l * c == (m - l) * c;
    MulAtLeast(c, m - l);
    assert c * (m - l) == (m - l) * c;
  }

  /** x is congruent modulo m to its residue l and to l - m. */
  lemma LowDigitCongruent(x: int, m: nat, l: nat, s: int)
    requires m >= 1 && l == x % m && (s == l || s == l - m)
    ensures (x - s) % m == 0
  {
    var q := x / m;
    if s == l {
      DivModUnique(x - s, m, q, 0);
    } else {
      assert x - s == m * (q + 1);
      DivModUnique(x - s, m, q + 1, 0);
    }
  }
}
