/**
  Machine words of the kernel: fixed-width unsigned integers with their wrap-around,
  the bitwise operators on them, and little-endian byte layouts.
  Words are mathematical integers in range, so that sizes and addresses can be added
  without conversions; every operation that can wrap says so by its name.
 */
module Machine {
  const TWO_32: nat := 0x1_0000_0000
  const TWO_64: nat := 0x1_0000_0000_0000_0000

  type u8 = x: int | 0 <= x < 256
  type u16 = x: int | 0 <= x < 0x1_0000
  type u32 = x: int | 0 <= x < 0x1_0000_0000
  type u64 = x: int | 0 <= x < 0x1_0000_0000_0000_0000

  datatype Option<+T> = None | Some(value: T)

  predicate IsAscii(text: string) {
    forall i :: 0 <= i < |text| ==> text[i] as int < 128
  }

  /** The bytes of a text literal. */
  function Ascii(text: string): (s: seq<u8>)
    requires IsAscii(text)
    ensures |s| == |text| && forall i :: 0 <= i < |s| ==> s[i] == text[i] as int
  {
    seq(|text|, i requires 0 <= i < |text| => text[i] as int)
  }

  function Add64(a: int, b: int): u64 {
    (a + b) % 0x1_0000_0000_0000_0000
  }

  function Sub64(a: int, b: int): u64 {
    (a - b) % 0x1_0000_0000_0000_0000
  }

  // Wrapping once or several times along a sum gives the same word.
  lemma WrapShift(x: int, q: int)
    ensures (x + q * 0x1_0000_0000_0000_0000) % 0x1_0000_0000_0000_0000 == x % 0x1_0000_0000_0000_0000
  {
  }

  lemma SubWraps(a: int, b: int)
    ensures Sub64(a % 0x1_0000_0000_0000_0000, b) == Sub64(a, b)
    ensures Sub64(a, b % 0x1_0000_0000_0000_0000) == Sub64(a, b)
  {
    WrapShift(a - b, -(a / 0x1_0000_0000_0000_0000));
    WrapShift(a - b, b / 0x1_0000_0000_0000_0000);
  }

  lemma AddWraps(a: int, b: int)
    ensures Add64(a % 0x1_0000_0000_0000_0000, b) == Add64(a, b)
  {
    WrapShift(a + b, -(a / 0x1_0000_0000_0000_0000));
  }

  function Add32(a: int, b: int): u32 {
    (a + b) % 0x1_0000_0000
  }

  function Min(a: int, b: int): int {
    if a < b then a else b
  }

  function Max(a: int, b: int): int {
    if a < b then b else a
  }

  // ---------- Bitwise operators ----------

  /** `a & b`, bit by bit from the least significant one. */
  function And(a: nat, b: nat): nat {
    if a == 0 || b == 0 then 0
    else (if a % 2 == 1 && b % 2 == 1 then 1 else 0) + 2 * And(a / 2, b / 2)
  }

  /** `a | b`, bit by bit from the least significant one. */
  function Or(a: nat, b: nat): nat {
    if a == 0 && b == 0 then 0
    else (if a % 2 == 1 || b % 2 == 1 then 1 else 0) + 2 * Or(a / 2, b / 2)
  }

  function Pow2(k: nat): (p: nat)
    ensures p >= 1
  {
    if k == 0 then 1 else 2 * Pow2(k - 1)
  }

  /** `a >> k` */
  function Shr(a: nat, k: nat): nat {
    if k == 0 then a else Shr(a / 2, k - 1)
  }

  /** `a << k`, without truncation */
  function Shl(a: nat, k: nat): nat {
    if k == 0 then a else 2 * Shl(a, k - 1)
  }

  lemma MultipleAtLeast(n: int, d: nat)
    requires n >= 1
    ensures n * d >= d
  {
    assert n * d == (n - 1) * d + d;
    assert (n - 1) * d >= 0;
  }

  // Quotient and remainder are unique.
  lemma DivisionIs(a: nat, d: nat, q: nat, r: nat)
    requires d > 0 && a == q * d + r && r < d
    ensures a / d == q && a % d == r
  {
    var q', r' := a / d, a % d;
    assert a == d * q' + r';
    assert d * q' == q' * d;
    assert (q - q') * d == r' - r by {
      assert (q - q') * d == q * d - q' * d;
    }
    assert (q' - q) * d == -((q - q') * d);
    if q' < q {
      MultipleAtLeast(q - q', d);
    } else if q < q' {
      MultipleAtLeast(q' - q, d);
    }
  }

  lemma QuotientNatural(a: nat, d: nat)
    requires d > 0
    ensures a / d >= 0
  {
    var q, p := a / d, -(a / d);
    assert a == d * q + a % d && d * q == -(p * d);
    if q < 0 {
      MultipleAtLeast(p, d);
    }
  }

  // Dividing by 2p is halving and then dividing by p.
  lemma HalveThenDivide(a: nat, p: nat)
    requires p > 0
    ensures a / (2 * p) == a / 2 / p
    ensures a % (2 * p) == 2 * (a / 2 % p) + a % 2
  {
    var q, r := a / 2 / p, a / 2 % p;
    assert a / 2 == p * q + r;
    assert q * (2 * p) == 2 * (p * q);
    DivisionIs(a, 2 * p, q, 2 * r + a % 2);
  }

  lemma AndOddMask(a: nat, m: nat)
    ensures And(a, 2 * m + 1) == a % 2 + 2 * And(a / 2, m)
  {
    assert (2 * m + 1) / 2 == m && (2 * m + 1) % 2 == 1;
  }

  // A mask of k ones keeps the remainder modulo 2^k.
  lemma {:induction false} AndLowMask(a: nat, k: nat)
    ensures And(a, Pow2(k) - 1) == a % Pow2(k)
  {
    hide And;
    if k == 0 {
      AndZero(a);
      DivisionIs(a, 1, a, 0);
    } else {
      AndLowMask(a / 2, k - 1);
      LowMaskStep(a, Pow2(k - 1));
    }
  }

  lemma AndZero(a: nat)
    ensures And(a, 0) == 0
  {
  }

  lemma LowMaskStep(a: nat, p: nat)
    requires p > 0 && And(a / 2, p - 1) == a / 2 % p
    ensures And(a, 2 * p - 1) == a % (2 * p)
  {
    hide And;
    AndOddMask(a, p - 1);
    HalveThenDivide(a, p);
  }

  // A mask whose low k bits are clear acts on the shifted word.
  lemma {:induction false} AndShiftedMask(a: nat, m: nat, k: nat)
    ensures And(a, Shl(m, k)) == Shl(And(Shr(a, k), m), k)
  {
    if k == 0 {
    } else {
      AndShiftedMask(a / 2, m, k - 1);
    }
    if a == 0 {
      ShrZero(k);
    }
  }

  lemma {:induction false} ShrZero(k: nat)
    ensures Shr(0, k) == 0
  {
    if k > 0 {
      ShrZero(k - 1);
    }
  }

  // The bitwise union of a word with k clear low bits and a word of k bits is their sum.
  lemma {:induction false} OrDisjoint(a: nat, b: nat, k: nat)
    requires b < Pow2(k)
    ensures Or(Shl(a, k), b) == Shl(a, k) + b
  {
    if k == 0 {
      OrZero(a);
    } else {
      OrDisjoint(a, b / 2, k - 1);
    }
  }

  lemma {:induction false} OrZero(a: nat)
    ensures Or(a, 0) == a
  {
    if a > 0 {
      OrZero(a / 2);
    }
  }

  // Shifts are multiplication and division by a power of two.
  lemma {:induction false} ShlIsTimes(a: nat, k: nat)
    ensures Shl(a, k) == a * Pow2(k)
  {
    if k > 0 {
      ShlIsTimes(a, k - 1);
      DoubleProduct(a, Pow2(k - 1));
    }
  }

  lemma {:induction false} ShrIsDivide(a: nat, k: nat)
    ensures Shr(a, k) == a / Pow2(k)
  {
    if k > 0 {
      ShrIsDivide(a / 2, k - 1);
      HalveThenDivide(a, Pow2(k - 1));
    }
  }

  lemma DoubleProduct(a: nat, p: nat)
    ensures 2 * (a * p) == a * (2 * p)
  {
  }

  lemma {:induction false} Pow2Sum(j: nat, k: nat)
    ensures Pow2(j + k) == Pow2(j) * Pow2(k)
  {
    if j > 0 {
      Pow2Sum(j - 1, k);
      DoubleProduct(Pow2(k), Pow2(j - 1));
    }
  }

  lemma Pow2Values()
    ensures Pow2(3) == 8 && Pow2(7) == 128 && Pow2(9) == 512 && Pow2(12) == 0x1000
    ensures Pow2(21) == 0x20_0000 && Pow2(29) == 0x2000_0000 && Pow2(30) == 0x4000_0000
    ensures Pow2(39) == 0x80_0000_0000 && Pow2(40) == 0x100_0000_0000
    ensures Pow2(61) == 0x2000_0000_0000_0000
  {
    assert Pow2(9) == 512;
    assert Pow2(12) == 8 * Pow2(9);
    Pow2Sum(9, 12);
    assert Pow2(29) == 256 * Pow2(21);
    Pow2Sum(9, 30);
    Pow2Sum(21, 40);
  }

  // Masking the w bits from bit k up keeps that field of the word.
  lemma AndFieldMask(a: nat, w: nat, k: nat)
    ensures And(a, Shl(Pow2(w) - 1, k)) == Shl(Shr(a, k) % Pow2(w), k)
  {
    AndShiftedMask(a, Pow2(w) - 1, k);
    AndLowMask(Shr(a, k), w);
  }

  /** Bit `k` of `a`. */
  predicate BitOf(a: nat, k: nat) {
    Shr(a, k) % 2 == 1
  }

  // The bitwise operators act on every bit for itself.
  lemma {:induction false} BitByBit(a: nat, b: nat, k: nat)
    ensures BitOf(And(a, b), k) <==> BitOf(a, k) && BitOf(b, k)
    ensures BitOf(Or(a, b), k) <==> BitOf(a, k) || BitOf(b, k)
  {
    hide And, Or;
    Halves(a, b);
    if k > 0 {
      BitByBit(a / 2, b / 2, k - 1);
    }
  }

  // The lowest bit and the rest of a bitwise combination.
  lemma Halves(a: nat, b: nat)
    ensures And(a, b) / 2 == And(a / 2, b / 2) && (And(a, b) % 2 == 1 <==> a % 2 == 1 && b % 2 == 1)
    ensures Or(a, b) / 2 == Or(a / 2, b / 2) && (Or(a, b) % 2 == 1 <==> a % 2 == 1 || b % 2 == 1)
  {
  }

  // ---------- Little-endian layout ----------

  function ToBytes(v: nat, n: nat): (s: seq<u8>)
    ensures |s| == n
  {
    if n == 0 then [] else [v % 256] + ToBytes(v / 256, n - 1)
  }

  function FromBytes(s: seq<u8>): nat {
    if s == [] then 0 else s[0] + 256 * FromBytes(s[1..])
  }

  function Pow256(n: nat): (p: nat)
    ensures p >= 1
  {
    if n == 0 then 1 else 256 * Pow256(n - 1)
  }

  lemma {:induction false} BytesRoundTrip(v: nat, n: nat)
    requires v < Pow256(n)
    ensures FromBytes(ToBytes(v, n)) == v
  {
    if n > 0 {
      BytesRoundTrip(v / 256, n - 1);
    }
  }

  lemma {:induction false} FromBytesBound(s: seq<u8>)
    ensures FromBytes(s) < Pow256(|s|)
  {
    if s != [] {
      FromBytesBound(s[1..]);
    }
  }

  lemma Pow256Values()
    ensures Pow256(4) == TWO_32 && Pow256(8) == TWO_64
  {
    assert Pow256(4) == TWO_32;
    assert Pow256(8) == 256 * 256 * 256 * 256 * Pow256(4);
  }

  function U32Of(s: seq<u8>): u32
    requires |s| == 4
  {
    FromBytesBound(s);
    Pow256Values();
    FromBytes(s)
  }

  function U64Of(s: seq<u8>): u64
    requires |s| == 8
  {
    FromBytesBound(s);
    Pow256Values();
    FromBytes(s)
  }

  lemma WordsRoundTrip(v: u64)
    ensures v < TWO_32 ==> U32Of(ToBytes(v, 4)) == v
    ensures U64Of(ToBytes(v, 8)) == v
  {
    hide ToBytes, FromBytes;
    Pow256Values();
    BytesRoundTrip(v, 8);
    if v < TWO_32 {
      BytesRoundTrip(v, 4);
    }
  }

  /** Four bytes as digits to the base 256, the first of them the lowest. */
  function Digits256(b0: int, b1: int, b2: int, b3: int): int {
    b0 + 0x100 * b1 + 0x1_0000 * b2 + 0x100_0000 * b3
  }

  // The least significant byte comes first.
  lemma LittleEndian(s: seq<u8>)
    ensures |s| == 4 ==> U32Of(s) == Digits256(s[0], s[1], s[2], s[3])
    ensures |s| == 8 ==>
      U64Of(s) == Digits256(s[0], s[1], s[2], s[3]) + 0x1_0000_0000 * Digits256(s[4], s[5], s[6], s[7])
  {
    if |s| == 4 {
      FourBytes(s);
    } else if |s| == 8 {
      FourBytes(s);
      FourBytes(s[4..]);
    }
  }

  lemma FourBytes(s: seq<u8>)
    requires |s| >= 4
    ensures FromBytes(s) == Digits256(s[0], s[1], s[2], s[3]) + 0x1_0000_0000 * FromBytes(s[4..])
    ensures |s| == 4 ==> FromBytes(s) == Digits256(s[0], s[1], s[2], s[3])
  {
    assert s[1..][1..] == s[2..] && s[2..][1..] == s[3..] && s[3..][1..] == s[4..];
    assert FromBytes(s[3..]) == s[3] + 256 * FromBytes(s[4..]);
    assert FromBytes(s[2..]) == s[2] + 256 * FromBytes(s[3..]);
    assert FromBytes(s[1..]) == s[1] + 256 * FromBytes(s[2..]);
  }

  // Clearing the low three bits of a word below 8 * top.
  lemma RoundDown(a: nat, top: nat)
    requires a < 8 * top
    ensures a / 8 % top * 8 == a - a % 8
  {
    DivisionIs(a / 8, top, 0, a / 8);
  }

  lemma SliceOfSlice<T>(s: seq<T>, a: nat, b: nat, c: nat, d: nat)
    requires a <= b <= |s| && c <= d <= b - a
    ensures s[a..b][c..d] == s[a + c..a + d]
  {
    var t := s[a..b];
    var l, r := t[c..d], s[a + c..a + d];
    forall i | 0 <= i < d - c ensures l[i] == r[i] {
      assert l[i] == t[c + i];
    }
    assert l == r;
  }
}
