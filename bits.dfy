/**
 * Bit-field codec over 16-bit words: extractBits and writeBits of memsim.c.
 *
 * A word is an `unsigned short`, kept as a bounded integer.  A field of
 * width k at position p is bits p .. p+k-1.  Both operations are stated
 * arithmetically: shifting right by p is division by 2^p, and masking with
 * (1 << k) - 1 is the remainder modulo 2^k.
 */
module Bits {

  const WORD_BITS: nat := 16

  /** An `unsigned short`. */
  type Word = x: int | 0 <= x < 0x1_0000

  /** One byte of a page (a `char` of a frame, or of the swap store). */
  type Byte = x: int | 0 <= x < 0x100

  function Pow2(n: nat): (r: nat)
    ensures r >= 1
  {
    if n == 0 then 1 else 2 * Pow2(n - 1)
  }

  lemma {:induction false} Pow2Sum(a: nat, b: nat, c: nat)
    requires a + b == c
    ensures Pow2(c) == Pow2(a) * Pow2(b)
  {
    if a > 0 {
      Pow2Sum(a - 1, b, c - 1);
      assert Pow2(c) == 2 * Pow2(c - 1);
    }
  }

  lemma Pow2Word()
    ensures Pow2(WORD_BITS) == 0x1_0000
  {
    assert Pow2(4) == 16;
    assert Pow2(8) == 256;
    assert Pow2(12) == 4096;
  }

  /** 2^(16 - p - k) * 2^p * 2^k is the size of the word space. */
  lemma Pow2Split(p: nat, k: nat)
    requires p + k <= WORD_BITS
    ensures Pow2(WORD_BITS - (p + k)) * (Pow2(p) * Pow2(k)) == 0x1_0000
  {
    Pow2Sum(p, k, p + k);
    Pow2Sum(p + k, WORD_BITS - (p + k), WORD_BITS);
    Pow2Word();
    MulComm(Pow2(p + k), Pow2(WORD_BITS - (p + k)));
  }

  lemma MulComm(a: int, b: int)
    ensures a * b == b * a
  {
  }

  // ---------------------------------------------------------------------
  // Division facts, stated for arbitrary positive divisors
  // ---------------------------------------------------------------------

  lemma MulNonneg(a: int, b: int)
    requires a >= 0 && b >= 0
    ensures a * b >= 0
  {
  }

  lemma MulLe(a: int, b: int, c: int)
    requires a <= b && c >= 0
    ensures a * c <= b * c
  {
    MulNonneg(b - a, c);
    assert (b - a) * c == b * c - a * c;
  }

  /** The only multiple of d strictly between -d and d is 0. */
  lemma MulSmall(a: int, d: int)
    requires d > 0 && -d < a * d < d
    ensures a == 0
  {
    if a >= 1 {
      MulNonneg(a - 1, d);
    } else if a <= -1 {
      MulNonneg(-a - 1, d);
    }
  }

  /** Euclidean division is determined by a quotient and a remainder in range. */
  lemma DivModUnique(x: int, d: int, q: int, r: int)
    requires d > 0 && 0 <= r < d && x == q * d + r
    ensures x / d == q && x % d == r
  {
    var q', r' := x / d, x % d;
    assert (q' - q) * d == r - r';
    MulSmall(q' - q, d);
  }

  lemma DivLe(x: nat, d: nat)
    requires d > 0
    ensures 0 <= x / d <= x
  {
    DivNonneg(x, d);
    var q := x / d;
    assert x == q * d + x % d;
    MulNonneg(q, d - 1);
    assert q * d == q + q * (d - 1);
  }

  lemma DivNonneg(x: nat, d: nat)
    requires d > 0
    ensures x / d >= 0
  {
    var q := x / d;
    assert x == q * d + x % d;
    if q < 0 {
      MulLe(q, -1, d);
    }
  }

  lemma ModLe(x: nat, d: nat)
    requires d > 0
    ensures 0 <= x % d <= x && x % d < d
  {
    var q := x / d;
    assert x == q * d + x % d;
    MulNonneg(q, d);
  }

  /** Dividing by a then by b is dividing by a * b; the remainder commutes with it. */
  lemma DivDiv(x: nat, a: nat, b: nat)
    requires a > 0 && b > 0
    ensures x / (a * b) == (x / a) / b
    ensures (x / a) % b == (x % (a * b)) / a
  {
    var q, r := x / a, x % a;
    var q2, r2 := q / b, q % b;
    var ab := a * b;
    assert x == q * a + r;
    assert q == q2 * b + r2;
    assert q * a == q2 * ab + r2 * a;
    MulNonneg(b - 1 - r2, a);
    assert (b - 1 - r2) * a == ab - a - r2 * a;
    MulNonneg(r2, a);
    DivModUnique(x, ab, q2, r2 * a + r);
    DivModUnique(r2 * a + r, a, r2, r);
  }

  /** Reducing modulo c * d and then modulo c is reducing modulo c. */
  lemma ModMod(x: nat, c: nat, d: nat)
    requires c > 0 && d > 0
    ensures (x % (c * d)) % c == x % c
  {
    var cd := c * d;
    var q, r := x / cd, x % cd;
    assert x == q * cd + r;
    var q1, r1 := r / c, r % c;
    assert r == q1 * c + r1;
    assert q * cd == (q * d) * c;
    DivModUnique(x, c, q * d + q1, r1);
  }

  /** x splits into the part above P * K, the field (x / P) % K, and the part below P. */
  lemma SplitAt(x: nat, P: nat, K: nat)
    requires P > 0 && K > 0
    ensures x == (x / (P * K)) * (P * K) + ((x / P) % K) * P + x % P
  {
    DivDiv(x, P, K);
    var y, L := x / P, x % P;
    var h, f := y / K, y % K;
    assert x == y * P + L;
    assert y == h * K + f;
    assert y * P == h * (P * K) + f * P;
  }

  lemma FieldRange(v: nat, P: nat, K: nat)
    requires P > 0 && K > 0
    ensures 0 <= (v / P) % K < K && (v / P) % K <= v
  {
    DivLe(v, P);
    ModLe(v / P, K);
  }

  /** Replacing the field (v / P) % K by f keeps the parts above and below it. */
  lemma ReplaceAt(v: nat, P: nat, K: nat, f: nat)
    requires P > 0 && K > 0 && f < K
    ensures var r := v - ((v / P) % K) * P + f * P;
      && r == (v / (P * K)) * (P * K) + f * P + v % P
      && r % P == v % P
      && (r / P) % K == f
      && r / (P * K) == v / (P * K)
  {
    var PK := P * K;
    var H, L, g := v / PK, v % P, (v / P) % K;
    var r := v - g * P + f * P;
    var q := H * K + f;
    assert r == H * PK + f * P + L && r == q * P + L by {
      SplitAt(v, P, K);
      MulAddRight(H * K, f, P);
      MulAssoc(H, K, P);
    }
    assert r / P == q && r % P == L by {
      DivModUnique(r, P, q, L);
    }
    assert q / K == H && q % K == f by {
      DivModUnique(q, K, H, f);
    }
    assert r >= 0 by {
      MulNonneg(H, K);
      MulNonneg(q, P);
    }
    assert r / PK == (r / P) / K by {
      DivDiv(r, P, K);
    }
  }

  lemma MulAddRight(a: int, b: int, c: int)
    ensures (a + b) * c == a * c + b * c
  {
  }

  lemma MulAssoc(a: int, b: int, c: int)
    ensures a * (c * b) == (a * b) * c
  {
  }

  /** The replaced value stays below any multiple of P * K that bounded the original. */
  lemma ReplaceBound(v: nat, P: nat, K: nat, f: nat, M: nat)
    requires P > 0 && K > 0 && f < K && v < M * (P * K)
    ensures 0 <= v - ((v / P) % K) * P + f * P < M * (P * K)
  {
    MulNonneg(v / (P * K), P * K);
    MulNonneg(f, P);
    var PK := P * K;
    var H := v / PK;
    ReplaceAt(v, P, K, f);
    MulLe(f, K - 1, P);
    assert f * P + v % P < PK;
    assert H * PK <= v;
    if M <= H {
      MulLe(M, H, PK);
    }
    MulLe(H + 1, M, PK);
  }

  lemma BelowGeneric(x: nat, a: nat, b: nat, K: nat, c: nat)
    requires a > 0 && b > 0 && K > 0 && c > 0 && b == K * c
    ensures ((x % (a * b)) / a) % K == (x / a) % K
  {
    DivDiv(x, a, b);
    ModMod(x / a, K, c);
  }

  // ---------------------------------------------------------------------
  // The codec
  // ---------------------------------------------------------------------

  /**
   * extractBits(value, k, p): the k-bit field at position p, the word
   * shifted right by p and masked with 2^k - 1.
   */
  function ExtractBits(v: Word, k: nat, p: nat): (r: Word)
    ensures r < Pow2(k)
  {
    FieldRange(v, Pow2(p), Pow2(k));
    (v / Pow2(p)) % Pow2(k)
  }

  /**
   * writeBits(value, k, p, newValue): the word whose k-bit field at
   * position p holds the low k bits of newValue, every other bit as before.
   */
  function WriteBits(v: Word, k: nat, p: nat, n: Word): (r: Word)
    requires k + p <= WORD_BITS
    ensures ExtractBits(r, k, p) == n % Pow2(k)
    ensures r % Pow2(p) == v % Pow2(p)
    ensures r / Pow2(p + k) == v / Pow2(p + k)
  {
    WriteBitsRange(v, k, p, n);
    WriteBitsField(v, k, p, n);
    WriteBitsAbove(v, k, p, n);
    v - ExtractBits(v, k, p) * Pow2(p) + (n % Pow2(k)) * Pow2(p)
  }

  lemma WriteBitsRange(v: Word, k: nat, p: nat, n: Word)
    requires k + p <= WORD_BITS
    ensures var r := v - ExtractBits(v, k, p) * Pow2(p) + (n % Pow2(k)) * Pow2(p);
      0 <= r < 0x1_0000
  {
    Pow2Split(p, k);
    ModLe(n, Pow2(k));
    ReplaceBound(v, Pow2(p), Pow2(k), n % Pow2(k), Pow2(WORD_BITS - (p + k)));
  }

  lemma WriteBitsField(v: Word, k: nat, p: nat, n: Word)
    requires k + p <= WORD_BITS
    ensures var r := v - ExtractBits(v, k, p) * Pow2(p) + (n % Pow2(k)) * Pow2(p);
      && (r / Pow2(p)) % Pow2(k) == n % Pow2(k)
      && r % Pow2(p) == v % Pow2(p)
  {
    ModLe(n, Pow2(k));
    ReplaceAt(v, Pow2(p), Pow2(k), n % Pow2(k));
  }

  lemma WriteBitsAbove(v: Word, k: nat, p: nat, n: Word)
    requires k + p <= WORD_BITS
    ensures var r := v - ExtractBits(v, k, p) * Pow2(p) + (n % Pow2(k)) * Pow2(p);
      r / Pow2(p + k) == v / Pow2(p + k)
  {
    Pow2Sum(p, k, p + k);
    ModLe(n, Pow2(k));
    ReplaceAt(v, Pow2(p), Pow2(k), n % Pow2(k));
  }

  /** Every word is the bits above a field, the field, and the bits below it. */
  lemma Decompose(x: Word, k: nat, p: nat)
    ensures x == (x / Pow2(p + k)) * Pow2(p + k) + ExtractBits(x, k, p) * Pow2(p) + x % Pow2(p)
  {
    Pow2Sum(p, k, p + k);
    SplitAt(x, Pow2(p), Pow2(k));
  }

  /** The three laws of WriteBits determine its result: no other word satisfies them. */
  lemma WriteBitsUnique(v: Word, k: nat, p: nat, n: Word, r: Word)
    requires k + p <= WORD_BITS
    requires ExtractBits(r, k, p) == n % Pow2(k)
    requires r % Pow2(p) == v % Pow2(p)
    requires r / Pow2(p + k) == v / Pow2(p + k)
    ensures r == WriteBits(v, k, p, n)
  {
    var w := WriteBits(v, k, p, n);
    Decompose(r, k, p);
    Decompose(w, k, p);
  }

  /** A field that ends below position m depends only on the bits below m. */
  lemma ExtractBelow(x: Word, k: nat, p: nat, m: nat)
    requires p + k <= m
    ensures x % Pow2(m) < 0x1_0000
    ensures ExtractBits(x, k, p) == ExtractBits(x % Pow2(m), k, p)
  {
    ModLe(x, Pow2(m));
    Pow2Sum(p, m - p, m);
    Pow2Sum(k, m - p - k, m - p);
    BelowGeneric(x, Pow2(p), Pow2(m - p), Pow2(k), Pow2(m - p - k));
  }

  /** A field that starts at or above position m depends only on the bits from m up. */
  lemma ExtractAbove(x: Word, k: nat, p: nat, m: nat)
    requires m <= p
    ensures 0 <= x / Pow2(m) < 0x1_0000
    ensures ExtractBits(x, k, p) == ExtractBits(x / Pow2(m), k, p - m)
  {
    assert 0 <= x / Pow2(m) <= x by {
      DivLe(x, Pow2(m));
    }
    assert x / Pow2(p) == (x / Pow2(m)) / Pow2(p - m) by {
      Pow2Sum(m, p - m, p);
      DivDiv(x, Pow2(m), Pow2(p - m));
    }
  }

  /** Writing one field leaves every field that does not overlap it unchanged. */
  lemma WriteOtherField(v: Word, k: nat, p: nat, n: Word, k2: nat, p2: nat)
    requires k + p <= WORD_BITS
    requires p2 + k2 <= p || p + k <= p2
    ensures ExtractBits(WriteBits(v, k, p, n), k2, p2) == ExtractBits(v, k2, p2)
  {
    var r := WriteBits(v, k, p, n);
    if p2 + k2 <= p {
      ExtractBelow(r, k2, p2, p);
      ExtractBelow(v, k2, p2, p);
    } else {
      ExtractAbove(r, k2, p2, p + k);
      ExtractAbove(v, k2, p2, p + k);
    }
  }

  /** Writing a field and reading it back yields the value written, when it fits in k bits. */
  lemma ExtractWrite(v: Word, k: nat, p: nat, n: Word)
    requires k + p <= WORD_BITS
    requires n < Pow2(k)
    ensures ExtractBits(WriteBits(v, k, p, n), k, p) == n
  {
    DivModUnique(n, Pow2(k), 0, n);
  }
}
