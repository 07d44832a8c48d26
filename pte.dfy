/**
 * Page-table entries and virtual addresses of memsim.c.
 *
 * An entry is a 16-bit word: bit 15 is V (valid), bit 14 is R (referenced),
 * bit 13 is M (modified) and the low PFN_BIT_SIZE bits hold the frame
 * number.  A virtual address is 6 offset bits under a 10-bit virtual page
 * number; in two-level mode the page number splits into a 5-bit outer index
 * (vpnP1) above a 5-bit inner index (vpnP2).
 */
module PageEntry {
  import opened Bits

  const PAGE_AMOUNT: nat := 1024
  const PAGE_SIZE_BYTES: nat := 64
  const VM_SIZE_BYTES: nat := 0x1_0000

  const VA_OFFSET_BITS: nat := 6
  const VA_VPN_BITS: nat := 10
  const TWO_LEVEL_VPN_P1_BITS: nat := 5
  const TWO_LEVEL_VPN_P2_BITS: nat := 5

  const V_BIT_POSITION: nat := 15
  const R_BIT_POSITION: nat := 14
  const M_BIT_POSITION: nat := 13

  /** 2^TWO_LEVEL_VPN_P1_BITS inner tables of 2^TWO_LEVEL_VPN_P2_BITS entries each. */
  const INNER_TABLE_AMOUNT: nat := 32
  const INNER_TABLE_PAGE_SIZE: nat := 32

  lemma Pow2Values()
    ensures Pow2(0) == 1 && Pow2(1) == 2 && Pow2(5) == 32 && Pow2(6) == 64
    ensures Pow2(10) == 1024 && Pow2(11) == 2048 && Pow2(13) == 8192
    ensures Pow2(14) == 16384 && Pow2(15) == 32768
    ensures Pow2(WORD_BITS) == 0x1_0000
  {
    assert Pow2(5) == 32;
    assert Pow2(10) == 1024;
    assert Pow2(15) == 32768;
    Pow2Word();
  }

  // ---------------------------------------------------------------------
  // Entry fields.  The accessors divide by the constant weight of their
  // field; FlagFields ties each to the extractBits call it stands for.
  // ---------------------------------------------------------------------

  function V(e: Word): (b: nat)
    ensures b < 2
  {
    e / 32768
  }

  function R(e: Word): (b: nat)
    ensures b < 2
  {
    (e / 16384) % 2
  }

  function M(e: Word): (b: nat)
    ensures b < 2
  {
    (e / 8192) % 2
  }

  /** The frame number held in the low `bits` bits. */
  function Pfn(e: Word, bits: nat): Word
  {
    ExtractBits(e, bits, 0)
  }

  /** The thirteen bits below the flags, where the frame number lives. */
  function Low(e: Word): Word
  {
    e % 8192
  }

  /**
   * V, R and M are extractBits(e, 1, pos) at their positions, and the low
   * bits are extractBits(e, 13, 0).
   */
  lemma FlagFields(e: Word)
    ensures V(e) == ExtractBits(e, 1, V_BIT_POSITION)
    ensures R(e) == ExtractBits(e, 1, R_BIT_POSITION)
    ensures M(e) == ExtractBits(e, 1, M_BIT_POSITION)
    ensures Low(e) == ExtractBits(e, M_BIT_POSITION, 0)
  {
    Pow2Values();
  }

  /** The frame number depends only on the bits below the flags. */
  lemma PfnOfLow(e: Word, bits: nat)
    requires bits <= M_BIT_POSITION
    ensures Pfn(e, bits) == ExtractBits(Low(e), bits, 0)
  {
    Pow2Values();
    FlagFields(e);
    ExtractBelow(e, bits, 0, M_BIT_POSITION);
  }

  /** An entry is determined by its three flags and its low bits. */
  lemma FieldsDetermine(a: Word, b: Word)
    requires V(a) == V(b) && R(a) == R(b) && M(a) == M(b) && Low(a) == Low(b)
    ensures a == b
  {
    FlagsLow(a);
    FlagsLow(b);
  }

  /** An entry is its flag field above its low bits. */
  lemma FlagsLow(e: Word)
    ensures e == (V(e) * 4 + R(e) * 2 + M(e)) * 8192 + Low(e)
  {
    var x := e / 8192;
    assert x < 8;
    assert V(e) == x / 4 && R(e) == (x / 2) % 2 && M(e) == x % 2;
  }

  /**
   * Writing one flag with writeBits(e, 1, pos, b) sets that flag to b and
   * leaves the other two flags and the low bits as they were.
   */
  lemma WriteFlag(e: Word, pos: nat, b: Word)
    requires pos == V_BIT_POSITION || pos == R_BIT_POSITION || pos == M_BIT_POSITION
    requires b < 2
    ensures var r := WriteBits(e, 1, pos, b);
      && V(r) == (if pos == V_BIT_POSITION then b else V(e))
      && R(r) == (if pos == R_BIT_POSITION then b else R(e))
      && M(r) == (if pos == M_BIT_POSITION then b else M(e))
      && Low(r) == Low(e)
  {
    Pow2Values();
    FlagFields(e);
    FlagFields(WriteBits(e, 1, pos, b));
    ExtractWrite(e, 1, pos, b);
    WriteOtherField(e, 1, pos, b, M_BIT_POSITION, 0);
    if pos != V_BIT_POSITION { WriteOtherField(e, 1, pos, b, 1, V_BIT_POSITION); }
    if pos != R_BIT_POSITION { WriteOtherField(e, 1, pos, b, 1, R_BIT_POSITION); }
    if pos != M_BIT_POSITION { WriteOtherField(e, 1, pos, b, 1, M_BIT_POSITION); }
  }

  /**
   * Writing a frame number that fits in `bits` bits stores it and leaves
   * the three flags as they were.
   */
  lemma WritePfn(e: Word, bits: nat, n: Word)
    requires bits <= M_BIT_POSITION && n < Pow2(bits)
    ensures var r := WriteBits(e, bits, 0, n);
      Pfn(r, bits) == n && V(r) == V(e) && R(r) == R(e) && M(r) == M(e)
  {
    FlagFields(e);
    FlagFields(WriteBits(e, bits, 0, n));
    ExtractWrite(e, bits, 0, n);
    WriteOtherField(e, bits, 0, n, 1, V_BIT_POSITION);
    WriteOtherField(e, bits, 0, n, 1, R_BIT_POSITION);
    WriteOtherField(e, bits, 0, n, 1, M_BIT_POSITION);
  }

  /** The flag at pos (one of V, R, M) and its weight in the entry. */
  function Flag(e: Word, pos: nat): (b: nat)
    ensures b < 2
  {
    if pos == V_BIT_POSITION then V(e) else if pos == R_BIT_POSITION then R(e) else M(e)
  }

  function Weight(pos: nat): nat
  {
    if pos == V_BIT_POSITION then 32768 else if pos == R_BIT_POSITION then 16384 else 8192
  }

  /**
   * Setting one flag to b, as writeBits(e, 1, pos, b) does (SetFlagWrites):
   * that flag becomes b, the other flags and the low bits stay.
   */
  function SetFlag(e: Word, pos: nat, b: nat): (r: Word)
    requires pos == V_BIT_POSITION || pos == R_BIT_POSITION || pos == M_BIT_POSITION
    requires b < 2
    ensures V(r) == (if pos == V_BIT_POSITION then b else V(e))
    ensures R(r) == (if pos == R_BIT_POSITION then b else R(e))
    ensures M(r) == (if pos == M_BIT_POSITION then b else M(e))
    ensures Low(r) == Low(e)
  {
    FlagsLow(e);
    var r := e - Flag(e, pos) * Weight(pos) + b * Weight(pos);
    SetFlagFields(e, pos, b, r);
    r
  }

  lemma SetFlagFields(e: Word, pos: nat, b: nat, r: int)
    requires pos == V_BIT_POSITION || pos == R_BIT_POSITION || pos == M_BIT_POSITION
    requires b < 2
    requires e == (V(e) * 4 + R(e) * 2 + M(e)) * 8192 + Low(e)
    requires r == e - Flag(e, pos) * Weight(pos) + b * Weight(pos)
    ensures 0 <= r < 0x1_0000
    ensures V(r) == (if pos == V_BIT_POSITION then b else V(e))
    ensures R(r) == (if pos == R_BIT_POSITION then b else R(e))
    ensures M(r) == (if pos == M_BIT_POSITION then b else M(e))
    ensures Low(r) == Low(e)
  {
    var v := if pos == V_BIT_POSITION then b else V(e);
    var rr := if pos == R_BIT_POSITION then b else R(e);
    var m := if pos == M_BIT_POSITION then b else M(e);
    assert r == (v * 4 + rr * 2 + m) * 8192 + Low(e);
    FlagsOf(v, rr, m, Low(e));
  }

  /** The flags and low bits of an entry assembled from them. */
  lemma FlagsOf(v: nat, r: nat, m: nat, low: nat)
    requires v < 2 && r < 2 && m < 2 && low < 8192
    ensures var e := (v * 4 + r * 2 + m) * 8192 + low;
      e < 0x1_0000 && V(e) == v && R(e) == r && M(e) == m && Low(e) == low
  {
    var e := (v * 4 + r * 2 + m) * 8192 + low;
    var x := v * 4 + r * 2 + m;
    DivModUnique(e, 8192, x, low);
    assert e / 16384 == x / 2 by { DivDiv(e, 8192, 2); }
    assert e / 32768 == x / 4 by { DivDiv(e, 8192, 4); }
  }

  /** SetFlag is the writeBits call on the flag. */
  lemma SetFlagWrites(e: Word, pos: nat, b: nat)
    requires pos == V_BIT_POSITION || pos == R_BIT_POSITION || pos == M_BIT_POSITION
    requires b < 2
    ensures SetFlag(e, pos, b) == WriteBits(e, 1, pos, b)
  {
    WriteFlag(e, pos, b);
    FieldsDetermine(SetFlag(e, pos, b), WriteBits(e, 1, pos, b));
  }

  /** Clearing the R bit of `e`, as the CLOCK sweeps and the aging pass do. */
  function ClearR(e: Word): (r: Word)
    ensures R(r) == 0 && V(r) == V(e) && M(r) == M(e) && Low(r) == Low(e)
  {
    SetFlag(e, R_BIT_POSITION, 0)
  }

  /** The zero entry of a fresh table has no R bit to clear. */
  lemma ClearZero()
    ensures ClearR(0) == 0
  {
    ClearRIdle(0);
  }

  /** Clearing an R bit that is already clear changes nothing. */
  lemma ClearRIdle(e: Word)
    requires R(e) == 0
    ensures ClearR(e) == e
  {
    FieldsDetermine(ClearR(e), e);
  }

  /**
   * Storing frame number n in the low `bits` bits, as
   * writeBits(e, PFN_BIT_SIZE, 0, n) does: the field reads back n and the
   * flags stay.
   */
  function SetPfn(e: Word, bits: nat, n: Word): (r: Word)
    requires bits <= M_BIT_POSITION && n < Pow2(bits)
    ensures Pfn(r, bits) == n && V(r) == V(e) && R(r) == R(e) && M(r) == M(e)
  {
    WritePfn(e, bits, n);
    WriteBits(e, bits, 0, n)
  }

  /** Entries that agree below the flags hold the same frame number. */
  lemma PfnKeep(a: Word, b: Word, bits: nat)
    requires bits <= M_BIT_POSITION && Low(a) == Low(b)
    ensures Pfn(a, bits) == Pfn(b, bits)
  {
    PfnOfLow(a, bits);
    PfnOfLow(b, bits);
  }

  // ---------------------------------------------------------------------
  // Virtual and physical addresses
  // ---------------------------------------------------------------------

  function Offset(va: Word): Word
  {
    ExtractBits(va, VA_OFFSET_BITS, 0)
  }

  function Vpn(va: Word): Word
  {
    ExtractBits(va, VA_VPN_BITS, VA_OFFSET_BITS)
  }

  function VpnP1(va: Word): Word
  {
    ExtractBits(va, TWO_LEVEL_VPN_P1_BITS, VA_OFFSET_BITS + TWO_LEVEL_VPN_P2_BITS)
  }

  function VpnP2(va: Word): Word
  {
    ExtractBits(va, TWO_LEVEL_VPN_P2_BITS, VA_OFFSET_BITS)
  }

  /**
   * The address split: the offset is the address modulo the page size, the
   * page number the quotient, and the two-level indices are the quotient and
   * remainder of the page number by the inner-table size.
   */
  lemma AddressSplit(va: Word)
    ensures Offset(va) == va % PAGE_SIZE_BYTES && Vpn(va) == va / PAGE_SIZE_BYTES
    ensures VpnP1(va) == Vpn(va) / INNER_TABLE_PAGE_SIZE
    ensures VpnP2(va) == Vpn(va) % INNER_TABLE_PAGE_SIZE
    ensures Offset(va) < PAGE_SIZE_BYTES && Vpn(va) < PAGE_AMOUNT
    ensures Vpn(va) == VpnP1(va) * INNER_TABLE_PAGE_SIZE + VpnP2(va)
    ensures va == Vpn(va) * PAGE_SIZE_BYTES + Offset(va)
  {
    Pow2Values();
    DivDiv(va, 64, 32);
    assert va / 64 < 1024;
    assert va / 2048 < 32;
  }

  /** The two-level indices of a victim page number, as memsim.c:340-341 extract them. */
  lemma VpnSplit(vpn: Word)
    requires vpn < PAGE_AMOUNT
    ensures ExtractBits(vpn, TWO_LEVEL_VPN_P1_BITS, TWO_LEVEL_VPN_P2_BITS) == vpn / INNER_TABLE_PAGE_SIZE
    ensures ExtractBits(vpn, TWO_LEVEL_VPN_P2_BITS, 0) == vpn % INNER_TABLE_PAGE_SIZE
  {
    Pow2Values();
    assert vpn / 32 < 32;
  }

  /** The logged physical address writeBits(va, 10, 6, pfn) is pfn * 64 + offset. */
  lemma PhysicalAddress(va: Word, pfn: Word)
    requires pfn < PAGE_AMOUNT
    ensures WriteBits(va, VA_VPN_BITS, VA_OFFSET_BITS, pfn) == pfn * PAGE_SIZE_BYTES + Offset(va)
  {
    Pow2Values();
    var r := WriteBits(va, VA_VPN_BITS, VA_OFFSET_BITS, pfn);
    assert r / 64 < 1024;
    assert (r / 64) % 1024 == pfn;
  }

  /**
   * memoryFlush in two-level mode builds an address from the outer index i
   * and then, entry by entry, the inner index j: writing i sets P1, and
   * writing j keeps P1 and makes the page number P1 * 32 + j.
   */
  lemma OuterAddress(x: Word, i: Word)
    requires i < INNER_TABLE_AMOUNT
    ensures VpnP1(WriteBits(x, TWO_LEVEL_VPN_P1_BITS, TWO_LEVEL_VPN_P2_BITS + VA_OFFSET_BITS, i)) == i
  {
    Pow2Values();
    ExtractWrite(x, 5, 11, i);
  }

  lemma InnerAddress(x: Word, j: Word)
    requires j < INNER_TABLE_PAGE_SIZE
    ensures var y := WriteBits(x, TWO_LEVEL_VPN_P2_BITS, VA_OFFSET_BITS, j);
      VpnP1(y) == VpnP1(x) && Vpn(y) == VpnP1(x) * INNER_TABLE_PAGE_SIZE + j
  {
    Pow2Values();
    var y := WriteBits(x, 5, 6, j);
    ExtractWrite(x, 5, 6, j);
    WriteOtherField(x, 5, 6, j, 5, 11);
    VpnFields(y);
  }

  /** The page-number field is the outer index field above the inner index field. */
  lemma VpnFields(x: Word)
    ensures Vpn(x) == VpnP1(x) * INNER_TABLE_PAGE_SIZE + VpnP2(x)
  {
    AddressSplit(x);
  }

  // ---------------------------------------------------------------------
  // PFN_BIT_SIZE
  // ---------------------------------------------------------------------

  /** The least k with 2^k >= n: ceil(log2(n)) without floating point. */
  function CeilLog2(n: nat): (k: nat)
    requires n >= 1
    ensures Pow2(k) >= n
    ensures k == 0 || Pow2(k - 1) < n
  {
    if n == 1 then 0 else 1 + CeilLog2((n + 1) / 2)
  }

  lemma {:induction false} Pow2Mono(a: nat, b: nat)
    requires a <= b
    ensures Pow2(a) <= Pow2(b)
  {
    if a < b {
      Pow2Mono(a, b - 1);
    }
  }

  /** With 4 to 128 frames the frame number takes 2 to 7 bits. */
  lemma PfnBitsRange(frames: nat)
    requires 4 <= frames <= 128
    ensures 2 <= CeilLog2(frames) <= 7
  {
    var k := CeilLog2(frames);
    Pow2Values();
    assert Pow2(7) == 128;
    if k < 2 {
      Pow2Mono(k, 1);
    }
    if k > 7 {
      Pow2Mono(7, k - 1);
    }
  }
}
