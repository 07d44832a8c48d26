/**
 * The paging engine of memsim.c as functions of an abstract memory state.
 *
 * A state holds the logical page table (1024 entries, one per virtual page;
 * in two-level mode entry v lives at index v % 32 of inner table v / 32,
 * and the entries of an inner table not yet allocated read as 0), the outer
 * table, the replacement queue (the payloads of the LRU list or of the
 * ring, newest first), physical memory and the swap store as byte
 * sequences, and the three counters.  Step is one pass of the loop body of
 * processMemoryReferences; Run folds it over a trace; FlushFrom is
 * memoryFlush.  The Simulator class refines these functions over arrays
 * and linked lists.
 */
module Paging {
  import opened Bits
  import opened PageEntry
  import opened LinkedList
  import opened Replacement

  /** The replacement policies selected by the -a option. */
  datatype Algorithm = FIFO | LRU | CLOCK | ECLOCK

  /** The globals fixed at start-up: PAGE_OPTION, FRAME_NUMBER, PFN_BIT_SIZE, TICK, ALGORITHM_NAME. */
  datatype Config = Config(level: nat, frameNumber: nat, pfnBits: nat, tick: nat, algorithm: Algorithm)

  /**
   * The start-up checks on -p and -f, and PFN_BIT_SIZE = ceil(log2(frames));
   * the bound on pfnBits and frameNumber <= 2^pfnBits follow (ConfigFor).
   */
  predicate ConfigOk(c: Config)
  {
    && (c.level == 1 || c.level == 2)
    && 4 <= c.frameNumber <= 128
    && c.pfnBits == CeilLog2(c.frameNumber)
    && c.pfnBits <= 7 && c.frameNumber <= Pow2(c.pfnBits)
  }

  /** Every accepted command line gives a well-formed configuration. */
  lemma ConfigFor(level: nat, frames: nat, tick: nat, algorithm: Algorithm)
    requires (level == 1 || level == 2) && 4 <= frames <= 128
    ensures ConfigOk(Config(level, frames, CeilLog2(frames), tick, algorithm))
  {
    PfnBitsRange(frames);
  }

  /** One line of the reference file: mode, virtual address, value to write. */
  datatype Reference = Reference(mode: char, address: Word, value: Word)

  /**
   * One line of the output file: address, VPN (or P1), 0 (or P2), offset,
   * PFN, physical address, and whether the reference faulted.
   */
  datatype LogRecord = LogRecord(virtualAddress: Word, first: Word, second: Word, offset: Word,
                                 pfn: Word, physicalAddress: Word, pageFault: bool)

  datatype Memory = Memory(table: seq<Word>, outer: seq<Word>, queue: seq<Word>,
                           frames: seq<Byte>, swap: seq<Byte>,
                           initialFrameCounter: nat, referenceCounter: nat, totalPageFaultCounter: nat)

  // ---------------------------------------------------------------------
  // The residency invariant
  // ---------------------------------------------------------------------

  /**
   * The queue holds exactly the valid pages, each once; n frames are in
   * use, and the valid pages occupy distinct frames below n.
   */
  predicate Resident(t: seq<Word>, q: seq<Word>, n: nat, bits: nat)
  {
    && |t| == PAGE_AMOUNT && |q| == n && Distinct(q)
    && (forall i :: 0 <= i < |q| ==> q[i] < PAGE_AMOUNT)
    && (forall v {:trigger V(t[v])} {:trigger v in q} :: 0 <= v < PAGE_AMOUNT ==> (V(t[v]) == 1 <==> v in q))
    && (forall v {:trigger Pfn(t[v], bits)} :: 0 <= v < PAGE_AMOUNT && V(t[v]) == 1 ==> Pfn(t[v], bits) < n)
    && (forall a, b {:trigger Pfn(t[a], bits), Pfn(t[b], bits)} ::
          0 <= a < b < PAGE_AMOUNT && V(t[a]) == 1 && V(t[b]) == 1 ==>
          Pfn(t[a], bits) != Pfn(t[b], bits))
  }

  /** The outer entry of an allocated inner table: V set, P1 in the low bits. */
  function OuterEntry(p1: Word): Word
    requires p1 < INNER_TABLE_AMOUNT
  {
    32768 + p1
  }

  predicate Inv(c: Config, s: Memory)
  {
    && ConfigOk(c)
    && |s.outer| == INNER_TABLE_AMOUNT
    && (forall i :: 0 <= i < INNER_TABLE_AMOUNT ==> s.outer[i] == 0 || s.outer[i] == OuterEntry(i))
    && |s.frames| == c.frameNumber * PAGE_SIZE_BYTES
    && |s.swap| == VM_SIZE_BYTES
    && s.initialFrameCounter <= c.frameNumber
    && Resident(s.table, s.queue, s.initialFrameCounter, c.pfnBits)
  }

  /** The state main sets up: zero tables, empty queue, counters at zero. */
  function Initial(c: Config, frames: seq<Byte>, swap: seq<Byte>): (s: Memory)
    requires ConfigOk(c) && |frames| == c.frameNumber * PAGE_SIZE_BYTES && |swap| == VM_SIZE_BYTES
    ensures Inv(c, s) && s.table == seq(PAGE_AMOUNT, v => 0) && s.queue == []
  {
    Memory(seq(PAGE_AMOUNT, v => 0), seq(INNER_TABLE_AMOUNT, i => 0), [], frames, swap, 0, 0, 0)
  }

  // ---------------------------------------------------------------------
  // Frames and swap slots
  // ---------------------------------------------------------------------

  /** Page-sized block i of a byte store: a frame, or a swap slot. */
  function Block(s: seq<Byte>, i: nat): (b: seq<Byte>)
    requires i * 64 + 64 <= |s|
    ensures |b| == PAGE_SIZE_BYTES
  {
    s[i * 64 .. i * 64 + 64]
  }

  /** The store with block i overwritten by b. */
  function PutBlock(s: seq<Byte>, i: nat, b: seq<Byte>): (r: seq<Byte>)
    requires |b| == PAGE_SIZE_BYTES && i * 64 + 64 <= |s|
    ensures |r| == |s|
  {
    s[..i * 64] + b + s[i * 64 + 64..]
  }

  /** Writing block i sets block i and leaves every other block. */
  lemma BlockPut(s: seq<Byte>, i: nat, b: seq<Byte>, j: nat)
    requires |b| == PAGE_SIZE_BYTES && i * 64 + 64 <= |s| && j * 64 + 64 <= |s|
    ensures Block(PutBlock(s, i, b), j) == if i == j then b else Block(s, j)
  {
    var r := PutBlock(s, i, b);
    if i == j {
      assert Block(r, j) == b;
    } else {
      forall x | 0 <= x < 64 ensures Block(r, j)[x] == Block(s, j)[x] {
        assert Block(r, j)[x] == r[j * 64 + x];
      }
    }
  }

  /** A store that agrees with s outside block i and with b inside it is PutBlock(s, i, b). */
  lemma PutBlockAt(s: seq<Byte>, i: nat, b: seq<Byte>, r: seq<Byte>)
    requires |b| == PAGE_SIZE_BYTES && i * 64 + 64 <= |s| && |r| == |s|
    requires forall x :: 0 <= x < |s| && !(i * 64 <= x < i * 64 + 64) ==> r[x] == s[x]
    requires forall k :: 0 <= k < 64 ==> r[i * 64 + k] == b[k]
    ensures r == PutBlock(s, i, b)
  {
    var p := PutBlock(s, i, b);
    forall x | 0 <= x < |s| ensures r[x] == p[x] {
      if i * 64 <= x < i * 64 + 64 {
        assert r[i * 64 + (x - i * 64)] == b[x - i * 64];
      }
    }
  }

  // ---------------------------------------------------------------------
  // Entries
  // ---------------------------------------------------------------------

  /** The entry of a page just brought in (lines 363-366): valid, clean, referenced, in `frame`. */
  function Loaded(e: Word, bits: nat, frame: Word): (r: Word)
    requires bits <= M_BIT_POSITION && frame < Pow2(bits)
    ensures V(r) == 1 && M(r) == 0 && R(r) == 1 && Pfn(r, bits) == frame
  {
    var e1 := SetFlag(e, V_BIT_POSITION, 1);
    var e2 := SetFlag(e1, M_BIT_POSITION, 0);
    var e3 := SetFlag(e2, R_BIT_POSITION, 1);
    SetPfn(e3, bits, frame)
  }

  /** Every entry with its R bit cleared: clearReferencedBits when the tick expires. */
  function ClearAll(t: seq<Word>): (r: seq<Word>)
    ensures |r| == |t|
    ensures forall x :: 0 <= x < |t| ==>
      R(r[x]) == 0 && V(r[x]) == V(t[x]) && M(r[x]) == M(t[x]) && Low(r[x]) == Low(t[x])
  {
    seq(|t|, x requires 0 <= x < |t| => ClearR(t[x]))
  }

  // ---------------------------------------------------------------------
  // The table seen by CLOCK and ECLOCK
  // ---------------------------------------------------------------------

  /** Index in the logical table of the first entry of vpn's inner table. */
  function InnerBase(vpn: Word): nat
  {
    vpn / 32 * 32
  }

  /**
   * The table that processMemoryReferences hands to CLOCK and ECLOCK: the
   * single table, or the inner table of the page being brought in.
   */
  function Window(t: seq<Word>, level: nat, vpn: Word): (w: seq<Word>)
    requires |t| == PAGE_AMOUNT && vpn < PAGE_AMOUNT
    ensures |w| == if level == 1 then PAGE_AMOUNT else INNER_TABLE_PAGE_SIZE
  {
    if level == 1 then t else t[InnerBase(vpn) .. InnerBase(vpn) + 32]
  }

  /** The logical table with the window replaced by w. */
  function Splice(t: seq<Word>, level: nat, vpn: Word, w: seq<Word>): (r: seq<Word>)
    requires |t| == PAGE_AMOUNT && vpn < PAGE_AMOUNT && |w| == |Window(t, level, vpn)|
    ensures |r| == PAGE_AMOUNT
  {
    if level == 1 then w else t[..InnerBase(vpn)] + w + t[InnerBase(vpn) + 32..]
  }

  /** Every queued page's slot lies in the window. */
  lemma WindowSlots(t: seq<Word>, q: seq<Word>, level: nat, vpn: Word)
    requires |t| == PAGE_AMOUNT && vpn < PAGE_AMOUNT
    requires forall i :: 0 <= i < |q| ==> q[i] < PAGE_AMOUNT
    ensures SlotsIn(|Window(t, level, vpn)|, q, level)
  {
  }

  /** Clearing R bits inside the window clears R bits of the table and changes nothing else. */
  lemma SpliceCleared(t: seq<Word>, level: nat, vpn: Word, w: seq<Word>)
    requires |t| == PAGE_AMOUNT && vpn < PAGE_AMOUNT
    requires |w| == |Window(t, level, vpn)|
    requires forall x :: 0 <= x < |w| ==> RCleared(Window(t, level, vpn)[x], w[x])
    ensures forall x :: 0 <= x < PAGE_AMOUNT ==> RCleared(t[x], Splice(t, level, vpn, w)[x])
  {
    if level != 1 {
      var b := InnerBase(vpn);
      var r := Splice(t, level, vpn, w);
      forall x | 0 <= x < PAGE_AMOUNT ensures RCleared(t[x], r[x]) {
        if b <= x < b + 32 {
          assert r[x] == w[x - b] && Window(t, level, vpn)[x - b] == t[x];
        } else {
          assert r[x] == t[x];
        }
      }
    }
  }

  // ---------------------------------------------------------------------
  // Victim selection (lines 314-330)
  // ---------------------------------------------------------------------

  /** The victim page, the table after the policy's R-bit updates, and the new queue. */
  datatype Choice = Choice(victim: Word, table: seq<Word>, queue: seq<Word>)

  function Select(c: Config, t: seq<Word>, q: seq<Word>, vpn: Word): (r: Choice)
    requires |t| == PAGE_AMOUNT && vpn < PAGE_AMOUNT && q != []
    requires forall i :: 0 <= i < |q| ==> q[i] < PAGE_AMOUNT
    ensures r.victim in q && |r.table| == PAGE_AMOUNT && |r.queue| == |q|
  {
    var k := |q|;
    match c.algorithm
    case FIFO => Choice(q[k - 1], t, Evict(q, k - 1, vpn))
    case LRU => Choice(q[k - 1], t, q[k - 1 := vpn])
    case CLOCK => ClockChoice(t, q, c.level, vpn)
    case ECLOCK => EclockChoice(t, q, c.level, vpn)
  }

  /** CLOCK: the scan of the window from the oldest page decides victim, table and queue. */
  function ClockChoice(t: seq<Word>, q: seq<Word>, level: nat, vpn: Word): (r: Choice)
    requires |t| == PAGE_AMOUNT && vpn < PAGE_AMOUNT && q != []
    requires forall i :: 0 <= i < |q| ==> q[i] < PAGE_AMOUNT
    ensures r.victim in q && |r.table| == PAGE_AMOUNT && |r.queue| == |q|
  {
    WindowSlots(t, q, level, vpn);
    var s := ClockScan(Window(t, level, vpn), q, level, |q| - 1, |q| + 1);
    Choice(q[s.pos], Splice(t, level, vpn, s.table), Evict(q, s.pos, vpn))
  }

  /** ECLOCK: the four passes over the window decide victim, table and queue. */
  function EclockChoice(t: seq<Word>, q: seq<Word>, level: nat, vpn: Word): (r: Choice)
    requires |t| == PAGE_AMOUNT && vpn < PAGE_AMOUNT && q != []
    requires forall i :: 0 <= i < |q| ==> q[i] < PAGE_AMOUNT
    ensures r.victim in q && |r.table| == PAGE_AMOUNT && |r.queue| == |q|
  {
    WindowSlots(t, q, level, vpn);
    var s := Eclock(Window(t, level, vpn), q, level, 0);
    Choice(q[s.pos], Splice(t, level, vpn, s.table), Evict(q, s.pos, vpn))
  }

  /** Overwriting the payload at p with a page not queued swaps q[p] for it in the set of queued pages. */
  lemma EvictMembers(q: seq<Word>, p: nat, vpn: Word)
    requires p < |q| && Distinct(q) && vpn !in q
    ensures Distinct(Evict(q, p, vpn)) && |Evict(q, p, vpn)| == |q|
    ensures forall x :: x in Evict(q, p, vpn) <==> (x in q && x != q[p]) || x == vpn
  {
    EvictSpec(q, p, vpn);
    assert q == q[..p] + [q[p]] + q[p + 1..];
    assert q[p] !in q[..p] && q[p] !in q[p + 1..];
  }

  lemma OverwriteMembers(q: seq<Word>, p: nat, vpn: Word)
    requires p < |q| && Distinct(q) && vpn !in q
    ensures Distinct(q[p := vpn])
    ensures forall x :: x in q[p := vpn] <==> (x in q && x != q[p]) || x == vpn
  {
    var r := q[p := vpn];
    forall x ensures x in r <==> (x in q && x != q[p]) || x == vpn {
      if x in q && x != q[p] {
        var i :| 0 <= i < |q| && q[i] == x;
        assert r[i] == x;
      }
      if x in r && x != vpn {
        var i :| 0 <= i < |r| && r[i] == x;
        assert q[i] == x && i != p;
      }
      assert r[p] == vpn;
    }
  }

  /**
   * Whatever the policy, the victim is a queued page, the new page takes
   * its place in the queue, and the table changes at most in R bits.
   */
  lemma SelectSpec(c: Config, t: seq<Word>, q: seq<Word>, vpn: Word)
    requires |t| == PAGE_AMOUNT && vpn < PAGE_AMOUNT && q != []
    requires forall i :: 0 <= i < |q| ==> q[i] < PAGE_AMOUNT
    requires Distinct(q) && vpn !in q
    ensures var r := Select(c, t, q, vpn);
      && Distinct(r.queue)
      && (forall x :: x in r.queue <==> (x in q && x != r.victim) || x == vpn)
      && (forall x :: 0 <= x < PAGE_AMOUNT ==> RCleared(t[x], r.table[x]))
  {
    var k := |q|;
    WindowSlots(t, q, c.level, vpn);
    var w := Window(t, c.level, vpn);
    match c.algorithm
    case FIFO => EvictMembers(q, k - 1, vpn);
    case LRU => OverwriteMembers(q, k - 1, vpn);
    case CLOCK =>
      var s := ClockScan(w, q, c.level, k - 1, k + 1);
      ClockScanClears(w, q, c.level, k - 1, k + 1);
      SpliceCleared(t, c.level, vpn, s.table);
      EvictMembers(q, s.pos, vpn);
    case ECLOCK =>
      var s := Eclock(w, q, c.level, 0);
      EclockOnlyClears(w, q, c.level, 0);
      SpliceCleared(t, c.level, vpn, s.table);
      EvictMembers(q, s.pos, vpn);
  }

  // ---------------------------------------------------------------------
  // Residency is preserved
  // ---------------------------------------------------------------------

  lemma ResidentKeep(t: seq<Word>, t': seq<Word>, q: seq<Word>, n: nat, bits: nat)
    requires Resident(t, q, n, bits) && bits <= M_BIT_POSITION && |t'| == |t|
    requires forall v :: 0 <= v < |t| ==> V(t'[v]) == V(t[v]) && Low(t'[v]) == Low(t[v])
    ensures Resident(t', q, n, bits)
  {
    forall v | 0 <= v < |t| ensures Pfn(t'[v], bits) == Pfn(t[v], bits) {
      PfnKeep(t'[v], t[v], bits);
    }
  }

  /** Loading a page into the next unused frame n. */
  lemma ResidentFill(t: seq<Word>, q: seq<Word>, n: nat, bits: nat, vpn: Word)
    requires Resident(t, q, n, bits) && vpn < PAGE_AMOUNT && V(t[vpn]) == 0
    requires bits <= M_BIT_POSITION && n < Pow2(bits) && n < 0x1_0000
    ensures Resident(t[vpn := Loaded(t[vpn], bits, n)], [vpn] + q, n + 1, bits)
  {
    var t' := t[vpn := Loaded(t[vpn], bits, n)];
    var q' := [vpn] + q;
    ConsDistinct(vpn, q);
    forall v | 0 <= v < PAGE_AMOUNT ensures V(t'[v]) == 1 <==> v in q' {
      assert v in q' <==> v == vpn || v in q;
    }
  }

  /** Loading a page into the frame of a victim, whose entry is invalidated. */
  lemma ResidentSwap(t: seq<Word>, t': seq<Word>, q: seq<Word>, q': seq<Word>, n: nat, bits: nat,
                     victim: Word, vpn: Word)
    requires Resident(t, q, n, bits) && bits <= M_BIT_POSITION && n <= Pow2(bits)
    requires victim in q && vpn < PAGE_AMOUNT && V(t[vpn]) == 0
    requires |q'| == |q| && Distinct(q')
    requires forall x :: x in q' <==> (x in q && x != victim) || x == vpn
    requires Pfn(t[victim], bits) < n
    requires t' == t[victim := SetFlag(t[victim], V_BIT_POSITION, 0)][vpn := Loaded(t[vpn], bits, Pfn(t[victim], bits))]
    ensures Resident(t', q', n, bits)
  {
    var frame := Pfn(t[victim], bits);
    assert victim < PAGE_AMOUNT && victim != vpn;
    forall i | 0 <= i < |q'| ensures q'[i] < PAGE_AMOUNT {
      assert q'[i] in q';
    }
    forall v | 0 <= v < PAGE_AMOUNT ensures V(t'[v]) == 1 <==> v in q' {
    }
    forall v | 0 <= v < PAGE_AMOUNT && v != vpn ensures t'[v] == t[v] || v == victim {
    }
    forall a, b | 0 <= a < b < PAGE_AMOUNT && V(t'[a]) == 1 && V(t'[b]) == 1
      ensures Pfn(t'[a], bits) != Pfn(t'[b], bits)
    {
      if a == vpn {
        assert V(t[b]) == 1 && b != victim;
      } else if b == vpn {
        assert V(t[a]) == 1 && a != victim;
      }
    }
  }

  // ---------------------------------------------------------------------
  // One reference
  // ---------------------------------------------------------------------

  /**
   * Lines 258-274: in two-level mode a reference into an inner table not
   * yet allocated allocates it (zero entries) and marks the outer entry
   * valid with P1 in its low bits (AllocatedEntry).
   */
  function Allocate(c: Config, s: Memory, p1: Word): (r: Memory)
    requires Inv(c, s) && p1 < INNER_TABLE_AMOUNT
    ensures Inv(c, r) && r == s.(outer := r.outer)
    ensures c.level == 2 ==> r.outer == s.outer[p1 := OuterEntry(p1)]
    ensures c.level == 1 ==> r.outer == s.outer
  {
    if c.level == 2 && V(s.outer[p1]) == 0 then
      AllocatedEntry(p1);
      s.(outer := s.outer[p1 := WriteBits(WriteBits(s.outer[p1], 1, V_BIT_POSITION, 1), TWO_LEVEL_VPN_P1_BITS, 0, p1)])
    else
      s
  }

  /** The two writeBits calls of lines 272-273 on a zero outer entry give OuterEntry(p1). */
  lemma AllocatedEntry(p1: Word)
    requires p1 < INNER_TABLE_AMOUNT
    ensures WriteBits(WriteBits(0, 1, V_BIT_POSITION, 1), TWO_LEVEL_VPN_P1_BITS, 0, p1) == OuterEntry(p1)
    ensures V(OuterEntry(p1)) == 1 && ExtractBits(OuterEntry(p1), TWO_LEVEL_VPN_P1_BITS, 0) == p1
  {
    Pow2Values();
    var e := WriteBits(0, 1, V_BIT_POSITION, 1);
    assert e == 32768;
    assert WriteBits(e, TWO_LEVEL_VPN_P1_BITS, 0, p1) == 32768 + p1;
  }

  /**
   * Lines 362-371: the page is marked valid, clean and referenced in
   * `frame`, and the frame receives swap slot vpn.
   */
  function Load(c: Config, s: Memory, vpn: Word, frame: nat): (r: Memory)
    requires ConfigOk(c) && |s.table| == PAGE_AMOUNT && vpn < PAGE_AMOUNT && frame < c.frameNumber
    requires |s.frames| == c.frameNumber * PAGE_SIZE_BYTES && |s.swap| == VM_SIZE_BYTES
  {
    s.(table := s.table[vpn := Loaded(s.table[vpn], c.pfnBits, frame)],
       frames := PutBlock(s.frames, frame, Block(s.swap, vpn)))
  }

  /**
   * Loading sets V and R, clears M and stores the frame in vpn's entry
   * alone; the frame then holds swap slot vpn and every other frame, the
   * swap store, the queue and the counters are as they were.
   */
  lemma LoadSpec(c: Config, s: Memory, vpn: Word, frame: nat)
    requires ConfigOk(c) && |s.table| == PAGE_AMOUNT && vpn < PAGE_AMOUNT && frame < c.frameNumber
    requires |s.frames| == c.frameNumber * PAGE_SIZE_BYTES && |s.swap| == VM_SIZE_BYTES
    ensures var r := Load(c, s, vpn, frame);
      && V(r.table[vpn]) == 1 && M(r.table[vpn]) == 0 && R(r.table[vpn]) == 1
      && Pfn(r.table[vpn], c.pfnBits) == frame
      && |r.table| == PAGE_AMOUNT && |r.frames| == |s.frames|
      && (forall x :: 0 <= x < PAGE_AMOUNT && x != vpn ==> r.table[x] == s.table[x])
      && Block(r.frames, frame) == Block(s.swap, vpn)
      && (forall f :: 0 <= f < c.frameNumber && f != frame ==> Block(r.frames, f) == Block(s.frames, f))
      && r.swap == s.swap && r.outer == s.outer && r.queue == s.queue
      && r.initialFrameCounter == s.initialFrameCounter && r.referenceCounter == s.referenceCounter
      && r.totalPageFaultCounter == s.totalPageFaultCounter
  {
    var b := Block(s.swap, vpn);
    BlockPut(s.frames, frame, b, frame);
    forall f | 0 <= f < c.frameNumber && f != frame
      ensures Block(PutBlock(s.frames, frame, b), f) == Block(s.frames, f)
    {
      BlockPut(s.frames, frame, b, f);
    }
  }

  /** The frame a faulting page is to occupy, and the state once that frame is free for it. */
  datatype Room = Room(mem: Memory, frame: Word)

  /**
   * Lines 296-360: take the next unused frame while there is one, and queue
   * the page; otherwise evict the page the policy selects, writing its
   * frame back to its swap slot when it is modified and clearing its V bit.
   */
  function MakeRoom(c: Config, s: Memory, vpn: Word): (r: Room)
    requires Inv(c, s) && vpn < PAGE_AMOUNT && V(s.table[vpn]) == 0
    ensures r.frame < c.frameNumber && |r.mem.table| == PAGE_AMOUNT
    ensures |r.mem.frames| == |s.frames| && |r.mem.swap| == |s.swap|
  {
    if s.initialFrameCounter < c.frameNumber then
      Room(s.(queue := [vpn] + s.queue, initialFrameCounter := s.initialFrameCounter + 1), s.initialFrameCounter)
    else
      var ch := Choose(c, s, vpn);
      var e := ch.table[ch.victim];
      var frame := Pfn(e, c.pfnBits);
      var swap := if M(e) == 1 then PutBlock(s.swap, ch.victim, Block(s.frames, frame)) else s.swap;
      Room(s.(table := ch.table[ch.victim := SetFlag(e, V_BIT_POSITION, 0)], queue := ch.queue, swap := swap), frame)
  }

  /**
   * Lines 282-372, a reference to a page that is not valid: count the
   * fault, make room, then load the page.
   */
  function Fault(c: Config, s: Memory, vpn: Word): (r: Memory)
    requires Inv(c, s) && vpn < PAGE_AMOUNT && V(s.table[vpn]) == 0
    ensures Inv(c, r) && V(r.table[vpn]) == 1
  {
    var s1 := s.(totalPageFaultCounter := s.totalPageFaultCounter + 1);
    var room := MakeRoom(c, s1, vpn);
    var r := Load(c, room.mem, vpn, room.frame);
    if s.initialFrameCounter < c.frameNumber then
      ResidentFill(s.table, s.queue, room.frame, c.pfnBits, vpn);
      r
    else
      var ch := Choose(c, s1, vpn);
      ResidentSwap(ch.table, r.table, s.queue, ch.queue, s.initialFrameCounter, c.pfnBits, ch.victim, vpn);
      r
  }

  /** With every frame in use, Select's victim is a valid page whose frame lies in physical memory. */
  lemma VictimResident(c: Config, s: Memory, vpn: Word)
    requires Inv(c, s) && vpn < PAGE_AMOUNT && V(s.table[vpn]) == 0 && s.initialFrameCounter == c.frameNumber
    ensures s.queue != [] && forall i :: 0 <= i < |s.queue| ==> s.queue[i] < PAGE_AMOUNT
    ensures var ch := Select(c, s.table, s.queue, vpn);
      V(ch.table[ch.victim]) == 1 && Pfn(ch.table[ch.victim], c.pfnBits) < c.frameNumber
  {
    var ch := Choose(c, s, vpn);
  }

  /**
   * Lines 291-360 spelled out step by step, for a state s whose queue is as
   * residency makes it: count the fault; while frames are unused, queue the
   * page and take the next frame; otherwise let the policy choose,
   * invalidate the victim, write it back when modified and take its frame.
   * Under Inv this is MakeRoom of the counted state (FaultSteps).
   */
  ghost predicate Claimed(c: Config, s: Memory, vpn: Word, frame: Word, s2: Memory)
    requires |s.table| == PAGE_AMOUNT && vpn < PAGE_AMOUNT && |s.frames| == c.frameNumber * PAGE_SIZE_BYTES
    requires forall i :: 0 <= i < |s.queue| ==> s.queue[i] < PAGE_AMOUNT
  {
    var s1 := s.(totalPageFaultCounter := s.totalPageFaultCounter + 1);
    if s.initialFrameCounter < c.frameNumber then Took(s1, vpn, frame, s2) else Replaced(c, s1, vpn, frame, s2)
  }

  /** vpn is queued and takes the next unused frame. */
  ghost predicate Took(s: Memory, vpn: Word, frame: Word, s2: Memory)
  {
    && frame == s.initialFrameCounter
    && s2 == s.(queue := [vpn] + s.queue, initialFrameCounter := frame + 1)
  }

  /**
   * The victim Select names gives up its frame: its V bit is cleared, and
   * it is written back when modified.
   */
  ghost predicate Replaced(c: Config, s: Memory, vpn: Word, frame: Word, s2: Memory)
    requires |s.table| == PAGE_AMOUNT && vpn < PAGE_AMOUNT && |s.frames| == c.frameNumber * PAGE_SIZE_BYTES
    requires forall i :: 0 <= i < |s.queue| ==> s.queue[i] < PAGE_AMOUNT
  {
    && s.queue != []
    && var ch := Select(c, s.table, s.queue, vpn);
    var e := ch.table[ch.victim];
    && frame == Pfn(e, c.pfnBits) && frame < c.frameNumber
    && |s.swap| == VM_SIZE_BYTES
    && s2 == s.(table := ch.table[ch.victim := SetFlag(e, V_BIT_POSITION, 0)], queue := ch.queue,
                swap := if M(e) == 1 then PutBlock(s.swap, ch.victim, Block(s.frames, frame)) else s.swap)
  }

  /** Selecting the victim and then evicting it, step by step, is Replaced. */
  lemma ReplaceSteps(c: Config, s: Memory, vpn: Word, victim: Word, s1: Memory, frame: Word, s2: Memory)
    requires |s.table| == PAGE_AMOUNT && vpn < PAGE_AMOUNT && |s.frames| == c.frameNumber * PAGE_SIZE_BYTES
    requires forall i :: 0 <= i < |s.queue| ==> s.queue[i] < PAGE_AMOUNT
    requires s.queue != [] && |s.swap| == VM_SIZE_BYTES
    requires var ch := Select(c, s.table, s.queue, vpn);
      && victim == ch.victim && Pfn(ch.table[victim], c.pfnBits) < c.frameNumber
      && s1 == s.(table := ch.table, queue := ch.queue)
    requires var e := s1.table[victim];
      && frame == Pfn(e, c.pfnBits)
      && s2 == s1.(table := s1.table[victim := SetFlag(e, V_BIT_POSITION, 0)],
                   swap := if M(e) == 1 then PutBlock(s1.swap, victim, Block(s1.frames, frame)) else s1.swap)
    ensures Replaced(c, s, vpn, frame, s2)
  {
  }

  /** Counting the fault and then taking or replacing a frame is Claimed. */
  lemma ClaimSteps(c: Config, s: Memory, vpn: Word, s1: Memory, frame: Word, s2: Memory)
    requires |s.table| == PAGE_AMOUNT && vpn < PAGE_AMOUNT && |s.frames| == c.frameNumber * PAGE_SIZE_BYTES
    requires forall i :: 0 <= i < |s.queue| ==> s.queue[i] < PAGE_AMOUNT
    requires s1 == s.(totalPageFaultCounter := s.totalPageFaultCounter + 1)
    requires if s.initialFrameCounter < c.frameNumber then Took(s1, vpn, frame, s2) else Replaced(c, s1, vpn, frame, s2)
    ensures Claimed(c, s, vpn, frame, s2)
  {
  }

  /** Claiming a frame step by step and then loading the page is Fault. */
  lemma FaultSteps(c: Config, s: Memory, vpn: Word, frame: Word, s2: Memory, r: Memory)
    requires Inv(c, s) && vpn < PAGE_AMOUNT && V(s.table[vpn]) == 0
    requires Claimed(c, s, vpn, frame, s2) && frame < c.frameNumber
    requires r == Load(c, s2, vpn, frame)
    ensures r == Fault(c, s, vpn) && Inv(c, r)
  {
    if s.initialFrameCounter == c.frameNumber {
      var ch := Choose(c, s, vpn);
    }
  }

  /**
   * The policy's choice when every frame is in use, with what residency
   * says about it: the victim is a valid page other than vpn, whose entry
   * the policy may only have cleared the R bit of.
   */
  function Choose(c: Config, s: Memory, vpn: Word): (ch: Choice)
    requires Inv(c, s) && vpn < PAGE_AMOUNT && V(s.table[vpn]) == 0
    requires s.initialFrameCounter == c.frameNumber
    ensures ch == Select(c, s.table, s.queue, vpn)
    ensures ch.victim in s.queue && ch.victim < PAGE_AMOUNT && ch.victim != vpn && V(s.table[ch.victim]) == 1
    ensures |ch.table| == PAGE_AMOUNT && V(ch.table[vpn]) == 0 && V(ch.table[ch.victim]) == 1
    ensures Pfn(ch.table[ch.victim], c.pfnBits) == Pfn(s.table[ch.victim], c.pfnBits) < c.frameNumber
    ensures M(ch.table[ch.victim]) == M(s.table[ch.victim])
    ensures Resident(ch.table, s.queue, s.initialFrameCounter, c.pfnBits)
    ensures |ch.queue| == |s.queue| && Distinct(ch.queue)
    ensures forall x :: x in ch.queue <==> (x in s.queue && x != ch.victim) || x == vpn
  {
    assert vpn !in s.queue;
    var ch := Select(c, s.table, s.queue, vpn);
    SelectSpec(c, s.table, s.queue, vpn);
    ResidentKeep(s.table, ch.table, s.queue, s.initialFrameCounter, c.pfnBits);
    assert RCleared(s.table[ch.victim], ch.table[ch.victim]) && RCleared(s.table[vpn], ch.table[vpn]);
    PfnKeep(ch.table[ch.victim], s.table[ch.victim], c.pfnBits);
    ch
  }

  /** The result of the reference operations: the new state and the PFN that was used. */
  datatype Accessed = Accessed(mem: Memory, pfn: Word)

  /**
   * Lines 374-398: LRU moves the page to the front, R is set, and a write
   * stores the low byte of the value at the offset in the page's frame and
   * sets M.
   */
  function Access(c: Config, s: Memory, vpn: Word, offset: Word, ref: Reference): (r: Accessed)
    requires Inv(c, s) && vpn < PAGE_AMOUNT && offset < PAGE_SIZE_BYTES && V(s.table[vpn]) == 1
    ensures Inv(c, r.mem) && r.pfn < c.frameNumber
  {
    var q := if c.algorithm == LRU then MoveToTop(s.queue, vpn) else s.queue;
    var e := SetFlag(s.table[vpn], R_BIT_POSITION, 1);
    var pfn := Pfn(e, c.pfnBits);
    PfnKeep(e, s.table[vpn], c.pfnBits);
    MoveToTopMembers(s.queue, vpn);
    if ref.mode == 'w' then
      var e' := SetFlag(e, M_BIT_POSITION, 1);
      PfnKeep(e', s.table[vpn], c.pfnBits);
      var r := Accessed(s.(queue := q, table := s.table[vpn := e'],
                           frames := s.frames[pfn * 64 + offset := ref.value % 256]), pfn);
      ResidentKeep(s.table, r.mem.table, s.queue, s.initialFrameCounter, c.pfnBits);
      ResidentQueue(r.mem.table, s.queue, q, s.initialFrameCounter, c.pfnBits);
      r
    else
      var r := Accessed(s.(queue := q, table := s.table[vpn := e]), pfn);
      ResidentKeep(s.table, r.mem.table, s.queue, s.initialFrameCounter, c.pfnBits);
      ResidentQueue(r.mem.table, s.queue, q, s.initialFrameCounter, c.pfnBits);
      r
  }

  /**
   * The reference operations taken one at a time: the queue reordered,
   * then R set, the PFN read, and for a write the byte stored and M set.
   * Together they are Access.
   */
  lemma AccessSteps(c: Config, s: Memory, vpn: Word, offset: Word, ref: Reference, pfn: Word, s2: Memory)
    requires Inv(c, s) && vpn < PAGE_AMOUNT && offset < PAGE_SIZE_BYTES && V(s.table[vpn]) == 1
    requires var e := SetFlag(s.table[vpn], R_BIT_POSITION, 1);
      var q := if c.algorithm == LRU then MoveToTop(s.queue, vpn) else s.queue;
      && pfn == Pfn(e, c.pfnBits) && pfn < c.frameNumber
      && s2 == if ref.mode == 'w' then
                 s.(queue := q, table := s.table[vpn := SetFlag(e, M_BIT_POSITION, 1)],
                    frames := s.frames[pfn * 64 + offset := ref.value % 256])
               else s.(queue := q, table := s.table[vpn := e])
    ensures Access(c, s, vpn, offset, ref) == Accessed(s2, pfn) && Inv(c, s2)
  {
  }

  /** Reordering the queue keeps residency. */
  lemma ResidentQueue(t: seq<Word>, q: seq<Word>, q': seq<Word>, n: nat, bits: nat)
    requires Resident(t, q, n, bits) && |q'| == |q| && Distinct(q')
    requires forall x :: x in q' <==> x in q
    ensures Resident(t, q', n, bits)
  {
    forall i | 0 <= i < |q'| ensures q'[i] < PAGE_AMOUNT {
      assert q'[i] in q';
    }
  }

  /** Moving a page to the top keeps the queue's pages, each once. */
  lemma MoveToTopMembers(q: seq<Word>, key: Word)
    requires Distinct(q)
    ensures Distinct(MoveToTop(q, key)) && |MoveToTop(q, key)| == |q|
    ensures forall x :: x in MoveToTop(q, key) <==> x in q
  {
    MoveToTopSpec(q, key);
    MultisetMembers(q, MoveToTop(q, key));
    var i := Find(q, key);
    if i < |q| {
      WithoutDistinct(q, i);
      ConsDistinct(q[i], Without(q, i));
    }
  }

  lemma MultisetMembers(a: seq<Word>, b: seq<Word>)
    requires multiset(a) == multiset(b)
    ensures forall x :: x in a <==> x in b
  {
    forall x ensures x in a <==> x in b {
      assert x in a <==> x in multiset(a);
      assert x in b <==> x in multiset(b);
    }
  }

  lemma ConsDistinct(x: Word, s: seq<Word>)
    requires Distinct(s) && forall j :: 0 <= j < |s| ==> s[j] != x
    ensures Distinct([x] + s)
  {
    var r := [x] + s;
    forall i, j | 0 <= i < j < |r| ensures r[i] != r[j] {
      assert r[j] == s[j - 1];
      if i > 0 { assert r[i] == s[i - 1]; }
    }
  }

  /**
   * clearReferencedBits: the counter advances, and when it reaches the
   * tick every R bit is cleared and the counter restarts.
   */
  function Aging(c: Config, s: Memory): (r: Memory)
    requires Inv(c, s)
    ensures Inv(c, r)
  {
    var counter := s.referenceCounter + 1;
    if counter == c.tick then
      ResidentKeep(s.table, ClearAll(s.table), s.queue, s.initialFrameCounter, c.pfnBits);
      s.(table := ClearAll(s.table), referenceCounter := 0)
    else
      s.(referenceCounter := counter)
  }

  /** The counter and the tables updated one after the other, as clearReferencedBits does: Aging. */
  lemma AgingSteps(c: Config, s: Memory, s2: Memory)
    requires Inv(c, s)
    requires s2 == if s.referenceCounter + 1 == c.tick then s.(table := ClearAll(s.table), referenceCounter := 0)
                   else s.(referenceCounter := s.referenceCounter + 1)
    ensures s2 == Aging(c, s) && Inv(c, s2)
  {
  }

  /** The loop body of processMemoryReferences for one reference: the new state and the log line. */
  function Step(c: Config, s: Memory, ref: Reference): (r: (Memory, LogRecord))
    requires Inv(c, s)
    ensures Inv(c, r.0)
  {
    var va := ref.address;
    AddressSplit(va);
    var vpn, vpnP1, vpnP2, offset := Vpn(va), VpnP1(va), VpnP2(va), Offset(va);
    var s1 := Allocate(c, s, vpnP1);
    var fault := V(s1.table[vpn]) == 0;
    var s2 := if fault then Fault(c, s1, vpn) else s1;
    var a := Access(c, s2, vpn, offset, ref);
    var log := LogRecord(va, if c.level == 1 then vpn else vpnP1, if c.level == 1 then 0 else vpnP2,
                         offset, a.pfn, WriteBits(va, VA_VPN_BITS, VA_OFFSET_BITS, a.pfn), fault);
    (Aging(c, a.mem), log)
  }

  /**
   * The first parts of one pass: the inner table allocated, the page
   * faulted in when its entry is not valid, and the reference performed.
   */
  ghost predicate Resolved(c: Config, s: Memory, ref: Reference, pageFault: bool, a: Accessed)
    requires Inv(c, s)
  {
    var va := ref.address;
    AddressSplit(va);
    var s1 := Allocate(c, s, VpnP1(va));
    && pageFault == (V(s1.table[Vpn(va)]) == 0)
    && a == Access(c, if pageFault then Fault(c, s1, Vpn(va)) else s1, Vpn(va), Offset(va), ref)
  }

  /** Allocation, then the fault when V is clear, then the access: Resolved. */
  lemma ResolveSteps(c: Config, s: Memory, ref: Reference, s1: Memory, pageFault: bool, a: Accessed)
    requires Inv(c, s)
    requires Vpn(ref.address) < PAGE_AMOUNT && VpnP1(ref.address) < INNER_TABLE_AMOUNT
    requires Offset(ref.address) < PAGE_SIZE_BYTES
    requires var p1 := VpnP1(ref.address);
      s1 == s.(outer := if c.level == 2 then s.outer[p1 := OuterEntry(p1)] else s.outer)
    requires pageFault == (V(s1.table[Vpn(ref.address)]) == 0)
    requires a == Access(c, if pageFault then Fault(c, s1, Vpn(ref.address)) else s1,
                         Vpn(ref.address), Offset(ref.address), ref)
    ensures Resolved(c, s, ref, pageFault, a)
  {
    assert s1 == Allocate(c, s, VpnP1(ref.address));
  }

  /** Those parts followed by the log line and the aging step are Step. */
  lemma StepSteps(c: Config, s: Memory, ref: Reference, pageFault: bool, a: Accessed, log: LogRecord, s4: Memory)
    requires Inv(c, s) && Resolved(c, s, ref, pageFault, a)
    requires var va := ref.address;
      log == LogRecord(va, if c.level == 1 then Vpn(va) else VpnP1(va), if c.level == 1 then 0 else VpnP2(va),
                       Offset(va), a.pfn, WriteBits(va, VA_VPN_BITS, VA_OFFSET_BITS, a.pfn), pageFault)
    requires s4 == Aging(c, a.mem)
    ensures (s4, log) == Step(c, s, ref)
  {
  }

  /** processMemoryReferences over a whole trace: the final state and the log lines in order. */
  function Run(c: Config, s: Memory, trace: seq<Reference>): (r: (Memory, seq<LogRecord>))
    requires Inv(c, s)
    ensures Inv(c, r.0) && |r.1| == |trace|
  {
    if trace == [] then (s, [])
    else
      var p := Run(c, s, trace[..|trace| - 1]);
      var st := Step(c, p.0, trace[|trace| - 1]);
      (st.0, p.1 + [st.1])
  }

  /** One more reference extends a run by one step and one log line. */
  lemma {:induction false} RunSnoc(c: Config, s: Memory, trace: seq<Reference>, i: nat, m: Memory, logs: seq<LogRecord>,
                m2: Memory, log: LogRecord)
    requires Inv(c, s) && i < |trace| && (m, logs) == Run(c, s, trace[..i])
    requires (m2, log) == Step(c, m, trace[i])
    ensures (m2, logs + [log]) == Run(c, s, trace[..i + 1])
  {
    var t := trace[..i + 1];
    assert t[..|t| - 1] == trace[..i] && t[|t| - 1] == trace[i];
  }

  // ---------------------------------------------------------------------
  // memoryFlush (lines 415-462)
  // ---------------------------------------------------------------------

  /** Every valid page names a frame inside physical memory. */
  predicate FramesIn(t: seq<Word>, frames: seq<Byte>, bits: nat)
  {
    forall v :: 0 <= v < |t| && V(t[v]) == 1 ==> Pfn(t[v], bits) * 64 + 64 <= |frames|
  }

  /** The flush from page v on: each valid page's frame, in page order, is written to its swap slot. */
  function FlushFrom(t: seq<Word>, frames: seq<Byte>, swap: seq<Byte>, bits: nat, v: nat): (r: seq<Byte>)
    requires |t| == PAGE_AMOUNT && |swap| == VM_SIZE_BYTES && v <= PAGE_AMOUNT && FramesIn(t, frames, bits)
    ensures |r| == VM_SIZE_BYTES
    decreases PAGE_AMOUNT - v
  {
    if v == PAGE_AMOUNT then swap
    else
      var swap' := if V(t[v]) == 1 then PutBlock(swap, v, Block(frames, Pfn(t[v], bits))) else swap;
      FlushFrom(t, frames, swap', bits, v + 1)
  }

  /** Residency puts every valid page's frame inside physical memory. */
  lemma InvFrames(c: Config, s: Memory)
    requires Inv(c, s)
    ensures FramesIn(s.table, s.frames, c.pfnBits)
  {
    forall v | 0 <= v < |s.table| && V(s.table[v]) == 1
      ensures Pfn(s.table[v], c.pfnBits) * 64 + 64 <= |s.frames|
    {
      assert Pfn(s.table[v], c.pfnBits) < s.initialFrameCounter;
    }
  }

  /** Block u of the flushed store: the frame of page u when u >= v is valid, the old slot otherwise. */
  lemma {:induction false} FlushFromSpec(t: seq<Word>, frames: seq<Byte>, swap: seq<Byte>, bits: nat, v: nat, u: nat)
    requires |t| == PAGE_AMOUNT && |swap| == VM_SIZE_BYTES && v <= PAGE_AMOUNT && FramesIn(t, frames, bits)
    requires u < PAGE_AMOUNT
    ensures Block(FlushFrom(t, frames, swap, bits, v), u) ==
      if v <= u && V(t[u]) == 1 then Block(frames, Pfn(t[u], bits)) else Block(swap, u)
    decreases PAGE_AMOUNT - v
  {
    if v < PAGE_AMOUNT {
      var swap' := if V(t[v]) == 1 then PutBlock(swap, v, Block(frames, Pfn(t[v], bits))) else swap;
      FlushFromSpec(t, frames, swap', bits, v + 1, u);
      if V(t[v]) == 1 {
        BlockPut(swap, v, Block(frames, Pfn(t[v], bits)), u);
      }
    }
  }

  /** Pages that are not valid are skipped: no slot is written for them. */
  lemma {:induction false} FlushSkip(t: seq<Word>, frames: seq<Byte>, swap: seq<Byte>, bits: nat, v: nat, w: nat)
    requires |t| == PAGE_AMOUNT && |swap| == VM_SIZE_BYTES && v <= w <= PAGE_AMOUNT && FramesIn(t, frames, bits)
    requires forall u :: v <= u < w ==> V(t[u]) == 0
    ensures FlushFrom(t, frames, swap, bits, v) == FlushFrom(t, frames, swap, bits, w)
    decreases w - v
  {
    if v < w {
      FlushSkip(t, frames, swap, bits, v + 1, w);
    }
  }

  /** The swap store after memoryFlush. */
  function Flush(c: Config, s: Memory): (r: seq<Byte>)
    requires Inv(c, s)
    ensures |r| == VM_SIZE_BYTES
  {
    InvFrames(c, s);
    FlushFrom(s.table, s.frames, s.swap, c.pfnBits, 0)
  }

  /**
   * memoryFlush: afterwards every valid page's swap slot holds its frame,
   * and every other slot is as it was.
   */
  lemma FlushSpec(c: Config, s: Memory, u: nat)
    requires Inv(c, s) && u < PAGE_AMOUNT
    ensures Block(Flush(c, s), u) ==
      if V(s.table[u]) == 1 then Block(s.frames, Pfn(s.table[u], c.pfnBits)) else Block(s.swap, u)
  {
    InvFrames(c, s);
    FlushFromSpec(s.table, s.frames, s.swap, c.pfnBits, 0, u);
  }

  // ---------------------------------------------------------------------
  // What one reference does
  // ---------------------------------------------------------------------

  /**
   * A fault while frames are unused (lines 296-310): the page is queued at
   * the front and gets frame initialFrameCounter, which then advances, so
   * frames are handed out 0, 1, 2, ...; the frame receives swap slot vpn,
   * nothing is written to swap, and no other entry changes.
   */
  lemma FaultFill(c: Config, s: Memory, vpn: Word)
    requires Inv(c, s) && vpn < PAGE_AMOUNT && V(s.table[vpn]) == 0
    requires s.initialFrameCounter < c.frameNumber
    ensures var r := Fault(c, s, vpn);
      && r.initialFrameCounter == s.initialFrameCounter + 1
      && r.queue == [vpn] + s.queue
      && Pfn(r.table[vpn], c.pfnBits) == s.initialFrameCounter
      && M(r.table[vpn]) == 0 && R(r.table[vpn]) == 1
      && Block(r.frames, s.initialFrameCounter) == Block(s.swap, vpn)
      && (forall f :: 0 <= f < c.frameNumber && f != s.initialFrameCounter ==> Block(r.frames, f) == Block(s.frames, f))
      && r.swap == s.swap
      && (forall v :: 0 <= v < PAGE_AMOUNT && v != vpn ==> r.table[v] == s.table[v])
      && r.totalPageFaultCounter == s.totalPageFaultCounter + 1
  {
    var r := Fault(c, s, vpn);
    forall f | 0 <= f < c.frameNumber
      ensures Block(r.frames, f) == if f == s.initialFrameCounter then Block(s.swap, vpn) else Block(s.frames, f)
    {
      BlockPut(s.frames, s.initialFrameCounter, Block(s.swap, vpn), f);
    }
  }

  /**
   * A fault with every frame in use (lines 312-372): the policy's victim is
   * a resident page; its frame is written back to its swap slot exactly
   * when its M bit is set; its entry loses V and keeps R, M and the frame
   * number; the new page is loaded into the victim's frame, valid, clean
   * and referenced, and the frame receives the new page's swap slot.  No
   * other frame or swap slot changes, the other entries change at most in
   * their R bits, and the outer table is kept.
   */
  lemma FaultReplace(c: Config, s: Memory, vpn: Word)
    requires Inv(c, s) && vpn < PAGE_AMOUNT && V(s.table[vpn]) == 0
    requires s.initialFrameCounter == c.frameNumber
    ensures var ch := Choose(c, s, vpn);
      var victim := ch.victim;
      var e := ch.table[victim];
      var frame := Pfn(s.table[victim], c.pfnBits);
      var r := Fault(c, s, vpn);
      && (M(e) == 1 ==> Block(r.swap, victim) == Block(s.frames, frame))
      && (M(e) == 0 ==> r.swap == s.swap)
      && (forall u :: 0 <= u < PAGE_AMOUNT && u != victim ==> Block(r.swap, u) == Block(s.swap, u))
      && V(r.table[victim]) == 0 && R(r.table[victim]) == R(e) && M(r.table[victim]) == M(e)
      && Pfn(r.table[victim], c.pfnBits) == frame
      && V(r.table[vpn]) == 1 && M(r.table[vpn]) == 0 && R(r.table[vpn]) == 1
      && Pfn(r.table[vpn], c.pfnBits) == frame
      && Block(r.frames, frame) == Block(s.swap, vpn)
      && (forall f :: 0 <= f < c.frameNumber && f != frame ==> Block(r.frames, f) == Block(s.frames, f))
      && (forall v :: 0 <= v < PAGE_AMOUNT && v != vpn && v != victim ==> RCleared(s.table[v], r.table[v]))
      && r.outer == s.outer
      && r.queue == ch.queue && r.initialFrameCounter == s.initialFrameCounter
      && r.totalPageFaultCounter == s.totalPageFaultCounter + 1
  {
    var ch := Choose(c, s, vpn);
    SelectSpec(c, s.table, s.queue, vpn);
    var victim := ch.victim;
    var e := ch.table[victim];
    var frame := Pfn(e, c.pfnBits);
    var e' := SetFlag(e, V_BIT_POSITION, 0);
    PfnKeep(e', e, c.pfnBits);
    var swap := if M(e) == 1 then PutBlock(s.swap, victim, Block(s.frames, frame)) else s.swap;
    forall u | 0 <= u < PAGE_AMOUNT
      ensures Block(swap, u) == if u == victim && M(e) == 1 then Block(s.frames, frame) else Block(s.swap, u)
    {
      if M(e) == 1 {
        BlockPut(s.swap, victim, Block(s.frames, frame), u);
      }
    }
    forall f | 0 <= f < c.frameNumber
      ensures Block(PutBlock(s.frames, frame, Block(swap, vpn)), f) == if f == frame then Block(swap, vpn) else Block(s.frames, f)
    {
      BlockPut(s.frames, frame, Block(swap, vpn), f);
    }
  }

  /**
   * The reference operations (lines 374-398): the page stays valid with R
   * set; a write stores the low byte of the value at the offset in the
   * page's frame, sets M and changes no other byte; any other mode changes
   * no byte and leaves M; LRU moves the page to the front of its list.
   */
  lemma AccessSpec(c: Config, s: Memory, vpn: Word, offset: Word, ref: Reference)
    requires Inv(c, s) && vpn < PAGE_AMOUNT && offset < PAGE_SIZE_BYTES && V(s.table[vpn]) == 1
    ensures var a := Access(c, s, vpn, offset, ref);
      var e := a.mem.table[vpn];
      && a.pfn == Pfn(s.table[vpn], c.pfnBits) && Pfn(e, c.pfnBits) == a.pfn
      && V(e) == 1 && R(e) == 1
      && M(e) == (if ref.mode == 'w' then 1 else M(s.table[vpn]))
      && (ref.mode == 'w' ==> a.mem.frames == s.frames[a.pfn * 64 + offset := ref.value % 256])
      && (ref.mode != 'w' ==> a.mem.frames == s.frames)
      && (forall v :: 0 <= v < PAGE_AMOUNT && v != vpn ==> a.mem.table[v] == s.table[v])
      && a.mem.swap == s.swap && a.mem.initialFrameCounter == s.initialFrameCounter
  {
    var e := SetFlag(s.table[vpn], R_BIT_POSITION, 1);
    PfnKeep(e, s.table[vpn], c.pfnBits);
    if ref.mode == 'w' {
      PfnKeep(SetFlag(e, M_BIT_POSITION, 1), s.table[vpn], c.pfnBits);
    }
  }

  /** Under LRU a reference moves its page to the front of the list; the other policies keep the queue. */
  lemma AccessQueue(c: Config, s: Memory, vpn: Word, offset: Word, ref: Reference)
    requires Inv(c, s) && vpn < PAGE_AMOUNT && offset < PAGE_SIZE_BYTES && V(s.table[vpn]) == 1
    ensures Access(c, s, vpn, offset, ref).mem.queue ==
      if c.algorithm == LRU then [vpn] + Delete(s.queue, vpn) else s.queue
  {
    assert vpn in s.queue;
    MoveToTopSpec(s.queue, vpn);
  }

  /**
   * clearReferencedBits: when the advanced counter reaches TICK every entry
   * loses its R bit (and nothing else) and the counter restarts at 0;
   * otherwise the table is unchanged.
   */
  lemma AgingSpec(c: Config, s: Memory)
    requires Inv(c, s)
    ensures var r := Aging(c, s);
      && r == s.(table := r.table, referenceCounter := r.referenceCounter)
      && |r.table| == |s.table|
      && (s.referenceCounter + 1 == c.tick ==>
            && r.referenceCounter == 0
            && forall v :: 0 <= v < |s.table| ==>
                 R(r.table[v]) == 0 && V(r.table[v]) == V(s.table[v]) && M(r.table[v]) == M(s.table[v])
                 && Low(r.table[v]) == Low(s.table[v]))
      && (s.referenceCounter + 1 != c.tick ==>
            r.table == s.table && r.referenceCounter == s.referenceCounter + 1)
  {
  }

  /** With TICK = 0 the counter only grows, so the table is never aged. */
  lemma {:induction false} NoAgingAtTickZero(c: Config, s: Memory, trace: seq<Reference>)
    requires Inv(c, s) && c.tick == 0
    ensures Run(c, s, trace).0.referenceCounter == s.referenceCounter + |trace|
  {
    if trace != [] {
      NoAgingAtTickZero(c, s, trace[..|trace| - 1]);
      StepCounter(c, Run(c, s, trace[..|trace| - 1]).0, trace[|trace| - 1]);
    }
  }

  /** Each reference advances the reference counter, which restarts at 0 when it reaches TICK. */
  lemma StepCounter(c: Config, s: Memory, ref: Reference)
    requires Inv(c, s)
    ensures Step(c, s, ref).0.referenceCounter ==
      if s.referenceCounter + 1 == c.tick then 0 else s.referenceCounter + 1
  {
  }

  /**
   * One reference: it faults exactly when its page was not valid, and only
   * then does the fault counter advance; afterwards the page is valid in
   * the logged frame, and the logged physical address is that frame's
   * base plus the offset.
   */
  lemma StepSpec(c: Config, s: Memory, ref: Reference)
    requires Inv(c, s)
    ensures var va := ref.address;
      var r := Step(c, s, ref);
      var log := r.1;
      && log.virtualAddress == va && log.offset == Offset(va)
      && log.first == (if c.level == 1 then Vpn(va) else VpnP1(va))
      && log.second == (if c.level == 1 then 0 else VpnP2(va))
      && (log.pageFault <==> V(s.table[Vpn(va)]) == 0)
      && r.0.totalPageFaultCounter == s.totalPageFaultCounter + (if log.pageFault then 1 else 0)
      && r.0.initialFrameCounter ==
           (if log.pageFault && s.initialFrameCounter < c.frameNumber then s.initialFrameCounter + 1
            else s.initialFrameCounter)
      && V(r.0.table[Vpn(va)]) == 1 && Pfn(r.0.table[Vpn(va)], c.pfnBits) == log.pfn
      && log.pfn < c.frameNumber
      && log.physicalAddress == log.pfn * PAGE_SIZE_BYTES + Offset(va)
  {
    var va := ref.address;
    AddressSplit(va);
    var vpn, offset := Vpn(va), Offset(va);
    var s1 := Allocate(c, s, VpnP1(va));
    var fault := V(s1.table[vpn]) == 0;
    var s2 := if fault then Fault(c, s1, vpn) else s1;
    if fault {
      if s1.initialFrameCounter < c.frameNumber {
        FaultFill(c, s1, vpn);
      } else {
        FaultReplace(c, s1, vpn);
      }
    }
    var a := Access(c, s2, vpn, offset, ref);
    AccessSpec(c, s2, vpn, offset, ref);
    AgingSpec(c, a.mem);
    PfnKeep(Aging(c, a.mem).table[vpn], a.mem.table[vpn], c.pfnBits);
    PhysicalAddress(va, a.pfn);
  }

  /** The number of log lines marked as page faults. */
  function FaultCount(logs: seq<LogRecord>): (n: nat)
    ensures n <= |logs|
  {
    if logs == [] then 0
    else FaultCount(logs[..|logs| - 1]) + (if logs[|logs| - 1].pageFault then 1 else 0)
  }

  /** The final fault counter is the number of log lines marked as page faults. */
  lemma {:induction false} RunFaults(c: Config, s: Memory, trace: seq<Reference>)
    requires Inv(c, s)
    ensures var r := Run(c, s, trace);
      r.0.totalPageFaultCounter == s.totalPageFaultCounter + FaultCount(r.1)
  {
    if trace != [] {
      var p := Run(c, s, trace[..|trace| - 1]);
      RunFaults(c, s, trace[..|trace| - 1]);
      StepSpec(c, p.0, trace[|trace| - 1]);
      var logs := Run(c, s, trace).1;
      assert logs[..|logs| - 1] == p.1;
    }
  }

  // ---------------------------------------------------------------------
  // What each page holds, and the round trip through the swap store
  // ---------------------------------------------------------------------

  /** The 64 bytes page v holds: its frame while it is valid, its swap slot otherwise. */
  function Content(c: Config, s: Memory, v: nat): (b: seq<Byte>)
    requires Inv(c, s) && v < PAGE_AMOUNT
    ensures |b| == PAGE_SIZE_BYTES
  {
    InvFrames(c, s);
    if V(s.table[v]) == 1 then Block(s.frames, Pfn(s.table[v], c.pfnBits)) else Block(s.swap, v)
  }

  /** Every page whose M bit is clear holds what its swap slot holds. */
  predicate Clean(c: Config, s: Memory)
    requires Inv(c, s)
  {
    forall v :: 0 <= v < PAGE_AMOUNT && M(s.table[v]) == 0 ==> Content(c, s, v) == Block(s.swap, v)
  }

  /** Page u's bytes after reference ref: the low byte of the value stored at the offset when ref writes into u. */
  function Written(b: seq<Byte>, u: nat, ref: Reference): (r: seq<Byte>)
    requires |b| == PAGE_SIZE_BYTES
    ensures |r| == PAGE_SIZE_BYTES
  {
    AddressSplit(ref.address);
    if ref.mode == 'w' && Vpn(ref.address) == u then b[Offset(ref.address) := ref.value % 256] else b
  }

  /** Page u's bytes after the writes of the trace that fall in page u, in trace order. */
  function Writes(b: seq<Byte>, u: nat, trace: seq<Reference>): (r: seq<Byte>)
    requires |b| == PAGE_SIZE_BYTES
    ensures |r| == PAGE_SIZE_BYTES
  {
    if trace == [] then b else Written(Writes(b, u, trace[..|trace| - 1]), u, trace[|trace| - 1])
  }

  /**
   * The byte at offset o of page u is the one the last write to that
   * address stored: a write at index i, followed by no other write to the
   * same offset of u, leaves its value's low byte there.
   */
  lemma {:induction false} WritesLast(b: seq<Byte>, u: nat, trace: seq<Reference>, i: nat)
    requires |b| == PAGE_SIZE_BYTES && i < |trace|
    requires trace[i].mode == 'w' && Vpn(trace[i].address) == u
    requires forall j :: i < j < |trace| && trace[j].mode == 'w' && Vpn(trace[j].address) == u ==>
      Offset(trace[j].address) != Offset(trace[i].address)
    ensures Offset(trace[i].address) < PAGE_SIZE_BYTES
    ensures Writes(b, u, trace)[Offset(trace[i].address)] == trace[i].value % 256
  {
    AddressSplit(trace[i].address);
    var p := trace[..|trace| - 1];
    if i < |trace| - 1 {
      assert p[i] == trace[i];
      WritesLast(b, u, p, i);
    } else {
      assert Writes(b, u, trace) == Writes(b, u, p)[Offset(trace[i].address) := trace[i].value % 256];
    }
  }

  /** Storing one byte of block i changes that byte of block i and no other block. */
  lemma BlockPoke(s: seq<Byte>, i: nat, k: nat, x: Byte, j: nat)
    requires k < PAGE_SIZE_BYTES && i * 64 + 64 <= |s| && j * 64 + 64 <= |s|
    ensures Block(s[i * 64 + k := x], j) == if i == j then Block(s, j)[k := x] else Block(s, j)
  {
  }

  /** The initial state is clean, and every page holds its swap slot. */
  lemma InitialContent(c: Config, frames: seq<Byte>, swap: seq<Byte>)
    requires ConfigOk(c) && |frames| == c.frameNumber * PAGE_SIZE_BYTES && |swap| == VM_SIZE_BYTES
    ensures Clean(c, Initial(c, frames, swap))
    ensures forall u :: 0 <= u < PAGE_AMOUNT ==> Content(c, Initial(c, frames, swap), u) == Block(swap, u)
  {
  }

  /** A fault moves no page's bytes: the evicted page's bytes go to its slot, the new page's come from its slot. */
  lemma FaultContent(c: Config, s: Memory, vpn: Word)
    requires Inv(c, s) && vpn < PAGE_AMOUNT && V(s.table[vpn]) == 0 && Clean(c, s)
    ensures Clean(c, Fault(c, s, vpn))
    ensures forall u :: 0 <= u < PAGE_AMOUNT ==> Content(c, Fault(c, s, vpn), u) == Content(c, s, u)
  {
    if s.initialFrameCounter < c.frameNumber {
      FillContent(c, s, vpn);
    } else {
      ReplaceContent(c, s, vpn);
    }
  }

  lemma FillContent(c: Config, s: Memory, vpn: Word)
    requires Inv(c, s) && vpn < PAGE_AMOUNT && V(s.table[vpn]) == 0 && Clean(c, s)
    requires s.initialFrameCounter < c.frameNumber
    ensures Clean(c, Fault(c, s, vpn))
    ensures forall u :: 0 <= u < PAGE_AMOUNT ==> Content(c, Fault(c, s, vpn), u) == Content(c, s, u)
  {
    var r := Fault(c, s, vpn);
    var n := s.initialFrameCounter;
    FaultFill(c, s, vpn);
    forall u | 0 <= u < PAGE_AMOUNT ensures Content(c, r, u) == Content(c, s, u) {
      if u != vpn && V(s.table[u]) == 1 {
        assert Pfn(s.table[u], c.pfnBits) < n;
      }
    }
  }

  lemma ReplaceContent(c: Config, s: Memory, vpn: Word)
    requires Inv(c, s) && vpn < PAGE_AMOUNT && V(s.table[vpn]) == 0 && Clean(c, s)
    requires s.initialFrameCounter == c.frameNumber
    ensures Clean(c, Fault(c, s, vpn))
    ensures forall u :: 0 <= u < PAGE_AMOUNT ==> Content(c, Fault(c, s, vpn), u) == Content(c, s, u)
  {
    var r := Fault(c, s, vpn);
    var ch := Choose(c, s, vpn);
    var victim := ch.victim;
    var frame := Pfn(s.table[victim], c.pfnBits);
    FaultReplace(c, s, vpn);
    assert M(s.table[victim]) == M(ch.table[victim]);
    forall u | 0 <= u < PAGE_AMOUNT ensures Content(c, r, u) == Content(c, s, u) {
      if u != vpn && u != victim {
        assert RCleared(s.table[u], r.table[u]);
        PfnKeep(r.table[u], s.table[u], c.pfnBits);
        if V(s.table[u]) == 1 {
          assert Pfn(s.table[u], c.pfnBits) != frame by {
            if u < victim {
              assert Pfn(s.table[u], c.pfnBits) != Pfn(s.table[victim], c.pfnBits);
            } else {
              assert Pfn(s.table[victim], c.pfnBits) != Pfn(s.table[u], c.pfnBits);
            }
          }
          assert Pfn(s.table[u], c.pfnBits) < c.frameNumber;
        }
      }
    }
    forall u | 0 <= u < PAGE_AMOUNT && M(r.table[u]) == 0 ensures Content(c, r, u) == Block(r.swap, u) {
      if u != vpn && u != victim {
        assert RCleared(s.table[u], r.table[u]);
      }
    }
  }

  /** A reference changes only the bytes of its own page, and of those only the written one. */
  lemma AccessContent(c: Config, s: Memory, vpn: Word, offset: Word, ref: Reference)
    requires Inv(c, s) && vpn < PAGE_AMOUNT && offset < PAGE_SIZE_BYTES && V(s.table[vpn]) == 1 && Clean(c, s)
    ensures Clean(c, Access(c, s, vpn, offset, ref).mem)
    ensures Content(c, Access(c, s, vpn, offset, ref).mem, vpn) ==
      if ref.mode == 'w' then Content(c, s, vpn)[offset := ref.value % 256] else Content(c, s, vpn)
    ensures forall u :: 0 <= u < PAGE_AMOUNT && u != vpn ==>
      Content(c, Access(c, s, vpn, offset, ref).mem, u) == Content(c, s, u)
  {
    var r := Access(c, s, vpn, offset, ref).mem;
    var pfn := Pfn(s.table[vpn], c.pfnBits);
    AccessSpec(c, s, vpn, offset, ref);
    forall u | 0 <= u < PAGE_AMOUNT
      ensures Content(c, r, u) == if u == vpn && ref.mode == 'w' then Content(c, s, vpn)[offset := ref.value % 256]
                                  else Content(c, s, u)
    {
      if V(s.table[u]) == 1 && ref.mode == 'w' {
        var f := Pfn(s.table[u], c.pfnBits);
        assert f < c.frameNumber && pfn < c.frameNumber;
        if u != vpn {
          assert f != pfn by {
            if u < vpn {
              assert Pfn(s.table[u], c.pfnBits) != Pfn(s.table[vpn], c.pfnBits);
            } else {
              assert Pfn(s.table[vpn], c.pfnBits) != Pfn(s.table[u], c.pfnBits);
            }
          }
        }
        BlockPoke(s.frames, pfn, offset, ref.value % 256, f);
      }
    }
  }

  /** Aging clears R bits only, so it moves no page's bytes. */
  lemma AgingContent(c: Config, s: Memory)
    requires Inv(c, s) && Clean(c, s)
    ensures Clean(c, Aging(c, s))
    ensures forall u :: 0 <= u < PAGE_AMOUNT ==> Content(c, Aging(c, s), u) == Content(c, s, u)
  {
    var r := Aging(c, s);
    AgingSpec(c, s);
    forall u | 0 <= u < PAGE_AMOUNT ensures Content(c, r, u) == Content(c, s, u) && M(r.table[u]) == M(s.table[u]) {
      PfnKeep(r.table[u], s.table[u], c.pfnBits);
    }
  }

  /** One reference applies its write, if any, to the bytes of the page it names and keeps the state clean. */
  lemma StepContent(c: Config, s: Memory, ref: Reference)
    requires Inv(c, s) && Clean(c, s)
    ensures Clean(c, Step(c, s, ref).0)
    ensures forall u :: 0 <= u < PAGE_AMOUNT ==> Content(c, Step(c, s, ref).0, u) == Written(Content(c, s, u), u, ref)
  {
    var va := ref.address;
    AddressSplit(va);
    var vpn, offset := Vpn(va), Offset(va);
    var s1 := Allocate(c, s, VpnP1(va));
    assert forall u :: 0 <= u < PAGE_AMOUNT ==> Content(c, s1, u) == Content(c, s, u);
    var fault := V(s1.table[vpn]) == 0;
    var s2 := if fault then Fault(c, s1, vpn) else s1;
    if fault {
      FaultContent(c, s1, vpn);
    }
    var a := Access(c, s2, vpn, offset, ref);
    AccessContent(c, s2, vpn, offset, ref);
    AgingContent(c, a.mem);
  }

  /** A run applies the trace's writes to each page's bytes, whatever it evicts and reloads on the way. */
  lemma {:induction false} RunContent(c: Config, s: Memory, trace: seq<Reference>)
    requires Inv(c, s) && Clean(c, s)
    ensures Clean(c, Run(c, s, trace).0)
    ensures forall u :: 0 <= u < PAGE_AMOUNT ==> Content(c, Run(c, s, trace).0, u) == Writes(Content(c, s, u), u, trace)
  {
    if trace != [] {
      var p := trace[..|trace| - 1];
      RunContent(c, s, p);
      StepContent(c, Run(c, s, p).0, trace[|trace| - 1]);
    }
  }

  /** memoryFlush writes every page's bytes to its swap slot. */
  lemma FlushContent(c: Config, s: Memory, u: nat)
    requires Inv(c, s) && u < PAGE_AMOUNT
    ensures Block(Flush(c, s), u) == Content(c, s, u)
  {
    FlushSpec(c, s, u);
  }

  /**
   * The round trip through the swap store: from the start-up state, a run
   * followed by memoryFlush leaves in each page's swap slot the slot's
   * original bytes with the trace's writes to that page applied in order.
   */
  lemma RoundTrip(c: Config, frames: seq<Byte>, swap: seq<Byte>, trace: seq<Reference>, u: nat)
    requires ConfigOk(c) && |frames| == c.frameNumber * PAGE_SIZE_BYTES && |swap| == VM_SIZE_BYTES
    requires u < PAGE_AMOUNT
    ensures Block(Flush(c, Run(c, Initial(c, frames, swap), trace).0), u) == Writes(Block(swap, u), u, trace)
  {
    var s := Initial(c, frames, swap);
    InitialContent(c, frames, swap);
    RunContent(c, s, trace);
    FlushContent(c, Run(c, s, trace).0, u);
  }

  /**
   * The round trip through a frame: after a run whose last reference names
   * page u, u is resident and its frame holds the slot's original bytes
   * with the trace's writes to u applied, however often u was evicted and
   * faulted back in.
   */
  lemma ReloadRoundTrip(c: Config, frames: seq<Byte>, swap: seq<Byte>, trace: seq<Reference>, u: nat)
    requires ConfigOk(c) && |frames| == c.frameNumber * PAGE_SIZE_BYTES && |swap| == VM_SIZE_BYTES
    requires trace != [] && u == Vpn(trace[|trace| - 1].address)
    ensures var r := Run(c, Initial(c, frames, swap), trace).0;
      && V(r.table[u]) == 1 && Pfn(r.table[u], c.pfnBits) * 64 + 64 <= |r.frames|
      && Block(r.frames, Pfn(r.table[u], c.pfnBits)) == Writes(Block(swap, u), u, trace)
  {
    var s := Initial(c, frames, swap);
    AddressSplit(trace[|trace| - 1].address);
    InitialContent(c, frames, swap);
    RunContent(c, s, trace);
    var p := Run(c, s, trace[..|trace| - 1]).0;
    StepSpec(c, p, trace[|trace| - 1]);
    InvFrames(c, Run(c, s, trace).0);
  }
}
