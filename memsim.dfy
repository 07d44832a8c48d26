/**
 * The simulator of memsim.c as a class: the page tables, physical memory
 * and the swap store are arrays, the replacement queue is the LRU list or
 * the circular list of linkedList.c, and the counters are fields.  Every
 * method is proved against the functions of Paging through the abstract
 * view State(): one call of ProcessReference performs Step, the reference
 * loop performs Run, and MemoryFlush leaves Flush in the swap store.
 */
module Simulation {
  import opened Bits
  import opened PageEntry
  import opened LinkedList
  import opened Replacement
  import opened Paging

  /**
   * The inner tables: each present one is among the allocated ones and
   * has INNER_TABLE_PAGE_SIZE entries, and no two slots share one.
   */
  ghost predicate InnerOk(tabs: seq<array?<Word>>, inner: set<array<Word>>)
  {
    && |tabs| == INNER_TABLE_AMOUNT
    && (forall i :: 0 <= i < |tabs| && tabs[i] != null ==> tabs[i] in inner && tabs[i].Length == INNER_TABLE_PAGE_SIZE)
    && (forall i, j :: 0 <= i < j < |tabs| && tabs[i] != null ==> tabs[i] != tabs[j])
  }

  /** Installing a new table in an empty slot keeps InnerOk. */
  lemma InnerExtend(tabs: seq<array?<Word>>, inner: set<array<Word>>, p1: nat, t: array<Word>)
    requires InnerOk(tabs, inner) && p1 < |tabs| && tabs[p1] == null
    requires t !in inner && t.Length == INNER_TABLE_PAGE_SIZE
    requires forall i :: 0 <= i < |tabs| ==> tabs[i] != t
    ensures InnerOk(tabs[p1 := t], inner + {t})
  {
  }

  /**
   * Lines 323-326 under CLOCK: the policy runs over the window of the
   * logical table t held in table, and the choice is Select's.
   */
  method ClockPolicy(level: nat, ring: Ring, table: array<Word>, ghost t: seq<Word>, vpn: Word)
    returns (victim: Word)
    requires |t| == PAGE_AMOUNT && vpn < PAGE_AMOUNT && table[..] == Window(t, level, vpn)
    requires ring.Valid() && ring.Contents != []
    requires forall i :: 0 <= i < |ring.Contents| ==> ring.Contents[i] < PAGE_AMOUNT
    modifies ring, ring.Repr, table
    ensures ring.Valid() && ring.Repr == old(ring.Repr)
    ensures var ch := ClockChoice(t, old(ring.Contents), level, vpn);
      && victim == ch.victim && ring.Contents == ch.queue
      && ch.table == Splice(t, level, vpn, table[..])
  {
    WindowSlots(t, ring.Contents, level, vpn);
    ghost var pos;
    victim, pos := AlgorithmClock(ring, vpn, table, level);
  }

  /** Lines 323-330 under CLOCK or ECLOCK: the choice is Select's. */
  method RingPolicy(c: Config, ring: Ring, table: array<Word>, ghost t: seq<Word>, vpn: Word)
    returns (victim: Word)
    requires c.algorithm in {CLOCK, ECLOCK}
    requires |t| == PAGE_AMOUNT && vpn < PAGE_AMOUNT && table[..] == Window(t, c.level, vpn)
    requires ring.Valid() && ring.Contents != []
    requires forall i :: 0 <= i < |ring.Contents| ==> ring.Contents[i] < PAGE_AMOUNT
    modifies ring, ring.Repr, table
    ensures ring.Valid() && ring.Repr == old(ring.Repr)
    ensures var ch := Select(c, t, old(ring.Contents), vpn);
      && victim == ch.victim && ring.Contents == ch.queue
      && ch.table == Splice(t, c.level, vpn, table[..])
  {
    if c.algorithm == CLOCK {
      victim := ClockPolicy(c.level, ring, table, t, vpn);
    } else {
      victim := EclockPolicy(c.level, ring, table, t, vpn);
    }
  }

  /** Lines 327-330 under ECLOCK, as ClockPolicy. */
  method EclockPolicy(level: nat, ring: Ring, table: array<Word>, ghost t: seq<Word>, vpn: Word)
    returns (victim: Word)
    requires |t| == PAGE_AMOUNT && vpn < PAGE_AMOUNT && table[..] == Window(t, level, vpn)
    requires ring.Valid() && ring.Contents != []
    requires forall i :: 0 <= i < |ring.Contents| ==> ring.Contents[i] < PAGE_AMOUNT
    modifies ring, ring.Repr, table
    ensures ring.Valid() && ring.Repr == old(ring.Repr)
    ensures var ch := EclockChoice(t, old(ring.Contents), level, vpn);
      && victim == ch.victim && ring.Contents == ch.queue
      && ch.table == Splice(t, level, vpn, table[..])
  {
    WindowSlots(t, ring.Contents, level, vpn);
    ghost var pos;
    victim, pos := AlgorithmEclock(ring, vpn, table, level);
  }

  class Simulator {
    // The start-up globals PAGE_OPTION, FRAME_NUMBER, PFN_BIT_SIZE, TICK and ALGORITHM_NAME.
    const level: nat
    const frameNumber: nat
    const pfnBits: nat
    const tick: nat
    const algorithm: Algorithm

    /** physicalMemory, frame f at bytes f * 64 .. f * 64 + 63. */
    const physicalMemory: array<Byte>
    const singlePageTable: array<Word>
    const outerPageTable: array<Word>
    const innerTablesTable: array<array?<Word>>
    /** The contents of the swap file, slot v at bytes v * 64 .. v * 64 + 63. */
    const swapFile: array<Byte>
    const lru: List
    const ring: Ring

    var initialFrameCounter: nat
    var referenceCounter: nat
    var totalPageFaultCounter: nat

    /** The page table as one sequence indexed by VPN, and the inner tables allocated so far. */
    ghost var Table: seq<Word>
    ghost var Inner: set<array<Word>>

    function Cfg(): Config
    {
      Config(level, frameNumber, pfnBits, tick, algorithm)
    }

    /** The replacement queue: the LRU list under LRU, the circular list otherwise. */
    ghost function Queue(): seq<Word>
      reads lru, ring
    {
      if algorithm == LRU then lru.Contents else ring.Contents
    }

    ghost function State(): Memory
      reads this, lru, ring, outerPageTable, physicalMemory, swapFile
    {
      Memory(Table, outerPageTable[..], Queue(), physicalMemory[..], swapFile[..],
             initialFrameCounter, referenceCounter, totalPageFaultCounter)
    }

    /** The arrays have the sizes main gives them and do not overlap. */
    ghost predicate Tables()
      reads this`Inner, innerTablesTable
    {
      && physicalMemory.Length == frameNumber * PAGE_SIZE_BYTES
      && singlePageTable.Length == PAGE_AMOUNT
      && outerPageTable.Length == INNER_TABLE_AMOUNT
      && innerTablesTable.Length == INNER_TABLE_AMOUNT
      && swapFile.Length == VM_SIZE_BYTES
      && singlePageTable != outerPageTable && physicalMemory != swapFile
      && singlePageTable !in Inner && outerPageTable !in Inner
      && InnerOk(innerTablesTable[..], Inner)
    }

    /** The two-level entry of page v: index v % 32 of inner table v / 32, 0 while that table is absent. */
    ghost function Stored(v: nat): Word
      requires Tables() && v < PAGE_AMOUNT
      reads this`Inner, innerTablesTable, Inner
    {
      var t := innerTablesTable[v / INNER_TABLE_PAGE_SIZE];
      if t == null then 0 else t[v % INNER_TABLE_PAGE_SIZE]
    }

    /** Table is what the arrays of the current level hold; an outer entry is set exactly when its inner table exists. */
    ghost predicate Mirror()
      reads this`Table, this`Inner, innerTablesTable, Inner, singlePageTable, outerPageTable
    {
      && Tables() && |Table| == PAGE_AMOUNT
      && (level == 1 ==> Table == singlePageTable[..])
      && (level != 1 ==> forall v {:trigger Stored(v)} :: 0 <= v < PAGE_AMOUNT ==> Table[v] == Stored(v))
      && (forall i :: 0 <= i < INNER_TABLE_AMOUNT ==>
            outerPageTable[i] == if innerTablesTable[i] == null then 0 else OuterEntry(i))
    }

    /** The list the algorithm uses is well formed; the other one stays empty. */
    ghost predicate Lists()
      reads lru, lru.Repr, ring, ring.Repr
    {
      && lru.Valid() && ring.Valid()
      && (algorithm == LRU ==> ring.Repr == {})
      && (algorithm != LRU ==> lru.Repr == {})
    }

    ghost predicate Valid()
      reads this, innerTablesTable, Inner, singlePageTable, outerPageTable, physicalMemory, swapFile
      reads lru, lru.Repr, ring, ring.Repr
    {
      Mirror() && Lists() && Inv(Cfg(), State())
    }

    /** Entry vpn sits at index idx of array t: the single table, or its inner table. */
    ghost predicate Locates(t: array<Word>, idx: Word, vpn: Word)
      reads innerTablesTable
    {
      && vpn < PAGE_AMOUNT && innerTablesTable.Length == INNER_TABLE_AMOUNT
      && (level == 1 ==> t == singlePageTable && idx == vpn)
      && (level != 1 ==> t == innerTablesTable[vpn / INNER_TABLE_PAGE_SIZE] && idx == vpn % INNER_TABLE_PAGE_SIZE)
    }

    /** Lines 533-588 without the files: zero tables, no inner tables, empty lists, counters at zero. */
    constructor (level: nat, frames: nat, tick: nat, algorithm: Algorithm, memory: seq<Byte>, swap: seq<Byte>)
      requires (level == 1 || level == 2) && 4 <= frames <= 128
      requires |memory| == frames * PAGE_SIZE_BYTES && |swap| == VM_SIZE_BYTES
      ensures Cfg() == Config(level, frames, CeilLog2(frames), tick, algorithm) && ConfigOk(Cfg())
      ensures State() == Initial(Cfg(), memory, swap) && Valid()
    {
      this.level, frameNumber, this.tick, this.algorithm := level, frames, tick, algorithm;
      pfnBits := CeilLog2(frames);
      ConfigFor(level, frames, tick, algorithm);
      var frameBytes := Bytes(memory);
      var single := Zeros(PAGE_AMOUNT);
      var outer := Zeros(INNER_TABLE_AMOUNT);
      var swapBytes := Bytes(swap);
      var inner := Nulls(INNER_TABLE_AMOUNT);
      physicalMemory, singlePageTable, outerPageTable, swapFile := frameBytes, single, outer, swapBytes;
      innerTablesTable := inner;
      lru := new List();
      ring := new Ring();
      initialFrameCounter, referenceCounter, totalPageFaultCounter := 0, 0, 0;
      Table := seq(PAGE_AMOUNT, v => 0);
      Inner := {};
      new;
      MirrorEmpty();
      assert State() == Initial(Cfg(), memory, swap);
    }

    /** With no inner table and zero tables, Mirror holds. */
    lemma MirrorEmpty()
      requires Tables() && Table == seq(PAGE_AMOUNT, v => 0) && singlePageTable[..] == Table
      requires innerTablesTable[..] == seq(INNER_TABLE_AMOUNT, i => null)
      requires outerPageTable[..] == seq(INNER_TABLE_AMOUNT, i => 0)
      ensures Mirror()
    {
    }

    /** A fresh array of n zero entries. */
    static method Zeros(n: nat) returns (a: array<Word>)
      ensures fresh(a) && a[..] == seq(n, i => 0)
    {
      a := new Word[n](i => 0);
    }

    /** A fresh array of n absent inner tables. */
    static method Nulls(n: nat) returns (a: array<array?<Word>>)
      ensures fresh(a) && a[..] == seq(n, i => null)
    {
      a := new array?<Word>[n](i => null);
    }

    /** A fresh array holding the bytes of s. */
    static method Bytes(s: seq<Byte>) returns (a: array<Byte>)
      ensures fresh(a) && a[..] == s
    {
      a := new Byte[|s|](k requires 0 <= k < |s| => s[k]);
    }

    /** Entry vpn := e, at index idx of array t; Mirror is kept. */
    method Put(t: array<Word>, idx: Word, ghost vpn: Word, e: Word)
      requires Mirror() && Locates(t, idx, vpn)
      modifies this`Table, t
      ensures Mirror() && Table == old(Table)[vpn := e]
      ensures t[idx] == e
    {
      t[idx] := e;
      Table := Table[vpn := e];
      if level != 1 {
        forall v | 0 <= v < PAGE_AMOUNT ensures Table[v] == Stored(v) {
          assert old(Table[v]) == old(Stored(v));
          if v / INNER_TABLE_PAGE_SIZE != vpn / INNER_TABLE_PAGE_SIZE {
            assert innerTablesTable[v / INNER_TABLE_PAGE_SIZE] != t;
          } else if v != vpn {
            assert v % INNER_TABLE_PAGE_SIZE != idx;
          }
        }
      } else {
        assert Table == singlePageTable[..];
      }
    }

    /** Array t at idx holds the entry of page vpn. */
    lemma Holds(t: array<Word>, idx: Word, vpn: Word)
      requires Mirror() && Locates(t, idx, vpn)
      ensures idx < t.Length && t[idx] == Table[vpn]
    {
      if level != 1 {
        assert Table[vpn] == Stored(vpn);
      }
    }

    /**
     * Lines 258-274: in two-level mode an inner table that is absent is
     * allocated with zero entries, and its outer entry gets V and P1.
     */
    method LazyAllocate(vpnP1: Word)
      requires Mirror() && vpnP1 < INNER_TABLE_AMOUNT
      modifies this`Inner, innerTablesTable, outerPageTable
      ensures Mirror()
      ensures outerPageTable[..] == if level == 2 then old(outerPageTable[..])[vpnP1 := OuterEntry(vpnP1)]
        else old(outerPageTable[..])
      ensures level == 2 ==> innerTablesTable[vpnP1] != null
      ensures fresh(Inner - old(Inner))
    {
      if level == 2 {
        var vBitP1 := V(outerPageTable[vpnP1]);
        if vBitP1 == 0 && innerTablesTable[vpnP1] == null {
          var t := ZeroTable();
          assert forall i :: 0 <= i < INNER_TABLE_AMOUNT ==> innerTablesTable[i] != t;
          innerTablesTable[vpnP1] := t;
          Inner := Inner + {t};
          MarkOuter(outerPageTable, vpnP1);
          InnerExtend(old(innerTablesTable[..]), old(Inner), vpnP1, t);
          assert innerTablesTable[..] == old(innerTablesTable[..])[vpnP1 := t];
          forall v | 0 <= v < PAGE_AMOUNT ensures Table[v] == Stored(v) {
            assert Table[v] == old(Stored(v));
          }
        } else {
          assert outerPageTable[..] == old(outerPageTable[..])[vpnP1 := OuterEntry(vpnP1)];
        }
      }
    }

    /** Lines 272-273: the zero outer entry of a new inner table gets V and P1. */
    static method MarkOuter(outer: array<Word>, vpnP1: Word)
      requires vpnP1 < outer.Length == INNER_TABLE_AMOUNT && outer[vpnP1] == 0
      modifies outer
      ensures outer[..] == old(outer[..])[vpnP1 := OuterEntry(vpnP1)]
    {
      AllocatedEntry(vpnP1);
      outer[vpnP1] := WriteBits(outer[vpnP1], 1, V_BIT_POSITION, 1);
      outer[vpnP1] := WriteBits(outer[vpnP1], TWO_LEVEL_VPN_P1_BITS, 0, vpnP1);
    }

    /** A fresh inner table with every entry 0. */
    static method ZeroTable() returns (t: array<Word>)
      ensures fresh(t) && t.Length == INNER_TABLE_PAGE_SIZE && forall j :: 0 <= j < t.Length ==> t[j] == 0
    {
      t := new Word[INNER_TABLE_PAGE_SIZE];
      for i := 0 to INNER_TABLE_PAGE_SIZE
        invariant forall j :: 0 <= j < i ==> t[j] == 0
      {
        t[i] := 0;
      }
    }

    /** fseek and fwrite of lines 354-355, 427-428 and 454-455: swap slot `slot` receives frame `frame`. */
    method WriteBack(slot: Word, frame: Word)
      requires Tables() && slot < PAGE_AMOUNT && frame < frameNumber
      modifies swapFile
      ensures swapFile[..] == PutBlock(old(swapFile[..]), slot, Block(physicalMemory[..], frame))
    {
      forall k | 0 <= k < PAGE_SIZE_BYTES {
        swapFile[slot * PAGE_SIZE_BYTES + k] := physicalMemory[frame * PAGE_SIZE_BYTES + k];
      }
      PutBlockAt(old(swapFile[..]), slot, Block(physicalMemory[..], frame), swapFile[..]);
    }

    /** fseek, fread and memcpy of lines 369-371: frame `frame` receives swap slot vpn. */
    method ReadIn(vpn: Word, frame: Word)
      requires Tables() && vpn < PAGE_AMOUNT && frame < frameNumber
      modifies physicalMemory
      ensures State() == old(State()).(frames := PutBlock(old(physicalMemory[..]), frame, Block(swapFile[..], vpn)))
    {
      forall k | 0 <= k < PAGE_SIZE_BYTES {
        physicalMemory[frame * PAGE_SIZE_BYTES + k] := swapFile[vpn * PAGE_SIZE_BYTES + k];
      }
      PutBlockAt(old(physicalMemory[..]), frame, Block(swapFile[..], vpn), physicalMemory[..]);
    }

    /**
     * Lines 314-330: the policy picks the victim and updates its queue;
     * CLOCK and ECLOCK clear R bits in the faulting page's table.
     */
    method SelectVictim(vpn: Word, innerTable: array<Word>, idx: Word) returns (victim: Word)
      requires Mirror() && Lists() && Locates(innerTable, idx, vpn)
      requires Queue() != [] && forall i :: 0 <= i < |Queue()| ==> Queue()[i] < PAGE_AMOUNT
      modifies this`Table, innerTable, lru, lru.Repr, ring, ring.Repr
      ensures Mirror() && Lists() && lru.Repr == old(lru.Repr) && ring.Repr == old(ring.Repr) && Inner == old(Inner)
      ensures var ch := Select(Cfg(), old(Table), old(Queue()), vpn);
        victim == ch.victim && Table == ch.table && Queue() == ch.queue
      ensures State() == old(State()).(table := Table, queue := Queue())
    {
      if algorithm == FIFO {
        victim := SelectFifo(vpn);
      } else if algorithm == LRU {
        victim := SelectLru(vpn);
      } else {
        victim := SelectClock(vpn, innerTable, idx);
      }
    }

    /** Lines 315-318: FIFO takes the oldest page and puts vpn at the front of the ring. */
    method SelectFifo(vpn: Word) returns (victim: Word)
      requires Mirror() && Lists() && algorithm == FIFO && |Table| == PAGE_AMOUNT && vpn < PAGE_AMOUNT
      requires Queue() != [] && forall i :: 0 <= i < |Queue()| ==> Queue()[i] < PAGE_AMOUNT
      modifies ring, ring.Repr
      ensures Mirror() && Lists() && lru.Repr == old(lru.Repr) && ring.Repr == old(ring.Repr)
      ensures var ch := Select(Cfg(), Table, old(Queue()), vpn);
        victim == ch.victim && Table == ch.table && State() == old(State()).(queue := ch.queue)
    {
      victim := AlgorithmFifo(ring, vpn);
    }

    /** Lines 319-322: LRU takes the tail of the list and stores vpn in it. */
    method SelectLru(vpn: Word) returns (victim: Word)
      requires Mirror() && Lists() && algorithm == LRU && |Table| == PAGE_AMOUNT && vpn < PAGE_AMOUNT
      requires Queue() != [] && forall i :: 0 <= i < |Queue()| ==> Queue()[i] < PAGE_AMOUNT
      modifies lru, lru.Repr
      ensures Mirror() && Lists() && lru.Repr == old(lru.Repr) && ring.Repr == old(ring.Repr)
      ensures var ch := Select(Cfg(), Table, old(Queue()), vpn);
        victim == ch.victim && Table == ch.table && State() == old(State()).(queue := ch.queue)
    {
      victim := AlgorithmLru(lru, vpn);
    }

    /**
     * Lines 323-330: CLOCK and ECLOCK scan the ring and clear R bits in
     * the faulting page's table (the whole table in one-level mode).
     */
    method SelectClock(vpn: Word, innerTable: array<Word>, idx: Word) returns (victim: Word)
      requires Mirror() && Lists() && Locates(innerTable, idx, vpn) && algorithm in {CLOCK, ECLOCK}
      requires ring.Contents != [] && forall i :: 0 <= i < |ring.Contents| ==> ring.Contents[i] < PAGE_AMOUNT
      modifies this`Table, innerTable, ring, ring.Repr
      ensures Mirror() && Lists() && lru.Repr == old(lru.Repr) && ring.Repr == old(ring.Repr)
      ensures var ch := Select(Cfg(), old(Table), old(ring.Contents), vpn);
        victim == ch.victim && Table == ch.table && ring.Contents == ch.queue
      ensures State() == old(State()).(table := Table, queue := ring.Contents)
    {
      ghost var t0 := Table;
      WindowHolds(innerTable, idx, vpn);
      victim := RingPolicy(Cfg(), ring, innerTable, t0, vpn);
      Resplice(t0, innerTable, idx, vpn);
    }

    /** After the policy rewrote the faulting page's table, Table takes the rewritten entries. */
    method Resplice(ghost t: seq<Word>, innerTable: array<Word>, idx: Word, vpn: Word)
      requires Tables() && Locates(innerTable, idx, vpn) && |t| == PAGE_AMOUNT
      requires level != 1 ==> Others(t, vpn / INNER_TABLE_PAGE_SIZE)
      requires forall i :: 0 <= i < INNER_TABLE_AMOUNT ==>
        outerPageTable[i] == if innerTablesTable[i] == null then 0 else OuterEntry(i)
      modifies this`Table
      ensures innerTable.Length == |Window(t, level, vpn)|
      ensures Mirror() && Table == Splice(t, level, vpn, innerTable[..])
    {
      if level != 1 {
        Respliced(t, innerTable, idx, vpn);
      }
      Table := Splice(t, level, vpn, innerTable[..]);
    }

    /**
     * Outside inner table p the two-level entries are those of t; the
     * predicate does not read table p, so rewriting that table keeps it.
     */
    ghost predicate Others(t: seq<Word>, p: nat)
      requires Tables() && |t| == PAGE_AMOUNT && p < INNER_TABLE_AMOUNT
      reads this`Inner, innerTablesTable, set a | a in Inner && a != innerTablesTable[p]
    {
      forall v :: 0 <= v < PAGE_AMOUNT && v / INNER_TABLE_PAGE_SIZE != p ==>
        t[v] == (var a := innerTablesTable[v / INNER_TABLE_PAGE_SIZE];
                 if a == null then 0 else a[v % INNER_TABLE_PAGE_SIZE])
    }

    /**
     * The table holding entry vpn is the window of Table the policies
     * scan, and the other inner tables hold the rest of Table.
     */
    lemma WindowHolds(innerTable: array<Word>, idx: Word, vpn: Word)
      requires Mirror() && Locates(innerTable, idx, vpn)
      ensures innerTable[..] == Window(Table, level, vpn)
      ensures level != 1 ==> Others(Table, vpn / INNER_TABLE_PAGE_SIZE)
      ensures innerTable != outerPageTable
    {
      if level != 1 {
        forall x | 0 <= x < INNER_TABLE_PAGE_SIZE ensures innerTable[x] == Window(Table, level, vpn)[x] {
          assert Table[InnerBase(vpn) + x] == Stored(InnerBase(vpn) + x);
        }
        forall v | 0 <= v < PAGE_AMOUNT && v / INNER_TABLE_PAGE_SIZE != vpn / INNER_TABLE_PAGE_SIZE
          ensures Table[v] == Stored(v)
        {
        }
      }
    }

    /** Splicing the rewritten table p into t gives the entries the arrays hold. */
    lemma Respliced(t: seq<Word>, innerTable: array<Word>, idx: Word, vpn: Word)
      requires Tables() && level != 1 && Locates(innerTable, idx, vpn) && |t| == PAGE_AMOUNT
      requires Others(t, vpn / INNER_TABLE_PAGE_SIZE)
      ensures innerTable.Length == |Window(t, level, vpn)|
      ensures forall v :: 0 <= v < PAGE_AMOUNT ==> Splice(t, level, vpn, innerTable[..])[v] == Stored(v)
    {
      forall v | 0 <= v < PAGE_AMOUNT ensures Splice(t, level, vpn, innerTable[..])[v] == Stored(v) {
        if v / INNER_TABLE_PAGE_SIZE == vpn / INNER_TABLE_PAGE_SIZE {
          assert v - InnerBase(vpn) == v % INNER_TABLE_PAGE_SIZE;
        }
      }
    }

    /**
     * Lines 332-359: the victim's entry is found through its P1 and P2,
     * its frame is written back when M is set, and its V bit is cleared.
     */
    method EvictVictim(victim: Word) returns (replacedFramePfn: Word)
      requires Mirror() && Lists() && ConfigOk(Cfg())
      requires victim < PAGE_AMOUNT && V(Table[victim]) == 1 && Pfn(Table[victim], pfnBits) < frameNumber
      modifies this`Table, singlePageTable, Inner, swapFile
      ensures Mirror() && Lists() && lru.Repr == old(lru.Repr) && ring.Repr == old(ring.Repr) && Inner == old(Inner)
      ensures var e := old(Table[victim]);
        && replacedFramePfn == Pfn(e, pfnBits)
        && State() == old(State()).(table := old(Table)[victim := SetFlag(e, V_BIT_POSITION, 0)],
                                    swap := if M(e) == 1
                                      then PutBlock(old(swapFile[..]), victim, Block(physicalMemory[..], replacedFramePfn))
                                      else old(swapFile[..]))
    {
      var victimInnerTable: array<Word>;
      var victimPageIndexVpn: Word;
      if level == 1 {
        victimInnerTable, victimPageIndexVpn := singlePageTable, victim;
      } else {
        VpnSplit(victim);
        var victimPageVpnP1 := ExtractBits(victim, TWO_LEVEL_VPN_P1_BITS, TWO_LEVEL_VPN_P2_BITS);
        var victimPageVpnP2 := ExtractBits(victim, TWO_LEVEL_VPN_P2_BITS, 0);
        assert Table[victim] == Stored(victim);
        victimInnerTable := innerTablesTable[victimPageVpnP1];
        victimPageIndexVpn := victimPageVpnP2;
      }
      replacedFramePfn := EvictEntry(victim, victimInnerTable, victimPageIndexVpn);
    }

    /** Lines 348-359: the write-back of a modified victim and the clearing of its V bit. */
    method EvictEntry(victim: Word, t: array<Word>, idx: Word) returns (replacedFramePfn: Word)
      requires Mirror() && Lists() && ConfigOk(Cfg()) && Locates(t, idx, victim)
      requires V(Table[victim]) == 1 && Pfn(Table[victim], pfnBits) < frameNumber
      modifies this`Table, t, swapFile
      ensures Mirror() && Lists() && lru.Repr == old(lru.Repr) && ring.Repr == old(ring.Repr)
      ensures var e := old(Table[victim]);
        && replacedFramePfn == Pfn(e, pfnBits)
        && State() == old(State()).(table := old(Table)[victim := SetFlag(e, V_BIT_POSITION, 0)],
                                    swap := if M(e) == 1
                                      then PutBlock(old(swapFile[..]), victim, Block(physicalMemory[..], replacedFramePfn))
                                      else old(swapFile[..]))
    {
      Holds(t, idx, victim);
      replacedFramePfn := Pfn(t[idx], pfnBits);
      var bitM := M(t[idx]);
      if bitM == 1 {
        WriteBack(victim, replacedFramePfn);
      }
      Put(t, idx, victim, SetFlag(t[idx], V_BIT_POSITION, 0));
    }

    /**
     * Lines 362-371: the faulting page's entry gets V, a clear M, R and the
     * frame, and the frame receives its swap slot.
     */
    method LoadPage(vpn: Word, innerTable: array<Word>, idx: Word, frame: Word)
      requires Mirror() && Lists() && ConfigOk(Cfg()) && Locates(innerTable, idx, vpn) && frame < frameNumber
      modifies this`Table, innerTable, physicalMemory
      ensures Mirror() && Lists() && lru.Repr == old(lru.Repr) && ring.Repr == old(ring.Repr) && Inner == old(Inner)
      ensures State() == Load(Cfg(), old(State()), vpn, frame)
    {
      MarkLoaded(innerTable, idx, vpn, frame);
      ReadIn(vpn, frame);
    }

    /** Lines 363-366: the four writeBits calls on the faulting page's entry. */
    method MarkLoaded(innerTable: array<Word>, idx: Word, vpn: Word, frame: Word)
      requires Mirror() && ConfigOk(Cfg()) && Locates(innerTable, idx, vpn) && frame < frameNumber
      modifies this`Table, innerTable
      ensures Mirror() && Table == old(Table)[vpn := Loaded(old(Table[vpn]), pfnBits, frame)]
    {
      Holds(innerTable, idx, vpn);
      Put(innerTable, idx, vpn, SetFlag(innerTable[idx], V_BIT_POSITION, 1));
      Put(innerTable, idx, vpn, SetFlag(innerTable[idx], M_BIT_POSITION, 0));
      Put(innerTable, idx, vpn, SetFlag(innerTable[idx], R_BIT_POSITION, 1));
      Put(innerTable, idx, vpn, SetPfn(innerTable[idx], pfnBits, frame));
    }

    /** Lines 296-310: while frames are unused, the page is queued and takes the next one. */
    method TakeFrame(vpn: Word) returns (frame: Word)
      requires Mirror() && Lists() && ConfigOk(Cfg()) && initialFrameCounter < frameNumber
      modifies this`initialFrameCounter, lru, lru.Repr, ring, ring.Repr
      ensures Mirror() && Lists() && frame < frameNumber && Inner == old(Inner)
      ensures forall o | o in lru.Repr :: o in old(lru.Repr) || !old(allocated(o))
      ensures forall o | o in ring.Repr :: o in old(ring.Repr) || !old(allocated(o))
      ensures Took(old(State()), vpn, frame, State())
    {
      frame := initialFrameCounter;
      initialFrameCounter := initialFrameCounter + 1;
      Enqueue(vpn);
    }

    /** Lines 298-306: vpn goes to the head of the list the algorithm uses. */
    method Enqueue(vpn: Word)
      requires Lists() && Mirror()
      modifies lru, lru.Repr, ring, ring.Repr
      ensures Mirror()
      ensures Lists()
      ensures forall o | o in lru.Repr :: o in old(lru.Repr) || !old(allocated(o))
      ensures forall o | o in ring.Repr :: o in old(ring.Repr) || !old(allocated(o))
      ensures Queue() == [vpn] + old(Queue())
    {
      if algorithm == LRU {
        lru.InsertNode(vpn);
      } else {
        ring.CircularInsertNode(vpn);
      }
    }

    /**
     * Lines 312-360: with every frame in use, the policy's victim gives up
     * its frame, which is written back first when the victim is modified.
     */
    method ReplacePage(vpn: Word, innerTable: array<Word>, idx: Word) returns (frame: Word)
      requires Mirror() && Lists() && Locates(innerTable, idx, vpn) && ConfigOk(Cfg())
      requires Queue() != [] && forall i :: 0 <= i < |Queue()| ==> Queue()[i] < PAGE_AMOUNT
      requires var ch := Select(Cfg(), Table, Queue(), vpn);
        V(ch.table[ch.victim]) == 1 && Pfn(ch.table[ch.victim], pfnBits) < frameNumber
      modifies this`Table, innerTable, singlePageTable, Inner, swapFile, lru, lru.Repr, ring, ring.Repr
      ensures Mirror() && Lists() && frame < frameNumber && Inner == old(Inner)
      ensures lru.Repr == old(lru.Repr) && ring.Repr == old(ring.Repr)
      ensures Replaced(Cfg(), old(State()), vpn, frame, State())
    {
      ghost var s0 := State();
      var victim := SelectVictim(vpn, innerTable, idx);
      ghost var s1 := State();
      frame := EvictVictim(victim);
      ReplaceSteps(Cfg(), s0, vpn, victim, s1, frame, State());
    }

    /** Lines 291-360: count the fault and claim a frame for vpn. */
    method ClaimFrame(vpn: Word, innerTable: array<Word>, idx: Word) returns (frame: Word)
      requires Mirror() && Lists() && ConfigOk(Cfg()) && Locates(innerTable, idx, vpn)
      requires initialFrameCounter <= frameNumber && forall i :: 0 <= i < |Queue()| ==> Queue()[i] < PAGE_AMOUNT
      requires initialFrameCounter == frameNumber ==>
        (Queue() != [] &&
         var ch := Select(Cfg(), Table, Queue(), vpn);
         V(ch.table[ch.victim]) == 1 && Pfn(ch.table[ch.victim], pfnBits) < frameNumber)
      modifies this`Table, this`initialFrameCounter, this`totalPageFaultCounter
      modifies innerTable, singlePageTable, Inner, swapFile, lru, lru.Repr, ring, ring.Repr
      ensures Mirror() && Lists() && frame < frameNumber && Inner == old(Inner)
      ensures forall o | o in lru.Repr :: o in old(lru.Repr) || !old(allocated(o))
      ensures forall o | o in ring.Repr :: o in old(ring.Repr) || !old(allocated(o))
      ensures Claimed(Cfg(), old(State()), vpn, frame, State())
    {
      ghost var s0 := State();
      totalPageFaultCounter := totalPageFaultCounter + 1;
      ghost var s1 := State();
      assert s1 == s0.(totalPageFaultCounter := s0.totalPageFaultCounter + 1);
      if initialFrameCounter < frameNumber {
        frame := TakeFrame(vpn);
      } else {
        frame := ReplacePage(vpn, innerTable, idx);
      }
      ClaimSteps(Cfg(), s0, vpn, s1, frame, State());
    }

    /** Lines 282-372: a reference to a page that is not valid. */
    method PageFault(vpn: Word, innerTable: array<Word>, idx: Word)
      requires Valid() && Locates(innerTable, idx, vpn) && V(Table[vpn]) == 0
      modifies this`Table, this`initialFrameCounter, this`totalPageFaultCounter
      modifies innerTable, singlePageTable, Inner, physicalMemory, swapFile, lru, lru.Repr, ring, ring.Repr
      ensures Valid() && State() == Fault(Cfg(), old(State()), vpn) && Inner == old(Inner)
      ensures forall o | o in lru.Repr :: o in old(lru.Repr) || !old(allocated(o))
      ensures forall o | o in ring.Repr :: o in old(ring.Repr) || !old(allocated(o))
    {
      ghost var s0 := State();
      if initialFrameCounter == frameNumber {
        VictimResident(Cfg(), s0, vpn);
      }
      var frame := ClaimFrame(vpn, innerTable, idx);
      ghost var s2 := State();
      LoadPage(vpn, innerTable, idx, frame);
      FaultSteps(Cfg(), s0, vpn, frame, s2, State());
    }

    /** Lines 374-398: the reference itself, on a page that is now valid. */
    method AccessPage(vpn: Word, innerTable: array<Word>, idx: Word, offset: Word, ref: Reference)
      returns (pfn: Word)
      requires Valid() && Locates(innerTable, idx, vpn) && offset < PAGE_SIZE_BYTES && V(Table[vpn]) == 1
      modifies this`Table, innerTable, physicalMemory, lru, lru.Repr
      ensures Valid() && lru.Repr == old(lru.Repr) && ring.Repr == old(ring.Repr) && Inner == old(Inner)
      ensures var a := Access(Cfg(), old(State()), vpn, offset, ref);
        State() == a.mem && pfn == a.pfn
    {
      ghost var s0 := State();
      assert Pfn(Table[vpn], pfnBits) < frameNumber;
      Touch(vpn);
      pfn := Operate(vpn, innerTable, idx, offset, ref);
      AccessSteps(Cfg(), s0, vpn, offset, ref, pfn, State());
    }

    /** Lines 375-378: under LRU the page moves to the front of the list. */
    method Touch(vpn: Word)
      requires Mirror() && Lists()
      modifies lru, lru.Repr
      ensures Mirror() && Lists() && lru.Repr == old(lru.Repr) && ring.Repr == old(ring.Repr) && Inner == old(Inner)
      ensures State() == old(State()).(queue := if algorithm == LRU then MoveToTop(old(Queue()), vpn) else old(Queue()))
    {
      if algorithm == LRU {
        lru.MoveNodeToTop(vpn);
      }
    }

    /**
     * Lines 380-398: R is set and the PFN read; a write stores the low byte
     * of the value at the offset in that frame and sets M.
     */
    method Operate(vpn: Word, innerTable: array<Word>, idx: Word, offset: Word, ref: Reference)
      returns (pfn: Word)
      requires Mirror() && Lists() && ConfigOk(Cfg()) && Locates(innerTable, idx, vpn) && offset < PAGE_SIZE_BYTES
      requires Pfn(Table[vpn], pfnBits) < frameNumber
      modifies this`Table, innerTable, physicalMemory
      ensures Mirror() && Lists() && lru.Repr == old(lru.Repr) && ring.Repr == old(ring.Repr) && Inner == old(Inner)
      ensures var e := SetFlag(old(Table[vpn]), R_BIT_POSITION, 1);
        && pfn == Pfn(e, pfnBits) && pfn < frameNumber
        && State() == if ref.mode == 'w' then
             old(State()).(table := old(Table)[vpn := SetFlag(e, M_BIT_POSITION, 1)],
                           frames := old(physicalMemory[..])[pfn * PAGE_SIZE_BYTES + offset := ref.value % 256])
           else old(State()).(table := old(Table)[vpn := e])
    {
      pfn := MarkReferenced(vpn, innerTable, idx);
      if ref.mode == 'w' {
        WriteByte(vpn, innerTable, idx, pfn * PAGE_SIZE_BYTES + offset, ref.value % 256);
      }
    }

    /** Lines 380-383: R is set, and the PFN is read from the entry. */
    method MarkReferenced(vpn: Word, innerTable: array<Word>, idx: Word) returns (pfn: Word)
      requires Mirror() && Lists() && ConfigOk(Cfg()) && Locates(innerTable, idx, vpn)
      modifies this`Table, innerTable
      ensures Mirror() && Lists() && lru.Repr == old(lru.Repr) && ring.Repr == old(ring.Repr)
      ensures Table == old(Table)[vpn := SetFlag(old(Table[vpn]), R_BIT_POSITION, 1)]
      ensures pfn == Pfn(old(Table[vpn]), pfnBits) == Pfn(Table[vpn], pfnBits)
    {
      Holds(innerTable, idx, vpn);
      Put(innerTable, idx, vpn, SetFlag(innerTable[idx], R_BIT_POSITION, 1));
      PfnKeep(innerTable[idx], old(Table[vpn]), pfnBits);
      pfn := Pfn(innerTable[idx], pfnBits);
    }

    /** Lines 391-398: byte k of physical memory receives b, and M is set. */
    method WriteByte(vpn: Word, innerTable: array<Word>, idx: Word, k: nat, b: Byte)
      requires Mirror() && Lists() && Locates(innerTable, idx, vpn) && k < physicalMemory.Length
      modifies this`Table, innerTable, physicalMemory
      ensures Mirror() && Lists() && lru.Repr == old(lru.Repr) && ring.Repr == old(ring.Repr)
      ensures Table == old(Table)[vpn := SetFlag(old(Table[vpn]), M_BIT_POSITION, 1)]
      ensures physicalMemory[..] == old(physicalMemory[..])[k := b]
    {
      physicalMemory[k] := b;
      Holds(innerTable, idx, vpn);
      Put(innerTable, idx, vpn, SetFlag(innerTable[idx], M_BIT_POSITION, 1));
    }

    /**
     * clearReferencedBits (lines 182-209): the counter advances, and when it
     * reaches the tick every entry of the current level loses its R bit and
     * the counter restarts.
     */
    method ClearReferencedBits()
      requires Valid()
      modifies this`referenceCounter, this`Table, singlePageTable, Inner
      ensures Valid() && lru.Repr == old(lru.Repr) && ring.Repr == old(ring.Repr) && Inner == old(Inner)
      ensures State() == Aging(Cfg(), old(State()))
    {
      ghost var s0 := State();
      referenceCounter := referenceCounter + 1;
      if referenceCounter == tick {
        ResetReferences();
      }
      AgingSteps(Cfg(), s0, State());
    }

    /** Lines 186-207: the tick expired; every R bit is cleared and the counter restarts. */
    method ResetReferences()
      requires Mirror() && Lists()
      modifies this`referenceCounter, this`Table, singlePageTable, Inner
      ensures Mirror() && Lists() && lru.Repr == old(lru.Repr) && ring.Repr == old(ring.Repr)
      ensures State() == old(State()).(table := ClearAll(old(Table)), referenceCounter := 0)
    {
      referenceCounter := 0;
      if level == 1 {
        ClearSingleTable();
      } else {
        ClearInnerTables();
      }
    }

    /** Lines 187-193: every entry of the single table loses its R bit. */
    method ClearSingleTable()
      requires Mirror() && Lists() && level == 1
      modifies this`Table, singlePageTable
      ensures Mirror() && Lists() && lru.Repr == old(lru.Repr) && ring.Repr == old(ring.Repr)
      ensures State() == old(State()).(table := ClearAll(old(Table)))
    {
      for i := 0 to PAGE_AMOUNT
        invariant forall k :: 0 <= k < i ==> singlePageTable[k] == ClearR(old(singlePageTable[k]))
        invariant forall k :: i <= k < PAGE_AMOUNT ==> singlePageTable[k] == old(singlePageTable[k])
      {
        singlePageTable[i] := ClearR(singlePageTable[i]);
      }
      Table := singlePageTable[..];
    }

    /** Lines 194-206: every entry of every allocated inner table loses its R bit. */
    method ClearInnerTables()
      requires Mirror() && Lists() && level != 1
      modifies this`Table, Inner
      ensures Mirror() && Lists() && lru.Repr == old(lru.Repr) && ring.Repr == old(ring.Repr)
      ensures State() == old(State()).(table := ClearAll(old(Table)))
    {
      ghost var t0 := Table;
      for i := 0 to INNER_TABLE_AMOUNT
        invariant forall v {:trigger Stored(v)} :: 0 <= v < PAGE_AMOUNT ==>
          Stored(v) == if v / INNER_TABLE_PAGE_SIZE < i then ClearR(t0[v]) else t0[v]
      {
        ClearInner(i);
      }
      Table := ClearAll(t0);
    }

    /** Lines 198-204 for one slot: inner table p, when present, loses its R bits. */
    method ClearInner(p: nat)
      requires Tables() && p < INNER_TABLE_AMOUNT
      modifies Inner
      ensures forall v {:trigger Stored(v)} :: 0 <= v < PAGE_AMOUNT ==>
        Stored(v) == if v / INNER_TABLE_PAGE_SIZE == p then ClearR(old(Stored(v))) else old(Stored(v))
    {
      var t := innerTablesTable[p];
      if t != null {
        ClearTable(t);
        forall v | 0 <= v < PAGE_AMOUNT && v / INNER_TABLE_PAGE_SIZE != p
          ensures Stored(v) == old(Stored(v))
        {
          assert innerTablesTable[v / INNER_TABLE_PAGE_SIZE] != t;
        }
      } else {
        ClearZero();
      }
    }

    /** Lines 200-203: every entry of inner table t loses its R bit. */
    static method ClearTable(t: array<Word>)
      modifies t
      ensures forall j :: 0 <= j < t.Length ==> t[j] == ClearR(old(t[j]))
    {
      for j := 0 to t.Length
        invariant forall k :: 0 <= k < j ==> t[k] == ClearR(old(t[k]))
        invariant forall k :: j <= k < t.Length ==> t[k] == old(t[k])
      {
        t[j] := ClearR(t[j]);
      }
    }

    /**
     * Lines 229-411, one pass of the loop: the reference is translated,
     * faulting the page in when needed, performed, logged, and the tick
     * advanced.
     */
    method ProcessReference(ref: Reference) returns (log: LogRecord)
      requires Valid()
      modifies this`Table, this`Inner, this`initialFrameCounter, this`totalPageFaultCounter, this`referenceCounter
      modifies innerTablesTable, outerPageTable, singlePageTable, Inner, physicalMemory, swapFile
      modifies lru, lru.Repr, ring, ring.Repr
      ensures Valid() && (State(), log) == Step(Cfg(), old(State()), ref)
      ensures forall t | t in Inner :: t in old(Inner) || !old(allocated(t))
      ensures forall o | o in lru.Repr :: o in old(lru.Repr) || !old(allocated(o))
      ensures forall o | o in ring.Repr :: o in old(ring.Repr) || !old(allocated(o))
    {
      ghost var s0 := State();
      var va := ref.address;
      var vpn, vpnP1, vpnP2, offset := Vpn(va), VpnP1(va), VpnP2(va), Offset(va);
      AddressSplit(va);
      var pfn, pageFault := Resolve(ref);
      ghost var a := Accessed(State(), pfn);
      var physicalAddress := WriteBits(va, VA_VPN_BITS, VA_OFFSET_BITS, pfn);
      log := LogRecord(va, if level == 1 then vpn else vpnP1, if level == 1 then 0 else vpnP2,
                       offset, pfn, physicalAddress, pageFault);
      ClearReferencedBits();
      StepSteps(Cfg(), s0, ref, pageFault, a, log, State());
    }

    /**
     * processMemoryReferences (lines 211-413): the references of the trace in
     * order, one log line each.
     */
    method ProcessMemoryReferences(trace: seq<Reference>) returns (logs: seq<LogRecord>)
      requires Valid()
      modifies this`Table, this`Inner, this`initialFrameCounter, this`totalPageFaultCounter, this`referenceCounter
      modifies innerTablesTable, outerPageTable, singlePageTable, Inner, physicalMemory, swapFile
      modifies lru, lru.Repr, ring, ring.Repr
      ensures Valid() && (State(), logs) == Run(Cfg(), old(State()), trace)
    {
      logs := [];
      var i := 0;
      while i < |trace|
        invariant i <= |trace| && Valid()
        invariant (State(), logs) == Run(Cfg(), old(State()), trace[..i])
        invariant forall t | t in Inner :: t in old(Inner) || !old(allocated(t))
        invariant forall o | o in lru.Repr :: o in old(lru.Repr) || !old(allocated(o))
        invariant forall o | o in ring.Repr :: o in old(ring.Repr) || !old(allocated(o))
      {
        ghost var m := State();
        var log := ProcessReference(trace[i]);
        RunSnoc(Cfg(), old(State()), trace, i, m, logs, State(), log);
        logs := logs + [log];
        i := i + 1;
      }
      assert trace[..i] == trace;
    }

    /** Lines 236-398: the entry is found (allocating its inner table), faulted in if needed, and referenced. */
    method Resolve(ref: Reference) returns (pfn: Word, pageFault: bool)
      requires Valid()
      modifies this`Table, this`Inner, this`initialFrameCounter, this`totalPageFaultCounter
      modifies innerTablesTable, outerPageTable, singlePageTable, Inner, physicalMemory, swapFile
      modifies lru, lru.Repr, ring, ring.Repr
      ensures Valid() && fresh(Inner - old(Inner))
      ensures forall o | o in lru.Repr :: o in old(lru.Repr) || !old(allocated(o))
      ensures forall o | o in ring.Repr :: o in old(ring.Repr) || !old(allocated(o))
      ensures Resolved(Cfg(), old(State()), ref, pageFault, Accessed(State(), pfn))
    {
      ghost var s0 := State();
      var va := ref.address;
      AddressSplit(va);
      var innerTable, idx := FindEntry(va);
      label Found:
      ghost var s1 := State();
      pfn, pageFault := Translate(Vpn(va), innerTable, idx, Offset(va), ref);
      // The nodes Translate adds were not yet allocated when FindEntry returned.
      assert forall o | o in lru.Repr :: o in old@Found(lru.Repr) || !old@Found(allocated(o));
      assert forall o | o in ring.Repr :: o in old@Found(ring.Repr) || !old@Found(allocated(o));
      ResolveSteps(Cfg(), s0, ref, s1, pageFault, Accessed(State(), pfn));
    }

    /**
     * Lines 239-279: the entry of the address's page is found, in
     * two-level mode after allocating an absent inner table.
     */
    method FindEntry(va: Word) returns (innerTable: array<Word>, idx: Word)
      requires Valid()
      modifies this`Inner, innerTablesTable, outerPageTable
      ensures Valid() && Locates(innerTable, idx, Vpn(va))
      ensures lru.Repr == old(lru.Repr) && ring.Repr == old(ring.Repr) && fresh(Inner - old(Inner))
      ensures State() == old(State()).(outer := if level == 2 then old(outerPageTable[..])[VpnP1(va) := OuterEntry(VpnP1(va))]
        else old(outerPageTable[..]))
    {
      AddressSplit(va);
      if level == 1 {
        innerTable, idx := singlePageTable, Vpn(va);
      } else {
        LazyAllocate(VpnP1(va));
        innerTable, idx := innerTablesTable[VpnP1(va)], VpnP2(va);
      }
    }

    /** Lines 282-398: the page is faulted in when its V bit is clear, then referenced. */
    method Translate(vpn: Word, innerTable: array<Word>, idx: Word, offset: Word, ref: Reference)
      returns (pfn: Word, pageFault: bool)
      requires Valid() && Locates(innerTable, idx, vpn) && offset < PAGE_SIZE_BYTES
      modifies this`Table, this`initialFrameCounter, this`totalPageFaultCounter
      modifies innerTable, singlePageTable, Inner, physicalMemory, swapFile, lru, lru.Repr, ring, ring.Repr
      ensures Valid()
      ensures forall o | o in lru.Repr :: o in old(lru.Repr) || !old(allocated(o))
      ensures forall o | o in ring.Repr :: o in old(ring.Repr) || !old(allocated(o))
      ensures Inner == old(Inner)
      ensures pageFault == (V(old(Table[vpn])) == 0)
      ensures var s2 := if pageFault then Fault(Cfg(), old(State()), vpn) else old(State());
        var a := Access(Cfg(), s2, vpn, offset, ref);
        State() == a.mem && pfn == a.pfn
    {
      Holds(innerTable, idx, vpn);
      var vBit := V(innerTable[idx]);
      pageFault := vBit == 0;
      if pageFault {
        PageFault(vpn, innerTable, idx);
      }
      pfn := AccessPage(vpn, innerTable, idx, offset, ref);
    }

    /**
     * memoryFlush (lines 415-462): at exit the frame of every valid page is
     * written to the page's swap slot, in page order; nothing else changes.
     */
    method MemoryFlush()
      requires Valid()
      modifies swapFile
      ensures swapFile[..] == Flush(Cfg(), old(State()))
    {
      InvFrames(Cfg(), State());
      if level == 1 {
        FlushSingle();
      } else {
        FlushTwoLevel();
      }
    }

    /** Lines 417-431: the single table is scanned entry by entry. */
    method FlushSingle()
      requires Mirror() && level == 1 && FramesIn(Table, physicalMemory[..], pfnBits)
      modifies swapFile
      ensures swapFile[..] == FlushFrom(Table, physicalMemory[..], old(swapFile[..]), pfnBits, 0)
    {
      for i := 0 to PAGE_AMOUNT
        invariant FlushFrom(Table, physicalMemory[..], swapFile[..], pfnBits, i)
               == FlushFrom(Table, physicalMemory[..], old(swapFile[..]), pfnBits, 0)
      {
        var e := singlePageTable[i];
        if V(e) == 1 {
          WriteBack(i, Pfn(e, pfnBits));
        }
      }
    }

    /**
     * Lines 432-461: the outer table is scanned; an inner table whose outer
     * entry is valid is scanned entry by entry, the page number being built
     * in an address as the source does.
     */
    method FlushTwoLevel()
      requires Mirror() && level != 1 && FramesIn(Table, physicalMemory[..], pfnBits)
      modifies swapFile
      ensures swapFile[..] == FlushFrom(Table, physicalMemory[..], old(swapFile[..]), pfnBits, 0)
    {
      var address: Word := 0;
      for i := 0 to INNER_TABLE_AMOUNT
        invariant FlushFrom(Table, physicalMemory[..], swapFile[..], pfnBits, i * INNER_TABLE_PAGE_SIZE)
               == FlushFrom(Table, physicalMemory[..], old(swapFile[..]), pfnBits, 0)
      {
        address := FlushOuter(i, address);
      }
    }

    /** Lines 439-458, one pass of the outer loop: inner table i when its outer entry is valid. */
    method FlushOuter(i: nat, address: Word) returns (next: Word)
      requires Mirror() && level != 1 && FramesIn(Table, physicalMemory[..], pfnBits)
      requires i < INNER_TABLE_AMOUNT
      modifies swapFile
      ensures FlushFrom(Table, physicalMemory[..], swapFile[..], pfnBits, i * INNER_TABLE_PAGE_SIZE + INNER_TABLE_PAGE_SIZE)
           == FlushFrom(Table, physicalMemory[..], old(swapFile[..]), pfnBits, i * INNER_TABLE_PAGE_SIZE)
    {
      next := address;
      if V(outerPageTable[i]) == 1 {
        OuterAddress(next, i);
        next := WriteBits(next, TWO_LEVEL_VPN_P1_BITS, TWO_LEVEL_VPN_P2_BITS + VA_OFFSET_BITS, i);
        next := FlushInner(i, next);
      } else {
        AbsentSkipped(i, swapFile[..]);
      }
    }

    /** An inner table that is absent holds no valid page: its 32 pages write nothing. */
    lemma AbsentSkipped(i: nat, swap: seq<Byte>)
      requires Mirror() && level != 1 && FramesIn(Table, physicalMemory[..], pfnBits)
      requires i < INNER_TABLE_AMOUNT && V(outerPageTable[i]) == 0 && |swap| == VM_SIZE_BYTES
      ensures FlushFrom(Table, physicalMemory[..], swap, pfnBits, i * INNER_TABLE_PAGE_SIZE)
           == FlushFrom(Table, physicalMemory[..], swap, pfnBits, i * INNER_TABLE_PAGE_SIZE + INNER_TABLE_PAGE_SIZE)
    {
      assert innerTablesTable[i] == null;
      forall u | i * INNER_TABLE_PAGE_SIZE <= u < i * INNER_TABLE_PAGE_SIZE + INNER_TABLE_PAGE_SIZE
        ensures V(Table[u]) == 0
      {
        assert u / INNER_TABLE_PAGE_SIZE == i;
        assert Table[u] == Stored(u) == 0;
      }
      FlushSkip(Table, physicalMemory[..], swap, pfnBits, i * INNER_TABLE_PAGE_SIZE,
                i * INNER_TABLE_PAGE_SIZE + INNER_TABLE_PAGE_SIZE);
    }

    /** Lines 443-457: the 32 entries of inner table i, whose outer index the address already holds. */
    method FlushInner(i: nat, address: Word) returns (next: Word)
      requires Mirror() && level != 1 && FramesIn(Table, physicalMemory[..], pfnBits)
      requires i < INNER_TABLE_AMOUNT && VpnP1(address) == i
      modifies swapFile
      ensures FlushFrom(Table, physicalMemory[..], swapFile[..], pfnBits, i * INNER_TABLE_PAGE_SIZE + INNER_TABLE_PAGE_SIZE)
           == FlushFrom(Table, physicalMemory[..], old(swapFile[..]), pfnBits, i * INNER_TABLE_PAGE_SIZE)
    {
      next := address;
      for j := 0 to INNER_TABLE_PAGE_SIZE
        invariant VpnP1(next) == i
        invariant FlushFrom(Table, physicalMemory[..], swapFile[..], pfnBits, i * INNER_TABLE_PAGE_SIZE + j)
               == FlushFrom(Table, physicalMemory[..], old(swapFile[..]), pfnBits, i * INNER_TABLE_PAGE_SIZE)
      {
        var v := i * INNER_TABLE_PAGE_SIZE + j;
        assert v / INNER_TABLE_PAGE_SIZE == i && v % INNER_TABLE_PAGE_SIZE == j;
        var t := innerTablesTable[i];
        if t != null {
          InnerAddress(next, j);
          next := WriteBits(next, TWO_LEVEL_VPN_P2_BITS, VA_OFFSET_BITS, j);
          assert Table[v] == Stored(v) == t[j];
          if V(t[j]) == 1 {
            WriteBack(Vpn(next), Pfn(t[j], pfnBits));
          }
        } else {
          assert Table[v] == Stored(v) == 0;
        }
      }
    }
  }
}
