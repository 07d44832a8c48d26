/**
 * The four page replacement policies of the simulator.  Each policy is a
 * method that works on the replacement queue (the LRU list or the ring)
 * and on a page table, as the simulator does; each is proved against a
 * pure specification on the queue's payload sequence and the table's
 * contents, and the properties of the policies are lemmas about those
 * specifications.
 *
 * The ring holds the resident pages newest first, so the oldest page is
 * the last element of the payload sequence and the hands of FIFO, CLOCK
 * and ECLOCK move from the end of the sequence towards its front.
 */
module Replacement {
  import opened Bits
  import opened PageEntry
  import opened LinkedList

  const ECLOCK_STEP_AMOUNT: nat := 4
  /** The (R, M) class an ECLOCK pass looks for, pass by pass. */
  const COND_BIT_R: seq<nat> := [0, 0, 0, 0]
  const COND_BIT_M: seq<nat> := [0, 1, 0, 1]

  // ---------------------------------------------------------------------
  // Queue payloads after a replacement
  // ---------------------------------------------------------------------

  /**
   * The ring's payloads after the hand stopped at position p and the new
   * page overwrote the victim there: the victim's node is the new head.
   */
  function Evict(q: seq<Word>, p: nat, vpn: Word): (r: seq<Word>)
    requires p < |q|
  {
    Rotate(q, p)[0 := vpn]
  }

  /** Evicting at p replaces q[p] by vpn and starts the ring there. */
  lemma EvictSpec(q: seq<Word>, p: nat, vpn: Word)
    requires p < |q|
    ensures Evict(q, p, vpn) == [vpn] + q[p + 1..] + q[..p]
    ensures multiset(Evict(q, p, vpn)) == multiset(q) - multiset{q[p]} + multiset{vpn}
    ensures Distinct(q) && vpn !in q ==> Distinct(Evict(q, p, vpn))
  {
    var r := Evict(q, p, vpn);
    assert r == [vpn] + q[p + 1..] + q[..p];
    assert q == q[..p] + [q[p]] + q[p + 1..];
    assert multiset(q) == multiset(q[..p]) + multiset{q[p]} + multiset(q[p + 1..]);
    if Distinct(q) && vpn !in q {
      RotateDistinct(q, p);
      forall i, j | 0 <= i < j < |r| ensures r[i] != r[j] {
        if i == 0 {
          assert r[j] == Rotate(q, p)[j];
        }
      }
    }
  }

  /** FIFO: the oldest page leaves and the new page becomes the newest. */
  lemma FifoOrder(q: seq<Word>, vpn: Word)
    requires q != []
    ensures Evict(q, |q| - 1, vpn) == [vpn] + q[..|q| - 1]
  {
    EvictSpec(q, |q| - 1, vpn);
  }

  /**
   * LRU: the least recently used page (the tail) is overwritten, and the
   * move to the top that follows every reference puts the new page first.
   */
  lemma LruOrder(q: seq<Word>, vpn: Word)
    requires q != [] && Distinct(q) && vpn !in q
    ensures MoveToTop(q[|q| - 1 := vpn], vpn) == [vpn] + q[..|q| - 1]
  {
    var k := |q|;
    var q' := q[k - 1 := vpn];
    assert vpn in q' by { assert q'[k - 1] == vpn; }
    MoveToTopSpec(q', vpn);
    assert q' == q[..k - 1] + [vpn];
    assert vpn !in q[..k - 1];
    DeleteLast(q[..k - 1], vpn);
  }

  lemma {:induction false} DeleteLast(a: seq<Word>, x: Word)
    requires x !in a
    ensures Delete(a + [x], x) == a
  {
    if a != [] {
      assert (a + [x])[1..] == a[1..] + [x];
      DeleteLast(a[1..], x);
    } else {
      assert a + [x] == [x];
    }
  }

  // ---------------------------------------------------------------------
  // The table entry a queued page is judged by
  // ---------------------------------------------------------------------

  /**
   * The index CLOCK and ECLOCK read for a queued page: the page number
   * itself with one level, and its low five bits with two levels, always
   * in the table they were handed.
   */
  function Slot(level: nat, vpn: Word): (s: nat)
  {
    if level == 1 then vpn else vpn % INNER_TABLE_PAGE_SIZE
  }

  /** With two levels the slot is extractBits(vpn, 5, 0), the inner index. */
  lemma SlotTwoLevel(level: nat, vpn: Word)
    requires level != 1
    ensures Slot(level, vpn) == ExtractBits(vpn, TWO_LEVEL_VPN_P2_BITS, 0) < INNER_TABLE_PAGE_SIZE
  {
    Pow2Values();
  }

  /** Every queued page's slot lies inside a table of n entries. */
  predicate SlotsIn(n: nat, q: seq<Word>, level: nat)
  {
    forall i :: 0 <= i < |q| ==> Slot(level, q[i]) < n
  }

  /** b is a or a with its R bit cleared. */
  predicate RCleared(a: Word, b: Word)
  {
    b == a || b == ClearR(a)
  }

  lemma RClearedTrans(a: Word, b: Word, c: Word)
    requires RCleared(a, b) && RCleared(b, c)
    ensures RCleared(a, c)
  {
    if b == ClearR(a) && c == ClearR(b) {
      ClearRIdle(b);
    }
  }

  /** Where a hand stopped, the table it left, and whether it matched. */
  datatype Scan = Scan(pos: nat, table: seq<Word>, found: bool)

  // ---------------------------------------------------------------------
  // CLOCK
  // ---------------------------------------------------------------------

  /**
   * The CLOCK hand at position p: a page whose R bit is clear is the
   * victim; otherwise its R bit is cleared and the hand moves one position
   * back around the ring.  fuel bounds the number of positions examined.
   */
  function ClockScan(t: seq<Word>, q: seq<Word>, level: nat, p: nat, fuel: nat): (r: Scan)
    requires p < |q| && SlotsIn(|t|, q, level)
    ensures r.pos < |q| && |r.table| == |t|
    ensures r.found ==> R(r.table[Slot(level, q[r.pos])]) == 0
    decreases fuel
  {
    if fuel == 0 then Scan(p, t, false)
    else
      var s := Slot(level, q[p]);
      if R(t[s]) == 0 then Scan(p, t, true)
      else ClockScan(t[s := ClearR(t[s])], q, level, Pred(p, |q|), fuel - 1)
  }

  /** The CLOCK hand changes nothing in the table but R bits it clears. */
  lemma {:induction false} ClockScanClears(t: seq<Word>, q: seq<Word>, level: nat, p: nat, fuel: nat)
    requires p < |q| && SlotsIn(|t|, q, level)
    ensures var r := ClockScan(t, q, level, p, fuel);
      forall x :: 0 <= x < |t| ==> RCleared(t[x], r.table[x])
    decreases fuel
  {
    if fuel > 0 {
      var s := Slot(level, q[p]);
      if R(t[s]) != 0 {
        var t' := t[s := ClearR(t[s])];
        var r := ClockScan(t', q, level, Pred(p, |q|), fuel - 1);
        ClockScanClears(t', q, level, Pred(p, |q|), fuel - 1);
        forall x | 0 <= x < |t| ensures RCleared(t[x], r.table[x]) {
          RClearedTrans(t[x], t'[x], r.table[x]);
        }
      }
    }
  }

  /** A clear R bit stays clear while the hand only clears R bits. */
  lemma RStaysClear(a: Word, b: Word)
    requires RCleared(a, b) && R(a) == 0
    ensures R(b) == 0
  {
  }

  /**
   * A hand at p with more fuel than positions left, and every page behind
   * the hand (positions above p) already clear, always finds a victim.
   */
  lemma {:induction false} ClockFindsFrom(t: seq<Word>, q: seq<Word>, level: nat, p: nat, fuel: nat)
    requires p < |q| && SlotsIn(|t|, q, level)
    requires fuel >= p + 2
    requires forall j :: p < j < |q| ==> R(t[Slot(level, q[j])]) == 0
    ensures ClockScan(t, q, level, p, fuel).found
    decreases p
  {
    var s := Slot(level, q[p]);
    if R(t[s]) != 0 {
      var t' := t[s := ClearR(t[s])];
      if p == 0 {
        var q0 := Pred(0, |q|);
        if q0 == 0 {
          assert R(t'[s]) == 0;
        } else {
          assert R(t'[Slot(level, q[q0])]) == 0 by {
            if Slot(level, q[q0]) != s {
              assert t'[Slot(level, q[q0])] == t[Slot(level, q[q0])];
            }
          }
        }
      } else {
        forall j | p - 1 < j < |q| ensures R(t'[Slot(level, q[j])]) == 0 {
          if Slot(level, q[j]) != s {
            assert t'[Slot(level, q[j])] == t[Slot(level, q[j])];
          }
        }
        ClockFindsFrom(t', q, level, p - 1, fuel - 1);
      }
    }
  }

  /**
   * CLOCK always finds a victim: starting at the oldest page, at most one
   * full turn clears every R bit, so the next page examined is clear.
   */
  lemma ClockFinds(t: seq<Word>, q: seq<Word>, level: nat)
    requires q != [] && SlotsIn(|t|, q, level)
    ensures ClockScan(t, q, level, |q| - 1, |q| + 1).found
  {
    ClockFindsFrom(t, q, level, |q| - 1, |q| + 1);
  }

  // ---------------------------------------------------------------------
  // ECLOCK
  // ---------------------------------------------------------------------

  /**
   * Pass `step` of ECLOCK (step 0 to 3, the first to the fourth pass) with
   * the hand at position p (going down to 0): a page in the pass's (R, M)
   * class is the victim; the second pass (step 1) clears the R bit of every
   * page it rejects.  A pass that gets round without a match
   * reports the hand back at the start position |q| - 1.
   */
  function EclockPass(t: seq<Word>, q: seq<Word>, level: nat, step: nat, p: int): (r: Scan)
    requires step < ECLOCK_STEP_AMOUNT && -1 <= p < |q| && SlotsIn(|t|, q, level)
    ensures r.pos < |q| || (q == [] && !r.found)
    ensures |r.table| == |t|
    ensures r.found ==> 0 <= r.pos <= p
    ensures !r.found && q != [] ==> r.pos == |q| - 1
    ensures r.found ==> var e := r.table[Slot(level, q[r.pos])];
      R(e) == COND_BIT_R[step] && M(e) == COND_BIT_M[step]
    ensures step != 1 ==> r.table == t
    decreases p + 1
  {
    if p < 0 then Scan(if q == [] then 0 else |q| - 1, t, false)
    else
      var s := Slot(level, q[p]);
      if R(t[s]) == COND_BIT_R[step] && M(t[s]) == COND_BIT_M[step] then Scan(p, t, true)
      else EclockPass(if step == 1 then t[s := ClearR(t[s])] else t, q, level, step, p - 1)
  }

  /** An ECLOCK pass changes nothing in the table but R bits it clears. */
  lemma {:induction false} PassOnlyClears(t: seq<Word>, q: seq<Word>, level: nat, step: nat, p: int)
    requires step < ECLOCK_STEP_AMOUNT && -1 <= p < |q| && SlotsIn(|t|, q, level)
    ensures var r := EclockPass(t, q, level, step, p);
      forall x :: 0 <= x < |t| ==> RCleared(t[x], r.table[x])
    decreases p + 1
  {
    if p >= 0 {
      var s := Slot(level, q[p]);
      if !(R(t[s]) == COND_BIT_R[step] && M(t[s]) == COND_BIT_M[step]) {
        var t' := if step == 1 then t[s := ClearR(t[s])] else t;
        var r := EclockPass(t', q, level, step, p - 1);
        PassOnlyClears(t', q, level, step, p - 1);
        forall x | 0 <= x < |t| ensures RCleared(t[x], r.table[x]) {
          RClearedTrans(t[x], t'[x], r.table[x]);
        }
      }
    }
  }

  /**
   * ECLOCK from pass step on: the first pass that finds a page of its
   * class decides; if all four fail the victim is the start position.
   */
  function Eclock(t: seq<Word>, q: seq<Word>, level: nat, step: nat): (r: Scan)
    requires q != [] && step <= ECLOCK_STEP_AMOUNT && SlotsIn(|t|, q, level)
    ensures r.pos < |q| && |r.table| == |t|
    decreases ECLOCK_STEP_AMOUNT - step
  {
    if step == ECLOCK_STEP_AMOUNT then Scan(|q| - 1, t, false)
    else
      var r := EclockPass(t, q, level, step, |q| - 1);
      if r.found then r else Eclock(r.table, q, level, step + 1)
  }

  /**
   * ECLOCK changes nothing in the table but R bits, and only in its
   * second pass.
   */
  lemma {:induction false} EclockOnlyClears(t: seq<Word>, q: seq<Word>, level: nat, step: nat)
    requires q != [] && step <= ECLOCK_STEP_AMOUNT && SlotsIn(|t|, q, level)
    ensures var r := Eclock(t, q, level, step);
      forall x :: 0 <= x < |t| ==> RCleared(t[x], r.table[x])
    ensures step >= 2 ==> Eclock(t, q, level, step).table == t
    decreases ECLOCK_STEP_AMOUNT - step
  {
    if step < ECLOCK_STEP_AMOUNT {
      var r := EclockPass(t, q, level, step, |q| - 1);
      PassOnlyClears(t, q, level, step, |q| - 1);
      if !r.found {
        var r' := Eclock(r.table, q, level, step + 1);
        EclockOnlyClears(r.table, q, level, step + 1);
        forall x | 0 <= x < |t| ensures RCleared(t[x], r'.table[x]) {
          RClearedTrans(t[x], r.table[x], r'.table[x]);
        }
      }
    }
  }

  /** A pass that fails saw no page of its class at any position j <= p. */
  lemma {:induction false} PassMiss(t: seq<Word>, q: seq<Word>, level: nat, step: nat, p: int, j: nat)
    requires step < ECLOCK_STEP_AMOUNT && step != 1 && j <= p < |q| && SlotsIn(|t|, q, level)
    requires !EclockPass(t, q, level, step, p).found
    ensures !(R(t[Slot(level, q[j])]) == COND_BIT_R[step] && M(t[Slot(level, q[j])]) == COND_BIT_M[step])
    decreases p
  {
    if j < p {
      PassMiss(t, q, level, step, p - 1, j);
    }
  }

  /** A failed second pass (step 1) leaves the R bit clear at every position j <= p. */
  lemma {:induction false} PassClears(t: seq<Word>, q: seq<Word>, level: nat, p: int, j: nat)
    requires j <= p < |q| && SlotsIn(|t|, q, level)
    requires !EclockPass(t, q, level, 1, p).found
    ensures R(EclockPass(t, q, level, 1, p).table[Slot(level, q[j])]) == 0
    decreases p
  {
    var s := Slot(level, q[p]);
    var t' := t[s := ClearR(t[s])];
    var r := EclockPass(t', q, level, 1, p - 1);
    assert EclockPass(t, q, level, 1, p) == r;
    if j < p {
      PassClears(t', q, level, p - 1, j);
    } else {
      PassOnlyClears(t', q, level, 1, p - 1);
      RStaysClear(t'[s], r.table[s]);
    }
  }

  /**
   * ECLOCK always finds a page of some class within its four passes:
   * after the second pass (step 1) fails every R bit is clear, so the
   * third pass (step 2) finds an unmodified page or, failing that, the
   * fourth pass (step 3) finds the start page
   * unreferenced and modified.
   */
  lemma EclockFinds(t: seq<Word>, q: seq<Word>, level: nat)
    requires q != [] && SlotsIn(|t|, q, level)
    ensures Eclock(t, q, level, 0).found
  {
    var k := |q|;
    var r0 := EclockPass(t, q, level, 0, k - 1);
    if !r0.found {
      var r1 := EclockPass(r0.table, q, level, 1, k - 1);
      if !r1.found {
        PassClears(r0.table, q, level, k - 1, k - 1);
        var r2 := EclockPass(r1.table, q, level, 2, k - 1);
        if !r2.found {
          FourthPassFinds(r1.table, q, level);
        }
      }
    }
  }

  /**
   * When the start page's R bit is clear and the third pass (step 2) finds
   * no unmodified page, the start page is modified and the fourth pass
   * (step 3) takes it at once.
   */
  lemma FourthPassFinds(t: seq<Word>, q: seq<Word>, level: nat)
    requires q != [] && SlotsIn(|t|, q, level)
    requires R(t[Slot(level, q[|q| - 1])]) == 0
    requires !EclockPass(t, q, level, 2, |q| - 1).found
    ensures EclockPass(t, q, level, 3, |q| - 1) == Scan(|q| - 1, t, true)
  {
    PassMiss(t, q, level, 2, |q| - 1, |q| - 1);
  }

  // ---------------------------------------------------------------------
  // The policy methods
  // ---------------------------------------------------------------------

  /**
   * Rotate a linked ring's ghost view to start at p after the node there
   * took vpn; the ring's head must already be that node.
   */
  lemma RotatedData(ns: seq<Node>, q: seq<Word>, p: nat, vpn: Word)
    requires |ns| == |q| && p < |ns| && Distinct(ns)
    requires ns[p].data == vpn
    requires forall j :: 0 <= j < |ns| && j != p ==> ns[j].data == q[j]
    ensures forall j :: 0 <= j < |ns| ==> Rotate(ns, p)[j].data == Evict(q, p, vpn)[j]
  {
  }

  /** algorithmFifo: the hand steps back to the oldest page and reuses it. */
  method AlgorithmFifo(ring: Ring, vpn: Word) returns (victim: Word)
    requires ring.Valid() && ring.Nodes != []
    modifies ring, ring.Repr
    ensures ring.Valid() && ring.Repr == old(ring.Repr)
    ensures victim == old(ring.Contents)[|old(ring.Contents)| - 1]
    ensures ring.Contents == Evict(old(ring.Contents), |old(ring.Contents)| - 1, vpn)
    ensures ring.Nodes == Rotate(old(ring.Nodes), |old(ring.Nodes)| - 1)
  {
    ghost var ns, q, k := ring.Nodes, ring.Contents, |ring.Nodes|;
    RingFacts(ns);
    ring.head := ring.head.prev;
    victim := ring.head.data;
    ring.head.data := vpn;
    Reposition(ring, ns, q, k - 1, vpn);
  }

  /**
   * The ghost part of ending a ring policy: the node at p took vpn and is
   * the head; the ring now starts there.
   */
  ghost method Reposition(ring: Ring, ns: seq<Node>, q: seq<Word>, p: nat, vpn: Word)
    requires p < |ns| && |q| == |ns| && Distinct(ns)
    requires (forall i :: 0 <= i < |ns| ==> ns[i] in ring.Repr)
    requires forall j {:trigger ns[j].next} :: 0 <= j < |ns| ==> ns[j].next == RingAfter(ns, j)
    requires forall j {:trigger ns[j].prev} :: 0 <= j < |ns| ==> ns[j].prev == RingBefore(ns, j)
    requires ring.head == ns[p] && ns[p].data == vpn
    requires forall j :: 0 <= j < |ns| && j != p ==> ns[j].data == q[j]
    modifies ring
    ensures ring.Valid() && ring.Repr == old(ring.Repr) && ring.head == old(ring.head)
    ensures ring.Nodes == Rotate(ns, p) && ring.Contents == Evict(q, p, vpn)
  {
    FactsRingLinked(ns);
    RotateLinked(ns, p);
    RotateDistinct(ns, p);
    RotatedData(ns, q, p, vpn);
    ring.Nodes, ring.Contents := Rotate(ns, p), Evict(q, p, vpn);
  }

  /** algorithmLru: the tail (least recently used) node takes vpn. */
  method AlgorithmLru(lru: List, vpn: Word) returns (victim: Word)
    requires lru.Valid() && lru.Nodes != []
    modifies lru, lru.Repr
    ensures lru.Valid() && lru.Repr == old(lru.Repr) && lru.Nodes == old(lru.Nodes)
    ensures lru.head == old(lru.head) && lru.tail == old(lru.tail)
    ensures victim == old(lru.Contents)[|old(lru.Contents)| - 1]
    ensures lru.Contents == old(lru.Contents)[|old(lru.Contents)| - 1 := vpn]
  {
    ghost var ns, k := lru.Nodes, |lru.Nodes|;
    ListFacts(ns);
    victim := lru.tail.data;
    lru.tail.data := vpn;
    FactsListLinked(ns);
    lru.Contents := lru.Contents[k - 1 := vpn];
  }

  /**
   * algorithmClock: the hand starts at the oldest page and walks back
   * round the ring, clearing R bits in table, until it reaches a page
   * whose R bit is clear; that page's node takes vpn.
   */
  method AlgorithmClock(ring: Ring, vpn: Word, table: array<Word>, level: nat)
    returns (victim: Word, ghost pos: nat)
    requires ring.Valid() && ring.Nodes != [] && SlotsIn(table.Length, ring.Contents, level)
    modifies ring, ring.Repr, table
    ensures ring.Valid() && ring.Repr == old(ring.Repr)
    ensures var q := old(ring.Contents);
      var r := ClockScan(old(table[..]), q, level, |q| - 1, |q| + 1);
      && pos == r.pos && table[..] == r.table
      && victim == q[pos] && ring.Contents == Evict(q, pos, vpn)
    ensures ring.Nodes == Rotate(old(ring.Nodes), pos)
  {
    ghost var ns, q, k := ring.Nodes, ring.Contents, |ring.Nodes|;
    RingFacts(ns);
    ring.head := ring.head.prev;
    pos := ClockHand(ring, table, level, ns, q);
    victim := ring.head.data;
    ring.head.data := vpn;
    Reposition(ring, ns, q, pos, vpn);
  }

  /** The CLOCK hand's walk, from the oldest page to the victim. */
  method ClockHand(ring: Ring, table: array<Word>, level: nat, ghost ns: seq<Node>, ghost q: seq<Word>)
    returns (ghost pos: nat)
    requires |ns| == |q| && ns != [] && SlotsIn(table.Length, q, level)
    requires ring.head == ns[|ns| - 1]
    requires forall j :: 0 <= j < |ns| ==> ns[j].data == q[j]
    requires forall j {:trigger ns[j].prev} :: 0 <= j < |ns| ==> ns[j].prev == RingBefore(ns, j)
    modifies ring`head, table
    ensures pos < |q| && ring.head == ns[pos]
    ensures ClockScan(old(table[..]), q, level, |q| - 1, |q| + 1) == Scan(pos, table[..], true)
  {
    ghost var k := |ns|;
    ghost var target := ClockScan(table[..], q, level, k - 1, k + 1);
    ClockFinds(table[..], q, level);
    pos := k - 1;
    ghost var fuel: nat := k + 1;
    var idx := Slot(level, ring.head.data);
    while R(table[idx]) != 0
      invariant pos < k && ring.head == ns[pos] && idx == Slot(level, q[pos])
      invariant ClockScan(table[..], q, level, pos, fuel) == target && target.found
      decreases fuel
    {
      ghost var t, s := table[..], idx;
      assert fuel > 0;
      assert ClockScan(t, q, level, pos, fuel)
        == ClockScan(t[idx := ClearR(t[idx])], q, level, Pred(pos, k), fuel - 1);
      table[idx] := ClearR(table[idx]);
      ring.head := ring.head.prev;
      pos, fuel := Pred(pos, k), fuel - 1;
      assert table[..] == t[s := ClearR(t[s])];
      idx := Slot(level, ring.head.data);
    }
    assert fuel > 0;
    assert ClockScan(table[..], q, level, pos, fuel) == Scan(pos, table[..], true);
  }

  /**
   * algorithmEclock: up to four passes round the ring from the oldest
   * page, looking in turn for (R, M) = (0, 0), (0, 1), (0, 0), (0, 1);
   * the second pass clears the R bits it passes.  The page where the
   * search stops takes vpn.
   */
  method AlgorithmEclock(ring: Ring, vpn: Word, table: array<Word>, level: nat)
    returns (victim: Word, ghost pos: nat)
    requires ring.Valid() && ring.Nodes != [] && SlotsIn(table.Length, ring.Contents, level)
    modifies ring, ring.Repr, table
    ensures ring.Valid() && ring.Repr == old(ring.Repr)
    ensures var q := old(ring.Contents);
      var r := Eclock(old(table[..]), q, level, 0);
      && pos == r.pos && table[..] == r.table
      && victim == q[pos] && ring.Contents == Evict(q, pos, vpn)
    ensures ring.Nodes == Rotate(old(ring.Nodes), pos)
  {
    ghost var ns, q := ring.Nodes, ring.Contents;
    RingFacts(ns);
    ring.head := ring.head.prev;
    pos := EclockSearch(ring, table, level, ns, q);
    victim := ring.head.data;
    ring.head.data := vpn;
    Reposition(ring, ns, q, pos, vpn);
  }

  /** The four ECLOCK passes, from the oldest page to the victim. */
  method EclockSearch(ring: Ring, table: array<Word>, level: nat, ghost ns: seq<Node>, ghost q: seq<Word>)
    returns (ghost pos: nat)
    requires |ns| == |q| && ns != [] && SlotsIn(table.Length, q, level) && Distinct(ns)
    requires ring.head == ns[|ns| - 1]
    requires forall j :: 0 <= j < |ns| ==> ns[j].data == q[j]
    requires forall j {:trigger ns[j].prev} :: 0 <= j < |ns| ==> ns[j].prev == RingBefore(ns, j)
    modifies ring`head, table
    ensures pos < |q| && ring.head == ns[pos]
    ensures var r := Eclock(old(table[..]), q, level, 0); pos == r.pos && table[..] == r.table
  {
    ghost var k := |ns|;
    var startNode := ring.head;
    var victimFound := false;
    var step := 0;
    ghost var target := Eclock(table[..], q, level, 0);
    pos := k - 1;
    while step < ECLOCK_STEP_AMOUNT && !victimFound
      invariant 0 <= step <= ECLOCK_STEP_AMOUNT && pos < k
      invariant !victimFound ==> pos == k - 1 && ring.head == startNode && Eclock(table[..], q, level, step) == target
      invariant victimFound ==> ring.head == ns[pos] && target == Scan(pos, table[..], true)
      decreases ECLOCK_STEP_AMOUNT - step
    {
      ghost var t := table[..];
      victimFound, pos := EclockHand(ring, startNode, table, level, step, ns, q);
      assert Eclock(t, q, level, step) == if victimFound then Scan(pos, table[..], true)
        else Eclock(table[..], q, level, step + 1);
      step := step + 1;
    }
  }

  /**
   * One ECLOCK pass: the do-while loop that walks back from startNode
   * (the oldest page) until a page of the pass's class is found or the
   * hand is back at startNode.
   */
  method EclockHand(ring: Ring, startNode: Node, table: array<Word>, level: nat, step: nat,
                    ghost ns: seq<Node>, ghost q: seq<Word>)
    returns (victimFound: bool, ghost pos: nat)
    requires step < ECLOCK_STEP_AMOUNT
    requires |ns| == |q| && ns != [] && SlotsIn(table.Length, q, level) && Distinct(ns)
    requires ring.head == startNode == ns[|ns| - 1]
    requires forall j :: 0 <= j < |ns| ==> ns[j].data == q[j]
    requires forall j {:trigger ns[j].prev} :: 0 <= j < |ns| ==> ns[j].prev == RingBefore(ns, j)
    modifies ring`head, table
    ensures pos < |q| && ring.head == ns[pos]
    ensures EclockPass(old(table[..]), q, level, step, |q| - 1) == Scan(pos, table[..], victimFound)
  {
    ghost var k := |ns|;
    ghost var pass := EclockPass(table[..], q, level, step, k - 1);
    ghost var p: int := k - 1;
    victimFound := false;
    var going := true;
    while going
      invariant -1 <= p < k
      invariant going ==> 0 <= p && ring.head == ns[p]
      invariant !going ==> p == -1 && ring.head == startNode
      invariant EclockPass(table[..], q, level, step, p) == pass
      decreases p + 1
    {
      var idx := Slot(level, ring.head.data);
      var bitR := R(table[idx]);
      var bitM := M(table[idx]);
      if bitR == COND_BIT_R[step] && bitM == COND_BIT_M[step] {
        victimFound := true;
        break;
      }
      if step == 1 {
        table[idx] := ClearR(table[idx]);
      }
      ring.head := ring.head.prev;
      p := p - 1;
      going := startNode != ring.head;
    }
    pos := if victimFound then p else k - 1;
  }
}
