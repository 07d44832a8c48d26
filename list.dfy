/**
 * The eviction queues of linkedList.c.
 *
 * A linear doubly-linked list (head, tail) orders the LRU pages from most to
 * least recently used; a circular doubly-linked ring holds the resident
 * pages for FIFO, CLOCK and ECLOCK, newest at the head and oldest at
 * head.prev.  Each structure keeps a ghost sequence of its nodes in
 * head-to-next order and the sequence of their payloads; the operations are
 * specified by what they do to that payload sequence.
 */
module LinkedList {
  import opened Bits

  class Node {
    var data: Word
    var next: Node?
    var prev: Node?

    constructor (item: Word)
      ensures data == item && next == null && prev == null
    {
      data := item;
      next := null;
      prev := null;
    }
  }

  // ---------------------------------------------------------------------
  // Payload-sequence specifications
  // ---------------------------------------------------------------------

  predicate Distinct<T(==)>(s: seq<T>)
  {
    forall i, j :: 0 <= i < j < |s| ==> s[i] != s[j]
  }

  /** The position of the first payload equal to key, or |q| when there is none. */
  function Find(q: seq<Word>, key: Word): (i: nat)
    ensures i <= |q|
    ensures i < |q| ==> q[i] == key
    ensures forall j :: 0 <= j < i ==> q[j] != key
  {
    if q == [] then 0
    else if q[0] == key then 0
    else 1 + Find(q[1..], key)
  }

  lemma FindAbsent(q: seq<Word>, key: Word)
    ensures Find(q, key) == |q| <==> key !in q
  {
  }

  /** s with its element at position i taken out. */
  function Without<T>(s: seq<T>, i: nat): (r: seq<T>)
    requires i < |s|
    ensures |r| == |s| - 1
    ensures forall j :: 0 <= j < i ==> r[j] == s[j]
    ensures forall j :: i <= j < |r| ==> r[j] == s[j + 1]
  {
    s[..i] + s[i + 1..]
  }

  lemma WithoutMultiset<T>(s: seq<T>, i: nat)
    requires i < |s|
    ensures multiset(Without(s, i)) == multiset(s) - multiset{s[i]}
  {
    assert s == s[..i] + [s[i]] + s[i + 1..];
  }

  /** The ring read from position p onwards: position p becomes the head. */
  function Rotate<T>(s: seq<T>, p: nat): (r: seq<T>)
    requires p < |s|
    ensures |r| == |s|
    ensures forall j :: 0 <= j < |s| - p ==> r[j] == s[p + j]
    ensures forall j :: |s| - p <= j < |s| ==> r[j] == s[j - (|s| - p)]
  {
    s[p..] + s[..p]
  }

  lemma RotateMultiset<T>(s: seq<T>, p: nat)
    requires p < |s|
    ensures multiset(Rotate(s, p)) == multiset(s)
  {
    assert s == s[..p] + s[p..];
  }

  lemma RotateDistinct<T>(s: seq<T>, p: nat)
    requires p < |s| && Distinct(s)
    ensures Distinct(Rotate(s, p))
  {
    var r := Rotate(s, p);
    forall i, j | 0 <= i < j < |r| ensures r[i] != r[j] {
      var si := if i < |s| - p then p + i else i - (|s| - p);
      var sj := if j < |s| - p then p + j else j - (|s| - p);
      assert r[i] == s[si] && r[j] == s[sj] && si != sj;
    }
  }

  /** deleteNode's effect: the first payload equal to key is removed, if there is one. */
  function Delete(q: seq<Word>, key: Word): (r: seq<Word>)
    ensures key !in q ==> r == q
    ensures key in q ==> |r| == |q| - 1 && multiset(r) == multiset(q) - multiset{key}
    ensures Distinct(q) ==> key !in r
  {
    var i := Find(q, key);
    if i == |q| then q
    else
      WithoutMultiset(q, i);
      Without(q, i)
  }

  /** moveNodeToTop's effect: the first payload equal to key moves to the front. */
  function MoveToTop(q: seq<Word>, key: Word): (r: seq<Word>)
  {
    var i := Find(q, key);
    if i == |q| then q else [q[i]] + Without(q, i)
  }

  /**
   * Moving to the top keeps the length and the payloads; when key is present
   * it is then first, followed by the other payloads in their old order.
   */
  lemma MoveToTopSpec(q: seq<Word>, key: Word)
    ensures |MoveToTop(q, key)| == |q| && multiset(MoveToTop(q, key)) == multiset(q)
    ensures key !in q ==> MoveToTop(q, key) == q
    ensures key in q ==> MoveToTop(q, key) == [key] + Delete(q, key)
  {
    var i := Find(q, key);
    if i < |q| {
      WithoutMultiset(q, i);
      assert multiset([q[i]] + Without(q, i)) == multiset{q[i]} + multiset(Without(q, i));
    }
  }

  /** When the head already holds key, moving it to the top changes nothing. */
  lemma MoveToTopHead(q: seq<Word>, key: Word)
    requires q != [] && q[0] == key
    ensures MoveToTop(q, key) == q
  {
    assert Find(q, key) == 0;
    assert [q[0]] + q[1..] == q;
  }

  // ---------------------------------------------------------------------
  // The linear list used by LRU
  // ---------------------------------------------------------------------

  /** The node after position i of a linear list: null after the last. */
  function After(ns: seq<Node>, i: nat): Node?
    requires i < |ns|
  {
    if i + 1 < |ns| then ns[i + 1] else null
  }

  /** The node before position i of a linear list: null before the first. */
  function Before(ns: seq<Node>, i: nat): Node?
    requires i < |ns|
  {
    if i == 0 then null else ns[i - 1]
  }

  /** Node i's next is node i+1 (null at the tail) and its prev node i-1 (null at the head). */
  ghost predicate ListLinked(ns: seq<Node>)
    reads set i | 0 <= i < |ns| :: ns[i]
  {
    && (forall i {:trigger ns[i].next} :: 0 <= i < |ns| ==> ns[i].next == After(ns, i))
    && (forall i {:trigger ns[i].prev} :: 0 <= i < |ns| ==> ns[i].prev == Before(ns, i))
  }

  lemma ListFacts(ns: seq<Node>)
    requires ListLinked(ns)
    ensures forall j {:trigger ns[j].next} :: 0 <= j < |ns| ==> ns[j].next == After(ns, j)
    ensures forall j {:trigger ns[j].prev} :: 0 <= j < |ns| ==> ns[j].prev == Before(ns, j)
  {
  }

  lemma FactsListLinked(ns: seq<Node>)
    requires forall j {:trigger ns[j].next} :: 0 <= j < |ns| ==> ns[j].next == After(ns, j)
    requires forall j {:trigger ns[j].prev} :: 0 <= j < |ns| ==> ns[j].prev == Before(ns, j)
    ensures ListLinked(ns)
  {
  }

  /** A node linked in front of a linked list, with the old head pointing back at it, gives a linked list. */
  lemma ConsLinked(n: Node, ns: seq<Node>)
    requires forall j :: 0 <= j < |ns| ==> ns[j] != n
    requires n.next == (if ns == [] then null else ns[0]) && n.prev == null
    requires forall j {:trigger ns[j].next} :: 0 <= j < |ns| ==> ns[j].next == After(ns, j)
    requires forall j {:trigger ns[j].prev} :: 1 <= j < |ns| ==> ns[j].prev == Before(ns, j)
    requires ns != [] ==> ns[0].prev == n
    ensures ListLinked([n] + ns)
  {
    var r := [n] + ns;
    forall j | 0 <= j < |r|
      ensures r[j].next == After(r, j)
      ensures r[j].prev == Before(r, j)
    {
      if j > 0 {
        assert r[j] == ns[j - 1];
        if j < |ns| {
          assert r[j + 1] == ns[j];
        }
      } else if ns != [] {
        assert r[1] == ns[0];
      }
    }
  }

  /**
   * A linked list in which node i has been bypassed (its predecessor's next
   * and its successor's prev skip it) gives a linked list without node i.
   */
  lemma UnlinkLinked(ns: seq<Node>, i: nat)
    requires i < |ns|
    requires forall j {:trigger ns[j].next} :: 0 <= j < |ns| && j + 1 != i ==> ns[j].next == After(ns, j)
    requires i > 0 ==> ns[i - 1].next == After(ns, i)
    requires forall j {:trigger ns[j].prev} :: 0 <= j < |ns| && j != i + 1 ==> ns[j].prev == Before(ns, j)
    requires i + 1 < |ns| ==> ns[i + 1].prev == Before(ns, i)
    ensures ListLinked(Without(ns, i))
  {
    var r := Without(ns, i);
    forall j | 0 <= j < |r|
      ensures r[j].next == After(r, j)
      ensures r[j].prev == Before(r, j)
    {
      if j < i {
        assert r[j] == ns[j];
      } else {
        assert r[j] == ns[j + 1];
      }
    }
  }

  class List {
    var head: Node?
    var tail: Node?
    ghost var Nodes: seq<Node>
    ghost var Contents: seq<Word>
    ghost var Repr: set<Node>

    ghost predicate Valid()
      reads this, Repr
    {
      && (forall i :: 0 <= i < |Nodes| ==> Nodes[i] in Repr)
      && |Contents| == |Nodes|
      && Distinct(Nodes)
      && (if Nodes == [] then head == null && tail == null
          else head == Nodes[0] && tail == Nodes[|Nodes| - 1])
      && (forall i :: 0 <= i < |Nodes| ==> Nodes[i].data == Contents[i])
      && ListLinked(Nodes)
    }

    constructor ()
      ensures Valid() && Contents == [] && Repr == {}
    {
      head, tail := null, null;
      Nodes, Contents, Repr := [], [], {};
    }

    /**
     * Link node n, which is not in the list, in front of the head: the
     * add-to-top step shared by insertNode and moveNodeToTop.
     */
    method LinkFront(n: Node)
      requires Valid() && n !in Repr
      modifies this, Repr, n
      ensures Valid()
      ensures Nodes == [n] + old(Nodes) && Contents == [n.data] + old(Contents)
      ensures Repr == old(Repr) + {n} && n.data == old(n.data)
      ensures head == n && n.prev == null
      ensures tail == if old(head) == null then n else old(tail)
    {
      ghost var ns := Nodes;
      ListFacts(ns);
      n.next := head;
      n.prev := null;
      if head != null {
        head.prev := n;
      } else {
        tail := n;
      }
      head := n;
      ConsLinked(n, ns);
      Nodes, Contents, Repr := [n] + ns, [n.data] + Contents, Repr + {n};
    }

    /** insertNode: a fresh node holding item becomes the head. */
    method InsertNode(item: Word)
      requires Valid()
      modifies this, Repr
      ensures Valid()
      ensures Contents == [item] + old(Contents)
      ensures fresh(head) && Nodes == [head] + old(Nodes) && Repr == old(Repr) + {head}
      ensures head.prev == null
      ensures tail == if old(head) == null then head else old(tail)
    {
      var newNode := new Node(item);
      LinkFront(newNode);
    }

    /**
     * The search loop of deleteNode and moveNodeToTop: walk next links from
     * the head to the first node holding key (null when there is none).
     */
    method Search(key: Word) returns (temp: Node?, ghost i: nat)
      requires Valid()
      ensures i == Find(Contents, key)
      ensures temp == if i < |Nodes| then Nodes[i] else null
    {
      temp, i := head, 0;
      while temp != null && temp.data != key
        invariant i <= |Nodes|
        invariant temp == if i < |Nodes| then Nodes[i] else null
        invariant forall j :: 0 <= j < i ==> Contents[j] != key
        decreases |Nodes| - i
      {
        temp := temp.next;
        i := i + 1;
      }
      FindAt(Contents, key, i);
    }

    /** The head-node case of deleteNode: head advances to head.next, whose prev becomes null. */
    method UnlinkHead()
      requires Valid() && Nodes != []
      modifies this, Repr
      ensures Valid()
      ensures Nodes == old(Nodes[1..]) && Contents == old(Contents[1..])
      ensures Repr == old(Repr) - {old(head)}
    {
      ghost var ns := Nodes;
      ListFacts(ns);
      var temp := head;
      var second := temp.next;
      if second != null {
        second.prev := null;
      }
      UnlinkLinked(ns, 0);
      WithoutDistinct(ns, 0);
      head, tail := second, if second == null then null else tail;
      Nodes, Contents, Repr := Without(ns, 0), Without(Contents, 0), Repr - {temp};
    }

    /**
     * The intermediate-node case of deleteNode and moveNodeToTop: node i
     * (temp, not the head) is bypassed by its neighbours, and tail retreats
     * to its predecessor when it was the tail.
     */
    method Unlink(temp: Node, ghost i: nat)
      requires Valid() && 0 < i < |Nodes| && temp == Nodes[i]
      modifies this, Repr
      ensures Valid()
      ensures Nodes == Without(old(Nodes), i) && Contents == Without(old(Contents), i)
      ensures Repr == old(Repr) - {temp} && temp.data == old(temp.data)
      ensures head == old(head)
    {
      ghost var ns, k := Nodes, |Nodes|;
      ListFacts(ns);
      if temp.next != null {
        temp.next.prev := temp.prev;
      }
      if temp.prev != null {
        temp.prev.next := temp.next;
      }
      if temp == tail {
        tail := temp.prev;
      }
      UnlinkLinked(ns, i);
      WithoutDistinct(ns, i);
      Nodes, Contents, Repr := Without(ns, i), Without(Contents, i), Repr - {temp};
    }

    /** deleteNode: unlink the first node holding key; nothing changes when there is none. */
    method DeleteNode(key: Word)
      requires Valid()
      modifies this, Repr
      ensures Valid() && Repr <= old(Repr)
      ensures Contents == Delete(old(Contents), key)
      ensures var i := Find(old(Contents), key);
        Nodes == if i == |old(Nodes)| then old(Nodes) else Without(old(Nodes), i)
    {
      var temp := head;
      if temp != null && temp.data == key {
        FindAt(Contents, key, 0);
        UnlinkHead();
        return;
      }
      ghost var i;
      temp, i := Search(key);
      if temp == null {
        return;
      }
      Unlink(temp, i);
    }

    /**
     * moveNodeToTop: the first node holding key is unlinked and relinked as
     * the head; nothing changes when the list is empty, the head holds key,
     * or no node does.
     */
    method MoveNodeToTop(key: Word)
      requires Valid()
      modifies this, Repr
      ensures Valid() && Repr == old(Repr)
      ensures Contents == MoveToTop(old(Contents), key)
      ensures var i := Find(old(Contents), key);
        Nodes == if i == |old(Nodes)| then old(Nodes) else [old(Nodes)[i]] + Without(old(Nodes), i)
    {
      var temp := head;
      if temp == null || temp.data == key {
        if temp != null {
          MoveToTopHead(Contents, key);
          FindAt(Contents, key, 0);
          assert [Nodes[0]] + Without(Nodes, 0) == Nodes;
        }
      } else {
        MoveBelowHead(key);
      }
    }

    /** Lines 144-176: the search below a head that does not hold key, then the move when it is found. */
    method MoveBelowHead(key: Word)
      requires Valid() && Nodes != [] && Contents[0] != key
      modifies this, Repr
      ensures Valid() && Repr == old(Repr)
      ensures var i := Find(old(Contents), key);
        && Contents == (if i == |old(Contents)| then old(Contents) else [old(Contents)[i]] + Without(old(Contents), i))
        && Nodes == (if i == |old(Nodes)| then old(Nodes) else [old(Nodes)[i]] + Without(old(Nodes), i))
    {
      var temp;
      ghost var i;
      temp, i := Search(key);
      if temp != null {
        Relink(temp, i);
      }
    }

    /** Lines 155-176: node i, not the head, is unlinked and linked again as the head. */
    method Relink(temp: Node, ghost i: nat)
      requires Valid() && 0 < i < |Nodes| && temp == Nodes[i]
      modifies this, Repr
      ensures Valid() && Repr == old(Repr)
      ensures Contents == [old(Contents)[i]] + Without(old(Contents), i)
      ensures Nodes == [temp] + Without(old(Nodes), i)
    {
      ghost var ns := Nodes;
      Unlink(temp, i);
      assert temp !in Repr by {
        WithoutDistinct(ns, i);
      }
      LinkFront(temp);
    }
  }

  lemma FindAt(q: seq<Word>, key: Word, i: nat)
    requires i <= |q|
    requires i < |q| ==> q[i] == key
    requires forall j :: 0 <= j < i ==> q[j] != key
    ensures Find(q, key) == i
  {
  }

  lemma WithoutDistinct<T>(s: seq<T>, i: nat)
    requires i < |s| && Distinct(s)
    ensures Distinct(Without(s, i))
    ensures forall j :: 0 <= j < |Without(s, i)| ==> Without(s, i)[j] != s[i]
  {
  }

  // ---------------------------------------------------------------------
  // The circular ring used by FIFO, CLOCK and ECLOCK
  // ---------------------------------------------------------------------

  /** The position after i on a ring of k positions. */
  function Succ(i: nat, k: nat): (j: nat)
    requires i < k
    ensures j < k
  {
    if i + 1 == k then 0 else i + 1
  }

  /** The position before i on a ring of k positions. */
  function Pred(i: nat, k: nat): (j: nat)
    requires i < k
    ensures j < k && Succ(j, k) == i
  {
    if i == 0 then k - 1 else i - 1
  }

  /** The node after position i of a ring. */
  function RingAfter(ns: seq<Node>, i: nat): Node
    requires i < |ns|
  {
    ns[Succ(i, |ns|)]
  }

  /** The node before position i of a ring. */
  function RingBefore(ns: seq<Node>, i: nat): Node
    requires i < |ns|
  {
    ns[Pred(i, |ns|)]
  }

  /** Every node's next is its successor and its prev its predecessor. */
  ghost predicate RingLinked(ns: seq<Node>)
    reads set i | 0 <= i < |ns| :: ns[i]
  {
    && (forall i {:trigger ns[i].next} :: 0 <= i < |ns| ==> ns[i].next == RingAfter(ns, i))
    && (forall i {:trigger ns[i].prev} :: 0 <= i < |ns| ==> ns[i].prev == RingBefore(ns, i))
  }

  lemma RingFacts(ns: seq<Node>)
    requires RingLinked(ns)
    ensures forall j {:trigger ns[j].next} :: 0 <= j < |ns| ==> ns[j].next == RingAfter(ns, j)
    ensures forall j {:trigger ns[j].prev} :: 0 <= j < |ns| ==> ns[j].prev == RingBefore(ns, j)
  {
  }

  lemma FactsRingLinked(ns: seq<Node>)
    requires forall j {:trigger ns[j].next} :: 0 <= j < |ns| ==> ns[j].next == RingAfter(ns, j)
    requires forall j {:trigger ns[j].prev} :: 0 <= j < |ns| ==> ns[j].prev == RingBefore(ns, j)
    ensures RingLinked(ns)
  {
  }

  /** Reading a linked ring from another position gives a linked ring. */
  lemma RotateLinked(ns: seq<Node>, p: nat)
    requires p < |ns| && RingLinked(ns)
    ensures RingLinked(Rotate(ns, p))
  {
    var k := |ns|;
    var r := Rotate(ns, p);
    forall j | 0 <= j < k
      ensures r[j].next == RingAfter(r, j) && r[j].prev == RingBefore(r, j)
    {
      var sj := if j < k - p then p + j else j - (k - p);
      assert r[j] == ns[sj];
      var sn := Succ(j, k);
      assert r[sn] == ns[Succ(sj, k)];
      var sp := Pred(j, k);
      assert r[sp] == ns[Pred(sj, k)];
    }
  }

  /** A node spliced in between the last and the first node of a linked ring gives a linked ring. */
  lemma RingConsLinked(n: Node, ns: seq<Node>)
    requires |ns| >= 1
    requires forall j :: 0 <= j < |ns| ==> ns[j] != n
    requires n.next == ns[0] && n.prev == ns[|ns| - 1]
    requires ns[0].prev == n && ns[|ns| - 1].next == n
    requires forall j {:trigger ns[j].next} :: 0 <= j < |ns| - 1 ==> ns[j].next == RingAfter(ns, j)
    requires forall j {:trigger ns[j].prev} :: 1 <= j < |ns| ==> ns[j].prev == RingBefore(ns, j)
    ensures RingLinked([n] + ns)
  {
    var r := [n] + ns;
    var k := |r|;
    forall j | 0 <= j < k
      ensures r[j].next == RingAfter(r, j) && r[j].prev == RingBefore(r, j)
    {
      if j > 0 {
        assert r[j] == ns[j - 1];
      }
    }
  }

  /**
   * The links of a ring after node i has been bypassed (its predecessor's
   * next and its successor's prev skip it) form a linked ring without it.
   */
  lemma WithoutLinked(ns: seq<Node>, i: nat)
    requires i < |ns| && |ns| >= 2
    requires forall j {:trigger ns[j].next} :: 0 <= j < |ns| && j != Pred(i, |ns|) ==> ns[j].next == RingAfter(ns, j)
    requires forall j {:trigger ns[j].prev} :: 0 <= j < |ns| && j != Succ(i, |ns|) ==> ns[j].prev == RingBefore(ns, j)
    requires ns[Pred(i, |ns|)].next == ns[Succ(i, |ns|)]
    requires ns[Succ(i, |ns|)].prev == ns[Pred(i, |ns|)]
    ensures RingLinked(Without(ns, i))
  {
    var k := |ns|;
    var r := Without(ns, i);
    forall j | 0 <= j < k - 1
      ensures r[j].next == RingAfter(r, j) && r[j].prev == RingBefore(r, j)
    {
      var sj := if j < i then j else j + 1;
      assert r[j] == ns[sj];
    }
  }

  class Ring {
    var head: Node?
    ghost var Nodes: seq<Node>
    ghost var Contents: seq<Word>
    ghost var Repr: set<Node>

    ghost predicate Valid()
      reads this, Repr
    {
      && (forall i :: 0 <= i < |Nodes| ==> Nodes[i] in Repr)
      && |Contents| == |Nodes|
      && Distinct(Nodes)
      && head == (if Nodes == [] then null else Nodes[0])
      && (forall i :: 0 <= i < |Nodes| ==> Nodes[i].data == Contents[i])
      && RingLinked(Nodes)
    }

    constructor ()
      ensures Valid() && Contents == [] && Repr == {}
    {
      head := null;
      Nodes, Contents, Repr := [], [], {};
    }

    /**
     * circularInsertNode: a fresh node holding item is spliced in between
     * the old head.prev and the old head, and becomes the head.
     */
    method CircularInsertNode(item: Word)
      requires Valid()
      modifies this, Repr
      ensures Valid()
      ensures Contents == [item] + old(Contents)
      ensures fresh(head) && Nodes == [head] + old(Nodes) && Repr == old(Repr) + {head}
    {
      ghost var ns, k := Nodes, |Nodes|;
      RingFacts(ns);
      var newNode := new Node(item);
      if head == null {
        newNode.next := newNode;
        newNode.prev := newNode;
        head := newNode;
        Nodes, Contents := [newNode], [item];
      } else {
        var last := head.prev;
        assert last == ns[k - 1];
        newNode.next := head;
        newNode.prev := last;
        head.prev := newNode;
        last.next := newNode;
        head := newNode;
        RingConsLinked(newNode, ns);
        Nodes, Contents := [newNode] + ns, [item] + Contents;
      }
      Repr := Repr + {newNode};
    }

    /**
     * circularDeleteNode: unlink the first node (from the head, following
     * next) holding key.  Removing the sole node empties the ring; removing
     * the head advances it to head.next.  Nothing changes when the ring is
     * empty or no node holds key.
     */
    method CircularDeleteNode(key: Word)
      requires Valid()
      modifies this, Repr
      ensures Valid() && Repr == old(Repr)
      ensures Contents == Delete(old(Contents), key)
      ensures var i := Find(old(Contents), key);
        Nodes == if i == |old(Nodes)| then old(Nodes) else Without(old(Nodes), i)
    {
      if head == null {
        return;
      }
      ghost var ns, k := Nodes, |Nodes|;
      RingFacts(ns);
      var temp := head;
      ghost var i: nat := 0;
      var found := temp.data == key;
      while !found && temp.next != head
        invariant i < k && temp == ns[i]
        invariant forall j :: 0 <= j < i ==> Contents[j] != key
        invariant found == (temp.data == key)
        decreases k - i
      {
        temp := temp.next;
        i := i + 1;
        found := temp.data == key;
      }
      if !found {
        assert i + 1 == k;
        FindAt(Contents, key, k);
        return;
      }
      FindAt(Contents, key, i);
      if temp == head && temp.next == temp {
        head := null;
        Nodes, Contents := [], [];
        return;
      } else if temp == head {
        head := temp.next;
      }
      Bypass(temp, ns, i);
      Nodes, Contents := Without(ns, i), Without(Contents, i);
      WithoutDistinct(ns, i);
    }
  }

  /** Splice node i out of a linked ring of at least two nodes. */
  method Bypass(temp: Node, ghost ns: seq<Node>, ghost i: nat)
    requires 2 <= |ns| && i < |ns| && temp == ns[i] && Distinct(ns) && RingLinked(ns)
    modifies set j | 0 <= j < |ns| :: ns[j]
    ensures forall j :: 0 <= j < |ns| ==> ns[j].data == old(ns[j].data)
    ensures RingLinked(Without(ns, i))
  {
    RingFacts(ns);
    temp.next.prev := temp.prev;
    temp.prev.next := temp.next;
    WithoutLinked(ns, i);
  }
}
