/**
 * The indexed binary min-heap of the pathfinder (queue/priority_queue.go). The heap is a
 * sequence of entries; the entry at slot i has its parent at slot (i-1)/2 and records its own
 * slot in `index`. The sift-up and sift-down steps of Go's container/heap are written here.
 */
module Queue {
  import opened Wrappers

  /** A heap entry: a vertex label, its priority and its slot (-1 once popped). */
  datatype VertexWithPriority<T> = VertexWithPriority(vertex: T, priority: real, index: int)
  {
    /** The priority: the second half of the pair the entry stands for. */
    function Priority(): (r: real)
      ensures Key(this) == (vertex, r)
    {
      priority
    }

    /** The vertex label: the first half of the pair the entry stands for. */
    function Vertex(): (r: T)
      ensures Key(this) == (r, priority)
    {
      vertex
    }
  }

  /** A new entry for the vertex with the priority; its slot is not yet known. */
  function NewVertexWithPriority<T>(vertex: T, priority: real): (r: VertexWithPriority<T>)
    ensures r.Vertex() == vertex && r.Priority() == priority && r.index == 0
  {
    VertexWithPriority(vertex, priority, 0)
  }

  /** The value handed to the heap's Push: an entry, or a value of some other type. */
  datatype Pushed<T> = Item(item: VertexWithPriority<T>) | Foreign

  /** What an entry stands for, without its slot. */
  function Key<T>(e: VertexWithPriority<T>): (T, real)
  {
    (e.vertex, e.priority)
  }

  /** The keys of a sequence of entries, slot by slot. */
  function Keys<T>(s: seq<VertexWithPriority<T>>): (r: seq<(T, real)>)
    ensures |r| == |s| && forall i | 0 <= i < |s| :: r[i] == Key(s[i])
  {
    seq(|s|, i requires 0 <= i < |s| => Key(s[i]))
  }

  /** The slot of the parent of slot i > 0. */
  function Parent(i: int): int
    requires i > 0
  {
    (i - 1) / 2
  }

  /** Every entry of the first `n` slots is no smaller than its parent. */
  ghost predicate HeapOrdered<T>(s: seq<VertexWithPriority<T>>, n: int)
    requires n <= |s|
  {
    forall i | 0 < i < n :: s[Parent(i)].priority <= s[i].priority
  }

  /** Every entry records its own slot. */
  ghost predicate Indexed<T>(s: seq<VertexWithPriority<T>>)
  {
    forall i | 0 <= i < |s| :: s[i].index == i
  }

  /** The root of a heap-ordered prefix is no larger than any entry of it. */
  lemma {:induction false} RootIsMin<T>(s: seq<VertexWithPriority<T>>, n: int, i: int)
    requires n <= |s| && HeapOrdered(s, n) && 0 <= i < n
    ensures s[0].priority <= s[i].priority
    decreases i
  {
    if i > 0 {
      RootIsMin(s, n, Parent(i));
    }
  }

  /** RootIsMin, for a prefix that may or may not be heap-ordered. */
  lemma RootIsLeast<T>(s: seq<VertexWithPriority<T>>, n: int, i: int)
    requires n <= |s| && 0 <= i < n
    ensures HeapOrdered(s, n) ==> s[0].priority <= s[i].priority
  {
    if HeapOrdered(s, n) {
      RootIsMin(s, n, i);
    }
  }

  /** The sequence with slots i and j exchanged and both entries' indices rewritten. */
  function Swapped<T>(s: seq<VertexWithPriority<T>>, i: int, j: int): (r: seq<VertexWithPriority<T>>)
    requires 0 <= i < |s| && 0 <= j < |s|
    ensures |r| == |s|
  {
    s[i := s[j]][j := s[i]][i := s[j].(index := i)][j := s[i].(index := j)]
  }

  /** Exchanging two slots exchanges their keys. */
  lemma SwappedKeys<T>(s: seq<VertexWithPriority<T>>, i: int, j: int)
    requires 0 <= i < |s| && 0 <= j < |s|
    ensures Keys(Swapped(s, i, j)) == Keys(s)[i := Key(s[j])][j := Key(s[i])]
  {
  }

  /** Exchanging two elements keeps the multiset of a sequence. */
  lemma SwapMultiset<K>(ks: seq<K>, i: int, j: int)
    requires 0 <= i < |ks| && 0 <= j < |ks|
    ensures multiset(ks[i := ks[j]][j := ks[i]]) == multiset(ks)
  {
  }

  /** Exchanging two slots keeps the multiset of keys and, on an indexed heap, the indices. */
  lemma SwapKeys<T>(s: seq<VertexWithPriority<T>>, i: int, j: int)
    requires 0 <= i < |s| && 0 <= j < |s|
    ensures multiset(Keys(Swapped(s, i, j))) == multiset(Keys(s))
    ensures Indexed(s) ==> Indexed(Swapped(s, i, j))
  {
    SwappedKeys(s, i, j);
    SwapMultiset(Keys(s), i, j);
  }

  /** Heap-ordered except that slot j may be smaller than its parent; its children are no smaller than its parent. */
  ghost predicate UpReady<T>(s: seq<VertexWithPriority<T>>, j: int)
    requires 0 <= j < |s|
  {
    && (forall i | 0 < i < |s| && i != j :: s[Parent(i)].priority <= s[i].priority)
    && (j > 0 ==> forall c | 0 < c < |s| && Parent(c) == j :: s[Parent(j)].priority <= s[c].priority)
  }

  /** Appending to a heap leaves it ready to sift the new last slot up. */
  lemma UpReadyAtEnd<T>(s: seq<VertexWithPriority<T>>)
    requires |s| > 0 && HeapOrdered(s[..|s| - 1], |s| - 1)
    ensures UpReady(s, |s| - 1)
  {
    var n := |s| - 1;
    forall i | 0 < i < |s| && i != n
      ensures s[Parent(i)].priority <= s[i].priority
    {
      assert s[..n][Parent(i)] == s[Parent(i)] && s[..n][i] == s[i];
    }
  }

  /** Swapping slot j with a larger parent moves the defect to the parent. */
  lemma UpStep<T>(s: seq<VertexWithPriority<T>>, j: int)
    requires 0 < j < |s| && UpReady(s, j) && s[j].priority < s[Parent(j)].priority
    ensures UpReady(Swapped(s, Parent(j), j), Parent(j))
  {
    var p := Parent(j);
    var t := Swapped(s, p, j);
    forall i | 0 < i < |t| && i != p
      ensures t[Parent(i)].priority <= t[i].priority
    {
      if i == j {
      } else if Parent(i) == j {
        assert t[i] == s[i];
      } else if Parent(i) == p {
        assert t[i] == s[i];
      }
    }
    if p > 0 {
      forall c | 0 < c < |t| && Parent(c) == p
        ensures t[Parent(p)].priority <= t[c].priority
      {
        assert s[Parent(p)].priority <= s[p].priority;
      }
    }
  }

  /** The first n slots are heap-ordered except that slot i may be larger than its children. */
  ghost predicate DownReady<T>(s: seq<VertexWithPriority<T>>, n: int, i: int)
    requires 0 <= i < n <= |s|
  {
    && (forall c | 0 < c < n && Parent(c) != i :: s[Parent(c)].priority <= s[c].priority)
    && (i > 0 ==> forall c | 0 < c < n && Parent(c) == i :: s[Parent(i)].priority <= s[c].priority)
  }

  /** After the root is replaced by the last entry, the rest of the heap is ready to sift down. */
  lemma DownReadyAtRoot<T>(s: seq<VertexWithPriority<T>>, n: int)
    requires 0 < n < |s| && HeapOrdered(s, |s|)
    ensures DownReady(Swapped(s, 0, n), n, 0)
  {
    var t := Swapped(s, 0, n);
    forall c | 0 < c < n && Parent(c) != 0
      ensures t[Parent(c)].priority <= t[c].priority
    {
      assert t[c] == s[c] && t[Parent(c)] == s[Parent(c)];
    }
  }

  /** When slot i has no smaller child, the first n slots are heap-ordered. */
  lemma DownDone<T>(s: seq<VertexWithPriority<T>>, n: int, i: int)
    requires 0 <= i < n <= |s| && DownReady(s, n, i)
    requires 2 * i + 1 < n ==> s[i].priority <= s[2 * i + 1].priority
    requires 2 * i + 2 < n ==> s[i].priority <= s[2 * i + 2].priority
    ensures HeapOrdered(s, n)
  {
    forall c | 0 < c < n && Parent(c) == i
      ensures s[i].priority <= s[c].priority
    {
      assert c == 2 * i + 1 || c == 2 * i + 2;
    }
  }

  /** Swapping slot i with its least child j, smaller than it, moves the defect to j. */
  lemma DownStep<T>(s: seq<VertexWithPriority<T>>, n: int, i: int, j: int)
    requires 0 <= i < n <= |s| && DownReady(s, n, i)
    requires (j == 2 * i + 1 || j == 2 * i + 2) && j < n && s[j].priority < s[i].priority
    requires 2 * i + 1 < n ==> s[j].priority <= s[2 * i + 1].priority
    requires 2 * i + 2 < n ==> s[j].priority <= s[2 * i + 2].priority
    ensures DownReady(Swapped(s, i, j), n, j)
    ensures Swapped(s, i, j)[n..] == s[n..]
  {
    var t := Swapped(s, i, j);
    assert Parent(j) == i;
    forall c | 0 < c < n && Parent(c) == i
      ensures s[j].priority <= s[c].priority
    {
      assert c == 2 * i + 1 || c == 2 * i + 2;
    }
    forall c | 0 < c < n && Parent(c) != j
      ensures t[Parent(c)].priority <= t[c].priority
    {
      if c == j {
      } else if Parent(c) == i {
        assert t[c] == s[c];
      } else if c == i {
        assert s[Parent(i)].priority <= s[j].priority;
      }
    }
  }

  /** Dropping the last slot of a sequence whose other slots form a heap leaves a heap. */
  lemma DropLast<T>(s: seq<VertexWithPriority<T>>)
    requires |s| > 0 && HeapOrdered(s, |s| - 1) && Indexed(s)
    ensures HeapOrdered(s[..|s| - 1], |s| - 1) && Indexed(s[..|s| - 1])
    ensures multiset(Keys(s)) == multiset(Keys(s[..|s| - 1])) + multiset{Key(s[|s| - 1])}
  {
    var n := |s| - 1;
    assert s == s[..n] + [s[n]];
    assert Keys(s) == Keys(s[..n]) + [Key(s[n])];
  }

  /**
   * When a heap's keys are rearranged so that its root's key comes last, dropping the last
   * slot removes exactly that key and leaves keys no smaller than it.
   */
  lemma PopOutcome<T>(s0: seq<VertexWithPriority<T>>, s: seq<VertexWithPriority<T>>)
    requires |s0| == |s| > 0 && HeapOrdered(s0, |s0|)
    requires multiset(Keys(s)) == multiset(Keys(s0)) && Key(s[|s| - 1]) == Key(s0[0])
    requires multiset(Keys(s)) == multiset(Keys(s[..|s| - 1])) + multiset{Key(s[|s| - 1])}
    ensures Key(s[|s| - 1]) in multiset(Keys(s0))
    ensures multiset(Keys(s[..|s| - 1])) == multiset(Keys(s0)) - multiset{Key(s[|s| - 1])}
    ensures forall k | k in multiset(Keys(s[..|s| - 1])) :: s[|s| - 1].priority <= k.1
  {
    PeekIsMin(s0);
  }

  /** The slice-backed min-heap. */
  class VertexPriorityQueue<T> {
    var pq: seq<VertexWithPriority<T>>

    /** Heap order and slot indices. */
    ghost predicate Valid()
      reads this
    {
      HeapOrdered(pq, |pq|) && Indexed(pq)
    }

    /** The multiset of (vertex, priority) pairs held. */
    ghost function Contents(): multiset<(T, real)>
      reads this
    {
      multiset(Keys(pq))
    }

    /** A new queue is empty. */
    constructor ()
      ensures pq == [] && Valid()
    {
      pq := [];
    }

    /** The number of entries. */
    function Len(): (r: nat)
      reads this
      ensures r == |Contents()|
    {
      |pq|
    }

    /**
     * The entry in slot i sorts before the one in slot j: a strict order, under which, in a
     * heap-ordered queue, no entry sorts before its parent or before the root.
     */
    function Less(i: int, j: int): (r: bool)
      reads this
      requires 0 <= i < |pq| && 0 <= j < |pq|
      ensures r <==> pq[i].priority < pq[j].priority
      ensures r ==> !(pq[j].priority < pq[i].priority)
      ensures HeapOrdered(pq, |pq|) && i > 0 && j == Parent(i) ==> !r
      ensures HeapOrdered(pq, |pq|) && j == 0 ==> !r
    {
      RootIsLeast(pq, |pq|, i);
      pq[i].priority < pq[j].priority
    }

    /** Exchanges slots i and j and rewrites both entries' indices. */
    method Swap(i: int, j: int)
      requires 0 <= i < |pq| && 0 <= j < |pq|
      modifies this
      ensures pq == Swapped(old(pq), i, j)
    {
      var a, b := pq[i], pq[j];
      pq := pq[i := b][j := a];
      pq := pq[i := pq[i].(index := i)];
      pq := pq[j := pq[j].(index := j)];
    }

    /** Appends an entry, recording its slot; a value of another type is ignored. */
    method Append(x: Pushed<T>)
      modifies this
      ensures x.Foreign? ==> pq == old(pq)
      ensures x.Item? ==> pq == old(pq) + [x.item.(index := |old(pq)|)]
    {
      if x.Foreign? {
        return;
      }
      var n := |pq|;
      pq := pq + [x.item.(index := n)];
    }

    /** Removes the last entry and returns it with its index set to -1. */
    method RemoveLast() returns (item: VertexWithPriority<T>)
      requires |pq| > 0
      modifies this
      ensures pq == old(pq)[..|old(pq)| - 1]
      ensures item == old(pq)[|old(pq)| - 1].(index := -1)
    {
      var n := |pq|;
      item := pq[n - 1];
      item := item.(index := -1);
      pq := pq[..n - 1];
    }

    /** Moves the entry in slot j up until its parent is no larger. */
    method SiftUp(j0: int)
      requires 0 <= j0 < |pq| && Indexed(pq) && UpReady(pq, j0)
      modifies this
      ensures |pq| == old(|pq|) && Valid()
      ensures multiset(Keys(pq)) == multiset(Keys(old(pq)))
    {
      var j := j0;
      while j > 0 && Less(j, Parent(j))
        invariant 0 <= j < |pq| == old(|pq|) && Indexed(pq) && UpReady(pq, j)
        invariant multiset(Keys(pq)) == multiset(Keys(old(pq)))
        decreases j
      {
        var p := Parent(j);
        UpStep(pq, j);
        SwapKeys(pq, p, j);
        Swap(p, j);
        j := p;
      }
    }

    /** The child of slot i within the first n slots with the least priority, the left one on a tie. */
    method LeastChild(i: int, n: int) returns (j: int)
      requires 0 <= i && 2 * i + 1 < n <= |pq|
      ensures j == 2 * i + 1 || j == 2 * i + 2
      ensures j < n
      ensures pq[j].priority <= pq[2 * i + 1].priority
      ensures 2 * i + 2 < n ==> pq[j].priority <= pq[2 * i + 2].priority
      ensures j == 2 * i + 2 ==> pq[j].priority < pq[2 * i + 1].priority
    {
      j := 2 * i + 1;
      if j + 1 < n && Less(j + 1, j) {
        j := j + 1;
      }
    }

    /**
     * One step of sifting down within the first n slots: swaps slot i with its least child
     * when that child is smaller and returns the child's slot, or returns i when no child is.
     */
    method SiftDownStep(i: int, n: int) returns (next: int)
      requires 0 <= i < n <= |pq| && Indexed(pq) && DownReady(pq, n, i)
      modifies this
      ensures next == i ==> pq == old(pq) && HeapOrdered(pq, n)
      ensures next != i ==> i < next < n && |pq| == old(|pq|) && Indexed(pq) && DownReady(pq, n, next)
      ensures next != i ==> pq[n..] == old(pq)[n..] && multiset(Keys(pq)) == multiset(Keys(old(pq)))
    {
      if 2 * i + 1 >= n {
        DownDone(pq, n, i);
        return i;
      }
      var j := LeastChild(i, n);
      if !Less(j, i) {
        DownDone(pq, n, i);
        return i;
      }
      DownStep(pq, n, i, j);
      SwapKeys(pq, i, j);
      Swap(i, j);
      return j;
    }

    /** Moves the entry in slot i0 down within the first n slots until no child is smaller. */
    method SiftDown(i0: int, n: int)
      requires 0 <= i0 < n <= |pq| && Indexed(pq) && DownReady(pq, n, i0)
      modifies this
      ensures |pq| == old(|pq|) && HeapOrdered(pq, n) && Indexed(pq)
      ensures pq[n..] == old(pq)[n..]
      ensures multiset(Keys(pq)) == multiset(Keys(old(pq)))
    {
      var i := i0;
      while true
        invariant 0 <= i < n <= |pq| == old(|pq|) && Indexed(pq) && DownReady(pq, n, i)
        invariant pq[n..] == old(pq)[n..]
        invariant multiset(Keys(pq)) == multiset(Keys(old(pq)))
        decreases n - i
      {
        var next := SiftDownStep(i, n);
        if next == i {
          break;
        }
        i := next;
      }
    }

    /** Adds an entry; the queue gains exactly its (vertex, priority) pair. */
    method Push(x: Pushed<T>)
      requires Valid()
      modifies this
      ensures Valid()
      ensures x.Foreign? ==> Contents() == old(Contents())
      ensures x.Item? ==> Contents() == old(Contents()) + multiset{Key(x.item)}
      ensures |pq| == old(|pq|) + (if x.Item? then 1 else 0)
    {
      Append(x);
      if |pq| > 0 {
        if x.Item? {
          assert Keys(pq) == Keys(old(pq)) + [Key(x.item)];
        }
        UpReadyAtEnd(pq);
        SiftUp(|pq| - 1);
      }
    }

    /**
     * Removes and returns an entry of least priority, with its index set to -1; every entry
     * left has a priority at least as large. The queue must not be empty.
     */
    method Pop() returns (out: VertexWithPriority<T>)
      requires Valid() && |pq| > 0
      modifies this
      ensures Valid()
      ensures out.index == -1
      ensures Key(out) in old(Contents())
      ensures Contents() == old(Contents()) - multiset{Key(out)}
      ensures |pq| == old(|pq|) - 1
      ensures forall k | k in Contents() :: out.priority <= k.1
      ensures Key(out) == Key(old(pq)[0])
    {
      ghost var s0 := pq;
      RootToEnd();
      DropLast(pq);
      PopOutcome(s0, pq);
      out := RemoveLast();
    }

    /**
     * Swaps the root with the last slot and sifts the new root down within the other slots,
     * the first half of the heap's Pop.
     */
    method RootToEnd()
      requires Valid() && |pq| > 0
      modifies this
      ensures |pq| == old(|pq|) && HeapOrdered(pq, |pq| - 1) && Indexed(pq)
      ensures multiset(Keys(pq)) == multiset(Keys(old(pq)))
      ensures Key(pq[|pq| - 1]) == Key(old(pq)[0])
    {
      var n := |pq| - 1;
      SwapKeys(pq, 0, n);
      if n > 0 {
        DownReadyAtRoot(pq, n);
      }
      Swap(0, n);
      ghost var root := pq[n];
      if n > 0 {
        SiftDown(0, n);
        assert pq[n] == pq[n..][0] == root;
      }
    }

    /** The entry in slot 0, of least priority, or None when the queue is empty. */
    function Peek(): (r: Option<VertexWithPriority<T>>)
      reads this
      requires Valid()
      ensures r.None? <==> Len() == 0
      ensures r.Some? ==> r.value == pq[0]
      ensures r.Some? ==> Key(r.value) in Contents()
      ensures r.Some? ==> forall k | k in Contents() :: r.value.priority <= k.1
    {
      if |pq| > 0 then
        PeekIsMin(pq);
        Some(pq[0])
      else None
    }
  }

  /** The first entry of a heap has the least priority of all its keys. */
  lemma PeekIsMin<T>(s: seq<VertexWithPriority<T>>)
    requires |s| > 0 && HeapOrdered(s, |s|)
    ensures Key(s[0]) in multiset(Keys(s))
    ensures forall k | k in multiset(Keys(s)) :: s[0].priority <= k.1
  {
    assert Keys(s)[0] == Key(s[0]);
    forall k | k in multiset(Keys(s))
      ensures s[0].priority <= k.1
    {
      var i :| 0 <= i < |s| && Keys(s)[i] == k;
      RootIsMin(s, |s|, i);
    }
  }
}
