/** The library steps of the sweep: the sort keys, bisection, and a min-heap of completed reads. */
module Sorting {
  import opened History

  function WriterSeq(op: Operation): real { op.writerSeq as real }

  function Invocation(op: Operation): real { op.invoke as real }

  ghost predicate Ascending(a: seq<int>) {
    forall i, j :: 0 <= i < j < |a| ==> a[i] <= a[j]
  }

  /** The number of elements below x, found by halving. */
  method BisectLeft(a: seq<int>, x: int) returns (r: nat)
    requires Ascending(a)
    ensures r <= |a|
    ensures forall i :: 0 <= i < r ==> a[i] < x
    ensures forall i :: r <= i < |a| ==> x <= a[i]
  {
    var lo, hi := 0, |a|;
    while lo < hi
      invariant 0 <= lo <= hi <= |a|
      invariant forall i :: 0 <= i < lo ==> a[i] < x
      invariant forall i :: hi <= i < |a| ==> x <= a[i]
    {
      var mid := (lo + hi) / 2;
      if a[mid] < x {
        lo := mid + 1;
      } else {
        hi := mid;
      }
    }
    r := lo;
  }

  /** A read in flight: when it returns, and the position it was given. */
  datatype Entry = Entry(response: int, opId: int, position: nat)

  /** The order of the source's tuples: by response, then operation id, then position. */
  predicate NotAfter(a: Entry, b: Entry) {
    || a.response < b.response
    || (a.response == b.response && a.opId < b.opId)
    || (a.response == b.response && a.opId == b.opId && a.position <= b.position)
  }

  /** The heap is kept in ascending order, so heap[0] is a least entry. */
  ghost predicate MinFirst(heap: seq<Entry>) {
    forall i, j :: 0 <= i < j < |heap| ==> NotAfter(heap[i], heap[j])
  }

  /** next holds the entries of heap and e. */
  ghost predicate Pushed(heap: seq<Entry>, e: Entry, next: seq<Entry>) {
    forall x :: x in next <==> x in heap || x == e
  }

  method HeapPush(heap: seq<Entry>, e: Entry) returns (r: seq<Entry>)
    requires MinFirst(heap)
    ensures MinFirst(r) && Pushed(heap, e, r)
    ensures multiset(r) == multiset(heap) + multiset{e}
  {
    var k := 0;
    while k < |heap| && NotAfter(heap[k], e)
      invariant 0 <= k <= |heap|
      invariant forall i :: 0 <= i < k ==> NotAfter(heap[i], e)
    {
      k := k + 1;
    }
    r := heap[..k] + [e] + heap[k..];
    PushedAt(heap, e, k);
  }

  lemma PushedAt(heap: seq<Entry>, e: Entry, k: nat)
    requires k <= |heap|
    ensures Pushed(heap, e, heap[..k] + [e] + heap[k..])
    ensures multiset(heap[..k] + [e] + heap[k..]) == multiset(heap) + multiset{e}
  {
    assert heap == heap[..k] + heap[k..];
  }

  /** Takes out an entry that no other entry comes before in the tuple order. */
  method HeapPop(heap: seq<Entry>) returns (e: Entry, r: seq<Entry>)
    requires MinFirst(heap) && heap != []
    ensures MinFirst(r) && Pushed(r, e, heap) && |r| < |heap|
    ensures e == heap[0] && multiset(heap) == multiset(r) + multiset{e}
    ensures forall x :: x in heap ==> NotAfter(e, x)
  {
    e, r := heap[0], heap[1..];
    assert heap == [e] + r;
  }
}
