/** The mode bits of a RedisSock and the queue of reply callbacks they go with: which queues the reply loop can
    walk without running off the end, and how the queue grows. */
module Callbacks {

  /** The mode bits; ATOMIC is both off. */
  datatype Mode = Mode(multi: bool, pipeline: bool)

  const ATOMIC := Mode(false, false)
  const MULTI := Mode(true, false)
  const PIPELINE := Mode(false, true)
  const PIPELINE_MULTI := Mode(true, true)

  /** What a reply handler does to the socket when the server answers '+': `redis_set_watch`,
      `redis_clear_watch`, or nothing. */
  datatype OnSuccess = NoEffect | SetWatch | ClearWatch

  /** A `fold_item`: a reply handler, or the NULL callback that stands for MULTI or EXEC. */
  datatype FoldItem = Handler(onSuccess: OnSuccess) | Marker

  function Markers(queue: seq<FoldItem>): nat {
    if queue == [] then 0 else (if queue[0].Marker? then 1 else 0) + Markers(queue[1..])
  }

  /** Every transaction that was opened in the queue is closed in it. */
  predicate Paired(queue: seq<FoldItem>) {
    Markers(queue) % 2 == 0
  }

  lemma {:induction false} MarkersAppend(a: seq<FoldItem>, b: seq<FoldItem>)
    ensures Markers(a + b) == Markers(a) + Markers(b)
  {
    if a == [] {
      assert a + b == b;
    } else {
      assert (a + b)[1..] == a[1..] + b;
      MarkersAppend(a[1..], b);
    }
  }

  /** Handlers in front of the first NULL callback. */
  function HandlerRun(queue: seq<FoldItem>): (n: nat)
    ensures n <= |queue|
    ensures forall i | 0 <= i < n :: queue[i].Handler?
    ensures n < |queue| ==> queue[n].Marker?
  {
    if queue == [] || queue[0].Marker? then 0 else 1 + HandlerRun(queue[1..])
  }

  lemma {:induction false} NoMarkersInRun(queue: seq<FoldItem>, n: nat)
    requires n <= |queue| && forall i | 0 <= i < n :: queue[i].Handler?
    ensures Markers(queue[n..]) == Markers(queue)
  {
    if n > 0 {
      NoMarkersInRun(queue[1..], n - 1);
      assert queue[1..][n - 1..] == queue[n..];
    } else {
      assert queue[0..] == queue;
    }
  }

  /** The scan for the closing marker runs off the end of the queue for some opening marker exactly when the
      number of markers is odd. */
  predicate ScanOverruns(queue: seq<FoldItem>)
    decreases |queue|
  {
    queue != [] &&
    if queue[0].Handler? then ScanOverruns(queue[1..])
    else
      var n := 1 + HandlerRun(queue[1..]);
      n == |queue| || ScanOverruns(queue[n + 1..])
  }

  lemma {:induction false} ScanOverrunsIffUnpaired(queue: seq<FoldItem>)
    ensures ScanOverruns(queue) <==> !Paired(queue)
    decreases |queue|
  {
    if queue != [] {
      if queue[0].Handler? {
        ScanOverrunsIffUnpaired(queue[1..]);
      } else {
        var run := HandlerRun(queue[1..]);
        NoMarkersInRun(queue[1..], run);
        assert queue[1..][run..] == queue[run + 1..];
        if run + 1 < |queue| {
          assert queue[run + 1..][1..] == queue[run + 2..];
          ScanOverrunsIffUnpaired(queue[run + 2..]);
        }
      }
    }
  }

  /** In a paired queue that starts with a marker, the handlers up to the marker that closes it. */
  function Closing(queue: seq<FoldItem>): (n: nat)
    requires queue != [] && queue[0].Marker? && Paired(queue)
    ensures n + 1 < |queue| && queue[n + 1].Marker? && Paired(queue[n + 2..])
    ensures forall i | 1 <= i <= n :: queue[i].Handler?
  {
    var n := HandlerRun(queue[1..]);
    NoMarkersInRun(queue[1..], n);
    assert queue[1..][n..] == queue[n + 1..];
    assert n + 1 < |queue| ==> queue[n + 1..][1..] == queue[n + 2..];
    n
  }

  lemma PairedTail(queue: seq<FoldItem>)
    requires queue != [] && queue[0].Handler? && Paired(queue)
    ensures Paired(queue[1..])
  {
  }

  const CALLBACKS_INIT_SIZE := 8
  const CALLBACKS_MAX_DOUBLE := 32768
  const CALLBACKS_ADD_SIZE := 4096

  /** `reply_callback`, its count and its capacity. */
  class CallbackList {
    var items: array?<FoldItem>
    var count: nat
    var capacity: nat

    ghost predicate Valid()
      reads this, items
    {
      && (items == null <==> capacity == 0)
      && (items != null ==> items.Length == capacity)
      && count <= capacity
    }

    ghost function Queue(): seq<FoldItem>
      reads this, items
      requires Valid()
    {
      if items == null then [] else items[..count]
    }

    constructor ()
      ensures Valid() && Queue() == []
    {
      items, count, capacity := null, 0, 0;
    }

    /** `redis_add_reply_callback`, with the caller's assignment to the new slot. */
    method Add(item: FoldItem)
      requires Valid()
      modifies this, items
      ensures Valid() && Queue() == old(Queue()) + [item]
      ensures old(count < capacity) ==> capacity == old(capacity)
      ensures old(count == capacity) ==>
                capacity == if old(capacity) == 0 then CALLBACKS_INIT_SIZE
                            else if old(capacity) < CALLBACKS_MAX_DOUBLE then 2 * old(capacity)
                            else old(capacity) + CALLBACKS_ADD_SIZE
      ensures items == old(items) || fresh(items)
    {
      if count == capacity {
        if capacity == 0 {
          capacity := CALLBACKS_INIT_SIZE;
        } else if capacity < CALLBACKS_MAX_DOUBLE {
          capacity := capacity * 2;
        } else {
          capacity := capacity + CALLBACKS_ADD_SIZE;
        }
        Realloc();
      }
      items[count] := item;
      count := count + 1;
      assert items[..count] == old(Queue()) + [item];
    }

    /** `erealloc` to the new capacity. */
    method Realloc()
      requires count < capacity && (items != null ==> count <= items.Length) && (items == null ==> count == 0)
      modifies this`items
      ensures items != null && fresh(items) && items.Length == capacity
      ensures items[..count] == if old(items) == null then [] else old(items[..count])
    {
      var grown := new FoldItem[capacity](_ => Marker);
      for i := 0 to count
        invariant items == old(items)
        invariant items != null ==> grown[..i] == items[..i]
        invariant items != null ==> items[..] == old(items[..])
      {
        grown[i] := items[i];
      }
      items := grown;
    }

    /** `redis_free_reply_callbacks`. */
    method Free()
      requires Valid()
      modifies this
      ensures Valid() && Queue() == [] && capacity == 0
    {
      items, count, capacity := null, 0, 0;
    }
  }
}
