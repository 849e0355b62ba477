/** The batch plan of the parallel downloads: a queue longer than five is cut
    into consecutive slices of five, each planned again, and a queue of at
    most five runs as one batch. */
module Batching {

  /** The batches the queue is run in. */
  function Batches<T>(q: seq<T>): seq<seq<T>>
    decreases |q|, 1, 0
  {
    if |q| > 5 then SlicesFrom(q, 0) else [q]
  }

  /** `for i in range(start, len(q), 5)`: the plans of q[i:i+5]. */
  function SlicesFrom<T>(q: seq<T>, start: nat): seq<seq<T>>
    requires |q| > 5
    decreases |q|, 0, |q| - start
  {
    if start >= |q| then []
    else
      var stop := if start + 5 <= |q| then start + 5 else |q|;
      Batches(q[start..stop]) + SlicesFrom(q, start + 5)
  }

  function Flatten<T>(bs: seq<seq<T>>): seq<T> {
    if bs == [] then [] else bs[0] + Flatten(bs[1..])
  }

  lemma {:induction false} FlattenAppend<T>(a: seq<seq<T>>, b: seq<seq<T>>)
    ensures Flatten(a + b) == Flatten(a) + Flatten(b)
  {
    if a != [] {
      FlattenAppend(a[1..], b);
      assert (a + b)[1..] == a[1..] + b;
    } else {
      assert a + b == b;
    }
  }

  /** The slices from `start` on are the queue's tail cut into runs of five:
      all but the last hold exactly five items and none is empty. */
  lemma {:induction false} SlicesFromSpec<T>(q: seq<T>, start: nat)
    requires |q| > 5 && start <= |q|
    ensures Flatten(SlicesFrom(q, start)) == q[start..]
    ensures forall k :: 0 <= k < |SlicesFrom(q, start)| ==>
      0 < |SlicesFrom(q, start)[k]| <= 5
    ensures forall k :: 0 <= k < |SlicesFrom(q, start)| - 1 ==> |SlicesFrom(q, start)[k]| == 5
    decreases |q| - start
  {
    if start < |q| {
      var stop := if start + 5 <= |q| then start + 5 else |q|;
      var head := q[start..stop];
      assert Batches(head) == [head];
      if start + 5 <= |q| {
        SlicesFromSpec(q, start + 5);
        FlattenAppend([head], SlicesFrom(q, start + 5));
        assert q[start..] == head + q[start + 5..];
      } else {
        assert SlicesFrom(q, start + 5) == [];
        assert SlicesFrom(q, start) == [head];
      }
    }
  }

  /** Run in order, the batches give back the queue: every item is scheduled
      exactly once and in its place; no batch holds more than five items. */
  lemma BatchesSpec<T>(q: seq<T>)
    ensures Flatten(Batches(q)) == q
    ensures forall k :: 0 <= k < |Batches(q)| ==> |Batches(q)[k]| <= 5
    ensures |q| > 5 ==> forall k :: 0 <= k < |Batches(q)| ==> |Batches(q)[k]| > 0
    ensures |q| > 5 ==> forall k :: 0 <= k < |Batches(q)| - 1 ==> |Batches(q)[k]| == 5
  {
    if |q| > 5 {
      SlicesFromSpec(q, 0);
      assert q[0..] == q;
    } else {
      assert Flatten([q]) == q + Flatten([]);
    }
  }
}
