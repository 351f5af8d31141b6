/** The queue's own methods, each as one goroutine runs it between the lock operations that shut the
    others out. They move the shared state by the same functions the step system uses. */
module QueueClass {
  import opened Prelude
  import opened QueueModel

  function Least(a: int, b: int): int { if a < b then a else b }

  class Queue {
    const cfg: Tunables
    var closed: bool
    var chClosed: bool
    var ch: seq<Event>
    var inFlight: int
    var dropped: int
    var written: int
    var writerErrors: int
    var batches: int
    var batchErrors: int
    /** The WriteBatch calls the writer has received. */
    var calls: seq<seq<Event>>

    ghost predicate Valid()
      reads this
    {
      closed == chClosed && |ch| <= cfg.capacity
    }

    function Snapshot(): Shared
      reads this
    {
      Shared(closed, chClosed, ch, inFlight, dropped, written, writerErrors, batches, batchErrors)
    }

    constructor (cfg: Config)
      ensures Valid() && Snapshot() == FRESH && calls == []
      ensures this.cfg == cfg.WithDefaults()
    {
      this.cfg := cfg.WithDefaults();
      closed, chClosed, ch, calls := false, false, [], [];
      inFlight, dropped, written, writerErrors, batches, batchErrors := 0, 0, 0, 0, 0, 0;
    }

    /** Under the read lock: refused once closed, dropped when full, otherwise sent. */
    method Enqueue(e: Event) returns (ok: bool)
      requires Valid()
      modifies this`ch, this`dropped
      ensures Valid()
      ensures ok <==> !closed && |old(ch)| < cfg.capacity
      ensures Snapshot() == if ok then old(Snapshot()).Send(e) else old(Snapshot()).Drop(1)
    {
      if closed {
        dropped := dropped + 1;
        return false;
      }
      if |ch| < cfg.capacity {
        ch := ch + [e];
        return true;
      }
      dropped := dropped + 1;
      return false;
    }

    /** Stop under the write lock: only the first call closes the channel. */
    method CloseInput() returns (first: bool)
      requires Valid()
      modifies this`closed, this`chClosed
      ensures Valid()
      ensures first <==> !old(closed)
      ensures Snapshot() == old(Snapshot()).(closed := true, chClosed := true)
    {
      if closed {
        return false;
      }
      closed := true;
      chClosed := true;
      return true;
    }

    /** Takes the front of the channel, up to maxBatch, stopping early when the timer fires or the
        channel ends; the timer is the select's choice once `fires` events have come after the first.
        Nothing taken is left out of the batch. Called where the first receive does not block. */
    method NextBatch(fires: nat) returns (batch: seq<Event>, more: bool)
      requires Valid() && (ch != [] || chClosed)
      modifies this`ch
      ensures Valid()
      ensures old(ch) == batch + ch && (!more ==> chClosed && ch == [])
      ensures |batch| == Least(cfg.maxBatch, Least(1 + fires, |old(ch)|))
      ensures more <==> batch != [] && (!chClosed || ch != [] || |batch| == cfg.maxBatch || |batch| == 1 + fires)
    {
      if ch == [] {
        return [], false;
      }
      batch := [ch[0]];
      ch := ch[1..];
      while |batch| < cfg.maxBatch
        invariant old(ch) == batch + ch && 1 <= |batch| <= cfg.maxBatch && |batch| <= 1 + fires
        decreases |ch|
      {
        // the select: a ready receive and the timer compete; an empty open channel leaves the timer
        if |batch| == 1 + fires {
          return batch, true;
        } else if ch != [] {
          batch := batch + [ch[0]];
          ch := ch[1..];
        } else if chClosed {
          return batch, false;
        } else {
          return batch, true;
        }
      }
      return batch, true;
    }

    /** Hands one batch to the writer, which answers `ok`; inFlight is back where it was. */
    method WriteBatch(batch: seq<Event>, ok: bool)
      requires Valid()
      modifies this`batches, this`inFlight, this`calls, this`written, this`writerErrors, this`batchErrors
      ensures Valid()
      ensures Snapshot() == old(Snapshot()).Begin(|batch|).Charge(|batch|, ok).Release(|batch|)
      ensures written == old(written) + if ok then |batch| else 0
      ensures writerErrors == old(writerErrors) + if ok then 0 else |batch|
      ensures batches == old(batches) + 1 && batchErrors == old(batchErrors) + if ok then 0 else 1
      ensures inFlight == old(inFlight)
      ensures calls == old(calls) + [batch]
    {
      batches := batches + 1;
      inFlight := inFlight + |batch|;
      calls := calls + [batch];
      if !ok {
        writerErrors := writerErrors + |batch|;
        batchErrors := batchErrors + 1;
      } else {
        written := written + |batch|;
      }
      inFlight := inFlight - |batch|;
    }

    /** A worker draining the closed queue alone: it ends, the channel is empty, and the batches handed
        over are the channel's content in order, cut into pieces of 1 to maxBatch, each charged once. */
    method Work()
      requires Valid() && chClosed
      modifies this`ch, this`batches, this`inFlight, this`calls, this`written, this`writerErrors, this`batchErrors
      ensures Valid() && ch == [] && inFlight == old(inFlight)
      ensures old(calls) <= calls
      ensures Flatten(calls) == Flatten(old(calls)) + old(ch)
      ensures forall k :: |old(calls)| <= k < |calls| ==> 1 <= |calls[k]| <= cfg.maxBatch
      ensures written + writerErrors == old(written + writerErrors) + |old(ch)|
      ensures batches == old(batches) + |calls| - |old(calls)|
    {
      var more := true;
      while more
        invariant Valid() && inFlight == old(inFlight)
        invariant old(calls) <= calls
        invariant Flatten(calls) + ch == Flatten(old(calls)) + old(ch)
        invariant forall k :: |old(calls)| <= k < |calls| ==> 1 <= |calls[k]| <= cfg.maxBatch
        invariant written + writerErrors + |ch| == old(written + writerErrors) + |old(ch)|
        invariant batches == old(batches) + |calls| - |old(calls)|
        invariant !more ==> ch == []
        decreases more, |ch|
      {
        ghost var before := calls;
        ghost var waiting := ch;
        var batch;
        var fires: nat := *;
        batch, more := NextBatch(fires);
        if |batch| > 0 {
          var ok: bool := *;
          WriteBatch(batch, ok);
          FlattenSnoc(before, batch);
          assert Flatten(before) + batch + ch == Flatten(before) + waiting;
        }
      }
    }
  }
}
