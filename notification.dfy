/**
 * `org.aanguita.jacuzzi.event.notification.NotificationReceiverHandler`: buffers the
 * events of one emitter for one receiver and hands them over in batches, either when
 * `limit` events have gathered or when the delay timer fires. The timer is modelled by
 * whether it is running and the delay it was last reset to; the single-thread executor
 * that calls the receiver is modelled by the list of batches submitted to it.
 */
module Notification {
  import opened Optional
  import opened Seqs

  /** One call submitted to the executor: `receiver.newEvent(emitterID, eventCount, nonGrouped, grouped)`. */
  datatype Batch<M> = Batch(emitterID: string, eventCount: int, nonGrouped: seq<seq<M>>, grouped: seq<M>)

  /** A delay below one millisecond means "no delay". */
  function NormalizeDelay(millis: Option<int>): (d: Option<int>)
    ensures d.Some? <==> millis.Some? && millis.value >= 1
    ensures d.Some? ==> d == millis
  {
    if millis.Some? && millis.value < 1 then None else millis
  }

  /** A limit below one becomes one, so every event could trigger a batch. */
  function NormalizeLimit(limit: int): (l: int)
    ensures l >= 1
    ensures limit >= 1 ==> l == limit
    ensures limit < 1 ==> l == 1
  {
    if limit < 1 then 1 else limit
  }

  /** The factor applied to the delay on each further event is clamped to [0, 1]. */
  function NormalizeFactor(f: real): (r: real)
    ensures 0.0 <= r <= 1.0
    ensures 0.0 <= f <= 1.0 ==> r == f
    ensures f > 1.0 ==> r == 1.0
    ensures f < 0.0 ==> r == 0.0
  {
    if f > 1.0 then 1.0 else if f < 0.0 then 0.0 else f
  }

  /** Java's `(long)` cast of a double: truncation toward zero. */
  function Trunc(x: real): (n: int)
    ensures x >= 0.0 ==> n as real <= x < n as real + 1.0
    ensures x < 0.0 ==> n as real - 1.0 < x <= n as real
  {
    if x >= 0.0 then x.Floor else -((-x).Floor)
  }

  /**
   * The delay the timer is reset to on an event that finds it already running, as
   * written: the cast applies to the factor alone, `(long) timeFactorAtEachEvent * millis`.
   */
  function ResetDelayAsWritten(factor: real, millis: int): int {
    Trunc(factor) * millis
  }

  /** The same delay with the cast applied to the product: the factor scales the delay. */
  function ResetDelay(factor: real, millis: int): int {
    Trunc(factor * millis as real)
  }

  /** As written, any factor below 1 resets a running timer to a zero delay. */
  lemma ResetDelayAsWrittenCollapses(factor: real, millis: int)
    requires 0.0 <= factor < 1.0
    ensures ResetDelayAsWritten(factor, millis) == 0
  {
    assert Trunc(factor) == 0;
  }

  /** Halving a one-second delay, as written, gives no delay at all. */
  lemma ResetDelayHalfSecond()
    ensures ResetDelayAsWritten(0.5, 1000) == 0
    ensures ResetDelay(0.5, 1000) == 500
  {
    ResetDelayAsWrittenCollapses(0.5, 1000);
    assert 0.5 * 1000 as real == 500.0;
  }

  /** The corrected delay lies between zero and the full delay, and a factor of 1 keeps it. */
  lemma ResetDelayScaled(factor: real, millis: int)
    requires 0.0 <= factor <= 1.0 && millis >= 1
    ensures 0 <= ResetDelay(factor, millis) <= millis
    ensures factor == 1.0 ==> ResetDelay(factor, millis) == millis
  {
    var m := millis as real;
    assert factor * m <= m by {
      assert (1.0 - factor) * m >= 0.0;
    }
    assert factor * m >= 0.0;
    var n := ResetDelay(factor, millis);
    assert n as real <= factor * m < n as real + 1.0;
    if factor == 1.0 {
      assert factor * m == m;
      assert (millis as real).Floor == millis;
    }
  }

  /** The events of the submitted batches, in submission order. */
  function Events<M>(bs: seq<Batch<M>>): seq<seq<M>> {
    if bs == [] then [] else Events(bs[..|bs| - 1]) + bs[|bs| - 1].nonGrouped
  }

  /** The grouped message lists of the submitted batches, one after the other. */
  function Messages<M>(bs: seq<Batch<M>>): seq<M> {
    if bs == [] then [] else Messages(bs[..|bs| - 1]) + bs[|bs| - 1].grouped
  }

  /** A batch as `notifyReceiver` submits it for this handler. */
  ghost predicate WellFormed<M>(b: Batch<M>, emitterID: string, limit: int) {
    && b.emitterID == emitterID
    && 1 <= b.eventCount <= limit
    && b.eventCount == |b.nonGrouped|
    && b.grouped == Flat(b.nonGrouped)
  }

  /** The grouped lists handed over carry exactly the messages of the events handed over, in order. */
  lemma {:induction false} MessagesAreFlatEvents<M>(bs: seq<Batch<M>>)
    requires forall b <- bs :: b.grouped == Flat(b.nonGrouped)
    ensures Messages(bs) == Flat(Events(bs))
    decreases |bs|
  {
    if bs != [] {
      var init := bs[..|bs| - 1];
      var b := bs[|bs| - 1];
      assert forall c <- init :: c in bs;
      MessagesAreFlatEvents(init);
      FlatAppend(Events(init), b.nonGrouped);
    }
  }

  lemma EventsAppend<M>(bs: seq<Batch<M>>, b: Batch<M>)
    ensures Events(bs + [b]) == Events(bs) + b.nonGrouped
  {
    assert (bs + [b])[..|bs|] == bs;
  }

  class NotificationReceiverHandler<M> {
    const emitterID: string
    /** None: events are only delivered in batches of `limit`. */
    const millis: Option<int>
    const timeFactor: real
    const limit: int

    /** The timer exists exactly when `millis` is present; created stopped. */
    var timerRunning: bool
    var timerDelay: int

    var eventCount: int
    var nonGroupedMessages: seq<seq<M>>
    var groupedMessages: seq<M>

    /** What has been submitted to the sequential executor, oldest first. */
    var submitted: seq<Batch<M>>

    /** Every event received since construction, oldest first. */
    ghost var received: seq<seq<M>>

    /**
     * The buffers agree with each other, and no event is lost or duplicated: the
     * events received are those handed over followed by those still buffered.
     */
    ghost predicate Buffered()
      reads this
    {
      && limit >= 1
      && (millis.Some? ==> millis.value >= 1)
      && 0.0 <= timeFactor <= 1.0
      && (millis.None? ==> !timerRunning)
      && 0 <= eventCount <= limit
      && eventCount == |nonGroupedMessages|
      && groupedMessages == Flat(nonGroupedMessages)
      && (forall b <- submitted :: WellFormed(b, emitterID, limit))
      && received == Events(submitted) + nonGroupedMessages
    }

    /** Between calls, fewer than `limit` events are buffered. */
    ghost predicate Valid()
      reads this
    {
      Buffered() && eventCount < limit
    }

    constructor(emitterID: string, millis: Option<int>, timeFactor: real, limit: int)
      ensures Valid()
      ensures this.emitterID == emitterID
      ensures this.millis == NormalizeDelay(millis)
      ensures this.timeFactor == NormalizeFactor(timeFactor)
      ensures this.limit == NormalizeLimit(limit)
      ensures eventCount == 0 && nonGroupedMessages == [] && groupedMessages == []
      ensures submitted == [] && received == [] && !timerRunning
    {
      this.emitterID := emitterID;
      this.millis := NormalizeDelay(millis);
      this.timeFactor := NormalizeFactor(timeFactor);
      this.limit := NormalizeLimit(limit);
      timerRunning := false;
      timerDelay := if millis.Some? then millis.value else 0;
      eventCount := 0;
      nonGroupedMessages := [];
      groupedMessages := [];
      submitted := [];
      received := [];
    }

    /**
     * Buffers one event. The event that reaches the limit flushes the buffers as one
     * batch and stops the timer; any other event (re)starts the timer, if there is one.
     */
    method NewEvent(messages: seq<M>)
      requires Valid()
      modifies this
      ensures Valid()
      ensures received == old(received) + [messages]
      ensures old(eventCount) + 1 == limit ==>
        && submitted == old(submitted) + [Batch(emitterID, limit, old(nonGroupedMessages) + [messages], old(groupedMessages) + messages)]
        && eventCount == 0 && nonGroupedMessages == [] && groupedMessages == []
        && !timerRunning && timerDelay == old(timerDelay)
      ensures old(eventCount) + 1 < limit ==>
        && submitted == old(submitted)
        && eventCount == old(eventCount) + 1
        && nonGroupedMessages == old(nonGroupedMessages) + [messages]
        && groupedMessages == old(groupedMessages) + messages
        && timerRunning == millis.Some?
        && timerDelay == (if millis.None? then old(timerDelay)
                          else if old(timerRunning) then ResetDelay(timeFactor, millis.value)
                          else millis.value)
    {
      // without a timer, nothing can have started one
      ghost var wasRunning := timerRunning;
      assert millis.None? ==> !wasRunning;
      eventCount := eventCount + 1;
      nonGroupedMessages := nonGroupedMessages + [messages];
      FlatAppend(old(nonGroupedMessages), [messages]);
      groupedMessages := groupedMessages + messages;
      received := received + [messages];
      assert received == Events(submitted) + nonGroupedMessages;
      if eventCount == limit {
        NotifyReceiver();
        assert timerRunning == wasRunning;
        StopTimer();
      } else if millis.Some? {
        SetTimer();
      }
    }

    /** Restarts the timer: with the full delay when stopped, with the scaled delay when running. */
    method SetTimer()
      requires millis.Some?
      modifies this`timerRunning, this`timerDelay
      ensures timerRunning
      ensures timerDelay == if old(timerRunning) then ResetDelay(timeFactor, millis.value) else millis.value
    {
      if !timerRunning {
        timerDelay := millis.value;
      } else {
        timerDelay := ResetDelay(timeFactor, millis.value);
      }
      timerRunning := true;
    }

    method StopTimer()
      modifies this`timerRunning
      ensures millis.Some? ==> !timerRunning
      ensures millis.None? ==> timerRunning == old(timerRunning)
    {
      if millis.Some? {
        timerRunning := false;
      }
    }

    /**
     * Submits the buffered events as one batch, with copies of both lists, and empties
     * the buffers; does nothing when no event is buffered.
     */
    method NotifyReceiver()
      requires Buffered()
      modifies this`eventCount, this`nonGroupedMessages, this`groupedMessages, this`submitted
      ensures Buffered() && eventCount == 0
      ensures old(eventCount) > 0 ==>
        submitted == old(submitted) + [Batch(emitterID, old(eventCount), old(nonGroupedMessages), old(groupedMessages))]
      ensures old(eventCount) == 0 ==>
        submitted == old(submitted) && nonGroupedMessages == old(nonGroupedMessages) && groupedMessages == old(groupedMessages)
    {
      if eventCount > 0 {
        var batch := Batch(emitterID, eventCount, nonGroupedMessages, groupedMessages);
        EventsAppend(submitted, batch);
        submitted := submitted + [batch];
        Reset();
      } else {
        assert nonGroupedMessages == [];
      }
    }

    method Reset()
      modifies this`eventCount, this`nonGroupedMessages, this`groupedMessages
      ensures eventCount == 0 && nonGroupedMessages == [] && groupedMessages == []
    {
      groupedMessages := [];
      nonGroupedMessages := [];
      eventCount := 0;
    }

    /** The timer fired: flush the buffered events unless the timer has been stopped meanwhile. */
    method WakeUp() returns (next: int)
      requires Valid()
      modifies this`eventCount, this`nonGroupedMessages, this`groupedMessages, this`submitted
      ensures Valid() && next == 0
      ensures old(timerRunning) && old(eventCount) > 0 ==>
        && submitted == old(submitted) + [Batch(emitterID, old(eventCount), old(nonGroupedMessages), old(groupedMessages))]
        && eventCount == 0 && nonGroupedMessages == [] && groupedMessages == []
      ensures !old(timerRunning) || old(eventCount) == 0 ==>
        && submitted == old(submitted) && eventCount == old(eventCount)
        && nonGroupedMessages == old(nonGroupedMessages) && groupedMessages == old(groupedMessages)
    {
      if timerRunning {
        NotifyReceiver();
      }
      next := 0;
    }
  }

  /** The batches handed over so far carry, concatenated, exactly the messages received minus those still buffered. */
  lemma HandedOver<M>(h: NotificationReceiverHandler<M>)
    requires h.Valid()
    ensures Messages(h.submitted) + h.groupedMessages == Flat(h.received)
    ensures forall b <- h.submitted :: 1 <= b.eventCount <= h.limit
  {
    assert forall b <- h.submitted :: WellFormed(b, h.emitterID, h.limit);
    MessagesAreFlatEvents(h.submitted);
    FlatAppend(Events(h.submitted), h.nonGroupedMessages);
  }
}
