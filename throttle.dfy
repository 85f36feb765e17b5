/** The delayed request queue of lib/main.js (`createDelayedQueue`): requests wait in
    a queue, newest at the front and oldest at the back, and a single timer spaces
    them out. The oldest request's callback has run and the timer is waiting out the
    delay after it; when the timer fires that request leaves and the next one runs. */
module Throttle {
  import opened Common

  /** A callback, known by its identity; what it does is outside the model. */
  type Callback = nat

  /** A queued request: the callback that lets it proceed and the optional callback
      that cancels it. */
  datatype Entry = Entry(callback: Callback, clear: Option<Callback>)

  /** A callback invocation the queue makes. */
  datatype Event = Run(callback: Callback) | Cancel(clear: Callback)

  /** The cancel callbacks `clear` invokes for `q`, oldest entry (the back) first. */
  function CancelsFromBack(q: seq<Entry>): (r: seq<Event>)
    ensures |r| <= |q|
    ensures forall i :: 0 <= i < |r| ==> r[i].Cancel?
    decreases |q|
  {
    if q == [] then []
    else
      var last := q[|q| - 1];
      (if last.clear.Some? then [Cancel(last.clear.value)] else []) + CancelsFromBack(q[..|q| - 1])
  }

  /** Every present cancel callback is invoked, and only those. */
  lemma {:induction false} CancelsAreTheClearCallbacks(q: seq<Entry>)
    ensures forall c: Callback :: Cancel(c) in CancelsFromBack(q) <==> exists i :: 0 <= i < |q| && q[i].clear == Some(c)
    decreases |q|
  {
    if q != [] {
      var init := q[..|q| - 1];
      CancelsAreTheClearCallbacks(init);
      forall c: Callback ensures Cancel(c) in CancelsFromBack(q) <==> exists i :: 0 <= i < |q| && q[i].clear == Some(c) {
        if exists i :: 0 <= i < |init| && init[i].clear == Some(c) {
          var i :| 0 <= i < |init| && init[i].clear == Some(c);
          assert q[i].clear == Some(c);
        }
        if exists i :: 0 <= i < |q| && q[i].clear == Some(c) {
          var i :| 0 <= i < |q| && q[i].clear == Some(c);
          if i < |init| {
            assert init[i].clear == Some(c);
          }
        }
      }
    }
  }

  class DelayedQueue {
    /** The waiting requests, newest first. */
    var queue: seq<Entry>
    /** Whether `timerId` holds a pending timer. */
    var timerArmed: bool
    /** The delay between requests, handed to the timer. */
    const delay: int

    /** Every callback the queue has invoked, in order. */
    ghost var log: seq<Event>
    /** The enqueue number of each queued request, parallel to `queue`. */
    ghost var stamps: seq<nat>
    /** How many requests have been enqueued. */
    ghost var next: nat
    /** The enqueue numbers of the requests whose callback has run, in run order. */
    ghost var ran: seq<nat>

    /** Between calls the timer is pending exactly when requests wait; the queue holds
        requests in reverse enqueue order; callbacks have run in enqueue order; the
        oldest waiting request is the one that ran last and the others have not run. */
    ghost predicate Valid()
      reads this
    {
      && (timerArmed <==> queue != [])
      && |stamps| == |queue|
      && (forall i, j :: 0 <= i < j < |stamps| ==> stamps[i] > stamps[j])
      && (forall i :: 0 <= i < |stamps| ==> stamps[i] < next)
      && (forall i, j :: 0 <= i < j < |ran| ==> ran[i] < ran[j])
      && (forall i :: 0 <= i < |ran| ==> ran[i] < next)
      && (queue != [] ==> ran != [] && ran[|ran| - 1] == stamps[|stamps| - 1])
      && (ran != [] ==> forall i :: 0 <= i < |stamps| - 1 ==> stamps[i] > ran[|ran| - 1])
    }

    /** `createDelayedQueue(delay)`. */
    constructor (delay: int)
      ensures Valid()
      ensures queue == [] && !timerArmed && log == [] && this.delay == delay
    {
      queue := [];
      timerArmed := false;
      this.delay := delay;
      log := [];
      stamps := [];
      next := 0;
      ran := [];
    }

    /** `enqueue(callbackfn, clearfn)`: the request joins the front; into an empty queue
        its callback runs at once and the timer starts, otherwise nothing else
        happens. */
    method Enqueue(e: Entry)
      requires Valid()
      modifies this
      ensures Valid()
      ensures queue == [e] + old(queue)
      ensures old(queue) == [] ==> timerArmed && log == old(log) + [Run(e.callback)]
      ensures old(queue) != [] ==> timerArmed == old(timerArmed) && log == old(log)
      ensures ran == if old(queue) == [] then old(ran) + [old(next)] else old(ran)
    {
      queue := [e] + queue;
      stamps := [next] + stamps;
      next := next + 1;
      if |queue| == 1 {
        ConsumeNext(e.callback);
      }
    }

    /** `consumeNext(callbackfn)`: runs the callback of the request now at the back and
        starts the timer. */
    method ConsumeNext(callback: Callback)
      requires queue != [] && callback == queue[|queue| - 1].callback
      requires |stamps| == |queue|
      modifies this
      ensures queue == old(queue) && stamps == old(stamps) && next == old(next)
      ensures timerArmed
      ensures log == old(log) + [Run(callback)]
      ensures ran == old(ran) + [stamps[|stamps| - 1]]
    {
      log := log + [Run(callback)];
      ran := ran + [stamps[|stamps| - 1]];
      timerArmed := true;
    }

    /** `consume`, run when the timer fires: the oldest request leaves; if others wait,
        the next oldest runs and the timer starts again. */
    method TimerFired()
      requires Valid() && timerArmed
      modifies this
      ensures Valid()
      ensures |old(queue)| >= 1 && queue == old(queue)[..|old(queue)| - 1]
      ensures queue != [] ==> timerArmed && log == old(log) + [Run(queue[|queue| - 1].callback)]
      ensures queue == [] ==> !timerArmed && log == old(log)
      ensures ran == if queue != [] then old(ran) + [stamps[|stamps| - 1]] else old(ran)
      ensures stamps == old(stamps)[..|old(stamps)| - 1] && next == old(next)
    {
      timerArmed := false;
      queue := queue[..|queue| - 1];
      stamps := stamps[..|stamps| - 1];
      if |queue| != 0 {
        ConsumeNext(queue[|queue| - 1].callback);
      }
    }

    /** `clear()`: the timer stops and every request leaves, its cancel callback (if
        any) invoked oldest first, the running request's included; no request
        callback runs. */
    method Clear()
      requires Valid()
      modifies this
      ensures Valid()
      ensures queue == [] && !timerArmed
      ensures log == old(log) + CancelsFromBack(old(queue))
      ensures ran == old(ran)
    {
      timerArmed := false;
      while queue != []
        invariant !timerArmed && |stamps| == |queue|
        invariant log + CancelsFromBack(queue) == old(log) + CancelsFromBack(old(queue))
        invariant ran == old(ran) && next == old(next)
        invariant forall i, j :: 0 <= i < j < |stamps| ==> stamps[i] > stamps[j]
        invariant forall i :: 0 <= i < |stamps| ==> stamps[i] < next
        decreases |queue|
      {
        var last := queue[|queue| - 1];
        queue := queue[..|queue| - 1];
        stamps := stamps[..|stamps| - 1];
        if last.clear.Some? {
          log := log + [Cancel(last.clear.value)];
        }
      }
    }
  }
}
