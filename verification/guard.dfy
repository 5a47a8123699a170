/**
 * The in-flight connection counter: a shared `AtomicUsize`, and the
 * `ThreadGuard` each connection's thread holds, which adds one to the
 * counter when made and takes one away when dropped.
 *
 * Operations are taken one at a time; the atomic orderings and the thread
 * interleavings are not modelled.
 */
module Guard {

  /** `usize` arithmetic wraps modulo 2^64 in `fetch_add` and `fetch_sub`. */
  const UsizeModulus: nat := 0x1_0000_0000_0000_0000

  function WrappingInc(v: nat): nat
  {
    (v + 1) % UsizeModulus
  }

  function WrappingDec(v: nat): nat
  {
    (v + UsizeModulus - 1) % UsizeModulus
  }

  /** The shared `AtomicUsize`. */
  class AtomicCounter {
    var value: nat

    ghost predicate Valid()
      reads this
    {
      value < UsizeModulus
    }

    constructor (initial: nat)
      requires initial < UsizeModulus
      ensures Valid() && value == initial
    {
      value := initial;
    }

    /** `fetch_add(1)`: returns the old value. */
    method FetchAdd() returns (previous: nat)
      requires Valid()
      modifies this
      ensures Valid()
      ensures previous == old(value) && value == WrappingInc(old(value))
    {
      previous := value;
      value := WrappingInc(value);
    }

    /** `fetch_sub(1)`: returns the old value. */
    method FetchSub() returns (previous: nat)
      requires Valid()
      modifies this
      ensures Valid()
      ensures previous == old(value) && value == WrappingDec(old(value))
    {
      previous := value;
      value := WrappingDec(value);
    }
  }

  /** The guard a connection's thread holds while it handles the connection. */
  class ThreadGuard {
    const counter: AtomicCounter
    /** Set once the guard has been dropped; Rust drops an owned value exactly once. */
    ghost var dropped: bool

    /** `ThreadGuard::new`: counts the connection in. */
    constructor (counter: AtomicCounter)
      requires counter.Valid()
      modifies counter
      ensures this.counter == counter && !dropped
      ensures counter.Valid() && counter.value == WrappingInc(old(counter.value))
    {
      this.counter := counter;
      dropped := false;
      new;
      var _ := counter.FetchAdd();
    }

    /** `Drop::drop`: counts the connection out. */
    method Drop()
      requires !dropped && counter.Valid()
      modifies this, counter
      ensures dropped
      ensures counter.Valid() && counter.value == WrappingDec(old(counter.value))
    {
      var _ := counter.FetchSub();
      dropped := true;
    }
  }

  /** A connection's thread starts, or the `slot`-th of the running ones finishes. */
  datatype Event = Start | Finish(slot: nat)

  /** Each finish names a running connection (a guard is dropped only while it is alive). */
  predicate Possible(running: nat, events: seq<Event>)
    decreases |events|
  {
    events == [] ||
    match events[0]
    case Start => Possible(running + 1, events[1..])
    case Finish(slot) => slot < running && Possible(running - 1, events[1..])
  }

  /** How many connections are running after the events. */
  function Running(running: nat, events: seq<Event>): nat
    requires Possible(running, events)
    decreases |events|
  {
    if events == [] then running
    else match events[0]
      case Start => Running(running + 1, events[1..])
      case Finish(_) => Running(running - 1, events[1..])
  }

  /** The counter after the events, one `fetch_add` or `fetch_sub` each. */
  function CounterAfter(value: nat, events: seq<Event>): nat
    decreases |events|
  {
    if events == [] then value
    else match events[0]
      case Start => CounterAfter(WrappingInc(value), events[1..])
      case Finish(_) => CounterAfter(WrappingDec(value), events[1..])
  }

  lemma WrappingIncMod(x: nat)
    ensures WrappingInc(x % UsizeModulus) == (x + 1) % UsizeModulus
  {
  }

  lemma WrappingDecMod(x: nat)
    requires x > 0
    ensures WrappingDec(x % UsizeModulus) == (x - 1) % UsizeModulus
  {
  }

  /** The counter is the starting value plus the number of running connections, modulo 2^64. */
  lemma {:induction false} CounterCountsRunning(start: nat, running: nat, events: seq<Event>)
    requires Possible(running, events)
    ensures CounterAfter((start + running) % UsizeModulus, events)
            == (start + Running(running, events)) % UsizeModulus
    decreases |events|
  {
    if events != [] {
      match events[0]
      case Start =>
        WrappingIncMod(start + running);
        CounterCountsRunning(start, running + 1, events[1..]);
      case Finish(_) =>
        WrappingDecMod(start + running);
        CounterCountsRunning(start, running - 1, events[1..]);
    }
  }

  /** One event taken off the front: what `Possible`, `Running` and `CounterAfter` become. */
  lemma StepEvent(value: nat, running: nat, events: seq<Event>)
    requires events != [] && Possible(running, events)
    ensures events[0].Start? ==>
              && Possible(running + 1, events[1..])
              && Running(running, events) == Running(running + 1, events[1..])
              && CounterAfter(value, events) == CounterAfter(WrappingInc(value), events[1..])
    ensures events[0].Finish? ==>
              && events[0].slot < running && Possible(running - 1, events[1..])
              && Running(running, events) == Running(running - 1, events[1..])
              && CounterAfter(value, events) == CounterAfter(WrappingDec(value), events[1..])
  {
  }

  /** From a valid starting value and no connection running, the counter counts the running connections. */
  lemma CounterFromStart(start: nat, events: seq<Event>)
    requires start < UsizeModulus
    requires Possible(0, events)
    ensures CounterAfter(start, events) == (start + Running(0, events)) % UsizeModulus
  {
    CounterCountsRunning(start, 0, events);
    assert (start + 0) % UsizeModulus == start;
  }

  /** Once every connection has finished, the counter is back where it started. */
  lemma CounterBalanced(start: nat, events: seq<Event>)
    requires start < UsizeModulus
    requires Possible(0, events) && Running(0, events) == 0
    ensures CounterAfter(start, events) == start
  {
    CounterFromStart(start, events);
  }

  /** The guards of the running connections: distinct, not yet dropped, and all sharing `counter`. */
  ghost predicate Holding(live: seq<ThreadGuard>, counter: AtomicCounter)
    reads live
  {
    && (forall j :: 0 <= j < |live| ==> live[j].counter == counter && !live[j].dropped)
    && (forall j, k :: 0 <= j < k < |live| ==> live[j] != live[k])
  }

  /** A connection finishes: its guard is dropped and leaves the running ones. */
  method DropAt(live: seq<ThreadGuard>, slot: nat, counter: AtomicCounter) returns (rest: seq<ThreadGuard>)
    requires slot < |live| && counter.Valid() && Holding(live, counter)
    modifies live[slot], counter
    ensures rest == live[..slot] + live[slot + 1..]
    ensures counter.Valid() && counter.value == WrappingDec(old(counter.value))
    ensures Holding(rest, counter)
  {
    live[slot].Drop();
    rest := live[..slot] + live[slot + 1..];
    assert forall j :: 0 <= j < |rest| ==> rest[j] == live[if j < slot then j else j + 1];
  }

  /**
   * Connections starting and finishing one at a time: each start makes a
   * guard, each finish drops the guard of a running connection. Returns the
   * guards still alive.
   */
  method RunConnections(counter: AtomicCounter, events: seq<Event>) returns (live: seq<ThreadGuard>)
    requires counter.Valid() && Possible(0, events)
    modifies counter
    ensures counter.Valid() && counter.value == CounterAfter(old(counter.value), events)
    ensures |live| == Running(0, events)
    ensures counter.value == (old(counter.value) + |live|) % UsizeModulus
    ensures forall j :: 0 <= j < |live| ==> live[j].counter == counter && !live[j].dropped
  {
    live := [];
    var i := 0;
    while i < |events|
      invariant 0 <= i <= |events|
      invariant counter.Valid()
      invariant Possible(|live|, events[i..])
      invariant CounterAfter(counter.value, events[i..]) == CounterAfter(old(counter.value), events)
      invariant Running(|live|, events[i..]) == Running(0, events)
      invariant forall j :: 0 <= j < |live| ==> fresh(live[j])
      invariant Holding(live, counter)
    {
      assert events[i..][1..] == events[i + 1..];
      StepEvent(counter.value, |live|, events[i..]);
      if events[i].Start? {
        var guard := new ThreadGuard(counter);
        live := live + [guard];
      } else {
        live := DropAt(live, events[i].slot, counter);
      }
      i := i + 1;
    }
    assert events[i..] == [];
    CounterFromStart(old(counter.value), events);
  }
}
