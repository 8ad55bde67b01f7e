/** The listener list both controllers keep: `subscribe` appends a listener
    and `notifyListeners` calls every registered listener, synchronously and
    in registration order. A listener is represented by a handle, and calling
    it is recorded by appending its handle to a log, so that "notified once"
    and "not notified" can be stated. */
module Notify {

  /** A subscribed callback, identified by a handle. */
  type Listener = nat

  class Listeners {
    /** The subscribed listeners, in subscription order. */
    var registered: seq<Listener>
    /** Every call made to a listener so far, in order. */
    var calls: seq<Listener>
    /** How many times `notifyListeners` has run. */
    var rounds: nat

    constructor ()
      ensures registered == [] && calls == [] && rounds == 0
    {
      registered := [];
      calls := [];
      rounds := 0;
    }

    /** `this.listeners.push(listener)` */
    method Subscribe(l: Listener)
      modifies this
      ensures registered == old(registered) + [l]
      ensures calls == old(calls) && rounds == old(rounds)
    {
      registered := registered + [l];
    }

    /** `this.listeners.forEach(listener => listener())`: one round that calls
        each registered listener exactly once, in registration order. */
    method NotifyAll()
      modifies this
      ensures NotifiedOnce(this)
    {
      var i := 0;
      while i < |registered|
        invariant 0 <= i <= |registered|
        invariant registered == old(registered)
        invariant calls == old(calls) + registered[..i]
        invariant rounds == old(rounds)
      {
        calls := calls + [registered[i]];
        i := i + 1;
      }
      assert registered[..i] == registered;
      rounds := rounds + 1;
    }
  }

  /** Between the two states `l` ran exactly one notification round: every
      registered listener was called once, in order, and nothing else changed. */
  twostate predicate NotifiedOnce(l: Listeners)
    reads l
  {
    && l.registered == old(l.registered)
    && l.calls == old(l.calls) + l.registered
    && l.rounds == old(l.rounds) + 1
  }

  /** The number of calls `h` has received in a log. */
  function CallsTo(calls: seq<Listener>, h: Listener): (n: nat)
    ensures n <= |calls|
    ensures n == 0 <==> h !in calls
  {
    if calls == [] then 0
    else (if calls[0] == h then 1 else 0) + CallsTo(calls[1..], h)
  }

  /** Counting calls over two logs joined together adds up; so a round, which
      appends `registered` to the log, gives every listener as many calls as
      it has subscriptions and none to a listener that is not subscribed. */
  lemma {:induction false} CallsToAppend(a: seq<Listener>, b: seq<Listener>, h: Listener)
    ensures CallsTo(a + b, h) == CallsTo(a, h) + CallsTo(b, h)
  {
    if a == [] {
      assert a + b == b;
    } else {
      assert (a + b)[1..] == a[1..] + b;
      CallsToAppend(a[1..], b, h);
    }
  }
}
