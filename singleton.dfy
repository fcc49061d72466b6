/** The `Singleton<T>` of ruspiro-singleton (src/lib.rs): a value guarded by a spin lock.
    Only one core is modelled, so the lock is a "held" flag. A ghost history of lock
    events records every write to the value and the lock state it happened in. */
module RusPiroSingleton {

  import opened Wrappers

  /** What can happen to a singleton: its lock is taken, its value is replaced by a
      closure (from `before` to `after`), or its lock is released. Immutable `use_for`
      reads leave no event. */
  datatype Event<T> = Acquire | Mutate(before: T, after: T) | Release

  /** The lock state and the stored value at some point of a history. */
  datatype Snapshot<T> = Snapshot(held: bool, value: T)

  /** One event applied to a snapshot; None when the event is illegal: taking a held
      lock (a self-deadlock), releasing a free one, writing without the lock, or a write
      that did not start from the value the previous events left. */
  ghost function Step<T>(s: Snapshot<T>, e: Event<T>): Option<Snapshot<T>>
  {
    match e
    case Acquire => if s.held then None else Some(s.(held := true))
    case Mutate(before, after) =>
      if s.held && before == s.value then Some(s.(value := after)) else None
    case Release => if s.held then Some(s.(held := false)) else None
  }

  /** A history replayed from snapshot `s`: None if some event is illegal, otherwise the
      snapshot at the end. */
  ghost function Replay<T>(s: Snapshot<T>, events: seq<Event<T>>): Option<Snapshot<T>>
    decreases |events|
  {
    if events == [] then Some(s)
    else
      match Step(s, events[0])
      case None => None
      case Some(next) => Replay(next, events[1..])
  }

  /** Replaying a history in two parts gives the same result as replaying it whole. */
  lemma {:induction false} ReplayConcat<T>(s: Snapshot<T>, a: seq<Event<T>>, b: seq<Event<T>>)
    decreases |a|
    ensures Replay(s, a + b) ==
      match Replay(s, a)
      case None => None
      case Some(mid) => Replay(mid, b)
  {
    if a == [] {
      assert a + b == b;
    } else {
      assert (a + b)[0] == a[0];
      assert (a + b)[1..] == a[1..] + b;
      match Step(s, a[0])
      case None =>
      case Some(next) => ReplayConcat(next, a[1..], b);
    }
  }

  /** After any legal history that leaves the lock free with value `v`, a session that
      takes the lock, writes `w` over `v` and releases the lock is legal, and leaves the
      lock free with value `w`. */
  lemma SessionKeepsLockFree<T>(s: Snapshot<T>, events: seq<Event<T>>, v: T, w: T)
    requires Replay(s, events) == Some(Snapshot(false, v))
    ensures Replay(s, events + [Acquire, Mutate(v, w), Release]) == Some(Snapshot(false, w))
  {
    var session := [Acquire, Mutate(v, w), Release];
    ReplayConcat(s, events, session);
    assert session[1..] == [Mutate(v, w), Release];
    assert session[1..][1..] == [Release];
    assert Replay(Snapshot(true, w), [Release]) == Some(Snapshot(false, w));
  }

  /** A write made without the lock, or one that skips the current value, makes every
      longer history illegal: the history cannot recover from a lost update. */
  lemma {:induction false} IllegalStaysIllegal<T>(s: Snapshot<T>, events: seq<Event<T>>, more: seq<Event<T>>)
    requires Replay(s, events) == None
    ensures Replay(s, events + more) == None
  {
    ReplayConcat(s, events, more);
  }

  class Singleton<T> {
    var inner: T
    var locked: bool
    /** The value given to `new`. */
    ghost const initial: T
    ghost var events: seq<Event<T>>

    /** Replaying the history from the value given to `new`, with the lock free, is legal
        and ends in the current lock state and the current value: every write happened
        under the lock, and each one started from the value the previous one left. */
    ghost predicate Valid()
      reads this
    {
      Replay(Snapshot(false, initial), events) == Some(Snapshot(locked, inner))
    }

    /** `new`: stores the value unchanged, with the lock free and no history. */
    constructor (data: T)
      ensures Valid()
      ensures inner == data && initial == data && !locked && events == []
    {
      inner := data;
      initial := data;
      locked := false;
      events := [];
    }

    /** The write through the `&mut T` handed to the closure; only legal under the lock. */
    method Store(next: T)
      requires locked
      modifies this
      ensures locked && inner == next
      ensures events == old(events) + [Mutate(old(inner), next)]
    {
      events := events + [Mutate(inner, next)];
      inner := next;
    }

    /** `take_for`: takes the lock, lets the closure replace the value, releases the lock
        and returns the closure's result. */
    method TakeFor<R>(f: T -> (T, R)) returns (r: R)
      requires Valid() && !locked
      modifies this
      ensures Valid() && !locked
      ensures events == old(events) + [Acquire, Mutate(old(inner), f(old(inner)).0), Release]
      ensures inner == f(old(inner)).0 && r == f(old(inner)).1
    {
      SessionKeepsLockFree(Snapshot(false, initial), events, inner, f(inner).0);
      locked := true;
      events := events + [Acquire];
      var (next, result) := f(inner);
      Store(next);
      locked := false;
      events := events + [Release];
      assert events == old(events) + [Acquire, Mutate(old(inner), next), Release];
      r := result;
    }

    /** `use_for`: applies the closure to the value without touching the lock or the value. */
    method UseFor<R>(f: T -> R) returns (r: R)
      ensures r == f(inner)
    {
      r := f(inner);
    }
  }
}
