/** Lazily initialised value of ruspiro-singleton (src/lazy.rs).
    Only one core is modelled, so the spin lock is a "held" flag: acquiring a held lock
    would spin forever and is excluded by a precondition. A ghost counter records how
    often the initializer has been called. */
module Lazy {

  import opened Wrappers

  /** `Result<(), T>` as returned by `set`: a rejected value is handed back in `Err`. */
  datatype SetResult<T> = Ok | Err(rejected: T)

  /** The state of a LazyValue: the slot, the initializer, the lock flag and the
      number of times the initializer has run. */
  datatype Cell<T> = Cell(inner: Option<T>, init: Option<() -> T>, locked: bool, initCalls: nat)

  /** What every reachable cell satisfies. An empty slot always has an initializer,
      which is what makes the `unwrap`s of `init`, `get` and `get_mut` safe; the
      initializer has run at most once, and not at all while the slot is empty. */
  ghost predicate Inv<T>(c: Cell<T>)
  {
    && (c.inner.Some? || c.init.Some?)
    && c.initCalls <= 1
    && (c.inner.None? ==> c.initCalls == 0)
  }

  /** `set`: an occupied slot is never overwritten and the value is handed back;
      an empty slot receives the value and nothing else changes. */
  function SetStep<T>(c: Cell<T>, value: T): (r: (Cell<T>, SetResult<T>))
    ensures r.0.inner.Some?
    ensures r.1.Err? <==> c.inner.Some?
    ensures c.inner.Some? ==> r.0 == c && r.1 == Err(value)
    ensures c.inner.None? ==> r.0.inner == Some(value) && r.0.(inner := None) == c
    ensures Inv(c) ==> Inv(r.0)
  {
    if c.inner.Some? then (c, Err(value))
    else (c.(inner := Some(value)), Ok)
  }

  /** `init`: take the lock, re-check the slot, call the initializer and `set` its
      result only if the slot is still empty, release the lock. */
  function InitStep<T>(c: Cell<T>): (r: Cell<T>)
    requires Inv(c) && !c.locked
    ensures Inv(r) && !r.locked && r.inner.Some?
    ensures c.inner.Some? ==> r == c
    ensures c.inner.None? ==> r.initCalls == c.initCalls + 1
    ensures c.inner.None? ==> r == c.(inner := Some(c.init.value()), initCalls := 1)
  {
    var held := c.(locked := true);
    var done :=
      if held.inner.None? then
        var value := held.init.value();
        var (stored, outcome) := SetStep(held.(initCalls := held.initCalls + 1), value);
        // the "LazyValue initialized twice" assertion cannot fail
        assert outcome == Ok;
        stored
      else
        held;
    done.(locked := false)
  }

  /** `get` and `get_mut`: the value is returned from a populated slot without touching
      the lock; an empty slot is initialised first, and the value is then always present. */
  function AccessStep<T>(c: Cell<T>): (r: (Cell<T>, T))
    requires Inv(c) && (c.inner.None? ==> !c.locked)
    ensures Inv(r.0) && r.0.inner == Some(r.1) && r.0.locked == c.locked
    ensures c.inner.Some? ==> r.0 == c && r.1 == c.inner.value
    ensures c.inner.None? ==> r.0 == InitStep(c) && r.1 == c.init.value()
  {
    match c.inner
    case Some(v) => (c, v)
    case None =>
      var after := InitStep(c);
      (after, after.inner.value)
  }

  /** A call of one of the two public accessors. `get_mut` hands out a mutable reference;
      `update` is what the caller then writes through it, as a function of the value read. */
  datatype Access<!T> = Get | GetMut(update: T -> T)

  /** Holds of a run that only reads: no `get_mut` writes. */
  ghost predicate ReadOnly<T>(calls: seq<Access<T>>)
  {
    forall i :: 0 <= i < |calls| ==> calls[i].Get?
  }

  /** A run of accessor calls on one core, with the lock free between calls:
      the final cell and the values the calls returned, in order. */
  function Run<T>(c: Cell<T>, calls: seq<Access<T>>): (r: (Cell<T>, seq<T>))
    requires Inv(c) && !c.locked
    ensures Inv(r.0) && !r.0.locked && |r.1| == |calls|
    ensures r.0.init == c.init
    ensures c.inner.Some? ==> r.0.inner.Some? && r.0.initCalls == c.initCalls
    decreases |calls|
  {
    if calls == [] then (c, [])
    else
      var (next, v) := AccessStep(c);
      var written := if calls[0].GetMut? then next.(inner := Some(calls[0].update(v))) else next;
      var (final, rest) := Run(written, calls[1..]);
      (final, [v] + rest)
  }

  /** Running two runs one after the other is running their concatenation. */
  lemma {:induction false} RunConcat<T>(c: Cell<T>, a: seq<Access<T>>, b: seq<Access<T>>)
    requires Inv(c) && !c.locked
    decreases |a|
    ensures Run(c, a + b).0 == Run(Run(c, a).0, b).0
    ensures Run(c, a + b).1 == Run(c, a).1 + Run(Run(c, a).0, b).1
  {
    if a == [] {
      assert a + b == b;
    } else {
      assert (a + b)[0] == a[0];
      assert (a + b)[1..] == a[1..] + b;
      var (next, v) := AccessStep(c);
      var written := if a[0].GetMut? then next.(inner := Some(a[0].update(v))) else next;
      RunConcat(written, a[1..], b);
    }
  }

  /** Reads of a populated cell change nothing and all return the stored value. */
  lemma {:induction false} RunOnPopulated<T>(c: Cell<T>, calls: seq<Access<T>>)
    requires Inv(c) && !c.locked && c.inner.Some? && ReadOnly(calls)
    ensures Run(c, calls).0 == c
    ensures forall i :: 0 <= i < |calls| ==> Run(c, calls).1[i] == c.inner.value
  {
    if calls != [] {
      assert calls[0].Get?;
      RunOnPopulated(c, calls[1..]);
    }
  }

  /** The whole effect of a run that only reads: without calls nothing happens; otherwise
      the cell ends as one `init` leaves it, and every call returns that one value. */
  lemma {:induction false} RunEffect<T>(c: Cell<T>, calls: seq<Access<T>>)
    requires Inv(c) && !c.locked && ReadOnly(calls)
    ensures calls == [] ==> Run(c, calls).0 == c
    ensures calls != [] ==> Run(c, calls).0 == InitStep(c)
    ensures forall i :: 0 <= i < |calls| ==> Run(c, calls).1[i] == InitStep(c).inner.value
  {
    if calls != [] {
      assert calls[0].Get?;
      var next := AccessStep(c).0;
      RunOnPopulated(next, calls[1..]);
    }
  }

  /** Every call returns what the slot holds after the calls before it, writes through
      `get_mut` included; on an empty slot that is the initializer's value. */
  lemma ReadSeesLastWrite<T>(c: Cell<T>, calls: seq<Access<T>>, a: Access<T>)
    requires Inv(c) && !c.locked
    ensures Run(c, calls + [a]).1[|calls|] == AccessStep(Run(c, calls).0).1
  {
    RunConcat(c, calls, [a]);
  }

  /** Across any run, writes through `get_mut` included, the initializer is called at most
      once: exactly once if the slot was empty and something accessed it, and never
      otherwise; the first call then returns the initializer's value, and the slot is
      populated after any call. */
  lemma InitializerAtMostOnce<T>(c: Cell<T>, calls: seq<Access<T>>)
    requires Inv(c) && !c.locked
    ensures Run(c, calls).0.initCalls <= 1
    ensures Run(c, calls).0.initCalls == c.initCalls + (if c.inner.None? && calls != [] then 1 else 0)
    ensures calls != [] ==> Run(c, calls).0.inner.Some?
    ensures c.inner.None? && calls != [] ==> Run(c, calls).1[0] == c.init.value()
  {
  }

  /** Once a call has returned, the slot stays populated for the rest of the run and the
      initializer is not called again; a run that only reads changes nothing more. */
  lemma PopulatedAfterAccess<T>(c: Cell<T>, calls: seq<Access<T>>, k: nat)
    requires Inv(c) && !c.locked && 0 < k <= |calls|
    ensures forall j :: k <= j <= |calls| ==>
      Run(c, calls[..j]).0.inner.Some? && Run(c, calls[..j]).0.initCalls == Run(c, calls[..k]).0.initCalls
    ensures ReadOnly(calls) ==> Run(c, calls).0 == Run(c, calls[..k]).0
  {
    forall j | k <= j <= |calls|
      ensures Run(c, calls[..j]).0.inner.Some?
      ensures Run(c, calls[..j]).0.initCalls == Run(c, calls[..k]).0.initCalls
    {
      InitializerAtMostOnce(c, calls[..j]);
      InitializerAtMostOnce(c, calls[..k]);
    }
    if ReadOnly(calls) {
      RunEffect(c, calls);
      assert ReadOnly(calls[..k]);
      RunEffect(c, calls[..k]);
    }
  }

  /** A cell built by `with_value` never calls an initializer, and a run that only reads
      returns the given value at every call. */
  lemma {:induction false} WithValueNeverInitializes<T>(value: T, calls: seq<Access<T>>)
    ensures Run(Cell(Some(value), None, false, 0), calls).0.initCalls == 0
    ensures ReadOnly(calls) ==>
      forall i :: 0 <= i < |calls| ==> Run(Cell(Some(value), None, false, 0), calls).1[i] == value
  {
    if ReadOnly(calls) {
      RunOnPopulated(Cell(Some(value), None, false, 0), calls);
    }
  }

  /** `LazyValue<T>`: the slot is updated in place, the initializer is fixed at construction. */
  class LazyValue<T> {
    var inner: Option<T>
    const init: Option<() -> T>
    var locked: bool
    ghost var initCalls: nat

    ghost function State(): Cell<T>
      reads this
    {
      Cell(inner, init, locked, initCalls)
    }

    ghost predicate Valid()
      reads this
    {
      Inv(State())
    }

    /** `with_value`: populated, no initializer, lock free. */
    constructor WithValue(value: T)
      ensures Valid()
      ensures inner == Some(value) && init == None && !locked && initCalls == 0
    {
      inner := Some(value);
      init := None;
      locked := false;
      initCalls := 0;
    }

    /** `with_init`: empty, holding the initializer, lock free. */
    constructor WithInit(f: () -> T)
      ensures Valid()
      ensures inner == None && init == Some(f) && !locked && initCalls == 0
    {
      inner := None;
      init := Some(f);
      locked := false;
      initCalls := 0;
    }

    method Set(value: T) returns (r: SetResult<T>)
      modifies this
      ensures (State(), r) == SetStep(old(State()), value)
    {
      if inner.Some? {
        return Err(value);
      }
      inner := Some(value);
      return Ok;
    }

    method Init()
      requires Valid() && !locked
      modifies this
      ensures Valid() && !locked && inner.Some?
      ensures State() == InitStep(old(State()))
    {
      locked := true;
      if inner.None? {
        var f := init.value;
        var value := f();
        initCalls := initCalls + 1;
        var outcome := Set(value);
        assert outcome == Ok;
      }
      locked := false;
    }

    method Get() returns (v: T)
      requires Valid() && (inner.None? ==> !locked)
      modifies this
      ensures Valid() && inner == Some(v) && locked == old(locked)
      ensures (State(), v) == AccessStep(old(State()))
    {
      if inner.Some? {
        return inner.value;
      }
      Init();
      return inner.value;
    }

    method GetMut() returns (v: T)
      requires Valid() && (inner.None? ==> !locked)
      modifies this
      ensures Valid() && inner == Some(v) && locked == old(locked)
      ensures (State(), v) == AccessStep(old(State()))
    {
      if inner.Some? {
        return inner.value;
      }
      Init();
      return inner.value;
    }
  }
}
