# ruspiro-singleton in Dafny

A model of the two state machines of the `ruspiro-singleton` crate, a cross-core
singleton for bare-metal Raspberry Pi code:

- `LazyValue<T>` (src/lazy.rs): a slot that starts empty with an initializer, or
  populated with a value. `get`/`get_mut` read the slot. When it is empty they run
  `init`, which follows double-checked locking. It takes the spin lock, checks the
  slot again, calls the initializer only if the slot is still empty, stores the result
  through `set`, and releases the lock. `set` never overwrites a populated slot.
- `Singleton<T>` (src/lib.rs): a value behind a spin lock. `take_for` runs a mutating
  closure between acquire and release. `use_for` runs a read-only closure without the
  lock.

Only one core is modelled. Each spin lock is a boolean "held" flag. Acquiring a held
lock would spin forever, so every operation that acquires requires the flag to be free.

Files:

- `wrappers.dfy`: module `Wrappers`, the `Option` type.
- `lazy.dfy`: module `Lazy`.
  - A pure layer: the `Cell` state (slot, initializer, lock flag, number of initializer
    calls) and its invariant `Inv`.
  - One function per operation: `SetStep`, `InitStep`, `AccessStep`.
  - `Run`, a sequence of `get`/`get_mut` calls, and lemmas about it. A `get_mut` call
    in a run carries what the caller writes through the returned reference.
  - The class `LazyValue`. Its methods update the fields in place, and each one
    ensures that its new state is the matching function applied to the old state.
- `singleton.dfy`: module `RusPiroSingleton`, the class `Singleton`.
  - A ghost history of lock events and writes. Each write records the value it
    replaced and the value it stored.
  - A replay automaton (`Step`, `Replay`). The class invariant says three things: the
    history is legal from the value given to `new`, every write happened under the lock,
    and the history ends in the current lock state and value.

`Singleton` (src/lib.rs:87-90) holds its value directly, behind a spin lock.
`src/lib.rs` declares no `mod lazy`, so `LazyValue` is modelled as a separate component.

## Model

| member | source | states |
|---|---|---|
| `Lazy.SetStep` | src/lazy.rs:46-58 | A populated slot is never overwritten: the cell is unchanged and `Err` hands back the rejected value. An empty slot receives `Some(value)` with `Ok`, and nothing else changes. Afterwards the slot is always populated, and the invariant is kept. |
| `Lazy.InitStep` | src/lazy.rs:60-72 | The lock is free on return. A populated slot is left exactly as it was, with no initializer call. An empty slot ends holding the initializer's result, with exactly one more call. The "initialized twice" assertion holds, and the invariant is kept. |
| `Lazy.AccessStep` | src/lazy.rs:74-90 | `get`/`get_mut` always return the value that is now in the slot. On a populated slot they change nothing, the lock included. On an empty slot the effect is that of `init`, and the result is the initializer's value. |
| `Lazy.Run` | src/lazy.rs:74-90 | Covers any sequence of accesses, writes through `get_mut` included, with the lock free between calls. The invariant holds throughout, the lock ends free, and one value is returned per call. The initializer is kept. A populated slot stays populated, with no further initializer call. |
| `Lazy.RunConcat` | src/lazy.rs:74-90 | Running two sequences of calls one after the other gives the same final cell and returned values as running them joined. |
| `Lazy.RunOnPopulated` | src/lazy.rs:75-76 | Any number of reads of a populated cell leave it unchanged, and every read returns the stored value. |
| `Lazy.RunEffect` | src/lazy.rs:60-90 | A run of reads with no calls changes nothing. Otherwise it ends in the state of exactly one `init`, and every call returns that one value. |
| `Lazy.ReadSeesLastWrite` | src/lazy.rs:74-90 | Every call returns what the slot holds after the calls before it, writes through `get_mut` included. On an empty slot that is the initializer's value. |
| `Lazy.InitializerAtMostOnce` | src/lazy.rs:66-70 | Across any run, writes included, the initializer is called at most once. It is called exactly once when the slot was empty and was accessed, and then the first call returns its result. After any call the slot is populated. |
| `Lazy.PopulatedAfterAccess` | src/lazy.rs:74-90 | After the first call the slot stays populated for the rest of the run, and the initializer is not called again. A run of reads changes nothing more after its first call. |
| `Lazy.WithValueNeverInitializes` | src/lazy.rs:26-32 | A cell made by `with_value` never calls an initializer, writes included. A run of reads returns the given value at every call. |
| `Lazy.LazyValue.WithValue` | src/lazy.rs:26-32 | `with_value`: the slot holds exactly the given value, there is no initializer, the lock is free and the invariant holds. |
| `Lazy.LazyValue.WithInit` | src/lazy.rs:35-44 | `with_init`: the slot is empty, the given initializer is kept, the lock is free and the invariant holds. |
| `Lazy.LazyValue.Set` | src/lazy.rs:46-58 | The new state and the result are those of `SetStep` applied to the old state. |
| `Lazy.LazyValue.Init` | src/lazy.rs:60-72 | Needs the lock free. Leaves the slot populated and the lock free. The new state is `InitStep` of the old state. |
| `Lazy.LazyValue.Get` | src/lazy.rs:74-81 | Needs the lock free only when the slot is empty. Returns the value now in the slot and leaves the lock flag as it found it. The new state and the result are `AccessStep` of the old state. |
| `Lazy.LazyValue.GetMut` | src/lazy.rs:83-90 | Same contract as `Get`, for `get_mut`. |
| `RusPiroSingleton.ReplayConcat` | src/lib.rs:130-136 | Replaying a history in two parts gives the same result as replaying it whole. This is what lets each `take_for` session be checked on its own. |
| `RusPiroSingleton.SessionKeepsLockFree` | src/lib.rs:130-136 | Take any legal history that leaves the lock free with value `v`. Appending a session that acquires, writes `w` over `v` and releases is legal, and leaves the lock free with value `w`. |
| `RusPiroSingleton.IllegalStaysIllegal` | src/lib.rs:130-136 | Some histories are illegal: a write without the lock, a write that does not start from the current value, or a double acquire or release. Once a history is illegal, no later events make it legal again. |
| `RusPiroSingleton.Singleton.constructor` | src/lib.rs:103-108 | `new` stores the value unchanged, with the lock free and an empty history. |
| `RusPiroSingleton.Singleton.Store` | src/lib.rs:132 | The write through the `&mut T` given to the closure. It needs the lock held, replaces the value, and records the old and new values in the history. |
| `RusPiroSingleton.Singleton.TakeFor` | src/lib.rs:123-138 | Needs the lock free. Appends acquire, then the write of the closure's new value over the old one, then release. The write goes through `Store`, which needs the lock, so it happens while the lock is held. The lock is free on return, and the invariant holds. The stored value is the closure's new value, and the result is the closure's result. |
| `RusPiroSingleton.Singleton.UseFor` | src/lib.rs:154-159 | Returns the closure applied to the stored value. It modifies nothing, so the value, the lock and the history stay unchanged. |

## Left out

- The spin lock itself (`ruspiro_lock::Spinlock`): it is external. Acquire and release are a flag with `requires !locked` and `requires locked`.
- Several cores, busy-waiting and memory ordering: the model is sequential. So the "exactly once" result is proved for one core's sequence of calls, not for racing cores.
- Turning interrupts off and on with the lock (src/lib.rs:127-129,134-135): this is hardware state outside the model.
- `UnsafeCell` and the `unsafe impl Sync`/`Send` (src/lib.rs:92-97): these are Rust soundness plumbing with no behaviour of their own.
- Reentrant calls, which would self-deadlock: preconditions on the lock flag exclude them.
- The doc-comment examples and their `println!` output (src/lib.rs:13-81): these are I/O.
- Lazy.LazyValue.GetMut: returns the value instead of a mutable reference. Writes through that reference happen in caller code, so the class does not capture them. They are modelled only at the level of runs: a `GetMut(update)` call in `Lazy.Run` writes `update(v)` over the value `v` it returned.
- Lazy.Run: covers only the public accessors. `set` and `init` are private and are reached only through `get`/`get_mut`.
- Closures: the initializer and the `take_for`/`use_for` closures are Dafny functions, which are deterministic and have no side effects. Rust closures may do I/O.
