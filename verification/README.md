# Null storage backends of an event-sourcing crate, in Dafny

The `cqrs` crate defines storage contracts for event-sourced aggregates: reading
and appending an aggregate's event stream (with an optimistic-concurrency
`Precondition`), looking up and persisting snapshots, and decorating events
before they are stored. `cqrs/src/trivial.rs` holds the degenerate reference
implementations of those contracts, which this project models and proves
properties of:

- `NullEventStore`: every read reports "no events" and cannot fail (its error
  type is `Never`); every append succeeds, whatever its precondition, and is
  forgotten.
- `NullSnapshotStore`: every lookup reports "no snapshot"; every persist
  succeeds and does nothing.
- `NopEventDecorator`: decorating returns a clone of the event.

Files and modules:

- `wrappers.dfy` (`Wrappers`): Rust's `Option` and `Result`.
- `cqrs.dfy` (`Cqrs`): the shapes of `Version` (a `nat`), `Since`,
  `Precondition`, `VersionedEvent` and `VersionedSnapshot`. These types live in
  the crate's parent module, which is not part of this model; only their shape
  is declared.
- `error.dfy` (`Error`): `AppendEventsError` (`PreconditionFailed | Store(E)`)
  and `Never`.
- `trivial.dfy` (`Trivial`): the three types as field-less datatypes (their
  only field is a phantom marker and every operation borrows them immutably),
  their operations as member functions, and lemmas stating each operation's
  behaviour for all inputs. `NullEventStore` and `NullSnapshotStore` derive
  `Debug`, `PartialEq`, `Clone` and `Copy` (cqrs/src/trivial.rs:7, 43), so
  Dafny's datatype equality matches theirs. `NopEventDecorator` derives only
  `Debug` (cqrs/src/trivial.rs:78), implements `Clone` by hand as
  `Default::default()` (modelled as `Clone`) and `Copy` by hand, and has no
  `PartialEq`; the lemmas that compare decorators use Dafny's value equality.
  Decorators other than the no-op one are represented by their transform, a
  function value; composition is function composition. `Pipeline` runs a
  sequence of decorators one after another; since a Dafny sequence holds one
  type, it covers only decorators whose decorated event type is the event type,
  and decorators that change the type are covered two at a time by
  `NopIsNeutralForComposition`.
- `null_traces.dfy` (`NullTraces`): sessions, i.e. sequences of calls mixing
  reads, appends, lookups and persists, with the reply each call gets
  (`NullStores.Run`). Every call of a session is served by the same immutable
  store values, as the source's `&self` methods on phantom-only structs
  (cqrs/src/trivial.rs:8-10, 44-46) cannot change anything; that no call
  depends on earlier ones is therefore built into `Run`, and `RunConcat`,
  `ReplyIgnoresHistory` and `DroppingACallChangesNoOtherReply` spell out that
  construction. The facts proper to the null stores are that every reply
  reports nothing: `ServeReportsNothing`, `RunReportsNothing`,
  `ReadAfterAnySession` and `SnapshotAfterAnySession`.

The storage contracts are meant to be implemented by real backends that assign
versions and enforce preconditions. The null backend modelled here
deliberately does neither, and no such backend is modelled.

## Model

| member | source | states |
|---|---|---|
| Trivial.NullEventStore.Default | cqrs/src/trivial.rs:12-18 | builds the event store; there is only one (see `EventStoreIsDefault`) |
| Trivial.NullEventStore.ReadEvents | cqrs/src/trivial.rs:27-29 | reading cannot fail: the result is `Ok` (the error type is `Never`) |
| Trivial.NullEventStore.AppendEvents | cqrs/src/trivial.rs:38-40 | appending never fails: the result is `Ok` |
| Trivial.NullSnapshotStore.Default | cqrs/src/trivial.rs:48-54 | builds the snapshot store; there is only one (see `SnapshotStoreIsDefault`) |
| Trivial.NullSnapshotStore.GetSnapshot | cqrs/src/trivial.rs:62-64 | a lookup cannot fail: the result is `Ok` (the error type is `Never`) |
| Trivial.NullSnapshotStore.PersistSnapshot | cqrs/src/trivial.rs:73-75 | persisting cannot fail: the result is `Ok` (the error type is `Never`) |
| Trivial.NopEventDecorator.Default | cqrs/src/trivial.rs:91-97 | builds the no-op decorator; there is only one (see `DecoratorIsDefault`) |
| Trivial.NopEventDecorator.Decorate | cqrs/src/trivial.rs:105-107 | the decorated event, a clone of the input, equals the input |
| NullTraces.NullStores.Serve | cqrs/src/trivial.rs:20-76 | each call is answered by the store operation that implements it, with a reply of the call's own kind |
| Trivial.ReadEventsReportsNothing | cqrs/src/trivial.rs:20-29 | for every aggregate id and both kinds of cursor, `read_events` returns `Ok` (it cannot fail: the error type is `Never`) holding `None` |
| Trivial.AppendEventsAlwaysSucceeds | cqrs/src/trivial.rs:32-40 | for every id, every event slice (empty or not) and every precondition, `append_events` returns `Ok(())`, never `PreconditionFailed` |
| Trivial.AppendIgnoresPrecondition | cqrs/src/trivial.rs:38-40 | the precondition is not enforced: two appends differing only in precondition have the same outcome |
| Trivial.EventStoreIsDefault | cqrs/src/trivial.rs:7-18 | every event store equals the one `default` builds |
| Trivial.GetSnapshotReportsNothing | cqrs/src/trivial.rs:56-64 | for every id, `get_snapshot` returns `Ok` holding `None` |
| Trivial.PersistSnapshotAlwaysSucceeds | cqrs/src/trivial.rs:67-75 | for every id, version and snapshot, `persist_snapshot` returns `Ok(())` |
| Trivial.SnapshotStoreIsDefault | cqrs/src/trivial.rs:43-54 | every snapshot store equals the one `default` builds |
| Trivial.NopEventDecorator.Clone | cqrs/src/trivial.rs:83-87 | `clone`, which builds `Default::default()`, returns a decorator equal to the one cloned |
| Trivial.DecoratorIsDefault | cqrs/src/trivial.rs:78-97 | every no-op decorator, and its clone, equals the one `default` builds (Dafny value equality; the Rust type has no `PartialEq`) |
| Trivial.NopIsNeutralForComposition | cqrs/src/trivial.rs:105-107 | applying the no-op decorator before or after any other decorator gives what that decorator gives alone |
| Trivial.NopIsNeutralInPipeline | cqrs/src/trivial.rs:105-107 | inserting the no-op decorator at any position of a pipeline of decorators leaves the pipeline's output unchanged |
| NullTraces.NullStores.Run | cqrs/src/trivial.rs:20-76 | a session of calls gets exactly one reply per call, and the reply to each call is the one that call gets on its own from the same stores |
| NullTraces.ServeReportsNothing | cqrs/src/trivial.rs:20-76 | any single call on the two stores reports nothing: reads and lookups find nothing, appends and persists succeed |
| NullTraces.RunReportsNothing | cqrs/src/trivial.rs:20-76 | in every session, every reply reports nothing, whatever appends and persists came before it |
| NullTraces.RunConcat | cqrs/src/trivial.rs:8-10 | with every call served by the same field-less stores, the replies to a session are the replies to its first part followed by those its second part gets on its own |
| NullTraces.ReplyIgnoresHistory | cqrs/src/trivial.rs:44-46 | with every call served by the same field-less stores, a call made after any history gets the reply it gets on its own |
| NullTraces.ReadAfterAnySession | cqrs/src/trivial.rs:27-29 | after any session of appends and persists on any ids, reading any id from any cursor returns `Ok(None)` |
| NullTraces.SnapshotAfterAnySession | cqrs/src/trivial.rs:62-64 | after any session, including any number of persists, looking up any id returns `Ok(None)` |
| NullTraces.DroppingACallChangesNoOtherReply | cqrs/src/trivial.rs:38-40 | with every call served by the same field-less stores, removing any one call (an append in particular) from a session leaves every other reply unchanged |
| NullTraces.PersistTwiceIsPersistOnce | cqrs/src/trivial.rs:73-75 | persisting the same snapshot twice in a row is observably the same as once: both succeed and all other replies are unchanged |
| NullTraces.AppendThenReadFindsNothing | cqrs/src/trivial.rs:27-40 | five events appended to aggregate "A" under "must not exist yet" are accepted, and a read from the beginning then returns `Ok(None)` |

## Left out

- The trait declarations (`EventSource`, `EventAppend`, `SnapshotSource`, `SnapshotPersist`, `EventDecorator`) and the parent and `error` modules that define the stream and error types are not part of this model; only the shapes of those types are declared.
- `Never` is declared as an abstract type that no member constructs, because Dafny cannot declare a type proved to have no values; that the null stores cannot fail is stated as lemmas proving their results are `Ok`.
- Rust type machinery (`PhantomData`, the derives on the two stores, the hand-written `Copy` of the decorator, the `Event: Clone` bound, `#[inline]`) carries no behaviour beyond value equality, which Dafny datatypes have; the decorator, which has no `PartialEq` in the source, is compared with Dafny's value equality.
- Cloning an event is modelled as the value itself; a user-defined `Clone` impl for the event type is not modelled.
- Concurrency: the null stores take shared borrows and hold no state, so concurrent calls behave as sequential ones; thread interleavings are not modelled.
- The test module `trivial_tests.rs` is not part of this model.
