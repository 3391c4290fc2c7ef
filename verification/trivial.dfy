/**
 The "null" reference implementations of the crate's storage contracts: an event
 store and a snapshot store that remember nothing and cannot fail, and the no-op
 event decorator. Each type's only field is a phantom marker, so each is a
 field-less datatype here; its operations borrow the store immutably and are
 functions of their arguments.
 */
module Trivial {
  import opened Wrappers
  import opened Cqrs
  import opened Error

  /** Event store that accepts every append and forgets it. */
  datatype NullEventStore<Event, AggregateId> = NullEventStore
  {
    static function Default(): (r: NullEventStore<Event, AggregateId>)
    {
      NullEventStore
    }

    /** Events of `aggregateId` after `since`: always "none stored". The error type is `Never`. */
    function ReadEvents(aggregateId: AggregateId, since: Since): (r: Result<Option<seq<VersionedEvent<Event>>>, Never>)
      ensures r.Ok?
    {
      Ok(None)
    }

    /** Appends `events` under `condition`: always succeeds, stores nothing. */
    function AppendEvents(aggregateId: AggregateId, events: seq<Event>, condition: Precondition): (r: Result<(), AppendEventsError<Never>>)
      ensures r.Ok?
    {
      Ok(())
    }
  }

  /** Snapshot store that accepts every snapshot and forgets it. */
  datatype NullSnapshotStore<Snapshot, AggregateId> = NullSnapshotStore
  {
    static function Default(): (r: NullSnapshotStore<Snapshot, AggregateId>)
    {
      NullSnapshotStore
    }

    /** Latest snapshot of `aggregateId`: always "none stored". The error type is `Never`. */
    function GetSnapshot(aggregateId: AggregateId): (r: Result<Option<VersionedSnapshot<Snapshot>>, Never>)
      ensures r.Ok?
    {
      Ok(None)
    }

    /** Stores `snapshot` at `version`: always succeeds, stores nothing. The error type is `Never`. */
    function PersistSnapshot(aggregateId: AggregateId, version: Version, snapshot: Snapshot): (r: Result<(), Never>)
      ensures r.Ok?
    {
      Ok(())
    }
  }

  /** Decorator that hands every event back unchanged. */
  datatype NopEventDecorator<Event> = NopEventDecorator
  {
    static function Default(): (r: NopEventDecorator<Event>)
    {
      NopEventDecorator
    }

    /** Cloning builds a fresh default instance rather than copying this one. */
    function Clone(): (r: NopEventDecorator<Event>)
      ensures r == this
    {
      Default()
    }

    /** The decorated event is a clone of `event`, so it equals the input. */
    function Decorate(event: Event): (r: Event)
      ensures r == event
    {
      event
    }
  }

  // ----- The event store -----

  /** Reads never fail (the error type is `Never`) and never find events, for any id and either cursor. */
  lemma ReadEventsReportsNothing<Event, AggregateId>(store: NullEventStore<Event, AggregateId>)
    ensures forall id: AggregateId, since: Since :: store.ReadEvents(id, since).Ok?
    ensures forall id: AggregateId, since: Since :: store.ReadEvents(id, since).value == None
  {
  }

  /** Appends succeed for every id, event slice (empty or not) and precondition. */
  lemma AppendEventsAlwaysSucceeds<Event, AggregateId>(store: NullEventStore<Event, AggregateId>)
    ensures forall id: AggregateId, events: seq<Event>, condition: Precondition ::
      store.AppendEvents(id, events, condition) == Ok(())
    ensures forall id: AggregateId, events: seq<Event>, condition: Precondition ::
      store.AppendEvents(id, events, condition) != Err(PreconditionFailed)
  {
  }

  /** The precondition is not enforced: any two preconditions give the same outcome. */
  lemma AppendIgnoresPrecondition<Event, AggregateId>(
    store: NullEventStore<Event, AggregateId>, id: AggregateId, events: seq<Event>, c1: Precondition, c2: Precondition)
    ensures store.AppendEvents(id, events, c1) == store.AppendEvents(id, events, c2)
  {
  }

  /** Every event store is the default one: the phantom marker is the only field. */
  lemma EventStoreIsDefault<Event, AggregateId>(store: NullEventStore<Event, AggregateId>)
    ensures store == NullEventStore<Event, AggregateId>.Default()
  {
  }

  // ----- The snapshot store -----

  /** Snapshot lookups never fail and never find a snapshot, for any id. */
  lemma GetSnapshotReportsNothing<Snapshot, AggregateId>(store: NullSnapshotStore<Snapshot, AggregateId>)
    ensures forall id: AggregateId :: store.GetSnapshot(id).Ok?
    ensures forall id: AggregateId :: store.GetSnapshot(id).value == None
  {
  }

  /** Persisting succeeds for every id, version and snapshot. */
  lemma PersistSnapshotAlwaysSucceeds<Snapshot, AggregateId>(store: NullSnapshotStore<Snapshot, AggregateId>)
    ensures forall id: AggregateId, version: Version, snapshot: Snapshot ::
      store.PersistSnapshot(id, version, snapshot) == Ok(())
  {
  }

  /** Every snapshot store is the default one. */
  lemma SnapshotStoreIsDefault<Snapshot, AggregateId>(store: NullSnapshotStore<Snapshot, AggregateId>)
    ensures store == NullSnapshotStore<Snapshot, AggregateId>.Default()
  {
  }

  // ----- The no-op decorator -----

  /** Every no-op decorator is the default one, and so is its clone. */
  lemma DecoratorIsDefault<Event>(nop: NopEventDecorator<Event>)
    ensures nop == NopEventDecorator<Event>.Default()
    ensures nop.Clone() == NopEventDecorator<Event>.Default()
  {
  }

  /**
   Composing the no-op decorator before or after any other decorator, given as
   its transform `decorate`, gives what that decorator gives alone.
   */
  lemma NopIsNeutralForComposition<Event, Decorated>(
    before: NopEventDecorator<Event>, after: NopEventDecorator<Decorated>, decorate: Event -> Decorated, event: Event)
    ensures decorate(before.Decorate(event)) == decorate(event)
    ensures after.Decorate(decorate(event)) == decorate(event)
  {
  }

  /** Runs `event` through `stages` in order, each stage's output feeding the next. */
  function Pipeline<Event>(stages: seq<Event -> Event>, event: Event): Event
    decreases |stages|
  {
    if stages == [] then event else Pipeline(stages[1..], stages[0](event))
  }

  /** Running two pipelines one after the other is running their concatenation. */
  lemma {:induction false} PipelineConcat<Event>(first: seq<Event -> Event>, second: seq<Event -> Event>, event: Event)
    ensures Pipeline(first + second, event) == Pipeline(second, Pipeline(first, event))
    decreases |first|
  {
    if first != [] {
      assert (first + second)[1..] == first[1..] + second;
      PipelineConcat(first[1..], second, first[0](event));
    } else {
      assert first + second == second;
    }
  }

  /** Inserting the no-op decorator anywhere in a pipeline does not change its output. */
  lemma {:induction false} NopIsNeutralInPipeline<Event>(
    nop: NopEventDecorator<Event>, stages: seq<Event -> Event>, i: nat, event: Event)
    requires i <= |stages|
    ensures Pipeline(stages[..i] + [nop.Decorate] + stages[i..], event) == Pipeline(stages, event)
  {
    var front, back := stages[..i], stages[i..];
    assert stages == front + back;
    PipelineConcat(front, [nop.Decorate] + back, event);
    var mid := Pipeline(front, event);
    assert ([nop.Decorate] + back)[1..] == back;
    assert ([nop.Decorate] + back)[0](mid) == mid;
    assert Pipeline([nop.Decorate] + back, mid) == Pipeline(back, mid);
    assert stages[..i] + [nop.Decorate] + stages[i..] == front + ([nop.Decorate] + back);
    PipelineConcat(front, back, event);
  }
}
