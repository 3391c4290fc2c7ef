/**
 Sessions against the null stores: a sequence of calls, interleaving reads,
 appends, snapshot lookups and snapshot persists, together with the replies the
 stores give. Every call is served by the same immutable store values, so that
 no call depends on the ones before it is built into `Run`; the facts proper to
 the null stores are that every reply reports nothing (`RunReportsNothing`,
 `ReadAfterAnySession`, `SnapshotAfterAnySession`).
 */
module NullTraces {
  import opened Wrappers
  import opened Cqrs
  import opened Error
  import opened Trivial

  /** One call on the storage contracts. */
  datatype Call<AggregateId, Event, Snapshot> =
    | ReadEvents(aggregateId: AggregateId, since: Since)
    | AppendEvents(aggregateId: AggregateId, events: seq<Event>, condition: Precondition)
    | GetSnapshot(aggregateId: AggregateId)
    | PersistSnapshot(aggregateId: AggregateId, version: Version, snapshot: Snapshot)

  /** What one call returned. */
  datatype Reply<Event, Snapshot> =
    | EventsRead(read: Result<Option<seq<VersionedEvent<Event>>>, Never>)
    | EventsAppended(appended: Result<(), AppendEventsError<Never>>)
    | SnapshotRead(found: Result<Option<VersionedSnapshot<Snapshot>>, Never>)
    | SnapshotPersisted(persisted: Result<(), Never>)

  /**
   The reply of a store that holds nothing and cannot fail: reads and lookups
   find nothing, appends and persists succeed.
   */
  ghost predicate ReportsNothing<AggregateId, Event, Snapshot>(call: Call<AggregateId, Event, Snapshot>, reply: Reply<Event, Snapshot>)
  {
    match call
    case ReadEvents(_, _) => reply == EventsRead(Ok(None))
    case AppendEvents(_, _, _) => reply == EventsAppended(Ok(()))
    case GetSnapshot(_) => reply == SnapshotRead(Ok(None))
    case PersistSnapshot(_, _, _) => reply == SnapshotPersisted(Ok(()))
  }

  /** A null event store and a null snapshot store used side by side. */
  datatype NullStores<AggregateId, Event, Snapshot> =
    NullStores(events: NullEventStore<Event, AggregateId>, snapshots: NullSnapshotStore<Snapshot, AggregateId>)
  {
    /** Dispatches one call to the store that implements it; the reply is of the call's kind. */
    function Serve(call: Call<AggregateId, Event, Snapshot>): (r: Reply<Event, Snapshot>)
      ensures call.ReadEvents? <==> r.EventsRead?
      ensures call.AppendEvents? <==> r.EventsAppended?
      ensures call.GetSnapshot? <==> r.SnapshotRead?
      ensures call.PersistSnapshot? <==> r.SnapshotPersisted?
    {
      match call
      case ReadEvents(id, since) => EventsRead(events.ReadEvents(id, since))
      case AppendEvents(id, evs, condition) => EventsAppended(events.AppendEvents(id, evs, condition))
      case GetSnapshot(id) => SnapshotRead(snapshots.GetSnapshot(id))
      case PersistSnapshot(id, version, snapshot) => SnapshotPersisted(snapshots.PersistSnapshot(id, version, snapshot))
    }

    /**
     The replies to a session of calls, one per call, in call order. Every call
     is served by the same immutable stores, as the source's methods borrow a
     store that has no fields to change.
     */
    function Run(session: seq<Call<AggregateId, Event, Snapshot>>): (replies: seq<Reply<Event, Snapshot>>)
      ensures |replies| == |session|
      ensures forall i :: 0 <= i < |session| ==> replies[i] == Serve(session[i])
      decreases |session|
    {
      if session == [] then [] else [Serve(session[0])] + Run(session[1..])
    }
  }

  /** Every single call, on its own, reports nothing. */
  lemma ServeReportsNothing<AggregateId, Event, Snapshot>(stores: NullStores<AggregateId, Event, Snapshot>, call: Call<AggregateId, Event, Snapshot>)
    ensures ReportsNothing(call, stores.Serve(call))
  {
  }

  /**
   Every reply in every session reports nothing: no interleaving of appends and
   persists makes a later read find events or a later lookup find a snapshot, and
   no call fails.
   */
  lemma {:induction false} RunReportsNothing<AggregateId, Event, Snapshot>(
    stores: NullStores<AggregateId, Event, Snapshot>, session: seq<Call<AggregateId, Event, Snapshot>>)
    ensures forall i :: 0 <= i < |session| ==> ReportsNothing(session[i], stores.Run(session)[i])
    decreases |session|
  {
    if session != [] {
      RunReportsNothing(stores, session[1..]);
      ServeReportsNothing(stores, session[0]);
      forall i | 0 <= i < |session|
        ensures ReportsNothing(session[i], stores.Run(session)[i])
      {
        if i > 0 {
          assert session[i] == session[1..][i - 1];
        }
      }
    }
  }

  /**
   The replies to a session are the replies to its first part followed by the
   replies its second part gets when run on its own.
   */
  lemma {:induction false} RunConcat<AggregateId, Event, Snapshot>(
    stores: NullStores<AggregateId, Event, Snapshot>,
    first: seq<Call<AggregateId, Event, Snapshot>>, second: seq<Call<AggregateId, Event, Snapshot>>)
    ensures stores.Run(first + second) == stores.Run(first) + stores.Run(second)
    decreases |first|
  {
    if first == [] {
      assert first + second == second;
    } else {
      assert (first + second)[1..] == first[1..] + second;
      RunConcat(stores, first[1..], second);
    }
  }

  /** Whatever came before, a call gets the reply it gets on a fresh store. */
  lemma ReplyIgnoresHistory<AggregateId, Event, Snapshot>(
    stores: NullStores<AggregateId, Event, Snapshot>, history: seq<Call<AggregateId, Event, Snapshot>>, call: Call<AggregateId, Event, Snapshot>)
    ensures stores.Run(history + [call])[|history|] == stores.Serve(call)
  {
    RunConcat(stores, history, [call]);
  }

  /** After any session, reading any aggregate from any cursor still finds nothing. */
  lemma ReadAfterAnySession<AggregateId, Event, Snapshot>(
    stores: NullStores<AggregateId, Event, Snapshot>, history: seq<Call<AggregateId, Event, Snapshot>>, id: AggregateId, since: Since)
    ensures stores.Run(history + [ReadEvents(id, since)])[|history|] == EventsRead(Ok(None))
  {
    ReplyIgnoresHistory(stores, history, ReadEvents(id, since));
  }

  /** After any session, looking up the snapshot of any aggregate still finds nothing. */
  lemma SnapshotAfterAnySession<AggregateId, Event, Snapshot>(
    stores: NullStores<AggregateId, Event, Snapshot>, history: seq<Call<AggregateId, Event, Snapshot>>, id: AggregateId)
    ensures stores.Run(history + [GetSnapshot(id)])[|history|] == SnapshotRead(Ok(None))
  {
    ReplyIgnoresHistory(stores, history, GetSnapshot(id));
  }

  /**
   Leaving any one call out of a session (an append or a persist in particular)
   changes none of the replies to the other calls.
   */
  lemma DroppingACallChangesNoOtherReply<AggregateId, Event, Snapshot>(
    stores: NullStores<AggregateId, Event, Snapshot>,
    before: seq<Call<AggregateId, Event, Snapshot>>, call: Call<AggregateId, Event, Snapshot>, after: seq<Call<AggregateId, Event, Snapshot>>)
    ensures var with := stores.Run(before + [call] + after);
      with[..|before|] + with[|before| + 1..] == stores.Run(before + after)
  {
    var session := before + [call] + after;
    var with := stores.Run(session);
    var kept := with[..|before|] + with[|before| + 1..];
    var without := stores.Run(before + after);
    forall i | 0 <= i < |kept|
      ensures kept[i] == without[i]
    {
      if i < |before| {
        assert session[i] == (before + after)[i];
      } else {
        assert session[i + 1] == (before + after)[i];
      }
    }
  }

  /**
   Persisting the same snapshot twice in a row is observably the same as
   persisting it once: both persists succeed and every other reply is unchanged.
   */
  lemma PersistTwiceIsPersistOnce<AggregateId, Event, Snapshot>(
    stores: NullStores<AggregateId, Event, Snapshot>,
    before: seq<Call<AggregateId, Event, Snapshot>>, id: AggregateId, version: Version, snapshot: Snapshot,
    after: seq<Call<AggregateId, Event, Snapshot>>)
    ensures var p := PersistSnapshot(id, version, snapshot);
      var once := stores.Run(before + [p] + after);
      var twice := stores.Run(before + [p, p] + after);
      && twice[..|before| + 1] == once[..|before| + 1]
      && twice[|before| + 1] == once[|before|] == SnapshotPersisted(Ok(()))
      && twice[|before| + 2..] == once[|before| + 1..]
  {
    var p := PersistSnapshot(id, version, snapshot);
    RunConcat(stores, before + [p], after);
    RunConcat(stores, before + [p, p], after);
    RunConcat(stores, before, [p]);
    RunConcat(stores, before, [p, p]);
    var once := stores.Run(before + [p] + after);
    var twice := stores.Run(before + [p, p] + after);
    assert stores.Run([p, p]) == [stores.Serve(p), stores.Serve(p)];
    assert once == stores.Run(before) + [stores.Serve(p)] + stores.Run(after);
    assert twice == stores.Run(before) + [stores.Serve(p), stores.Serve(p)] + stores.Run(after);
  }

  /**
   Five events appended to aggregate "A" under the "must not exist yet"
   precondition are accepted and then not found by a read from the beginning.
   */
  lemma AppendThenReadFindsNothing<Snapshot>(stores: NullStores<string, int, Snapshot>)
    ensures stores.Run([AppendEvents("A", [1, 2, 3, 4, 5], New), ReadEvents("A", BeginningOfStream)])
         == [EventsAppended(Ok(())), EventsRead(Ok(None))]
  {
  }
}
