/**
 Shapes of the crate's stream-position and event types. Only their shape is
 modelled here: the null stores never inspect them.
 */
module Cqrs {

  /** Number of events persisted for an aggregate; 0 means "no events yet". */
  type Version = nat

  /** Read cursor: the whole stream, or only the events strictly after a version. */
  datatype Since = BeginningOfStream | AfterVersion(version: Version)

  /** Optimistic-concurrency assertion attached to an append. */
  datatype Precondition =
    | Always                           // append unconditionally
    | New                              // the stream must not exist yet
    | ExpectedVersion(version: Version) // the stream must be at exactly this version

  /** A domain event together with the version it occupies in its stream. */
  datatype VersionedEvent<+Event> = VersionedEvent(version: Version, event: Event)

  /** A snapshot together with the version of the stream it summarises. */
  datatype VersionedSnapshot<+Snapshot> = VersionedSnapshot(version: Version, snapshot: Snapshot)
}
