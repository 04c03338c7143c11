/**
 * `CommandHandlingDependencies`: the facade command handlers get. It answers
 * read-side questions (content streams, workspaces, content graphs), lets a
 * handler override, for the duration of a closure, which content stream the
 * graph of a workspace shows, and handles a command against an in-memory
 * event store, replaying the committed events into the content graph
 * projection.
 */
module CommandHandling {
  import opened Wrappers
  import opened ContentModel
  import opened EventStore

  type ContentStreamId = string
  type ContentStreamStatus = string
  type StreamName = string

  datatype ContentStream = ContentStream(id: ContentStreamId, version: int, status: ContentStreamStatus)

  datatype Workspace = Workspace(workspaceName: WorkspaceName, currentContentStreamId: ContentStreamId)

  /** A content graph: the nodes of one content stream, seen as the graph of a workspace. */
  datatype ContentGraph = ContentGraph(workspaceName: WorkspaceName, contentStreamId: ContentStreamId)

  /** The read side of the content repository the facade delegates to. */
  datatype ReadModel = ReadModel(
    contentStreams: map<ContentStreamId, ContentStream>,
    workspaces: map<WorkspaceName, Workspace>)

  const VersionLookupCode := 1716902051
  const StatusLookupCode := 1716902219
  const NestedOverrideCode := 1715170938

  datatype Error =
    | ContentStreamNotFound(contentStreamId: ContentStreamId, code: int)
    | WorkspaceDoesNotExist(workspaceName: WorkspaceName)
    | OverrideAlreadyInEffect(workspaceName: WorkspaceName, code: int)
    | ClosureThrew(message: string)
    | CommitRejected(streamName: StreamName)

  /** `ContentRepository::findContentStreamById`. */
  function FindContentStreamById(rm: ReadModel, id: ContentStreamId): Option<ContentStream>
  {
    if id in rm.contentStreams then Some(rm.contentStreams[id]) else None
  }

  /** `ContentRepository::getContentGraph`: the graph of the workspace's current content stream. */
  function RepositoryContentGraph(rm: ReadModel, w: WorkspaceName): Result<ContentGraph, Error>
  {
    if w in rm.workspaces then Success(ContentGraph(w, rm.workspaces[w].currentContentStreamId))
    else Failure(WorkspaceDoesNotExist(w))
  }

  // ---------------------------------------------------------------------------
  // Overriding the content stream of a workspace within a closure

  /**
   * What a closure passed to `overrideContentStreamId` does, step by step:
   * ask for the content graph of a workspace, run a nested override, or throw.
   */
  datatype Step =
    | ReadGraph(workspaceName: WorkspaceName)
    | Override(workspaceName: WorkspaceName, contentStreamId: ContentStreamId, body: seq<Step>)
    | Throw(message: string)

  datatype Outcome = Returned | Threw(error: Error)

  /** How a closure ended, and the content graphs it was given, in order. */
  datatype Trace = Trace(outcome: Outcome, seen: seq<(WorkspaceName, ContentGraph)>)

  type Overrides = map<WorkspaceName, ContentGraph>

  /** `getContentGraph` with the overrides `ov` in effect. */
  function Graph(ov: Overrides, rm: ReadModel, w: WorkspaceName): Result<ContentGraph, Error>
  {
    if w in ov then Success(ov[w]) else RepositoryContentGraph(rm, w)
  }

  /** The trace of running `steps` with the overrides `ov` in effect. */
  function RunSteps(ov: Overrides, rm: ReadModel, steps: seq<Step>): Trace
    decreases steps, 0
  {
    if steps == [] then Trace(Returned, [])
    else
      assert steps[0] in steps;
      match steps[0]
      case ReadGraph(w) =>
        (match Graph(ov, rm, w)
         case Failure(e) => Trace(Threw(e), [])
         case Success(g) =>
           var t := RunSteps(ov, rm, steps[1..]);
           Trace(t.outcome, [(w, g)] + t.seen))
      case Throw(m) => Trace(Threw(ClosureThrew(m)), [])
      case Override(w, cs, body) =>
        var t := RunOverride(ov, rm, w, cs, body);
        if t.outcome.Threw? then t
        else
          var t' := RunSteps(ov, rm, steps[1..]);
          Trace(t'.outcome, t.seen + t'.seen)
  }

  /**
   * The trace of `overrideContentStreamId(w, cs, body)`: rejected when `w`
   * is overridden already, otherwise the body runs with `w` showing the
   * graph of `cs`.
   */
  function RunOverride(ov: Overrides, rm: ReadModel, w: WorkspaceName, cs: ContentStreamId, body: seq<Step>): Trace
    decreases body, 1
  {
    if w in ov then Trace(Threw(OverrideAlreadyInEffect(w, NestedOverrideCode)), [])
    else RunSteps(ov[w := ContentGraph(w, cs)], rm, body)
  }

  /**
   * Every graph the steps are given for an overridden workspace is its
   * override: a nested override of another name keeps it, and one of the
   * same name is rejected.
   */
  lemma {:induction false} StepsSeeOverride(ov: Overrides, rm: ReadModel, steps: seq<Step>, w: WorkspaceName)
    requires w in ov
    ensures forall i :: 0 <= i < |RunSteps(ov, rm, steps).seen| && RunSteps(ov, rm, steps).seen[i].0 == w ==>
      RunSteps(ov, rm, steps).seen[i].1 == ov[w]
    decreases steps, 0
  {
    if steps != [] {
      assert steps[0] in steps;
      StepsSeeOverride(ov, rm, steps[1..], w);
      match steps[0]
      case ReadGraph(x) =>
      case Throw(m) =>
      case Override(x, cs, body) =>
        OverrideKeepsOverride(ov, rm, x, cs, body, w);
    }
  }

  lemma {:induction false} OverrideKeepsOverride(ov: Overrides, rm: ReadModel, x: WorkspaceName, cs: ContentStreamId,
                                                 body: seq<Step>, w: WorkspaceName)
    requires w in ov
    ensures forall i :: 0 <= i < |RunOverride(ov, rm, x, cs, body).seen| && RunOverride(ov, rm, x, cs, body).seen[i].0 == w ==>
      RunOverride(ov, rm, x, cs, body).seen[i].1 == ov[w]
    decreases body, 1
  {
    if x !in ov {
      StepsSeeOverride(ov[x := ContentGraph(x, cs)], rm, body, w);
    }
  }

  /** While the body of an override for `w` runs, `getContentGraph(w)` returns the graph of the override's content stream. */
  lemma OverrideIsVisible(ov: Overrides, rm: ReadModel, w: WorkspaceName, cs: ContentStreamId, body: seq<Step>)
    requires w !in ov
    ensures forall i :: 0 <= i < |RunOverride(ov, rm, w, cs, body).seen| && RunOverride(ov, rm, w, cs, body).seen[i].0 == w ==>
      RunOverride(ov, rm, w, cs, body).seen[i].1 == ContentGraph(w, cs)
  {
    StepsSeeOverride(ov[w := ContentGraph(w, cs)], rm, body, w);
  }

  /**
   * A nested `overrideContentStreamId(w, cs, body)` is rejected, before any
   * step of its body runs, exactly when `w` is overridden already; otherwise
   * its body runs with `w` showing the graph of `cs` on top of the overrides
   * in effect, and its trace is the body's.
   */
  lemma NestedOverride(ov: Overrides, rm: ReadModel, w: WorkspaceName, cs: ContentStreamId, body: seq<Step>)
    ensures w in ov ==>
      RunSteps(ov, rm, [Override(w, cs, body)]) == Trace(Threw(OverrideAlreadyInEffect(w, NestedOverrideCode)), [])
    ensures w !in ov ==>
      RunSteps(ov, rm, [Override(w, cs, body)]) == RunSteps(ov[w := ContentGraph(w, cs)], rm, body)
  {
    var steps := [Override(w, cs, body)];
    assert steps[1..] == [];
    assert RunSteps(ov, rm, steps[1..]) == Trace(Returned, []);
    var t := RunOverride(ov, rm, w, cs, body);
    assert t.seen + [] == t.seen;
  }

  /** Overrides for different names nest: the body of the inner one runs with both overrides in effect. */
  lemma OverridesOfDifferentNamesNest(ov: Overrides, rm: ReadModel, w1: WorkspaceName, cs1: ContentStreamId,
                                      w2: WorkspaceName, cs2: ContentStreamId, body: seq<Step>)
    requires w1 !in ov && w2 !in ov && w1 != w2
    ensures RunOverride(ov, rm, w1, cs1, [Override(w2, cs2, body)])
         == RunSteps(ov[w1 := ContentGraph(w1, cs1)][w2 := ContentGraph(w2, cs2)], rm, body)
  {
    NestedOverride(ov[w1 := ContentGraph(w1, cs1)], rm, w2, cs2, body);
  }

  // ---------------------------------------------------------------------------
  // The in-memory handle pipeline

  type DomainEvent = string

  /** An event as the event store keeps it. */
  datatype NormalizedEvent = NormalizedEvent(eventType: string, data: string)

  datatype ExpectedVersion = AnyVersion | NoStream | StreamExists | Exactly(version: nat)

  datatype EventEnvelope = EventEnvelope(sequenceNumber: int, streamName: StreamName, event: NormalizedEvent)

  /** What the command bus makes of a command: the events to commit to one stream. */
  datatype EventsToPublish = EventsToPublish(streamName: StreamName, events: Events<DomainEvent>,
                                             expectedVersion: ExpectedVersion)

  /** Numbering of the in-memory store: the i-th stored event has sequence number i + 1. */
  ghost predicate NumberedFromOne(stored: seq<EventEnvelope>)
  {
    forall i :: 0 <= i < |stored| ==> stored[i].sequenceNumber == i + 1
  }

  /** The envelopes a commit of `events` to `stream` adds after `n` stored events. */
  function Envelopes(n: nat, stream: StreamName, events: seq<NormalizedEvent>): (r: seq<EventEnvelope>)
    ensures |r| == |events|
    ensures forall i :: 0 <= i < |r| ==> r[i] == EventEnvelope(n + i + 1, stream, events[i])
  {
    seq(|events|, i requires 0 <= i < |events| => EventEnvelope(n + i + 1, stream, events[i]))
  }

  /** `load(all)->withMinimumSequenceNumber(m)`: the stored events numbered `m` or higher, in order. */
  function AtLeast(stored: seq<EventEnvelope>, m: int): seq<EventEnvelope>
  {
    if stored == [] then []
    else
      var prior := AtLeast(stored[..|stored| - 1], m);
      if stored[|stored| - 1].sequenceNumber >= m then prior + [stored[|stored| - 1]] else prior
  }

  /** What the replay loop hands to the projection: each loaded event it can handle, denormalised, in order. */
  function Replayed(loaded: seq<EventEnvelope>, denormalize: NormalizedEvent -> DomainEvent,
                    canHandle: DomainEvent -> bool): seq<(DomainEvent, EventEnvelope)>
  {
    if loaded == [] then []
    else
      var prior := Replayed(loaded[..|loaded| - 1], denormalize, canHandle);
      var envelope := loaded[|loaded| - 1];
      if canHandle(denormalize(envelope.event)) then prior + [(denormalize(envelope.event), envelope)] else prior
  }

  /** With numbering from one, the events numbered `m` or higher are the suffix from index `m - 1`. */
  lemma {:induction false} AtLeastIsSuffix(stored: seq<EventEnvelope>, m: int)
    requires NumberedFromOne(stored) && 1 <= m <= |stored| + 1
    ensures AtLeast(stored, m) == stored[m - 1..]
  {
    if stored != [] {
      var n := |stored| - 1;
      assert NumberedFromOne(stored[..n]);
      if m <= n + 1 {
        AtLeastIsSuffix(stored[..n], m);
        assert stored[m - 1..] == stored[..n][m - 1..] + [stored[n]];
      } else {
        AtLeastNone(stored[..n], m);
      }
    }
  }

  lemma {:induction false} AtLeastNone(stored: seq<EventEnvelope>, m: int)
    requires NumberedFromOne(stored) && m > |stored|
    ensures AtLeast(stored, m) == []
  {
    if stored != [] {
      var n := |stored| - 1;
      assert NumberedFromOne(stored[..n]);
      AtLeastNone(stored[..n], m);
    }
  }

  lemma {:induction false} AtLeastAll(stored: seq<EventEnvelope>, m: int)
    requires NumberedFromOne(stored) && m <= 1
    ensures AtLeast(stored, m) == stored
  {
    if stored != [] {
      var n := |stored| - 1;
      assert NumberedFromOne(stored[..n]);
      AtLeastAll(stored[..n], m);
      assert stored == stored[..n] + [stored[n]];
    }
  }

  /**
   * The replay after committing `k` events on top of `n` stored ones loads
   * from sequence number `n`: when events were stored before, the last of
   * them is loaded again, ahead of the committed ones.
   */
  lemma ReplayStartsAtLastPriorEvent(prior: seq<EventEnvelope>, stream: StreamName, events: seq<NormalizedEvent>)
    requires NumberedFromOne(prior) && events != []
    ensures var all := prior + Envelopes(|prior|, stream, events);
      AtLeast(all, |all| - |events|) == (if prior == [] then all else [prior[|prior| - 1]] + Envelopes(|prior|, stream, events))
  {
    var all := prior + Envelopes(|prior|, stream, events);
    assert NumberedFromOne(all) by {
      forall i | 0 <= i < |all|
        ensures all[i].sequenceNumber == i + 1
      {
        if i >= |prior| {
          assert all[i] == Envelopes(|prior|, stream, events)[i - |prior|];
        }
      }
    }
    if prior == [] {
      AtLeastAll(all, 0);
    } else {
      AtLeastIsSuffix(all, |prior|);
      assert all[|prior| - 1..] == [prior[|prior| - 1]] + Envelopes(|prior|, stream, events);
    }
  }

  /** The in-memory event store the command is handled against. */
  class InMemoryEventStore {
    var stored: seq<EventEnvelope>

    ghost predicate Valid()
      reads this
    {
      NumberedFromOne(stored)
    }

    constructor ()
      ensures stored == [] && Valid()
    {
      stored := [];
    }

    /**
     * `commit`: when `accepts` admits the expected version, the events are
     * appended with the next sequence numbers and the highest of them is
     * returned; otherwise the commit fails and nothing is stored.
     */
    method Commit(stream: StreamName, events: Events<NormalizedEvent>, expected: ExpectedVersion,
                  accepts: (seq<EventEnvelope>, StreamName, ExpectedVersion) -> bool)
      returns (r: Result<int, Error>)
      requires Valid()
      modifies this
      ensures Valid()
      ensures !accepts(old(stored), stream, expected) ==> r == Failure(CommitRejected(stream)) && stored == old(stored)
      ensures accepts(old(stored), stream, expected) ==>
        stored == old(stored) + Envelopes(|old(stored)|, stream, Iterate(events)) && r == Success(|stored|)
    {
      if !accepts(stored, stream, expected) {
        return Failure(CommitRejected(stream));
      }
      ghost var before := stored;
      var added := Envelopes(|stored|, stream, Iterate(events));
      stored := stored + added;
      assert forall i :: |before| <= i < |stored| ==> stored[i] == added[i - |before|];
      r := Success(|stored|);
    }

    /** `load(VirtualStreamName::all())->withMinimumSequenceNumber(m)`. */
    method LoadFrom(m: int) returns (r: seq<EventEnvelope>)
      ensures r == AtLeast(stored, m)
    {
      r := [];
      var i := 0;
      while i < |stored|
        invariant 0 <= i <= |stored|
        invariant r == AtLeast(stored[..i], m)
      {
        assert stored[..i + 1][..i] == stored[..i];
        if stored[i].sequenceNumber >= m {
          r := r + [stored[i]];
        }
        i := i + 1;
      }
      assert stored[..i] == stored;
    }
  }

  /** The content graph projection the replay feeds. */
  class ContentGraphProjection {
    var applied: seq<(DomainEvent, EventEnvelope)>

    constructor ()
      ensures applied == []
    {
      applied := [];
    }

    method Apply(event: DomainEvent, envelope: EventEnvelope)
      modifies this
      ensures applied == old(applied) + [(event, envelope)]
    {
      applied := applied + [(event, envelope)];
    }
  }

  class CommandHandlingDependencies {
    const readModel: ReadModel
    const projection: ContentGraphProjection
    var overriddenContentGraphInstances: Overrides

    constructor (readModel: ReadModel, projection: ContentGraphProjection)
      ensures this.readModel == readModel && this.projection == projection
      ensures overriddenContentGraphInstances == map[]
    {
      this.readModel := readModel;
      this.projection := projection;
      overriddenContentGraphInstances := map[];
    }

    /** `getContentStreamVersion`: the version of a known content stream; an unknown one is an error. */
    method GetContentStreamVersion(id: ContentStreamId) returns (r: Result<int, Error>)
      ensures r.Failure? <==> FindContentStreamById(readModel, id).None?
      ensures r.Failure? ==> r.error == ContentStreamNotFound(id, VersionLookupCode)
      ensures r.Success? ==> r.value == readModel.contentStreams[id].version
    {
      var contentStream := FindContentStreamById(readModel, id);
      if contentStream.None? {
        return Failure(ContentStreamNotFound(id, VersionLookupCode));
      }
      r := Success(contentStream.value.version);
    }

    /** `contentStreamExists`: holds exactly when the lookup finds the stream. */
    method ContentStreamExists(id: ContentStreamId) returns (b: bool)
      ensures b <==> id in readModel.contentStreams
    {
      b := FindContentStreamById(readModel, id) != None;
    }

    /** `getContentStreamStatus`: the status of a known content stream; an unknown one is an error. */
    method GetContentStreamStatus(id: ContentStreamId) returns (r: Result<ContentStreamStatus, Error>)
      ensures r.Failure? <==> FindContentStreamById(readModel, id).None?
      ensures r.Failure? ==> r.error == ContentStreamNotFound(id, StatusLookupCode)
      ensures r.Success? ==> r.value == readModel.contentStreams[id].status
    {
      var contentStream := FindContentStreamById(readModel, id);
      if contentStream.None? {
        return Failure(ContentStreamNotFound(id, StatusLookupCode));
      }
      r := Success(contentStream.value.status);
    }

    /** `findWorkspaceByName`: the workspace, or null. */
    method FindWorkspaceByName(w: WorkspaceName) returns (r: Option<Workspace>)
      ensures r.Some? <==> w in readModel.workspaces
      ensures r.Some? ==> r.value == readModel.workspaces[w]
    {
      r := if w in readModel.workspaces then Some(readModel.workspaces[w]) else None;
    }

    /** `getContentGraph`: the override for the workspace when one is in effect, else the repository's graph. */
    method GetContentGraph(w: WorkspaceName) returns (r: Result<ContentGraph, Error>)
      ensures w in overriddenContentGraphInstances ==> r == Success(overriddenContentGraphInstances[w])
      ensures w !in overriddenContentGraphInstances ==>
        (r.Failure? <==> w !in readModel.workspaces)
        && (r.Failure? ==> r.error == WorkspaceDoesNotExist(w))
        && (r.Success? ==> r.value == ContentGraph(w, readModel.workspaces[w].currentContentStreamId))
    {
      if w in overriddenContentGraphInstances {
        return Success(overriddenContentGraphInstances[w]);
      }
      r := RepositoryContentGraph(readModel, w);
    }

    /**
     * `overrideContentStreamId`: rejected, with the overrides untouched,
     * when the workspace is overridden already; otherwise the closure runs
     * with the override in effect, and the override is removed however the
     * closure ends.
     */
    method OverrideContentStreamId(w: WorkspaceName, cs: ContentStreamId, fn: seq<Step>) returns (t: Trace)
      modifies this
      ensures t == RunOverride(old(overriddenContentGraphInstances), readModel, w, cs, fn)
      ensures overriddenContentGraphInstances == old(overriddenContentGraphInstances)
      decreases fn, 1
    {
      if w in overriddenContentGraphInstances {
        return Trace(Threw(OverrideAlreadyInEffect(w, NestedOverrideCode)), []);
      }
      ghost var before := overriddenContentGraphInstances;
      var contentGraph := ContentGraph(w, cs);
      overriddenContentGraphInstances := overriddenContentGraphInstances[w := contentGraph];
      t := Invoke(fn);
      overriddenContentGraphInstances := overriddenContentGraphInstances - {w};
      assert overriddenContentGraphInstances == before;
    }

    /** `$fn()`: runs the closure's steps against this facade. */
    method Invoke(steps: seq<Step>) returns (t: Trace)
      modifies this
      ensures t == RunSteps(old(overriddenContentGraphInstances), readModel, steps)
      ensures overriddenContentGraphInstances == old(overriddenContentGraphInstances)
      decreases steps, 0
    {
      if steps == [] {
        return Trace(Returned, []);
      }
      assert steps[0] in steps;
      match steps[0]
      case ReadGraph(w) =>
        var g := GetContentGraph(w);
        if g.Failure? {
          return Trace(Threw(g.error), []);
        }
        var rest := Invoke(steps[1..]);
        t := Trace(rest.outcome, [(w, g.value)] + rest.seen);
      case Throw(m) =>
        t := Trace(Threw(ClosureThrew(m)), []);
      case Override(w, cs, body) =>
        var inner := OverrideContentStreamId(w, cs, body);
        if inner.outcome.Threw? {
          return inner;
        }
        var rest := Invoke(steps[1..]);
        t := Trace(rest.outcome, inner.seen + rest.seen);
    }

    /**
     * `handleInMemory` for the events the command bus made of the command:
     * nothing happens when there are none; otherwise they are normalised in
     * order and committed with the handler's stream name and expected
     * version (a rejected commit propagates, and nothing is projected), and
     * every stored event numbered at least `highestCommitted - count` that
     * the projection can handle is applied to it, in load order.
     */
    method HandleInMemory(toPublish: EventsToPublish, store: InMemoryEventStore,
                          normalize: DomainEvent -> NormalizedEvent, denormalize: NormalizedEvent -> DomainEvent,
                          canHandle: DomainEvent -> bool,
                          accepts: (seq<EventEnvelope>, StreamName, ExpectedVersion) -> bool)
      returns (r: Result<(), Error>)
      requires store.Valid()
      modifies store, projection
      ensures store.Valid()
      ensures IsEmpty(toPublish.events) ==>
        r == Success(()) && store.stored == old(store.stored) && projection.applied == old(projection.applied)
      ensures !IsEmpty(toPublish.events) && !accepts(old(store.stored), toPublish.streamName, toPublish.expectedVersion) ==>
        r == Failure(CommitRejected(toPublish.streamName))
        && store.stored == old(store.stored) && projection.applied == old(projection.applied)
      ensures !IsEmpty(toPublish.events) && accepts(old(store.stored), toPublish.streamName, toPublish.expectedVersion) ==>
        && r == Success(())
        && store.stored == old(store.stored)
             + Envelopes(|old(store.stored)|, toPublish.streamName, Map(toPublish.events, normalize))
        && projection.applied == old(projection.applied)
             + Replayed(AtLeast(store.stored, |store.stored| - Count(toPublish.events)), denormalize, canHandle)
    {
      if IsEmpty(toPublish.events) {
        return Success(());
      }
      // The source builds the normalised list with the event store library's own
      // `Events::fromArray`; `EventStore.FromArray` stands in for both classes.
      var normalizedEvents := FromArray(Map(toPublish.events, normalize));
      FromArrayRoundTrip(Map(toPublish.events, normalize), normalizedEvents);
      var commitResult := store.Commit(toPublish.streamName, normalizedEvents, toPublish.expectedVersion, accepts);
      if commitResult.Failure? {
        return Failure(commitResult.error);
      }
      var eventStream := store.LoadFrom(commitResult.value - Count(toPublish.events));
      ghost var applied0 := projection.applied;
      var i := 0;
      while i < |eventStream|
        invariant 0 <= i <= |eventStream|
        invariant projection.applied == applied0 + Replayed(eventStream[..i], denormalize, canHandle)
        modifies projection
      {
        assert eventStream[..i + 1][..i] == eventStream[..i];
        var event := denormalize(eventStream[i].event);
        if canHandle(event) {
          projection.Apply(event, eventStream[i]);
        }
        i := i + 1;
      }
      assert eventStream[..i] == eventStream;
      r := Success(());
    }
  }
}
