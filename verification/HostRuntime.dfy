/**
 * The Activity Host: instance table, event ring, reducer queue, output lanes and accepted-input
 * feed. Every public method is one step under the Host lock.
 */
module HostRuntime {
  import opened HostTypes
  import opened OutputLives
  import opened HostTable
  import opened HostLinks
  import opened HostSteps
  import opened HostSlice
  import opened EventFeed
  import opened Incidents
  import opened MissionInputs
  import opened Wrappers

  /** The row of a canceled incident changes status only; any other cancellation touches no row. */
  ghost predicate RowEnded(records: seq<IncidentRecord>, after: seq<IncidentRecord>, x: Instance, incident: nat) {
    if x.outputKind == Some(OutputKind.Incident) then
      exists at :: && 0 <= at < |records| && Unstaged(records[at], x.binding, x.incidentRevision)
                   && records[at].incident == incident
                   && after == records[at := records[at].(status := IncidentStatus.Canceled)]
    else after == records
  }

  /** The Host moves no durable cursor but issued, and that one only forward. */
  ghost predicate OnlyIssues(durable: Durable, after: Durable) {
    && after.Keys == durable.Keys
    && forall b :: b in durable ==>
         && after[b].committed == durable[b].committed && after[b].faulted == durable[b].faulted
         && after[b].issued >= durable[b].issued
  }

  lemma GrantedIssues(durable: Durable, b: Binding, granted: bool)
    ensures if GrantedSequence(durable, b, granted) == 0 then OnlyIssues(durable, durable)
            else b in durable && OnlyIssues(durable, Issued(durable, b))
  {}

  class Host {
    const ring: EventRing
    const incidents: IncidentHistory
    const feed: MissionFeed
    var instances: seq<Instance>
    var pending: seq<PendingInput>
    var pendingRead: nat
    var queuedIngress: nat
    var queuedControls: nat
    var touched: nat
    var droppedIngress: nat
    var refusedControls: nat
    /** Mission State's cursors, as the Host reads and issues them. */
    var durable: Durable
    /** Generations whose storage was given away since the last reset. */
    ghost var evicted: set<Binding>
    /** Where the accepted-input feed promises one row for every owed sequence. */
    ghost var scope: Scope

    /** What every step keeps, whatever the queue holds. */
    ghost predicate Steady()
      reads this, ring, ring.slots, incidents, feed
    {
      && ring.Valid() && |instances| == INSTANCE_CAPACITY && |incidents.records| == INCIDENT_CAPACITY
      && Linked(instances, incidents.records, ring.history, evicted) && Recent(instances, touched)
      && FeedOk(feed.rows, feed.sequence, durable, scope) && Sane(durable)
    }

    /** What reducing a row may change. */
    ghost function Current(): State
      reads this, incidents, feed
    {
      State(instances, incidents.records, feed.rows, feed.sequence, durable, touched, droppedIngress, refusedControls,
            incidents.dropped, incidents.refused)
    }

    ghost predicate Valid()
      reads this, ring, ring.slots, incidents, feed
    {
      && Steady() && OutputsActive(instances)
      && pendingRead == 0 && QueueOk(pending, queuedControls, queuedIngress)
    }

    constructor ()
      ensures Valid() && ring.history == [] && durable == map[]
      ensures fresh(ring) && fresh(ring.slots) && fresh(incidents) && fresh(feed)
    {
      ring := new EventRing();
      incidents := new IncidentHistory();
      feed := new MissionFeed();
      instances := EmptyTable();
      pending, pendingRead, queuedIngress, queuedControls := [], 0, 0, 0;
      touched, droppedIngress, refusedControls, durable := 0, 0, 0, map[];
      evicted, scope := {}, Scope(map[], {});
      new;
      EmptyRun(instances, incidents.records);
    }

    lemma RingSequence()
      requires ring.Valid()
      ensures ring.sequence == |ring.history|
    {}

    // ---- lookups and single-field helpers --------------------------------------------------

    /** Index of the exact instance, or the table size. */
    method Find(b: Binding) returns (i: nat)
      ensures i == IndexOf(instances, b)
    {
      i := 0;
      while i < |instances| && !Owns(instances[i], b)
        invariant i <= |instances|
        invariant forall j :: 0 <= j < i ==> !Owns(instances[j], b)
      {
        i := i + 1;
      }
      IndexIsFirst(instances, b, i);
    }

    /** True when this binding already has an operator request waiting to reduce. */
    method HasQueuedControl(b: Binding) returns (queued: bool)
      requires pendingRead <= |pending|
      ensures queued <==> exists k :: pendingRead <= k < |pending| && IsControl(pending[k]) && pending[k].binding == b
    {
      for index := pendingRead to |pending|
        invariant forall k :: pendingRead <= k < index ==> !(IsControl(pending[k]) && pending[k].binding == b)
      {
        if IsControl(pending[index]) && pending[index].binding == b {
          return true;
        }
      }
      return false;
    }

    /** Assigns the binding's next durable sequence when the allocator and mission State grant one. */
    method Stamp(event: Event, granted: bool) returns (stamped: Event)
      requires event.missionSequence == 0
      modifies this`durable
      ensures var known := MissionKind(event.kind) && IndexOf(instances, event.binding) < |instances|;
              stamped == event.(missionSequence := if known then GrantedSequence(old(durable), event.binding, granted) else 0)
      ensures if stamped.missionSequence == 0 then durable == old(durable)
              else event.binding in old(durable) && durable == Issued(old(durable), event.binding)
    {
      hide IndexOf, MissionKind;
      stamped := event;
      if !MissionKind(event.kind) {
        return;
      }
      var i := Find(event.binding);
      if i == |instances| {
        return;
      }
      if !granted || event.binding !in durable || HighWater(durable[event.binding]) == MAX_COUNTER {
        return;
      }
      stamped := event.(missionSequence := HighWater(durable[event.binding]) + 1);
      durable := Issued(durable, event.binding);
    }

    /** Appends one event that is not a mission input. */
    method AppendEvent(event: Event)
      requires ring.Valid() && event.missionSequence == 0 && !MissionKind(event.kind)
      modifies ring`start, ring`count, ring`sequence, ring`overwritten, ring`history, ring.slots
      ensures ring.Valid()
      ensures ring.history == old(ring.history) + [event.(sequence := |old(ring.history)| + 1)]
      ensures ring.sequence == |ring.history|
    {
      var stamped := ring.Append(event);
    }

    /** Retains a stamped input in the accepted-input feed. */
    method Retain(stamped: Event, ghost before: Durable)
      requires FeedOk(feed.rows, feed.sequence, before, scope) && Sane(before)
      requires stamped.missionSequence == 0 ==> durable == before
      requires stamped.missionSequence != 0 ==>
                 && stamped.binding in before && durable == Issued(before, stamped.binding)
                 && HighWater(before[stamped.binding]) + 1 == stamped.missionSequence
                 && HighWater(before[stamped.binding]) != MAX_COUNTER
      modifies feed
      ensures FeedOk(feed.rows, feed.sequence, durable, scope) && Sane(durable)
      ensures stamped.missionSequence == 0 ==> feed.rows == old(feed.rows) && feed.sequence == old(feed.sequence)
      ensures stamped.missionSequence != 0 ==>
                feed.sequence == old(feed.sequence) + 1 && feed.rows == old(feed.rows) + [Fed(stamped, feed.sequence)]
    {
      hide FeedOk;
      ghost var rows, sequence := feed.rows, feed.sequence;
      feed.Append(stamped);
      if stamped.missionSequence != 0 {
        AcceptKeeps(rows, sequence, before, scope, Fed(stamped, feed.sequence));
      }
    }

    /** Makes one instance the last to be replaced. */
    method Touch(i: nat)
      requires i < |instances|
      modifies `instances, `touched
      ensures touched == old(touched) + 1
      ensures instances == old(instances)[i := old(instances)[i].(lastTouched := touched)]
    {
      touched := touched + 1;
      instances := instances[i := instances[i].(lastTouched := touched)];
    }

    /** Appends one accepted client input to the event ring and to the accepted-input feed. */
    method AppendInput(event: Event, granted: bool) returns (stamped: Event)
      requires ring.Valid() && event.missionSequence == 0
      requires MissionKind(event.kind) && IndexOf(instances, event.binding) < |instances|
      requires FeedOk(feed.rows, feed.sequence, durable, scope) && Sane(durable)
      modifies `durable, feed
      modifies ring`start, ring`count, ring`sequence, ring`overwritten, ring`history, ring.slots
      ensures ring.Valid() && FeedOk(feed.rows, feed.sequence, durable, scope) && Sane(durable)
      ensures OnlyIssues(old(durable), durable)
      ensures ring.history == old(ring.history) + [stamped] && ring.sequence == |ring.history|
      ensures stamped == event.(missionSequence := GrantedSequence(old(durable), event.binding, granted),
                                sequence := |ring.history|)
      ensures Accepted(stamped, old(Current()), Current())
    {
      hide FeedOk, Sane, MissionKind, EventRing.Valid, IndexOf, Fed;
      ghost var before := durable;
      GrantedIssues(durable, event.binding, granted);
      stamped := Stamp(event, granted);
      stamped := ring.Append(stamped);
      Retain(stamped, before);
      RingSequence();
    }

    /** Appends one event and, for a known instance, writes it back with the event's sequence. */
    method Record(i: nat, x: Instance, event: Event) returns (ghost answer: seq<Event>)
      requires ring.Valid() && event.missionSequence == 0 && !MissionKind(event.kind) && i <= |instances|
      modifies `instances
      modifies ring`start, ring`count, ring`sequence, ring`overwritten, ring`history, ring.slots
      ensures ring.Valid() && ring.sequence == |ring.history| && answer == [event.(sequence := |ring.history|)]
      ensures ring.history == old(ring.history) + answer
      ensures instances == if i == |old(instances)| then old(instances)
                           else old(instances)[i := x.(lastEventSequence := |ring.history|)]
    {
      hide EventRing.Valid, MissionKind;
      AppendEvent(event);
      answer := [event.(sequence := ring.sequence)];
      if i < |instances| {
        instances := instances[i := x.(lastEventSequence := ring.sequence)];
      }
    }

    /** Answers one operator request with a refusal. */
    method Refuse(i: nat, event: Event) returns (ghost answer: seq<Event>)
      requires Steady() && i == IndexOf(instances, event.binding)
      requires event.missionSequence == 0 && (event.kind == OperatorRefused || event.kind == IncidentRefused)
      modifies `instances, `refusedControls
      modifies ring`start, ring`count, ring`sequence, ring`overwritten, ring`history, ring.slots
      ensures Steady() && refusedControls == old(refusedControls) + 1
      ensures ring.history == old(ring.history) + answer && answer == [event.(sequence := |ring.history|)]
      ensures instances == Marked(old(instances), event.binding, |ring.history|)
      ensures SameGenerations(old(instances), instances)
      ensures old(OutputsActive(instances)) ==> OutputsActive(instances)
    {
      hide Linked, FeedOk, Sane, EventRing.Valid, SameGenerations, OutputsActive, IndexOf, Recent;
      ghost var before, history := instances, ring.history;
      refusedControls := refusedControls + 1;
      if i == |instances| {
        answer := Record(i, Cleared(), event);
        QuietEventLinked(before, incidents.records, history, evicted, answer[0]);
        SameReflexive(instances);
      } else {
        RecentKept(instances, touched, i, instances[i].(lastEventSequence := |history| + 1));
        answer := Record(i, instances[i], event);
        RefusedLinked(before, incidents.records, history, evicted, i, |ring.history|, answer[0]);
      }
    }

    // ---- reducers: queued inputs, applied in order -----------------------------------------

    /** Retains one client State change, entity-slot request or Sense update in both histories. */
    method ApplyClientInput(p: PendingInput, r: Replies, now: nat) returns (ghost answer: seq<Event>)
      requires Steady() && p.ClientInput? && MissionKind(p.kind)
      modifies `instances, `touched, `droppedIngress, `durable, feed
      modifies ring`start, ring`count, ring`sequence, ring`overwritten, ring`history, ring.slots
      ensures SameGenerations(old(instances), instances)
      ensures old(OutputsActive(instances)) ==> OutputsActive(instances)
      ensures Steady() && OnlyIssues(old(durable), durable)
      ensures ring.history == old(ring.history) + answer
      ensures InputReduced(p, r, now, old(Current()), Current(), answer, |ring.history|)
    {
      SameReflexive(instances);
      OnlyIssuesReflexive(durable);
      hide Linked, SameGenerations, OutputsActive, FeedOk, Sane, InputEvent, MissionKind, EventRing.Valid, Recent, IndexOf,
           Fed, Issued, HighWater, GrantedSequence, OnlyIssues;
      answer := [];
      var i := Find(p.binding);
      if i == |instances| || !instances[i].active {
        droppedIngress := droppedIngress + 1;
        return;
      }
      ghost var before := instances;
      ghost var history := ring.history;
      var event := InputEvent(p, instances[i], now);
      Touch(i);
      IndexKept(before, i, instances[i], p.binding);
      var stamped := AppendInput(event, r.granted);
      instances := instances[i := instances[i].(lastEventSequence := ring.sequence)];
      answer := [stamped];
      assert instances == before[i := instances[i]];
      RecentSet(before, touched - 1, i, instances[i], touched);
      MarkedLinked(before, incidents.records, history, evicted, i, instances[i], stamped);
    }

    /** Publishes one client envelope into the accepted-input feed only. */
    method ApplyClientMessage(p: PendingInput, r: Replies, now: nat)
      requires Steady() && p.ClientMessage?
      modifies `instances, `touched, `droppedIngress, `durable, feed
      ensures SameGenerations(old(instances), instances)
      ensures old(OutputsActive(instances)) ==> OutputsActive(instances)
      ensures Steady() && OnlyIssues(old(durable), durable)
      ensures MessageReduced(p, r, now, old(Current()), Current(), [])
    {
      SameReflexive(instances);
      OnlyIssuesReflexive(durable);
      MessagesAreInputs();
      hide Linked, SameGenerations, OutputsActive, FeedOk, Sane, MessageEvent, MissionKind, EventRing.Valid, Recent, IndexOf,
           Fed, HighWater;
      var i := Find(p.binding);
      if i == |instances| || !instances[i].active {
        droppedIngress := droppedIngress + 1;
        return;
      }
      ghost var before := instances;
      ghost var issued := durable;
      var event := MessageEvent(p, instances[i], now);
      Touch(i);
      IndexKept(before, i, instances[i], p.binding);
      GrantedIssues(durable, p.binding, r.granted);
      var stamped := Stamp(event, r.granted);
      Retain(stamped, issued);
      RecentSet(before, touched - 1, i, instances[i], touched);
      MarkedLinked(before, incidents.records, ring.history, evicted, i, instances[i], BlankEvent(p.binding, OperatorRefused, now));
    }

    /** Retains one client incident in both histories and, when a row allows, in the incident history. */
    method ApplyIncident(p: PendingInput, r: Replies, now: nat) returns (ghost answer: seq<Event>)
      requires Steady() && p.ClientIncident?
      modifies `instances, `touched, `droppedIngress, `durable, feed, incidents
      modifies ring`start, ring`count, ring`sequence, ring`overwritten, ring`history, ring.slots
      ensures SameGenerations(old(instances), instances)
      ensures old(OutputsActive(instances)) ==> OutputsActive(instances)
      ensures Steady() && OnlyIssues(old(durable), durable)
      ensures ring.history == old(ring.history) + answer
      ensures IncidentReduced(p, r, now, old(Current()), Current(), answer, |ring.history|)
    {
      SameReflexive(instances);
      OnlyIssuesReflexive(durable);
      MessagesAreInputs();
      hide Linked, SameGenerations, OutputsActive, FeedOk, Sane, MissionKind, EventRing.Valid, Evictable, OneRowEach,
           IncidentEvent, Recent, IndexOf, Fed, Issued, HighWater, GrantedSequence, OnlyIssues, RowTaken, ReceivedRow;
      answer := [];
      var i := Find(p.binding);
      if i == |instances| || !instances[i].active {
        droppedIngress := droppedIngress + 1;
        incidents.dropped := incidents.dropped + 1;
        return;
      }
      ghost var before, history := instances, ring.history;
      touched := touched + 1;
      var stamped := AppendInput(IncidentEvent(p.binding, IncidentReceived, now, 0, p.incident, p.sourceGeneration), r.granted);
      instances := instances[i := IncidentSeen(instances[i], touched, ring.sequence)];
      answer := [stamped];
      IncidentSeenLinked(before, incidents.records, history, evicted, i, touched, ring.sequence, stamped);
      RecentSet(before, touched - 1, i, instances[i], touched);
      ReceivedInbound(p.binding, p.incident, ring.sequence);
      RetainReceived(ReceivedRow(p.binding, p.incident, ring.sequence));
    }

    /** Gives a client incident a row, or counts it dropped when every row is unstaged operator work. */
    method RetainReceived(row: IncidentRecord)
      requires |incidents.records| == INCIDENT_CAPACITY && !row.outbound
      requires Linked(instances, incidents.records, ring.history, evicted)
      modifies incidents
      ensures |incidents.records| == INCIDENT_CAPACITY
      ensures Linked(instances, incidents.records, ring.history, evicted)
      ensures incidents.refused == old(incidents.refused)
      ensures RowTaken(old(incidents.records), incidents.records, row, incidents.dropped - old(incidents.dropped))
    {
      hide Linked, Evictable, Reserved;
      var at := incidents.Reserve();
      if at == INCIDENT_CAPACITY {
        incidents.dropped := incidents.dropped + 1;
        return;
      }
      ReservedFree(incidents.records, at);
      ClientRowLinked(instances, incidents.records, ring.history, evicted, at, row);
      incidents.records := incidents.records[at := row];
    }

    /** Commits an Auth transition into a free output slot, or refuses it. */
    method ApplyControl(p: PendingInput, now: nat) returns (ghost answer: seq<Event>)
      requires Steady() && p.AuthControl?
      modifies `instances, `touched, `refusedControls
      modifies ring`start, ring`count, ring`sequence, ring`overwritten, ring`history, ring.slots
      ensures Steady() && ring.history == old(ring.history) + answer && |answer| == 1
      ensures SameGenerations(old(instances), instances)
      ensures old(OutputsActive(instances)) ==> OutputsActive(instances)
      ensures AuthReduced(p, now, old(Current()), Current(), answer, |ring.history|)
    {
      hide Linked, FeedOk, Sane, EventRing.Valid, SameGenerations, OutputsActive, AuthEvent, AuthCommitted, IndexOf,
           HoldsAuth, Recent, Marked;
      ghost var before, history := instances, ring.history;
      var i := Find(p.binding);
      if i == |instances| || !instances[i].active {
        answer := Refuse(i, AuthEvent(p.binding, OperatorRefused, now, 0, p.lifetimeState, 0));
        return;
      }
      var x := instances[i];
      if x.outputPending || x.stateRevision == MAX_COUNTER {
        answer := Refuse(i, AuthEvent(p.binding, OperatorRefused, now, x.stateRevision, p.lifetimeState, 0));
        return;
      }
      touched := touched + 1;
      var revision := x.stateRevision + 1;
      x := AuthCommitted(x, p.lifetimeState).(lastTouched := touched);
      answer := Record(i, x, AuthEvent(p.binding, AuthStateCommitted, now, revision, p.lifetimeState, 0));
      AuthCommitLinked(before, incidents.records, history, evicted, i, instances[i], answer[0], p.lifetimeState, now);
      CommittedHolds(before, i, instances[i], answer[0], p.lifetimeState, now);
      RecentSet(before, touched - 1, i, instances[i], touched);
    }

    /** Holds one operator incident in the output slot of a live generation, and in one reserved row. */
    method QueueIncident(p: PendingInput, i: nat, at: nat, now: nat) returns (ghost answer: seq<Event>)
      requires Steady() && p.IncidentControl? && i < |instances| && Owns(instances[i], p.binding)
      requires instances[i].active && !instances[i].outputPending && at < INCIDENT_CAPACITY
      requires instances[i].incidentRevision != MAX_COUNTER
      requires Reserved(incidents.records, at)
      modifies `instances, `touched, incidents`records
      modifies ring`start, ring`count, ring`sequence, ring`overwritten, ring`history, ring.slots
      ensures Steady() && ring.history == old(ring.history) + answer && touched == old(touched) + 1
      ensures SameGenerations(old(instances), instances)
      ensures old(OutputsActive(instances)) ==> OutputsActive(instances)
      ensures var x := old(instances)[i];
              && instances == old(instances)[i := IncidentCommitted(x).(lastTouched := touched,
                                                                        lastEventSequence := |ring.history|)]
              && answer == [IncidentEvent(p.binding, IncidentQueued, now, x.incidentRevision + 1, p.incident, 0).(
                              sequence := |ring.history|)]
              && incidents.records == old(incidents.records)[
                                        at := QueuedRow(p.binding, p.incident, x.incidentRevision + 1, |ring.history|)]
    {
      hide Linked, FeedOk, Sane, EventRing.Valid, SameGenerations, OutputsActive, IndexOf, IncidentEvent, IncidentCommitted,
           Evictable, QueuedRow, Recent, Reserved;
      ghost var before, history, rows := instances, ring.history, incidents.records;
      touched := touched + 1;
      var revision := instances[i].incidentRevision + 1;
      var x := IncidentCommitted(instances[i]).(lastTouched := touched);
      answer := Record(i, x, IncidentEvent(p.binding, IncidentQueued, now, revision, p.incident, 0));
      var sequence := ring.sequence;
      incidents.records := incidents.records[at := QueuedRow(p.binding, p.incident, revision, sequence)];
      ReservedFree(rows, at);
      RecentSet(before, touched - 1, i, instances[i], touched);
      IncidentQueueLinked(before, rows, history, evicted, i, instances[i], answer[0], at, |ring.history|, p.incident, now);
    }

    /** Commits one operator incident into the serialized output slot and the incident history. */
    method ApplyIncidentControl(p: PendingInput, now: nat) returns (ghost answer: seq<Event>)
      requires Steady() && p.IncidentControl?
      modifies `instances, `touched, `refusedControls, incidents
      modifies ring`start, ring`count, ring`sequence, ring`overwritten, ring`history, ring.slots
      ensures Steady() && ring.history == old(ring.history) + answer && |answer| == 1
      ensures SameGenerations(old(instances), instances)
      ensures old(OutputsActive(instances)) ==> OutputsActive(instances)
      ensures QueueReduced(p, now, old(Current()), Current(), answer, |ring.history|)
    {
      hide Linked, FeedOk, Sane, EventRing.Valid, SameGenerations, OutputsActive, IndexOf, IncidentEvent, IncidentCommitted,
           Evictable, QueuedRow, Recent, Reserved, Marked, QueueReduced;
      ghost var s := Current();
      var i := Find(p.binding);
      var at := INCIDENT_CAPACITY;
      if i < |instances| && instances[i].active && !instances[i].outputPending
         && instances[i].incidentRevision != MAX_COUNTER {
        at := incidents.Reserve();
      }
      if at == INCIDENT_CAPACITY {
        incidents.refused := incidents.refused + 1;
        answer := Refuse(i, IncidentEvent(p.binding, IncidentRefused, now, 0, p.incident, 0));
        QueueTurnedAway(p, now, s, Current(), answer, |ring.history|);
        return;
      }
      ReservedFree(s.records, at);
      answer := QueueIncident(p, i, at, now);
      QueueTaken(p, now, s, Current(), answer, |ring.history|, at);
    }

    /** Commits one scriptable body: as the head of a free slot, or into the burst that already holds it. */
    method ApplyScriptable(p: PendingInput, r: Replies, now: nat) returns (ghost answer: seq<Event>)
      requires Steady() && OutputsActive(instances) && p.ScriptableControl?
      modifies `instances, `touched, `refusedControls
      modifies ring`start, ring`count, ring`sequence, ring`overwritten, ring`history, ring.slots
      ensures Steady() && ring.history == old(ring.history) + answer && |answer| == 1
      ensures SameGenerations(old(instances), instances) && OutputsActive(instances)
      ensures ScriptableReduced(p, r, now, old(Current()), Current(), answer, |ring.history|)
    {
      hide Linked, FeedOk, Sane, EventRing.Valid, SameGenerations, OutputsActive, IndexOf, ScriptableMove,
           ScriptableCommitted, TableOk, Coherent, Recent, Marked, ScriptableReduced, ScriptableEvent;
      ghost var s := Current();
      LinkedTable(instances, incidents.records, ring.history, evicted);
      var i := Find(p.binding);
      if i == |instances| || !instances[i].active {
        answer := Refuse(i, BlankEvent(p.binding, OperatorRefused, now));
        ScriptableTurnedAway(p, r, now, s, Current(), answer, |ring.history|);
        return;
      }
      var x := instances[i];
      var joins := Joins(x, p, r.room);
      if (x.outputPending && !joins) || !r.armed || x.scriptableRevision == MAX_COUNTER
         || (p.revision != 0 && !joins && x.scriptableRevision + 1 != p.revision) || !r.encoded {
        answer := Refuse(i, BlankEvent(p.binding, OperatorRefused, now));
        ScriptableTurnedAway(p, r, now, s, Current(), answer, |ring.history|);
        return;
      }
      RecentRaised(instances, touched);
      touched := touched + 1;
      var y := (if joins then x else ScriptableCommitted(x)).(lastTouched := touched);
      CommitMoves(x, y, joins, |ring.history| + 1);
      answer := MoveScriptable(i, y, ScriptableEvent(p.binding, ScriptableOverrideCommitted, now, y.scriptableRevision, 0));
      ScriptableTaken(p, r, now, s, Current(), answer, |ring.history|);
    }

    // ---- ending a held output --------------------------------------------------------------

    /** Ends a held Auth state. */
    method EndOutput(i: nat, x: Instance, event: Event) returns (ghost answer: seq<Event>)
      requires Steady() && i < |instances| && EndsAuth(instances[i], x, event) && x.lastTouched <= touched
      modifies `instances
      modifies ring`start, ring`count, ring`sequence, ring`overwritten, ring`history, ring.slots
      ensures Steady() && SameGenerations(old(instances), instances)
      ensures old(OutputsActive(instances)) ==> OutputsActive(instances)
      ensures ring.history == old(ring.history) + answer && answer == [event.(sequence := |ring.history|)]
      ensures instances == old(instances)[i := x.(lastEventSequence := |ring.history|)]
    {
      hide Linked, FeedOk, Sane, EventRing.Valid, SameGenerations, OutputsActive, Recent;
      ghost var before, history := instances, ring.history;
      RecentSet(instances, touched, i, x.(lastEventSequence := |history| + 1), touched);
      EndsAuthMarked(before[i], x, event, 0);
      EndsNoInput(before[i], x, event);
      hide Ends, EndsAuth;
      answer := Record(i, x, event);
      EndOutputLinked(before, incidents.records, history, evicted, i, instances[i], answer[0], x, event);
    }

    /** Ends a held incident: its row changes state and its slot is released. */
    method EndIncident(i: nat, x: Instance, event: Event, at: nat, row: IncidentRecord) returns (ghost answer: seq<Event>)
      requires Steady() && i < |instances| && at < |incidents.records| && x.lastTouched <= touched
      requires EndsIncident(instances[i], x, event, incidents.records[at]) && SameIncident(incidents.records[at], row)
      modifies `instances, incidents`records
      modifies ring`start, ring`count, ring`sequence, ring`overwritten, ring`history, ring.slots
      ensures Steady() && SameGenerations(old(instances), instances)
      ensures old(OutputsActive(instances)) ==> OutputsActive(instances)
      ensures ring.history == old(ring.history) + answer && answer == [event.(sequence := |ring.history|)]
      ensures instances == old(instances)[i := x.(lastEventSequence := |ring.history|)]
      ensures incidents.records == old(incidents.records)[at := row]
    {
      hide Linked, FeedOk, Sane, EventRing.Valid, SameGenerations, OutputsActive, Unstaged, SameIncident, Recent;
      ghost var before, history, rows := instances, ring.history, incidents.records;
      RecentSet(instances, touched, i, x.(lastEventSequence := |history| + 1), touched);
      EndsIncidentMarked(before[i], x, event, rows[at], 0);
      EndsNoInput(before[i], x, event);
      hide Ends, EndsIncident;
      incidents.records := incidents.records[at := row];
      answer := Record(i, x, event);
      EndIncidentRowLinked(before, rows, history, evicted, i, instances[i], answer[0], x, event, at, row);
    }

    /** One step of the scriptable lane, with its event. */
    method MoveScriptable(i: nat, x: Instance, event: Event) returns (ghost answer: seq<Event>)
      requires Steady() && i < |instances| && ScriptableMove(instances[i], x.(lastEventSequence := |ring.history| + 1))
      requires ScriptableKind(event.kind) && event.binding == x.binding && event.missionSequence == 0
      requires x.lastTouched <= touched
      modifies `instances
      modifies ring`start, ring`count, ring`sequence, ring`overwritten, ring`history, ring.slots
      ensures Steady() && SameGenerations(old(instances), instances)
      ensures old(OutputsActive(instances)) ==> OutputsActive(instances)
      ensures ring.history == old(ring.history) + answer && answer == [event.(sequence := |ring.history|)]
      ensures instances == old(instances)[i := x.(lastEventSequence := |ring.history|)]
    {
      hide Linked, FeedOk, Sane, EventRing.Valid, SameGenerations, OutputsActive, ScriptableMove, Recent;
      ghost var before, history := instances, ring.history;
      RecentSet(instances, touched, i, x.(lastEventSequence := |history| + 1), touched);
      answer := Record(i, x, event);
      ScriptableLinked(before, incidents.records, history, evicted, i, instances[i], answer[0]);
    }

    /** Cancels one committed output. */
    method CancelOutput(i: nat, now: nat) returns (ghost answer: seq<Event>)
      requires Steady() && i < |instances| && instances[i].occupied
      modifies `instances, incidents`records
      modifies ring`start, ring`count, ring`sequence, ring`overwritten, ring`history, ring.slots
      ensures Steady() && SameGenerations(old(instances), instances)
      ensures old(OutputsActive(instances)) ==> OutputsActive(instances)
      ensures ring.history == old(ring.history) + answer
      ensures !old(instances)[i].outputPending ==>
                instances == old(instances) && incidents.records == old(incidents.records) && answer == []
      ensures old(instances)[i].outputPending ==>
                var x := old(instances)[i];
                && instances == old(instances)[i := OutputCanceled(x).(lastEventSequence := |ring.history|)]
                && GivenBack(x, instances[i]) && |answer| == 1 && CancelsOutput(x, answer[0], now)
                && RowEnded(old(incidents.records), incidents.records, x, answer[0].payload)
    {
      hide Linked, FeedOk, Sane, EventRing.Valid, SameGenerations, OutputsActive, OutputCanceled, CancelsOutput, Names,
           Coherent, Ends, EndsAuth, EndsIncident, SameIncident, Recent, GivenBack;
      answer := [];
      LinkedTable(instances, incidents.records, ring.history, evicted);
      CanceledGivesBack(instances[i], |ring.history| + 1);
      SameReflexive(instances);
      if !instances[i].outputPending {
        return;
      }
      var x := instances[i];
      RecentKept(instances, touched, i, x);
      if x.outputKind == Some(OutputKind.Incident) {
        HeldIncidentFound(instances, incidents.records, ring.history, evicted, i);
        var at := incidents.Find(x.binding, x.incidentRevision);
        var row := incidents.records[at].(status := IncidentStatus.Canceled);
        CancelEndsIncident(x, incidents.records[at], now);
        answer := EndIncident(i, OutputCanceled(x), CancelEvent(x, row.incident, now), at, row);
        CancelEventCancels(x, row.incident, now, |ring.history|);
      } else if x.outputKind == Some(ScriptableOverride) {
        CancelMoves(x, now, |ring.history| + 1);
        answer := MoveScriptable(i, OutputCanceled(x), CancelEvent(x, 0, now));
        CancelEventCancels(x, 0, now, |ring.history|);
      } else {
        CancelEnds(x, now);
        answer := EndOutput(i, OutputCanceled(x), CancelEvent(x, 0, now));
        CancelEventCancels(x, 0, now, |ring.history|);
      }
    }

    // ---- the service slice -----------------------------------------------------------------

    /** Recomputes which generations are active, and cancels what the others still hold. */
    method Deactivate(bindings: seq<Binding>, now: nat) returns (ghost canceled: seq<Event>)
      requires Steady()
      modifies `instances, incidents`records
      modifies ring`start, ring`count, ring`sequence, ring`overwritten, ring`history, ring.slots
      ensures Steady() && SameStorage(old(instances), instances)
      ensures ring.history == old(ring.history) + canceled
      ensures Cancels(old(instances), INSTANCE_CAPACITY, bindings, now, canceled)
      ensures forall i :: 0 <= i < |instances| ==> Serviced(instances[i], bindings)
      ensures forall i :: 0 <= i < |instances| ==> Released(old(instances)[i], instances[i], bindings)
    {
      hide Linked, FeedOk, Sane, EventRing.Valid, Cancels, Serviced, Released, CancelsOutput, Recent;
      canceled := [];
      NothingCanceled(instances, bindings, now);
      for i := 0 to INSTANCE_CAPACITY
        invariant Steady() && SameStorage(old(instances), instances)
        invariant ring.history == old(ring.history) + canceled
        invariant Cancels(old(instances), i, bindings, now, canceled)
        invariant forall j :: i <= j < |instances| ==> instances[j] == old(instances)[j]
        invariant forall j :: 0 <= j < i ==> Serviced(instances[j], bindings)
        invariant forall j :: 0 <= j < i ==> Released(old(instances)[j], instances[j], bindings)
      {
        ghost var events := canceled;
        ghost var answer := DeactivateOne(i, bindings, now);
        CancelsNext(old(instances), i, bindings, now, events, answer);
        canceled := events + answer;
      }
    }

    /** One generation's share of the above. */
    method DeactivateOne(i: nat, bindings: seq<Binding>, now: nat) returns (ghost answer: seq<Event>)
      requires Steady() && i < |instances|
      modifies `instances, incidents`records
      modifies ring`start, ring`count, ring`sequence, ring`overwritten, ring`history, ring.slots
      ensures Steady() && SameStorage(old(instances), instances)
      ensures ring.history == old(ring.history) + answer
      ensures var x := old(instances)[i];
              if x.outputPending && !Kept(x, bindings) then |answer| == 1 && CancelsOutput(x, answer[0], now) else answer == []
      ensures Serviced(instances[i], bindings) && Released(old(instances)[i], instances[i], bindings)
      ensures forall j :: 0 <= j < |instances| && j != i ==> instances[j] == old(instances)[j]
    {
      hide Linked, FeedOk, Sane, EventRing.Valid, RowEnded, Serviced, TableOk, Recent;
      answer := [];
      var active := instances[i].occupied && instances[i].binding in bindings;
      LinkedTable(instances, incidents.records, ring.history, evicted);
      FlagsLinked(instances, incidents.records, ring.history, evicted, i, active, instances[i].scriptableReservationPending);
      RecentKept(instances, touched, i, instances[i].(active := active));
      instances := instances[i := instances[i].(active := active)];
      if instances[i].occupied && !active && instances[i].outputPending {
        answer := CancelOutput(i, now);
      }
      if instances[i].occupied && !active && instances[i].scriptableReservationPending {
        FlagsLinked(instances, incidents.records, ring.history, evicted, i, false, false);
        RecentKept(instances, touched, i, instances[i].(scriptableReservationPending := false));
        instances := instances[i := instances[i].(scriptableReservationPending := false)];
      }
      LinkedTable(instances, incidents.records, ring.history, evicted);
      DeactivatedServiced(instances[i], bindings);
    }

    /** The instance of one generation, allocated without evicting an active one. */
    method EnsureInstance(b: Binding) returns (i: nat)
      requires Steady() && b !in evicted
      modifies `instances, `evicted
      ensures Steady() && i <= |instances|
      ensures IndexOf(old(instances), b) < |instances| ==>
                i == IndexOf(old(instances), b) && instances == old(instances) && evicted == old(evicted)
      ensures IndexOf(old(instances), b) == |instances| ==>
                if i < |instances| then
                  && Chosen(old(instances), i)
                  && (old(instances)[i].occupied ==> EvictsOldest(old(instances), i))
                  && instances == old(instances)[i := Fresh(b)] && evicted == EvictedBy(old(instances), i, old(evicted))
                else
                  && (forall j :: 0 <= j < |instances| ==> instances[j].occupied && !Replaceable(instances[j]))
                  && instances == old(instances) && evicted == old(evicted)
    {
      hide Linked, FeedOk, Sane, EventRing.Valid, Recent;
      i := Find(b);
      if i < |instances| {
        return;
      }
      LinkedTable(instances, incidents.records, ring.history, evicted);
      i := Choose();
      if i < |instances| {
        ChosenOldest(instances, i);
        ChosenReplaceable(instances, i);
        ReplaceLinked(instances, incidents.records, ring.history, evicted, i, b);
        RecentSet(instances, touched, i, Fresh(b), touched);
        evicted := EvictedBy(instances, i, evicted);
        instances := instances[i := Fresh(b)];
      }
    }

    /** The first free storage, else the least recently touched replaceable one. */
    method Choose() returns (i: nat)
      requires forall j :: 0 <= j < |instances| ==> Coherent(instances[j])
      ensures i <= |instances|
      ensures if i < |instances| then Chosen(instances, i)
              else forall j :: 0 <= j < |instances| ==> instances[j].occupied && !Replaceable(instances[j])
    {
      i := |instances|;
      for index := 0 to |instances|
        invariant forall j :: 0 <= j < index ==> instances[j].occupied
        invariant i == |instances| || i < index
        invariant i == |instances| ==> forall j :: 0 <= j < index ==> !Replaceable(instances[j])
        invariant i < index ==> Replaceable(instances[i])
        invariant i < index ==> forall j :: 0 <= j < index && Replaceable(instances[j]) ==>
                                              instances[i].lastTouched <= instances[j].lastTouched
      {
        if !instances[index].occupied {
          return index;
        }
        if Replaceable(instances[index])
           && (i == |instances| || instances[index].lastTouched < instances[i].lastTouched) {
          i := index;
        }
      }
    }

    /** Gives one retained generation an active instance. */
    method ActivateOne(bindings: seq<Binding>, index: nat)
      requires Steady() && RetainedOk(bindings, evicted) && index < |bindings|
      requires forall i :: 0 <= i < |instances| ==> Serviced(instances[i], bindings)
      modifies `instances, `evicted, `touched
      ensures Steady() && RetainedOk(bindings, evicted) && old(evicted) <= evicted && touched == old(touched) + 1
      ensures forall i :: 0 <= i < |instances| ==> Serviced(instances[i], bindings)
      ensures ActivatedAs(old(instances), instances, bindings[index], touched)
      ensures OnlyActivated(old(instances), instances, bindings[index])
      ensures var i := IndexOf(instances, bindings[index]);
              if IndexOf(old(instances), bindings[index]) == |instances|
              then old(instances)[i].occupied ==> EvictsOldest(old(instances), i)
              else i == IndexOf(old(instances), bindings[index])
      ensures forall b :: b in bindings && b != bindings[index] ==> IndexOf(instances, b) == IndexOf(old(instances), b)
    {
      hide Linked, FeedOk, Sane, EventRing.Valid, TableOk, IndexOf, Recent, EvictsOldest;
      ghost var before, gone, missing := instances, evicted, IndexOf(instances, bindings[index]) == |instances|;
      LinkedTable(instances, incidents.records, ring.history, evicted);
      if missing {
        RoomLeft(instances, evicted, bindings, bindings[index]);
      }
      var i := EnsureInstance(bindings[index]);
      if missing {
        EnsuredKeeps(before, gone, i, bindings, bindings[index]);
      }
      ghost var ensured := instances;
      ActivatedKeeps(ensured, bindings, i, touched + 1);
      FlagsLinked(instances, incidents.records, ring.history, evicted, i, true, instances[i].scriptableReservationPending);
      RecentKept(instances, touched, i, instances[i].(active := true));
      instances := instances[i := instances[i].(active := true)];
      TouchedLinked(instances, incidents.records, ring.history, evicted, i, touched + 1);
      RecentSet(instances, touched, i, instances[i].(lastTouched := touched + 1), touched + 1);
      Touch(i);
      assert instances == ensured[i := ensured[i].(active := true, lastTouched := touched)];
    }

    /** Gives every retained generation an active instance. The table never proves too small. */
    method Activate(bindings: seq<Binding>)
      requires Steady() && RetainedOk(bindings, evicted)
      requires forall i :: 0 <= i < |instances| ==> Serviced(instances[i], bindings)
      modifies `instances, `evicted, `touched
      ensures Steady() && RetainedOk(bindings, evicted) && old(evicted) <= evicted
      ensures forall i :: 0 <= i < |instances| ==> Serviced(instances[i], bindings)
      ensures Activated(old(instances), instances, bindings, |bindings|, old(touched))
      ensures SparesNewer(old(instances), instances, bindings)
      ensures touched == old(touched) + |bindings|
    {
      hide Linked, FeedOk, Sane, EventRing.Valid, IndexOf, Serviced, Recent, ActivatedAs, OnlyActivated, Waiting, Activated,
           Chosen, SparesNewer, EvictsOldest;
      NothingActivated(instances, bindings, touched);
      NothingSpared(instances, bindings);
      for index := 0 to |bindings|
        invariant Steady() && RetainedOk(bindings, evicted) && old(evicted) <= evicted && touched == old(touched) + index
        invariant forall i :: 0 <= i < |instances| ==> Serviced(instances[i], bindings)
        invariant Activated(old(instances), instances, bindings, index, old(touched))
        invariant forall j :: index <= j < |bindings| ==> Waiting(old(instances), instances, bindings[j])
        invariant SparesNewer(old(instances), instances, bindings)
      {
        ghost var table := instances;
        ActivateOne(bindings, index);
        ActivatedNext(old(instances), table, instances, evicted, bindings, index, old(touched));
        SparesNext(old(instances), table, instances, bindings, index, old(touched));
      }
    }

    /** Applies one queued input. */
    method Reduce(p: PendingInput, r: Replies, now: nat) returns (ghost answer: seq<Event>)
      requires Steady() && OutputsActive(instances)
      requires KindOk(p)
      modifies `instances, `touched, `droppedIngress, `refusedControls, `durable, feed, incidents
      modifies ring`start, ring`count, ring`sequence, ring`overwritten, ring`history, ring.slots
      ensures Steady() && OutputsActive(instances) && SameGenerations(old(instances), instances)
      ensures OnlyIssues(old(durable), durable)
      ensures ring.history == old(ring.history) + answer
      ensures Reduces(p, r, now, old(Current()), Current(), answer, |ring.history|)
    {
      hide Linked, FeedOk, Sane, EventRing.Valid, OutputsActive, SameGenerations, IndexOf, MissionKind, Issued, Recent,
           OnlyIssues, AuthReduced, QueueReduced, ScriptableReduced, IncidentReduced, InputReduced, MessageReduced;
      SameReflexive(instances);
      OnlyIssuesReflexive(durable);
      if p.AuthControl? {
        answer := ApplyControl(p, now);
      } else if p.IncidentControl? {
        answer := ApplyIncidentControl(p, now);
      } else if p.ScriptableControl? {
        answer := ApplyScriptable(p, r, now);
      } else if p.DiscardedControl? {
        answer := [];
      } else if p.ClientIncident? {
        answer := ApplyIncident(p, r, now);
      } else if p.ClientMessage? {
        ApplyClientMessage(p, r, now);
        answer := [];
      } else {
        InputsEnterFeed(p);
        answer := ApplyClientInput(p, r, now);
      }
    }

    /** Takes one row off the queue and applies it. */
    method DrainOne(r: Replies, now: nat) returns (ghost answer: seq<Event>)
      requires Steady() && OutputsActive(instances)
      requires pendingRead < |pending| && QueueOk(pending[pendingRead..], queuedControls, queuedIngress)
      modifies `instances, `touched, `droppedIngress, `refusedControls, `durable, feed, incidents
      modifies `pendingRead, `queuedControls, `queuedIngress
      modifies ring`start, ring`count, ring`sequence, ring`overwritten, ring`history, ring.slots
      ensures Steady() && OutputsActive(instances) && SameGenerations(old(instances), instances)
      ensures pendingRead == old(pendingRead) + 1
      ensures QueueOk(pending[pendingRead..], queuedControls, queuedIngress)
      ensures OnlyIssues(old(durable), durable) && ring.history == old(ring.history) + answer
      ensures Reduces(pending[old(pendingRead)], r, now, old(Current()), Current(), answer, |ring.history|)
    {
      hide Linked, FeedOk, Sane, EventRing.Valid, OutputsActive, SameGenerations, QueueOk, MissionKind, OnlyIssues, Reduces,
           Recent;
      var p := pending[pendingRead];
      QueuePop(pending[pendingRead..], queuedControls, queuedIngress);
      QueueHead(pending[pendingRead..], queuedControls, queuedIngress);
      assert pending[pendingRead..][1..] == pending[pendingRead + 1..];
      pendingRead := pendingRead + 1;
      if IsControl(p) {
        queuedControls := queuedControls - 1;
      } else if !p.DiscardedControl? {
        queuedIngress := queuedIngress - 1;
      }
      answer := Reduce(p, r, now);
    }

    /** Applies the whole queue in order. */
    method Drain(replies: nat -> Replies, now: nat) returns (ghost run: Run)
      requires Steady() && OutputsActive(instances)
      requires pendingRead == 0 && QueueOk(pending, queuedControls, queuedIngress)
      modifies this`instances, `touched, `droppedIngress, `refusedControls, `durable, feed, incidents
      modifies `pending, `pendingRead, `queuedControls, `queuedIngress
      modifies ring`start, ring`count, ring`sequence, ring`overwritten, ring`history, ring.slots
      ensures Valid() && pending == [] && SameGenerations(old(instances), instances)
      ensures OnlyIssues(old(durable), durable)
      ensures ring.history == old(ring.history) + Joined(run.answers)
      ensures Ran(old(pending), replies, now, run, |old(ring.history)|)
      ensures run.states[0] == old(Current()) && run.states[|old(pending)|] == Current()
    {
      hide Linked, FeedOk, Sane, EventRing.Valid, OutputsActive, SameGenerations, QueueOk, MissionKind, OnlyIssues, RunStep,
           Reduces, Joined, Recent;
      ghost var start := |ring.history|;
      SameReflexive(instances);
      OnlyIssuesReflexive(durable);
      run := Run([Current()], []);
      NothingRan(replies, now, Current(), start);
      assert pending[0..] == pending && pending[..0] == [];
      while pendingRead < |pending|
        invariant pending == old(pending) && pendingRead <= |pending|
        invariant Steady() && OutputsActive(instances) && SameGenerations(old(instances), instances)
        invariant OnlyIssues(old(durable), durable)
        invariant QueueOk(pending[pendingRead..], queuedControls, queuedIngress)
        invariant Ran(pending[..pendingRead], replies, now, run, start)
        invariant ring.history == old(ring.history) + Joined(run.answers)
        invariant run.states[0] == old(Current()) && run.states[pendingRead] == Current()
      {
        ghost var done, table, owed, read := run, instances, durable, pendingRead;
        ghost var answer := DrainOne(replies(pendingRead), now);
        RanSnoc(pending[..read], replies, now, done, start, pending[read], Current(), answer);
        run := Run(done.states + [Current()], done.answers + [answer]);
        assert pending[..pendingRead] == pending[..read] + [pending[read]];
        SameTransitive(old(instances), table, instances);
        OnlyIssuesTransitive(old(durable), owed, durable);
      }
      assert pending[pendingRead..] == [];
      QueueEmpty(queuedControls, queuedIngress);
      assert pending[..pendingRead] == pending;
      pending, pendingRead := [], 0;
    }

    /**
     * One service slice: cancels what generations no longer retained still hold, gives every
     * retained generation an active instance, then applies the queue in order.
     */
    method Service(bindings: seq<Binding>, replies: nat -> Replies, now: nat)
      returns (ghost released: seq<Instance>, ghost mark: nat, ghost run: Run)
      requires Valid() && RetainedOk(bindings, evicted)
      modifies this, incidents, feed
      modifies ring`start, ring`count, ring`sequence, ring`overwritten, ring`history, ring.slots
      ensures Valid() && pending == [] && scope == old(scope) && OnlyIssues(old(durable), durable)
      // Which generations are active, and by which events the others lost what they held.
      ensures forall i :: 0 <= i < |instances| ==>
                (instances[i].active <==> instances[i].occupied && instances[i].binding in bindings)
      ensures forall j :: 0 <= j < |bindings| ==> OwnedOnce(instances, bindings[j])
      ensures old(evicted) <= evicted && forall b :: b in evicted ==> b !in bindings
      ensures |released| == |old(instances)| && forall i :: 0 <= i < |released| ==> Released(old(instances)[i], released[i], bindings)
      ensures |old(ring.history)| <= mark <= |ring.history| && ring.history[..|old(ring.history)|] == old(ring.history)
      ensures Cancels(old(instances), INSTANCE_CAPACITY, bindings, now, ring.history[|old(ring.history)|..mark])
      ensures TouchedSince(instances, old(touched))
      // What the queue did.
      ensures Ran(old(pending), replies, now, run, mark) && ring.history[mark..] == Joined(run.answers)
      ensures run.states[0] == old(Current()).(instances := run.states[0].instances, records := run.states[0].records,
                                               touched := old(touched) + |bindings|)
      ensures Activated(released, run.states[0].instances, bindings, |bindings|, old(touched))
      ensures SparesNewer(released, run.states[0].instances, bindings)
      ensures run.states[|old(pending)|] == Current()
      ensures var live := set b | b in bindings;
              && droppedIngress == old(droppedIngress) + Strays(old(pending), live)
              && |ring.history| == mark + Answered(old(pending), live)
              && forall k :: 0 <= k < |old(pending)| ==>
                   RowExact(old(pending)[k], replies(k), now, live, run.states[k], run.states[k + 1], run.answers[k],
                            LengthAfter(run, mark, k))
    {
      hide Linked, FeedOk, Sane, EventRing.Valid, OutputsActive, SameGenerations, QueueOk, OnlyIssues, Serviced, TableOk,
           Cancels, Released, Activated, SparesNewer, RunStep, Reduces, RowExact, Joined, Recent, TouchedSince, LengthAfter,
           Strays, Answered;
      ghost var canceled := Deactivate(bindings, now);
      released := instances;
      Activate(bindings);
      ServicedOutputs(instances, bindings);
      mark := |ring.history|;
      ghost var table, history := instances, ring.history;
      LinkedTable(instances, incidents.records, ring.history, evicted);
      ActivatedTouches(released, table, evicted, bindings, old(touched));
      ActivatedLive(released, table, bindings, old(touched));
      run := Drain(replies, now);
      assert ring.history[..mark] == history;
      LinkedTable(instances, incidents.records, ring.history, evicted);
      ServicedAll(table, instances, evicted, bindings);
      RunTotals(old(pending), replies, now, run, mark, set b | b in bindings);
      RunTouches(old(pending), replies, now, run, mark, old(touched), |old(pending)|);
    }

    // ---- entry points: queueing -------------------------------------------------------------

    /**
     * Queues one client input. Admitted stands for the outer checks of its message kind; room says
     * whether the allocator can grow the queue.
     */
    method Submit(p: PendingInput, admitted: bool, room: bool) returns (accepted: bool)
      requires Valid() && RoleOf(p) == Ingress && KindOk(p)
      modifies `pending, `queuedIngress, `droppedIngress, incidents`dropped
      ensures Valid() && accepted == (admitted && room && (p.ClientIncident? || p.sourceGeneration != 0))
      ensures pending == if accepted then old(pending) + [p] else old(pending)
      ensures queuedIngress == old(queuedIngress) + if accepted then 1 else 0
      ensures var lost := admitted && !room && (p.ClientIncident? || p.sourceGeneration != 0);
              && droppedIngress == old(droppedIngress) + (if lost then 1 else 0)
              && incidents.dropped == old(incidents.dropped) + (if lost && p.ClientIncident? then 1 else 0)
    {
      hide Linked, FeedOk, Sane, EventRing.Valid, OutputsActive, QueueOk, MissionKind;
      if !admitted || (!p.ClientIncident? && p.sourceGeneration == 0) {
        return false;
      }
      if !room {
        droppedIngress := droppedIngress + 1;
        if p.ClientIncident? {
          incidents.dropped := incidents.dropped + 1;
        }
        return false;
      }
      QueuePush(pending, queuedControls, queuedIngress, p);
      pending := pending + [p];
      queuedIngress := queuedIngress + 1;
      return true;
    }

    /** True when the binding has a queued control, a held output or a reserved slot. */
    method Busy(b: Binding) returns (busy: bool)
      requires Valid()
      ensures busy <==> Engaged(instances, pending, b)
    {
      hide Linked, FeedOk, Sane, EventRing.Valid, OutputsActive, QueueOk, IndexOf;
      var queued := HasQueuedControl(b);
      var i := Find(b);
      return queued || (i < |instances| && (instances[i].outputPending || instances[i].scriptableReservationPending));
    }

    /** Queues one operator Auth-state transition for the exact generation. */
    method RequestAuthState(b: Binding, lifetimeState: nat, matches: bool, room: bool) returns (accepted: bool)
      requires Valid()
      modifies `pending, `queuedControls, `refusedControls
      ensures Valid()
      ensures var asked := lifetimeState <= MAXIMUM_LIFETIME_STATE && matches;
              && accepted == (asked && room && !Engaged(old(instances), old(pending), b))
              && refusedControls == old(refusedControls) + (if asked && !accepted then 1 else 0)
      ensures pending == if accepted then old(pending) + [AuthControl(b, lifetimeState)] else old(pending)
      ensures queuedControls == old(queuedControls) + if accepted then 1 else 0
    {
      hide Linked, FeedOk, Sane, EventRing.Valid, OutputsActive, QueueOk, MissionKind, IndexOf;
      if lifetimeState > MAXIMUM_LIFETIME_STATE || !matches {
        return false;
      }
      var busy := Busy(b);
      if busy || !room {
        refusedControls := refusedControls + 1;
        return false;
      }
      QueuePush(pending, queuedControls, queuedIngress, AuthControl(b, lifetimeState));
      pending := pending + [AuthControl(b, lifetimeState)];
      queuedControls := queuedControls + 1;
      return true;
    }

    /** Queues one operator incident for the exact generation. */
    method RequestIncident(b: Binding, incident: nat, allowed: bool, room: bool) returns (accepted: bool)
      requires Valid()
      modifies `pending, `queuedControls, `refusedControls, incidents`refused
      ensures Valid()
      ensures accepted == (allowed && room && !Engaged(old(instances), old(pending), b))
      ensures refusedControls == old(refusedControls) + if allowed && !accepted then 1 else 0
      ensures incidents.refused == old(incidents.refused) + if allowed && !accepted then 1 else 0
      ensures pending == if accepted then old(pending) + [IncidentControl(b, incident)] else old(pending)
      ensures queuedControls == old(queuedControls) + if accepted then 1 else 0
    {
      hide Linked, FeedOk, Sane, EventRing.Valid, OutputsActive, QueueOk, MissionKind, IndexOf;
      if !allowed {
        return false;
      }
      var busy := Busy(b);
      if busy || !room {
        refusedControls := refusedControls + 1;
        incidents.refused := incidents.refused + 1;
        return false;
      }
      QueuePush(pending, queuedControls, queuedIngress, IncidentControl(b, incident));
      pending := pending + [IncidentControl(b, incident)];
      queuedControls := queuedControls + 1;
      return true;
    }

    // ---- entry points: transport ------------------------------------------------------------

    /** Records one refused attempt of the exact committed Auth state, which stays committed. */
    method NoteAuthAttempt(b: Binding, source: nat, revision: nat, lifetimeState: nat, status: OutputStatus)
      requires Valid()
      modifies `instances
      ensures Valid() && SameGenerations(old(instances), instances)
      ensures var i := IndexOf(old(instances), b);
              instances ==
              if AttemptStatus(status) && HoldsAuth(old(instances), b, revision, lifetimeState)
              then old(instances)[i := Attempted(old(instances)[i], source, status)]
              else old(instances)
      ensures AttemptStatus(status) && HoldsAuth(old(instances), b, revision, lifetimeState) ==>
                var i := IndexOf(old(instances), b);
                Retried(old(instances)[i], instances[i], source, status) && HoldsAuth(instances, b, revision, lifetimeState)
    {
      hide Linked, FeedOk, Sane, EventRing.Valid, OutputsActive, QueueOk, SameGenerations, IndexOf, Attempted;
      SameReflexive(instances);
      if revision == 0 || status == Idle || status == Pending || status == TransportStaged || status == OutputStatus.Canceled {
        return;
      }
      var i := Find(b);
      if i < |instances| && instances[i].outputPending && instances[i].outputKind == Some(AuthState)
         && instances[i].stateRevision == revision && instances[i].lifetimeState == lifetimeState {
        AttemptedLinked(instances, incidents.records, ring.history, evicted, i, source, status);
        IndexKept(instances, i, Attempted(instances[i], source, status), b);
        instances := instances[i := Attempted(instances[i], source, status)];
      }
    }

    /** Marks the exact committed Auth revision as staged, which ends its hold on the slot. */
    method NoteAuthTransportStaged(b: Binding, source: nat, revision: nat, lifetimeState: nat, tick: nat)
      returns (ghost answer: seq<Event>)
      requires Valid()
      modifies `instances
      modifies ring`start, ring`count, ring`sequence, ring`overwritten, ring`history, ring.slots
      ensures Valid() && SameGenerations(old(instances), instances) && ring.history == old(ring.history) + answer
      ensures if HoldsAuth(old(instances), b, revision, lifetimeState) then
                var i := IndexOf(old(instances), b);
                && instances == old(instances)[i := AuthStaged(old(instances)[i], source).(lastEventSequence := |ring.history|)]
                && Reached(old(instances)[i], instances[i], source) && instances[i].transportRevision == revision
                && answer == [AuthEvent(b, AuthStateTransportStaged, tick, revision, lifetimeState, source).(
                                sequence := |ring.history|)]
              else instances == old(instances) && answer == []
    {
      hide Linked, FeedOk, Sane, EventRing.Valid, OutputsActive, QueueOk, SameGenerations, IndexOf, AuthStaged, AuthEvent,
           Ends, EndsAuth, Coherent;
      SameReflexive(instances);
      LinkedTable(instances, incidents.records, ring.history, evicted);
      answer := [];
      var i := Find(b);
      if revision != 0 && i < |instances| && instances[i].outputPending && instances[i].outputKind == Some(AuthState)
         && instances[i].stateRevision == revision && instances[i].lifetimeState == lifetimeState {
        StagedEnds(instances[i], source, tick);
        answer := EndOutput(i, AuthStaged(instances[i], source),
                            AuthEvent(b, AuthStateTransportStaged, tick, revision, lifetimeState, source));
      }
    }

    /** The held incident of one generation. It is always there, so a hold is always reported. */
    method PendingIncident(b: Binding) returns (found: bool, incident: nat, revision: nat)
      requires Valid()
      ensures found <==> HoldsIncident(instances, b)
      ensures found ==>
                && revision == instances[IndexOf(instances, b)].incidentRevision
                && exists k :: 0 <= k < |incidents.records| && Unstaged(incidents.records[k], b, revision)
                               && incidents.records[k].incident == incident
    {
      hide Linked, FeedOk, Sane, EventRing.Valid, QueueOk, IndexOf, TableOk;
      incident, revision := 0, 0;
      LinkedTable(instances, incidents.records, ring.history, evicted);
      var i := Find(b);
      var held := i < |instances| && instances[i].active && instances[i].outputPending
                  && instances[i].outputKind == Some(OutputKind.Incident);
      if held {
        HeldIncidentFound(instances, incidents.records, ring.history, evicted, i);
        var at := incidents.Find(b, instances[i].incidentRevision);
        if at < INCIDENT_CAPACITY && incidents.records[at].status != IncidentStatus.Canceled {
          incident, revision := incidents.records[at].incident, incidents.records[at].revision;
        }
      }
      found := held && revision != 0;
    }

    /** Cancels the held incident of one generation before it is staged. */
    method CancelPendingIncident(b: Binding, now: nat) returns (canceled: bool, ghost answer: seq<Event>)
      requires Valid()
      modifies `instances, incidents`records
      modifies ring`start, ring`count, ring`sequence, ring`overwritten, ring`history, ring.slots
      ensures Valid() && SameGenerations(old(instances), instances) && ring.history == old(ring.history) + answer
      ensures canceled <==> HoldsIncident(old(instances), b)
      ensures !canceled ==> instances == old(instances) && incidents.records == old(incidents.records) && answer == []
      ensures canceled ==>
                var i := IndexOf(old(instances), b);
                var x := old(instances)[i];
                && instances == old(instances)[i := OutputCanceled(x).(lastEventSequence := |ring.history|)]
                && |answer| == 1 && answer[0].kind == IncidentCanceled && CancelsOutput(x, answer[0], now)
                && RowEnded(old(incidents.records), incidents.records, x, answer[0].payload)
    {
      hide Linked, FeedOk, Sane, EventRing.Valid, QueueOk, IndexOf, OutputsActive, SameGenerations, OutputCanceled, RowEnded,
           CancelsOutput, TableOk, Coherent;
      SameReflexive(instances);
      LinkedTable(instances, incidents.records, ring.history, evicted);
      answer := [];
      var i := Find(b);
      canceled := i < |instances| && instances[i].outputPending && instances[i].outputKind == Some(OutputKind.Incident);
      if i < |instances| {
        PendingIsKind(instances[i]);
      }
      if canceled {
        ghost var x := instances[i];
        answer := CancelOutput(i, now);
        CanceledKind(x, answer[0], now);
      }
    }

    /** Records one failed attempt of the held incident, which stays held and retained. */
    method NoteIncidentAttempt(b: Binding, source: nat, revision: nat, status: IncidentStatus)
      requires Valid()
      modifies `instances, incidents`records
      ensures Valid() && SameGenerations(old(instances), instances)
      ensures if (status == EncodeFailed || status == IncidentStatus.FrameRefused)
                 && HoldsIncident(old(instances), b) && old(instances)[IndexOf(old(instances), b)].incidentRevision == revision
              then
                var i := IndexOf(old(instances), b);
                && instances == old(instances)[i := Attempted(old(instances)[i], source, OutputStatus.FrameRefused)]
                && Retried(old(instances)[i], instances[i], source, OutputStatus.FrameRefused)
                && exists k :: 0 <= k < |incidents.records| && Unstaged(old(incidents.records)[k], b, revision)
                               && incidents.records[k].status == status
                               && incidents.records[k].attempts == old(incidents.records)[k].attempts + 1
                               && incidents.records == old(incidents.records)[k := RowAttempted(old(incidents.records)[k], status)]
              else instances == old(instances) && incidents.records == old(incidents.records)
    {
      hide Linked, FeedOk, Sane, EventRing.Valid, QueueOk, IndexOf, OutputsActive, SameGenerations, Attempted, TableOk,
           Coherent, Unstaged, Names;
      SameReflexive(instances);
      LinkedTable(instances, incidents.records, ring.history, evicted);
      if revision == 0 || (status != EncodeFailed && status != IncidentStatus.FrameRefused) {
        HeldRevisions(instances);
        return;
      }
      var i := Find(b);
      var at := incidents.Find(b, revision);
      if i < |instances| {
        PendingIsKind(instances[i]);
        if HoldsIncident(instances, b) && instances[i].incidentRevision == revision {
          HeldIncidentFound(instances, incidents.records, ring.history, evicted, i);
        }
      }
      if i < |instances| && at < INCIDENT_CAPACITY && instances[i].outputPending
         && instances[i].outputKind == Some(OutputKind.Incident) && instances[i].incidentRevision == revision {
        UnstagedNamed(incidents.records[at], b, revision);
        AttemptLinked(instances, incidents.records, ring.history, evicted, at, RowAttempted(incidents.records[at], status));
        incidents.records := incidents.records[at := RowAttempted(incidents.records[at], status)];
        AttemptedLinked(instances, incidents.records, ring.history, evicted, i, source, OutputStatus.FrameRefused);
        instances := instances[i := Attempted(instances[i], source, OutputStatus.FrameRefused)];
      }
    }

    /** Marks the held incident as staged, which ends its hold on the slot. */
    method NoteIncidentTransportStaged(b: Binding, source: nat, revision: nat, tick: nat) returns (ghost answer: seq<Event>)
      requires Valid()
      modifies `instances, incidents`records
      modifies ring`start, ring`count, ring`sequence, ring`overwritten, ring`history, ring.slots
      ensures Valid() && SameGenerations(old(instances), instances) && ring.history == old(ring.history) + answer
      ensures if HoldsIncident(old(instances), b) && old(instances)[IndexOf(old(instances), b)].incidentRevision == revision
              then
                var i := IndexOf(old(instances), b);
                && instances == old(instances)[i := IncidentStaged(old(instances)[i], source).(lastEventSequence := |ring.history|)]
                && Reached(old(instances)[i], instances[i], source) && instances[i].incidentTransportRevision == revision
                && |answer| == 1
                && answer == [IncidentEvent(b, IncidentTransportStaged, tick, revision, answer[0].payload, source).(
                                sequence := |ring.history|)]
                && exists k :: 0 <= k < |incidents.records| && Unstaged(old(incidents.records)[k], b, revision)
                               && old(incidents.records)[k].incident == answer[0].payload
                               && incidents.records[k].status == IncidentStatus.Staged && Evictable(incidents.records[k])
                               && incidents.records[k].attempts == old(incidents.records)[k].attempts + 1
                               && incidents.records == old(incidents.records)[k := RowStaged(old(incidents.records)[k])]
              else instances == old(instances) && incidents.records == old(incidents.records) && answer == []
    {
      hide Linked, FeedOk, Sane, EventRing.Valid, QueueOk, IndexOf, OutputsActive, SameGenerations, IncidentStaged,
           IncidentEvent, TableOk, Coherent, Unstaged, Names, Ends, EndsIncident, SameIncident;
      SameReflexive(instances);
      LinkedTable(instances, incidents.records, ring.history, evicted);
      answer := [];
      if revision == 0 {
        HeldRevisions(instances);
        return;
      }
      var i := Find(b);
      var at := incidents.Find(b, revision);
      if i < |instances| {
        PendingIsKind(instances[i]);
        if HoldsIncident(instances, b) && instances[i].incidentRevision == revision {
          HeldIncidentFound(instances, incidents.records, ring.history, evicted, i);
        }
      }
      if i < |instances| && at < INCIDENT_CAPACITY && instances[i].outputPending
         && instances[i].outputKind == Some(OutputKind.Incident) && instances[i].incidentRevision == revision {
        var x, row := instances[i], incidents.records[at];
        StagedEndsIncident(x, row, source, tick);
        answer := EndIncident(i, IncidentStaged(x, source),
                              IncidentEvent(b, IncidentTransportStaged, tick, revision, row.incident, source), at, RowStaged(row));
        IncidentEventPayload(b, IncidentTransportStaged, tick, revision, row.incident, source);
      }
    }

    // ---- the scriptable lane, as far as the shared slot sees it -----------------------------

    /** The scriptable lane reserves the next output of an idle live generation, or gives it back. */
    method SetReservation(b: Binding, reserve: bool) returns (done: bool)
      requires Valid()
      modifies `instances
      ensures Valid() && SameGenerations(old(instances), instances)
      ensures done == (var i := IndexOf(old(instances), b);
                       && i < |instances| && old(instances)[i].scriptableReservationPending != reserve
                       && (reserve ==> old(instances)[i].active && !Engaged(old(instances), pending, b)))
      ensures instances == if !done then old(instances)
                           else old(instances)[IndexOf(old(instances), b) :=
                                  old(instances)[IndexOf(old(instances), b)].(scriptableReservationPending := reserve)]
    {
      hide Linked, FeedOk, Sane, EventRing.Valid, OutputsActive, QueueOk, SameGenerations, IndexOf, TableOk, Engaged;
      SameReflexive(instances);
      LinkedTable(instances, incidents.records, ring.history, evicted);
      var busy := Busy(b);
      var i := Find(b);
      if i == |instances| || instances[i].scriptableReservationPending == reserve
         || (reserve && (!instances[i].active || busy)) {
        return false;
      }
      FlagsLinked(instances, incidents.records, ring.history, evicted, i, instances[i].active, reserve);
      PlaceKept(instances, i, instances[i].(scriptableReservationPending := reserve));
      instances := instances[i := instances[i].(scriptableReservationPending := reserve)];
      return true;
    }

    /**
     * Queues one scriptable request. Allowed stands for its outer checks, reserved says whether the
     * caller presents a reservation and owned whether it is exactly the held one; a burst body follows
     * its head whatever is queued.
     */
    method RequestScriptable(p: PendingInput, allowed: bool, reserved: bool, owned: bool, room: bool) returns (accepted: bool)
      requires Valid() && p.ScriptableControl? && (p.burst ==> p.revision != 0)
      modifies `instances, `pending, `queuedControls, `refusedControls
      ensures Valid() && SameGenerations(old(instances), instances)
      ensures accepted == (allowed && room && var i := IndexOf(old(instances), p.binding);
                           if p.burst && i < |instances| then true
                           else if reserved then
                             && owned && i < |instances| && old(instances)[i].active
                             && old(instances)[i].scriptableReservationPending
                             && !Occupied(old(instances), old(pending), p.binding)
                           else !Engaged(old(instances), old(pending), p.binding))
      ensures pending == if accepted then old(pending) + [p] else old(pending)
      ensures queuedControls == old(queuedControls) + (if accepted then 1 else 0)
      ensures refusedControls == old(refusedControls) + (if allowed && !accepted then 1 else 0)
      ensures instances == if accepted && reserved then Unreserved(old(instances), p.binding) else old(instances)
    {
      hide Linked, FeedOk, Sane, EventRing.Valid, OutputsActive, QueueOk, SameGenerations, IndexOf, TableOk;
      SameReflexive(instances);
      if !allowed {
        return false;
      }
      var i := Find(p.binding);
      var burst := p.burst && i < |instances|;
      var queued := HasQueuedControl(p.binding);
      var owns := reserved && owned && i < |instances| && instances[i].active && instances[i].scriptableReservationPending;
      if !burst && (queued || (i < |instances| && instances[i].outputPending) || (reserved && !owns)
                    || (!reserved && i < |instances| && instances[i].scriptableReservationPending)) {
        refusedControls := refusedControls + 1;
        return false;
      }
      if !room {
        refusedControls := refusedControls + 1;
        return false;
      }
      QueuePush(pending, queuedControls, queuedIngress, p);
      pending := pending + [p];
      queuedControls := queuedControls + 1;
      if reserved {
        ClearReservation(i);
      }
      return true;
    }

    /** Gives one generation's reservation back. */
    method ClearReservation(i: nat)
      requires Valid() && i < |instances|
      modifies `instances
      ensures Valid() && SameGenerations(old(instances), instances)
      ensures instances == old(instances)[i := old(instances)[i].(scriptableReservationPending := false)]
    {
      hide Linked, FeedOk, Sane, EventRing.Valid, OutputsActive, QueueOk, SameGenerations, TableOk;
      LinkedTable(instances, incidents.records, ring.history, evicted);
      FlagsLinked(instances, incidents.records, ring.history, evicted, i, instances[i].active, false);
      PlaceKept(instances, i, instances[i].(scriptableReservationPending := false));
      instances := instances[i := instances[i].(scriptableReservationPending := false)];
    }

    /**
     * Withdraws one queued scriptable request, or reports where its revision stands. A withdrawn
     * row stays in the queue, uncounted.
     */
    method WithdrawScriptable(b: Binding, intent: nat, revision: nat) returns (status: WithdrawStatus)
      requires Valid()
      modifies `pending, `queuedControls
      ensures Valid()
      ensures WithdrawAnswers(instances, old(pending), b, intent, revision, status)
      ensures if status == TakenBack then TookBack(old(pending), pending, b, intent, revision) else pending == old(pending)
      ensures queuedControls + (if status == TakenBack then 1 else 0) == old(queuedControls)
    {
      hide Linked, FeedOk, Sane, EventRing.Valid, OutputsActive, QueueOk, IndexOf;
      if intent == 0 || revision == 0 {
        return Mismatched;
      }
      var i := Find(b);
      if i == |instances| {
        return Mismatched;
      }
      var known := Standing(instances[i], revision);
      if known.Some? {
        return known.value;
      }
      for k := 0 to |pending|
        invariant pending == old(pending) && queuedControls == old(queuedControls)
        invariant forall j :: 0 <= j < k ==> !Requests(pending, j, b, intent, revision)
      {
        if pending[k].ScriptableControl? && pending[k].binding == b && pending[k].intent == intent
           && pending[k].revision == revision {
          assert Requests(pending, k, b, intent, revision);
          assert TookBack(pending, pending[k := DiscardedControl(Binding(0, 0))], b, intent, revision);
          QueueDiscard(pending, queuedControls, queuedIngress, k, Binding(0, 0));
          pending := pending[k := DiscardedControl(Binding(0, 0))];
          queuedControls := queuedControls - 1;
          return TakenBack;
        }
      }
      return Absent;
    }

    /**
     * Ends the held scriptable output: one event for every body of its burst that ends with it, then
     * the head's. The slot is given back.
     */
    method EndScriptable(i: nat, x: Instance, kind: EventKind, bodies: seq<nat>, source: nat, tick: nat)
      returns (ghost answer: seq<Event>)
      requires Valid() && i < |instances| && ScriptableMove(instances[i], x) && x.lastTouched <= touched
      requires kind == ScriptableOverrideTransportStaged || kind == ScriptableOverrideCanceled
      modifies `instances
      modifies ring`start, ring`count, ring`sequence, ring`overwritten, ring`history, ring.slots
      ensures Valid() && SameGenerations(old(instances), instances) && ring.history == old(ring.history) + answer
      ensures Ended(answer, |old(ring.history)|, x.binding, kind, bodies + [x.scriptableRevision], source, tick)
      ensures instances == old(instances)[i := x.(lastEventSequence := |ring.history|)]
    {
      hide Linked, FeedOk, Sane, EventRing.Valid, OutputsActive, QueueOk, SameGenerations, ScriptableMove, Ended;
      LinkedTable(instances, incidents.records, ring.history, evicted);
      HeldActive(instances, i);
      StillMoves(instances[i], x);
      answer := AppendBodies(i, kind, bodies, source, tick);
      ghost var tail := answer;
      StillMoved(instances[i], x, |ring.history| + 1);
      ghost var last := MoveScriptable(i, x, ScriptableEvent(x.binding, kind, tick, x.scriptableRevision, source));
      answer := answer + last;
      EndedSnoc(tail, |old(ring.history)|, x.binding, kind, bodies, source, tick, x.scriptableRevision);
    }

    /** One scriptable event for every body, in order, while the lane keeps its slot. */
    method AppendBodies(i: nat, kind: EventKind, bodies: seq<nat>, source: nat, tick: nat) returns (ghost answer: seq<Event>)
      requires Steady() && i < |instances| && ScriptableMove(instances[i], instances[i])
      requires kind == ScriptableOverrideTransportStaged || kind == ScriptableOverrideCanceled
      modifies ring`start, ring`count, ring`sequence, ring`overwritten, ring`history, ring.slots
      ensures Steady() && ring.history == old(ring.history) + answer
      ensures Ended(answer, |old(ring.history)|, instances[i].binding, kind, bodies, source, tick)
    {
      hide Linked, FeedOk, Sane, EventRing.Valid, ScriptableMove, Ended, ScriptableEvent;
      answer := [];
      var b := instances[i].binding;
      NothingEnded(|ring.history|, b, kind, source, tick);
      assert bodies[..0] == [];
      for k := 0 to |bodies|
        invariant Steady() && ring.history == old(ring.history) + answer
        invariant Ended(answer, |old(ring.history)|, b, kind, bodies[..k], source, tick)
      {
        ghost var history, events := ring.history, answer;
        AppendEvent(ScriptableEvent(b, kind, tick, bodies[k], source));
        ghost var e := ScriptableEvent(b, kind, tick, bodies[k], source).(sequence := |history| + 1);
        ScriptableEventLinked(instances, incidents.records, history, evicted, i, e);
        EndedSnoc(events, |old(ring.history)|, b, kind, bodies[..k], source, tick, bodies[k]);
        assert bodies[..k + 1] == bodies[..k] + [bodies[k]];
        answer := events + [e];
      }
      assert bodies[..|bodies|] == bodies;
    }

    /** Marks the held scriptable body, and those that ride with it, as staged. */
    method NoteScriptableStaged(b: Binding, exact: bool, bodies: seq<nat>, latched: Option<nat>, source: nat, tick: nat)
      returns (ghost answer: seq<Event>)
      requires Valid()
      modifies `instances
      modifies ring`start, ring`count, ring`sequence, ring`overwritten, ring`history, ring.slots
      ensures Valid() && SameGenerations(old(instances), instances) && ring.history == old(ring.history) + answer
      ensures if exact && HoldsScriptable(old(instances), b) then
                var i := IndexOf(old(instances), b);
                var x := old(instances)[i];
                && instances == old(instances)[i := ScriptableStaged(x, source, latched).(lastEventSequence := |ring.history|)]
                && Reached(x, instances[i], source) && instances[i].scriptableTransportRevision == x.scriptableRevision
                && Ended(answer, |old(ring.history)|, b, ScriptableOverrideTransportStaged, bodies + [x.scriptableRevision],
                         source, tick)
              else instances == old(instances) && answer == []
    {
      hide Linked, FeedOk, Sane, EventRing.Valid, OutputsActive, QueueOk, SameGenerations, IndexOf, TableOk, Coherent,
           ScriptableMove, Ended;
      SameReflexive(instances);
      LinkedTable(instances, incidents.records, ring.history, evicted);
      answer := [];
      var i := Find(b);
      if exact && i < |instances| && instances[i].outputPending && instances[i].outputKind == Some(ScriptableOverride) {
        StagedMoves(instances[i], source, latched);
        answer := EndScriptable(i, ScriptableStaged(instances[i], source, latched), ScriptableOverrideTransportStaged, bodies,
                                source, tick);
      } else {
        NoScriptable(instances, i, b);
      }
    }

    /** Cancels the held scriptable body of one exact revision, and those that ride with it. */
    method CancelScriptable(b: Binding, revision: nat, bodies: seq<nat>, tick: nat) returns (canceled: bool, ghost answer: seq<Event>)
      requires Valid()
      modifies `instances
      modifies ring`start, ring`count, ring`sequence, ring`overwritten, ring`history, ring.slots
      ensures Valid() && SameGenerations(old(instances), instances) && ring.history == old(ring.history) + answer
      ensures canceled <==> revision != 0 && HoldsScriptable(old(instances), b)
                            && old(instances)[IndexOf(old(instances), b)].scriptableRevision == revision
      ensures !canceled ==> instances == old(instances) && answer == []
      ensures canceled ==>
                var i := IndexOf(old(instances), b);
                && instances == old(instances)[i := OutputCanceled(old(instances)[i]).(lastEventSequence := |ring.history|)]
                && Ended(answer, |old(ring.history)|, b, ScriptableOverrideCanceled, bodies + [revision], 0, tick)
    {
      hide Linked, FeedOk, Sane, EventRing.Valid, OutputsActive, QueueOk, SameGenerations, IndexOf, TableOk, Coherent,
           ScriptableMove, Ended;
      SameReflexive(instances);
      LinkedTable(instances, incidents.records, ring.history, evicted);
      canceled, answer := false, [];
      var i := Find(b);
      if i < |instances| {
        HeldActive(instances, i);
      }
      if revision != 0 && i < |instances| && instances[i].active && instances[i].outputPending
         && instances[i].outputKind == Some(ScriptableOverride) && instances[i].scriptableRevision == revision {
        CanceledMoves(instances[i]);
        answer := EndScriptable(i, OutputCanceled(instances[i]), ScriptableOverrideCanceled, bodies, 0, tick);
        canceled := true;
      } else {
        NoScriptable(instances, i, b);
      }
    }

    /** Records one failed attempt of the held scriptable body; a final failure cancels it. */
    method NoteScriptableAttempt(b: Binding, exact: bool, bodies: seq<nat>, source: nat, status: OutputStatus, tick: nat)
      returns (ghost answer: seq<Event>)
      requires Valid()
      modifies `instances
      modifies ring`start, ring`count, ring`sequence, ring`overwritten, ring`history, ring.slots
      ensures Valid() && SameGenerations(old(instances), instances) && ring.history == old(ring.history) + answer
      ensures if exact && AttemptStatus(status) && HoldsScriptable(old(instances), b) then
                var i := IndexOf(old(instances), b);
                var x := Attempted(old(instances)[i], source, status);
                if status == WaitingForEpoch then instances == old(instances)[i := x] && answer == []
                else
                  && instances == old(instances)[i := OutputCanceled(x).(outputStatus := status, lastEventSequence := |ring.history|)]
                  && Ended(answer, |old(ring.history)|, b, ScriptableOverrideCanceled, bodies + [x.scriptableRevision], 0, tick)
              else instances == old(instances) && answer == []
    {
      hide Linked, FeedOk, Sane, EventRing.Valid, OutputsActive, QueueOk, SameGenerations, IndexOf, TableOk, Coherent,
           ScriptableMove, Ended;
      SameReflexive(instances);
      LinkedTable(instances, incidents.records, ring.history, evicted);
      answer := [];
      var i := Find(b);
      if !exact || status == Idle || status == Pending || status == TransportStaged || status == OutputStatus.Canceled
         || i == |instances| || !instances[i].outputPending
         || instances[i].outputKind != Some(ScriptableOverride) {
        NoScriptable(instances, i, b);
        return;
      }
      var x := Attempted(instances[i], source, status);
      if status == WaitingForEpoch {
        AttemptedLinked(instances, incidents.records, ring.history, evicted, i, source, status);
        instances := instances[i := x];
      } else {
        FailedMoves(instances[i], source, status);
        answer := EndScriptable(i, OutputCanceled(x).(outputStatus := status), ScriptableOverrideCanceled, bodies, 0, tick);
      }
    }

    // ---- the accepted-input feed and mission State ------------------------------------------

    /** Reads one page of accepted inputs, dropping first what mission State no longer owes. */
    method ReadMissionInputs(after: MissionCursor) returns (output: MissionRead)
      requires Valid()
      modifies feed`rows, `scope
      ensures Valid() && feed.rows == MissionInputs.Settled(old(feed.rows), durable) && scope == Healed(feed.rows, old(scope))
      ensures var from := if after.generation != ring.generation then 0 else after.sequence;
              && output.reset == (after.generation != ring.generation)
              && output.events == Page(RowsAfter(feed.rows, from))
              && output.cursor == MissionCursor(ring.generation, NextCursor(Feed(feed.rows, feed.sequence), from))
              && output.missed == |Skipped(Feed(feed.rows, feed.sequence), from)|
              && (output.gap <==> Skipped(Feed(feed.rows, feed.sequence), from) != {})
    {
      hide Linked, Sane, EventRing.Valid, OutputsActive, QueueOk, Covered, Positioned, Distinguished, MissionInputs.Settled,
           Page, RowsAfter, NextCursor, Skipped, Healed;
      RetireKeeps(feed.rows, feed.sequence, durable, scope);
      output := feed.ReadAfter(after, ring.generation, durable);
      scope := Healed(feed.rows, scope);
    }

    /** Mission State moves one binding's cursors between Host steps. */
    method StepMission(b: Binding, step: DurableStep)
      requires Valid() && b in durable && DurableAllowed(durable[b], step)
      modifies `durable, `scope
      ensures Valid() && durable == old(durable)[b := DurableNext(old(durable)[b], step)]
      ensures scope == DurableScope(feed.rows, old(durable)[b], old(scope), b, step)
    {
      hide Linked, FeedOk, Sane, EventRing.Valid, OutputsActive, QueueOk, DurableNext, DurableAllowed, DurableScope;
      DurableKeeps(feed.rows, feed.sequence, durable, scope, b, step);
      scope := DurableScope(feed.rows, durable[b], scope, b, step);
      durable := durable[b := DurableNext(durable[b], step)];
    }

    /** Mission State opens the cursors of a generation the feed holds no row of. */
    method OpenMission(b: Binding)
      requires Valid() && b !in durable && !HasRow(feed.rows, b)
      modifies `durable
      ensures Valid() && durable == old(durable)[b := Cursors(0, 0, false)]
    {
      hide Linked, EventRing.Valid, OutputsActive, QueueOk, HasRow;
      OpenKeeps(feed.rows, feed.sequence, durable, scope, b);
      hide FeedOk, Sane;
      durable := durable[b := Cursors(0, 0, false)];
    }

    /** Mission State forgets the cursors of a generation. */
    method CloseMission(b: Binding)
      requires Valid()
      modifies `durable
      ensures Valid() && durable == old(durable) - {b}
    {
      hide Linked, EventRing.Valid, OutputsActive, QueueOk, FeedOk, Sane;
      CloseKeeps(feed.rows, feed.sequence, durable, scope, b);
      durable := durable - {b};
    }

    /** Clears the table, the queue and the counters. */
    method ClearTable()
      modifies this
      ensures instances == EmptyTable() && pending == [] && pendingRead == 0 && queuedIngress == 0 && queuedControls == 0
      ensures touched == 0 && droppedIngress == 0 && refusedControls == 0
      ensures durable == old(durable) && evicted == {} && scope == Scope(IssuedSoFar(durable), {})
    {
      hide EmptyTable, IssuedSoFar;
      instances := EmptyTable();
      pending, pendingRead, queuedIngress, queuedControls := [], 0, 0, 0;
      touched, droppedIngress, refusedControls := 0, 0, 0;
      evicted, scope := {}, Scope(IssuedSoFar(durable), {});
    }

    /** Clears every instance, queue, history and counter, and opens the next generation. */
    method Reset()
      requires Valid()
      modifies this, ring, ring.slots, incidents, feed
      ensures Valid() && ring.history == [] && ring.generation == old(ring.generation) + 1
      ensures pending == [] && queuedIngress == 0 && queuedControls == 0 && touched == 0
      ensures droppedIngress == 0 && refusedControls == 0
      ensures instances == EmptyTable()
      ensures forall k :: 0 <= k < |incidents.records| ==> incidents.records[k] == FREE_RECORD
      ensures feed.rows == [] && feed.sequence == 0 && durable == old(durable) && evicted == {}
      ensures scope == Scope(IssuedSoFar(durable), {})
    {
      hide Linked, FeedOk, Sane, EventRing.Valid, OutputsActive, QueueOk, OneRowEach, EmptyTable, IssuedSoFar, Cleared;
      ClearTable();
      ring.Reset();
      feed.Reset();
      incidents.Reset();
      EmptyRun(instances, incidents.records);
      EmptyFeed(durable);
      EmptyQueue();
    }
  }

  lemma OnlyIssuesReflexive(durable: Durable)
    ensures OnlyIssues(durable, durable)
  {}

  lemma OnlyIssuesTransitive(a: Durable, b: Durable, c: Durable)
    requires OnlyIssues(a, b) && OnlyIssues(b, c)
    ensures OnlyIssues(a, c)
  {}

  lemma IndexIsFirst(instances: seq<Instance>, b: Binding, i: nat)
    requires i <= |instances| && (forall j :: 0 <= j < i ==> !Owns(instances[j], b))
    requires i < |instances| ==> Owns(instances[i], b)
    ensures i == IndexOf(instances, b)
  {
    var k := IndexOf(instances, b);
    assert k < |instances| ==> Owns(instances[k], b);
  }

  /** A cleared table, an empty history and free rows agree. */
  lemma EmptyRun(instances: seq<Instance>, records: seq<IncidentRecord>)
    requires |instances| == INSTANCE_CAPACITY && forall i :: 0 <= i < |instances| ==> instances[i] == Cleared()
    requires |records| == INCIDENT_CAPACITY && forall i :: 0 <= i < |records| ==> records[i] == FREE_RECORD
    ensures Linked(instances, records, [], {}) && OutputsActive(instances) && Recent(instances, 0)
  {
    forall b
      ensures Open([], b) == SlotIn(instances, b)
    {
      var i := IndexOf(instances, b);
      assert i == |instances|;
    }
  }
}
