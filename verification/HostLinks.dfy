/** How the incident history and the reducer queue agree with the instance table. */
module HostLinks {
  import opened HostTypes
  import opened OutputLives
  import opened HostTable
  import opened Incidents
  import opened Wrappers

  // ---- incidents ---------------------------------------------------------------------------

  /** An outbound row's revision is not above its instance's, or its generation was evicted. */
  ghost predicate KnownRow(instances: seq<Instance>, r: IncidentRecord, evicted: set<Binding>) {
    Outbound(r) && r.binding !in evicted ==>
      && IndexOf(instances, r.binding) < |instances|
      && r.revision <= instances[IndexOf(instances, r.binding)].incidentRevision
  }

  /** Every held incident has its unstaged row, and rows are known. */
  ghost predicate IncidentsOk(instances: seq<Instance>, records: seq<IncidentRecord>, evicted: set<Binding>) {
    && |records| == INCIDENT_CAPACITY && OneRowEach(records)
    && (forall k :: 0 <= k < |records| ==> KnownRow(instances, records[k], evicted))
    && (forall i :: 0 <= i < |instances| && instances[i].occupied
                    && instances[i].outputKind == Some(OutputKind.Incident) ==>
                      Retained(records, instances[i].binding, instances[i].incidentRevision))
  }

  lemma KnownKept(instances: seq<Instance>, records: seq<IncidentRecord>, evicted: set<Binding>, i: nat, x: Instance)
    requires forall k :: 0 <= k < |records| ==> KnownRow(instances, records[k], evicted)
    requires i < |instances| && x.occupied == instances[i].occupied && x.binding == instances[i].binding
    requires instances[i].incidentRevision <= x.incidentRevision
    ensures forall k :: 0 <= k < |records| ==> KnownRow(instances[i := x], records[k], evicted)
  {
    forall k | 0 <= k < |records|
      ensures KnownRow(instances[i := x], records[k], evicted)
    {
      assert KnownRow(instances, records[k], evicted);
      IndexKept(instances, i, x, records[k].binding);
    }
  }

  /** Rewriting an instance that holds no new incident keeps the link. */
  lemma InstanceKeepsIncidents(instances: seq<Instance>, records: seq<IncidentRecord>, evicted: set<Binding>,
                               i: nat, x: Instance)
    requires IncidentsOk(instances, records, evicted) && i < |instances|
    requires x.occupied == instances[i].occupied && x.binding == instances[i].binding
    requires x.incidentRevision == instances[i].incidentRevision
    requires x.outputKind == Some(OutputKind.Incident) ==> instances[i].outputKind == Some(OutputKind.Incident)
    ensures IncidentsOk(instances[i := x], records, evicted)
  {
    KnownKept(instances, records, evicted, i, x);
  }

  /** A client incident may take any free or evictable row. */
  lemma ClientRowKeeps(instances: seq<Instance>, records: seq<IncidentRecord>, evicted: set<Binding>,
                       at: nat, r: IncidentRecord)
    requires IncidentsOk(instances, records, evicted) && at < |records| && !r.outbound
    requires records[at].sequence == 0 || Evictable(records[at])
    ensures IncidentsOk(instances, records[at := r], evicted)
  {
    forall i | 0 <= i < |instances| && instances[i].occupied
      && instances[i].outputKind == Some(OutputKind.Incident)
      ensures Retained(records[at := r], instances[i].binding, instances[i].incidentRevision)
    {
      OverwriteKeeps(records, at, r, instances[i].binding, instances[i].incidentRevision);
    }
  }

  /** Committing an operator incident: one revision up, and its row taken. */
  lemma QueuedRowKeeps(instances: seq<Instance>, records: seq<IncidentRecord>, evicted: set<Binding>,
                       i: nat, x: Instance, at: nat, r: IncidentRecord)
    requires TableOk(instances, evicted) && IncidentsOk(instances, records, evicted)
    requires i < |instances| && instances[i].occupied && x.occupied && x.binding == instances[i].binding
    requires x.incidentRevision == instances[i].incidentRevision + 1
    requires at < |records| && (records[at].sequence == 0 || Evictable(records[at]))
    requires Unstaged(r, x.binding, x.incidentRevision)
    ensures IncidentsOk(instances[i := x], records[at := r], evicted)
  {
    var after, rows := instances[i := x], records[at := r];
    KnownKept(instances, records, evicted, i, x);
    IndexUnique(instances, evicted, i, x.binding);
    IndexKept(instances, i, x, x.binding);
    assert KnownRow(after, r, evicted);
    assert rows[at] == r;
    forall k | 0 <= k < |records| && k != at && Outbound(records[k])
      ensures records[k].binding != r.binding || records[k].revision != r.revision
    {
      assert KnownRow(instances, records[k], evicted);
    }
    forall j | 0 <= j < |after| && after[j].occupied && after[j].outputKind == Some(OutputKind.Incident)
      ensures Retained(rows, after[j].binding, after[j].incidentRevision)
    {
      if j == i {
        assert Unstaged(rows[at], x.binding, x.incidentRevision);
      } else {
        OverwriteKeeps(records, at, r, after[j].binding, after[j].incidentRevision);
      }
    }
  }

  /** Ending a held incident: its row changes state and its instance is released. */
  lemma EndedRowKeeps(instances: seq<Instance>, records: seq<IncidentRecord>, evicted: set<Binding>,
                      i: nat, x: Instance, at: nat, r: IncidentRecord)
    requires TableOk(instances, evicted) && IncidentsOk(instances, records, evicted)
    requires i < |instances| && instances[i].occupied && x.occupied && x.binding == instances[i].binding
    requires x.incidentRevision == instances[i].incidentRevision && x.outputKind != Some(OutputKind.Incident)
    requires at < |records| && Names(records[at], x.binding, x.incidentRevision)
    requires Names(r, x.binding, x.incidentRevision)
    ensures IncidentsOk(instances[i := x], records[at := r], evicted)
  {
    var after, rows := instances[i := x], records[at := r];
    InstanceKeepsIncidents(instances, records, evicted, i, x);
    assert KnownRow(after, records[at], evicted);
    forall j | 0 <= j < |after| && after[j].occupied && after[j].outputKind == Some(OutputKind.Incident)
      ensures Retained(rows, after[j].binding, after[j].incidentRevision)
    {
      OtherKeeps(records, at, r, after[j].binding, after[j].incidentRevision);
    }
  }

  /** A failed attempt changes only the status of the row, never to canceled. */
  lemma AttemptKeeps(instances: seq<Instance>, records: seq<IncidentRecord>, evicted: set<Binding>,
                     at: nat, r: IncidentRecord)
    requires IncidentsOk(instances, records, evicted) && at < |records|
    requires r.binding == records[at].binding && r.revision == records[at].revision
    requires r.outbound == records[at].outbound && r.sequence == records[at].sequence
    requires r.transportStages == records[at].transportStages && r.status != IncidentStatus.Canceled
    ensures IncidentsOk(instances, records[at := r], evicted)
  {
    var rows := records[at := r];
    assert KnownRow(instances, records[at], evicted);
    forall i | 0 <= i < |instances| && instances[i].occupied
      && instances[i].outputKind == Some(OutputKind.Incident)
      ensures Retained(rows, instances[i].binding, instances[i].incidentRevision)
    {
      var b, v := instances[i].binding, instances[i].incidentRevision;
      var k :| 0 <= k < |records| && Unstaged(records[k], b, v);
      assert Unstaged(rows[k], b, v);
    }
  }

  /** A new generation in replaceable storage brings no row and takes none away. */
  lemma ReplaceKeepsIncidents(instances: seq<Instance>, records: seq<IncidentRecord>, evicted: set<Binding>,
                              i: nat, b: Binding)
    requires TableOk(instances, evicted) && IncidentsOk(instances, records, evicted)
    requires i < |instances| && b !in evicted && IndexOf(instances, b) == |instances|
    ensures IncidentsOk(instances[i := Fresh(b)], records, EvictedBy(instances, i, evicted))
  {
    var after, gone := instances[i := Fresh(b)], EvictedBy(instances, i, evicted);
    forall k | 0 <= k < |records|
      ensures KnownRow(after, records[k], gone)
    {
      assert KnownRow(instances, records[k], evicted);
      ReplacedIndex(instances, evicted, i, b, records[k].binding);
      var p := IndexOf(instances, records[k].binding);
      assert p < |instances| && p != i ==> after[p] == instances[p];
    }
  }

  // ---- what a held incident is -------------------------------------------------------------

  /** An unstaged row of the incident its binding left open carries that incident. */
  ghost predicate PayloadOk(r: IncidentRecord, slot: Slot) {
    slot.Held? && slot.output.kind == OutputKind.Incident && Unstaged(r, r.binding, slot.output.revision) ==>
      r.incident == slot.output.content
  }

  ghost predicate PayloadsOk(records: seq<IncidentRecord>, history: seq<Event>) {
    forall k :: 0 <= k < |records| ==> PayloadOk(records[k], Open(history, records[k].binding))
  }

  /** Any event but an incident's commit leaves every incident's row as it should be. */
  lemma PayloadsEvent(records: seq<IncidentRecord>, history: seq<Event>, e: Event)
    requires PayloadsOk(records, history) && (IsCommit(e) ==> Named(e).kind != OutputKind.Incident)
    ensures PayloadsOk(records, history + [e])
  {
    hide IsCommit, IsTerminal, Open, Named, Unstaged;
    forall k | 0 <= k < |records|
      ensures PayloadOk(records[k], Open(history + [e], records[k].binding))
    {
      OpenSnoc(history, e, records[k].binding);
      assert PayloadOk(records[k], Open(history, records[k].binding));
    }
  }

  /** A row may be rewritten while it keeps its incident, or when it holds no unstaged one. */
  lemma PayloadsRow(records: seq<IncidentRecord>, history: seq<Event>, at: nat, r: IncidentRecord)
    requires PayloadsOk(records, history) && at < |records|
    requires !r.outbound || SameIncident(records[at], r)
    ensures PayloadsOk(records[at := r], history)
  {
    hide Open;
    assert PayloadOk(records[at], Open(history, records[at].binding));
    var rows := records[at := r];
    assert rows[at] == r && PayloadOk(r, Open(history, r.binding));
    forall k | 0 <= k < |rows|
      ensures PayloadOk(rows[k], Open(history, rows[k].binding))
    {
      if k != at {
        assert PayloadOk(records[k], Open(history, records[k].binding));
      }
    }
  }

  /** The same incident, at most further along. */
  predicate SameIncident(q: IncidentRecord, r: IncidentRecord) {
    && r.incident == q.incident && r.binding == q.binding && r.revision == q.revision
    && r.sequence == q.sequence && r.outbound == q.outbound
    && r.transportStages >= q.transportStages && (q.status == IncidentStatus.Canceled ==> r.status == IncidentStatus.Canceled)
  }

  /** Queuing an incident: the row taken carries it, and no other row names its revision. */
  lemma PayloadsQueued(records: seq<IncidentRecord>, history: seq<Event>, e: Event, at: nat, r: IncidentRecord)
    requires PayloadsOk(records, history) && at < |records| && OneRowEach(records[at := r])
    requires IsCommit(e) && Named(e).kind == OutputKind.Incident
    requires Names(r, e.binding, Named(e).revision) && r.incident == Named(e).content
    ensures PayloadsOk(records[at := r], history + [e])
  {
    hide IsCommit, IsTerminal, Open, Named;
    var rows := records[at := r];
    forall k | 0 <= k < |rows|
      ensures PayloadOk(rows[k], Open(history + [e], rows[k].binding))
    {
      OpenSnoc(history, e, rows[k].binding);
      if k != at {
        assert PayloadOk(records[k], Open(history, records[k].binding));
        assert rows[at] == r;
      }
    }
  }

  // ---- the reducer queue -------------------------------------------------------------------

  /**
   * One copied input of the single ordered reducer queue. A scriptable control names the revision
   * and intent it expects, zero for none; a burst body shares its head's revision. A discarded
   * control was withdrawn after it was queued.
   */
  datatype PendingInput =
    | AuthControl(binding: Binding, lifetimeState: nat)
    | IncidentControl(binding: Binding, incident: nat)
    | ScriptableControl(binding: Binding, revision: nat, intent: nat, burst: bool)
    | DiscardedControl(binding: Binding)
    | ClientIncident(binding: Binding, sourceGeneration: nat, incident: nat)
    | ClientInput(binding: Binding, kind: EventKind, sourceGeneration: nat, payload: nat)
    | ClientMessage(binding: Binding, sourceGeneration: nat, payload: nat)

  /** What a queued row is counted as. */
  datatype Role = Control | Withdrawn | Ingress

  function RoleOf(p: PendingInput): Role {
    match p
    case AuthControl(_, _) => Control
    case IncidentControl(_, _) => Control
    case ScriptableControl(_, _, _, _) => Control
    case DiscardedControl(_) => Withdrawn
    case _ => Ingress
  }

  predicate IsControl(p: PendingInput) { RoleOf(p) == Control }

  predicate IsBurst(p: PendingInput) { p.ScriptableControl? && p.burst }

  /** How many queued rows are counted as one role. */
  function Rows(pending: seq<PendingInput>, role: Role): nat {
    if pending == [] then 0
    else Rows(pending[1..], role) + if RoleOf(pending[0]) == role then 1 else 0
  }

  /** A queued client input names a kind of its own. */
  predicate KindOk(p: PendingInput) {
    p.ClientInput? ==> p.kind == SenseUpdate || p.kind == ClientStateChanged || p.kind == EntitySlotsRequested
  }

  /** Only a burst body may join a binding's queued controls. */
  predicate MayFollow(p: PendingInput, q: PendingInput) {
    IsControl(p) && IsControl(q) && p.binding == q.binding ==> IsBurst(q)
  }

  /**
   * Counters that equal the row counts, and at most one control per binding but for burst bodies:
   * of two queued controls of one binding the later is a burst body.
   */
  ghost predicate QueueOk(pending: seq<PendingInput>, controls: nat, ingress: nat) {
    && controls == Rows(pending, Control) && ingress == Rows(pending, Ingress)
    && (forall i, j :: 0 <= i < j < |pending| ==> MayFollow(pending[i], pending[j]))
    && (forall i :: 0 <= i < |pending| ==> KindOk(pending[i]))
  }

  /** No two queued controls of one binding. */
  ghost predicate OneControlEach(pending: seq<PendingInput>) {
    forall i, j :: 0 <= i < j < |pending| && IsControl(pending[i]) && IsControl(pending[j]) ==>
                     pending[i].binding != pending[j].binding
  }

  /** Each binding has one queued control at most, exactly when no burst body follows one of its own. */
  lemma OneControlExactly(pending: seq<PendingInput>, controls: nat, ingress: nat)
    requires QueueOk(pending, controls, ingress)
    ensures OneControlEach(pending) <==>
            forall i, j :: 0 <= i < j < |pending| && IsControl(pending[i]) && IsBurst(pending[j]) ==>
                             pending[i].binding != pending[j].binding
  {
    hide RoleOf;
    BurstsAreControls(pending);
    forall i, j | 0 <= i < j < |pending|
      ensures MayFollow(pending[i], pending[j])
    {}
  }

  lemma BurstsAreControls(pending: seq<PendingInput>)
    ensures forall k :: 0 <= k < |pending| && IsBurst(pending[k]) ==> IsControl(pending[k])
  {}

  lemma {:induction false} RowsSnoc(pending: seq<PendingInput>, p: PendingInput, role: Role)
    ensures Rows(pending + [p], role) == Rows(pending, role) + if RoleOf(p) == role then 1 else 0
  {
    if pending == [] {
      assert pending + [p] == [p];
      assert Rows([p][1..], role) == 0;
    } else {
      RowsSnoc(pending[1..], p, role);
      assert (pending + [p])[1..] == pending[1..] + [p];
    }
  }

  lemma {:induction false} RowsSet(pending: seq<PendingInput>, k: nat, p: PendingInput, role: Role)
    requires k < |pending|
    ensures Rows(pending[k := p], role) + (if RoleOf(pending[k]) == role then 1 else 0) ==
            Rows(pending, role) + (if RoleOf(p) == role then 1 else 0)
  {
    if k > 0 {
      RowsSet(pending[1..], k - 1, p, role);
      assert pending[k := p][1..] == pending[1..][k - 1 := p];
    } else {
      assert pending[k := p][1..] == pending[1..];
    }
  }

  /** Every row is counted once. */
  lemma {:induction false} RowsAll(pending: seq<PendingInput>)
    ensures Rows(pending, Control) + Rows(pending, Withdrawn) + Rows(pending, Ingress) == |pending|
  {
    if pending != [] {
      RowsAll(pending[1..]);
    }
  }

  lemma QueuePush(pending: seq<PendingInput>, controls: nat, ingress: nat, p: PendingInput)
    requires QueueOk(pending, controls, ingress) && KindOk(p)
    requires forall i :: 0 <= i < |pending| ==> MayFollow(pending[i], p)
    ensures QueueOk(pending + [p], controls + (if RoleOf(p) == Control then 1 else 0),
                    ingress + (if RoleOf(p) == Ingress then 1 else 0))
  {
    hide MayFollow, KindOk, RoleOf;
    RowsSnoc(pending, p, Control);
    RowsSnoc(pending, p, Ingress);
  }

  lemma QueuePop(pending: seq<PendingInput>, controls: nat, ingress: nat)
    requires QueueOk(pending, controls, ingress) && pending != []
    ensures match RoleOf(pending[0])
            case Control => controls > 0 && QueueOk(pending[1..], controls - 1, ingress)
            case Withdrawn => QueueOk(pending[1..], controls, ingress)
            case Ingress => ingress > 0 && QueueOk(pending[1..], controls, ingress - 1)
  {
    hide MayFollow, KindOk, RoleOf;
    assert pending == [pending[0]] + pending[1..];
  }

  /** Withdrawing one queued scriptable control leaves its row behind, uncounted. */
  lemma QueueDiscard(pending: seq<PendingInput>, controls: nat, ingress: nat, k: nat, b: Binding)
    requires QueueOk(pending, controls, ingress) && k < |pending| && IsControl(pending[k])
    ensures controls > 0 && QueueOk(pending[k := DiscardedControl(b)], controls - 1, ingress)
  {
    hide QueueOk;
    RowsSet(pending, k, DiscardedControl(b), Control);
    RowsSet(pending, k, DiscardedControl(b), Ingress);
    DiscardFollows(pending, controls, ingress, k, b);
  }

  lemma DiscardFollows(pending: seq<PendingInput>, controls: nat, ingress: nat, k: nat, b: Binding)
    requires QueueOk(pending, controls, ingress) && k < |pending|
    ensures var after := pending[k := DiscardedControl(b)];
            QueueOk(after, Rows(after, Control), Rows(after, Ingress))
    ensures controls == Rows(pending, Control) && ingress == Rows(pending, Ingress)
  {}
}
