/** What each reducer and lane step does to the table, the history and the incident rows. */
module HostSteps {
  import opened HostTypes
  import opened OutputLives
  import opened HostTable
  import opened HostLinks
  import opened Incidents
  import opened Wrappers

  /** The table, the incident rows and the history of one run agree. */
  ghost predicate Linked(instances: seq<Instance>, records: seq<IncidentRecord>, history: seq<Event>,
                         evicted: set<Binding>)
  {
    && RunOk(instances, history, evicted) && IncidentsOk(instances, records, evicted)
    && PayloadsOk(records, history)
  }

  /** A held output belongs to an active instance. */
  ghost predicate OutputsActive(instances: seq<Instance>) {
    forall i :: 0 <= i < |instances| && instances[i].outputPending ==> instances[i].active
  }

  /** The same generations in the same storage. */
  ghost predicate SameStorage(before: seq<Instance>, after: seq<Instance>) {
    && |before| == |after|
    && forall i :: 0 <= i < |before| ==>
         after[i].occupied == before[i].occupied && after[i].binding == before[i].binding
  }

  /** The same generations in the same storage, equally active. */
  ghost predicate SameGenerations(before: seq<Instance>, after: seq<Instance>) {
    SameStorage(before, after) && forall i :: 0 <= i < |before| ==> after[i].active == before[i].active
  }

  /** No generation was touched later than the newest touch. */
  ghost predicate Recent(instances: seq<Instance>, touched: nat) {
    forall i :: 0 <= i < |instances| ==> instances[i].lastTouched <= touched
  }

  lemma RecentSet(instances: seq<Instance>, touched: nat, i: nat, x: Instance, newest: nat)
    requires Recent(instances, touched) && i < |instances| && touched <= newest && x.lastTouched <= newest
    ensures Recent(instances[i := x], newest)
  {}

  lemma RecentKept(instances: seq<Instance>, touched: nat, i: nat, x: Instance)
    requires Recent(instances, touched) && i < |instances| && x.lastTouched == instances[i].lastTouched
    ensures Recent(instances[i := x], touched) && x.lastTouched <= touched
  {}

  lemma RecentRaised(instances: seq<Instance>, touched: nat)
    requires Recent(instances, touched)
    ensures Recent(instances, touched + 1)
  {}

  // ---- what a request finds ----------------------------------------------------------------

  /** A known, active generation. */
  predicate Live(instances: seq<Instance>, b: Binding) {
    var i := IndexOf(instances, b);
    i < |instances| && instances[i].active
  }

  /** An Auth transition commits: its generation is live, its slot free and its counter not spent. */
  predicate ControlAccepted(instances: seq<Instance>, b: Binding) {
    var i := IndexOf(instances, b);
    i < |instances| && instances[i].active && !instances[i].outputPending && instances[i].stateRevision != MAX_COUNTER
  }

  /** An operator incident commits: as above, and some row is free or evictable. */
  predicate IncidentAccepted(instances: seq<Instance>, records: seq<IncidentRecord>, b: Binding) {
    var i := IndexOf(instances, b);
    && i < |instances| && instances[i].active && !instances[i].outputPending
    && instances[i].incidentRevision != MAX_COUNTER
    && exists at :: 0 <= at < |records| && (records[at].sequence == 0 || Evictable(records[at]))
  }

  /** The state revision a refusal reports. */
  function KnownRevision(instances: seq<Instance>, b: Binding): nat {
    var i := IndexOf(instances, b);
    if i < |instances| && instances[i].active then instances[i].stateRevision else 0
  }

  /** The table once one generation, if known, carries the newest event sequence. */
  function Marked(instances: seq<Instance>, b: Binding, s: nat): seq<Instance> {
    var i := IndexOf(instances, b);
    if i < |instances| then instances[i := instances[i].(lastEventSequence := s)] else instances
  }

  // ---- events ------------------------------------------------------------------------------

  function AuthEvent(b: Binding, kind: EventKind, tick: nat, revision: nat, lifetimeState: nat, source: nat): (e: Event)
    ensures e.binding == b && e.kind == kind && e.missionSequence == 0
  {
    BlankEvent(b, kind, tick).(stateRevision := revision, lifetimeState := lifetimeState, sourceGeneration := source)
  }

  function IncidentEvent(b: Binding, kind: EventKind, tick: nat, revision: nat, incident: nat, source: nat): (e: Event)
    ensures e.binding == b && e.kind == kind && e.missionSequence == 0
  {
    BlankEvent(b, kind, tick).(incidentRevision := revision, payload := incident, sourceGeneration := source)
  }

  // ---- instances ---------------------------------------------------------------------------

  /** The instance after an Auth-state commit. */
  function AuthCommitted(x: Instance, lifetimeState: nat): Instance {
    x.(stateRevision := x.stateRevision + 1, lifetimeState := lifetimeState,
       lastOutputSourceGeneration := 0, outputAttempts := 0, outputStatus := Pending,
       outputKind := Some(AuthState), outputPending := true)
  }

  /** The instance after an operator incident is queued. */
  function IncidentCommitted(x: Instance): Instance {
    x.(incidentRevision := x.incidentRevision + 1, incidentsQueued := x.incidentsQueued + 1,
       incidentsPending := x.incidentsPending + 1, outputPending := true,
       outputKind := Some(OutputKind.Incident), outputStatus := Pending,
       lastOutputSourceGeneration := 0, outputAttempts := 0)
  }

  /** The instance after one client incident. */
  function IncidentSeen(x: Instance, touched: nat, s: nat): Instance {
    x.(lastTouched := touched, lastEventSequence := s, incidentsReceived := x.incidentsReceived + 1)
  }

  /** The instance once its held output is canceled. */
  function OutputCanceled(x: Instance): Instance {
    x.(outputPending := false, outputKind := None, outputStatus := OutputStatus.Canceled,
       incidentsPending := if x.outputKind == Some(OutputKind.Incident) then 0 else x.incidentsPending)
  }

  /** A canceled output is given back, its lane's revision spent. */
  predicate GivenBack(y: Instance, x: Instance) {
    && !x.outputPending && x.outputKind == None && x.outputStatus == OutputStatus.Canceled && x.incidentsPending == 0
    && x.stateRevision == y.stateRevision && x.incidentRevision == y.incidentRevision
    && x.scriptableRevision == y.scriptableRevision
  }

  lemma CanceledGivesBack(x: Instance, s: nat)
    requires Coherent(x)
    ensures GivenBack(x, OutputCanceled(x).(lastEventSequence := s))
  {}

  /** The instance once its held output reached the transport. */
  function OutputStaged(x: Instance, source: nat): Instance {
    x.(outputPending := false, outputKind := None, outputStatus := TransportStaged,
       lastOutputSourceGeneration := source, outputAttempts := x.outputAttempts + 1)
  }

  /** The instance after one failed attempt. */
  function Attempted(x: Instance, source: nat, status: OutputStatus): Instance {
    x.(lastOutputSourceGeneration := source, outputAttempts := x.outputAttempts + 1, outputStatus := status)
  }

  /** A failed attempt is counted against its client and the output stays held. */
  predicate Retried(y: Instance, x: Instance, source: nat, status: OutputStatus) {
    && x.binding == y.binding && x.occupied == y.occupied
    && x.outputPending == y.outputPending && x.outputKind == y.outputKind && x.lifetimeState == y.lifetimeState
    && x.outputAttempts == y.outputAttempts + 1 && x.lastOutputSourceGeneration == source && x.outputStatus == status
    && x.stateRevision == y.stateRevision && x.incidentRevision == y.incidentRevision
  }

  /** One incident row of an operator request. */
  function QueuedRow(b: Binding, incident: nat, revision: nat, sequence: nat): IncidentRecord {
    IncidentRecord(b, incident, sequence, revision, 0, 0, IncidentStatus.Queued, true)
  }

  /** One incident row of a client message. */
  function ReceivedRow(b: Binding, incident: nat, sequence: nat): IncidentRecord {
    IncidentRecord(b, incident, sequence, 0, 0, 0, Received, false)
  }

  // ---- steps -------------------------------------------------------------------------------

  /** A step that leaves the slot and the revisions of one instance alone. */
  lemma QuietLinked(instances: seq<Instance>, records: seq<IncidentRecord>, history: seq<Event>,
                    evicted: set<Binding>, i: nat, x: Instance, e: Event)
    requires Linked(instances, records, history, evicted) && i < |instances| && Coherent(x)
    requires x.occupied == instances[i].occupied && x.binding == instances[i].binding
    requires SlotOf(x) == SlotOf(instances[i]) && NotBehind(instances[i], x)
    requires x.incidentRevision == instances[i].incidentRevision
    requires x.outputKind == Some(OutputKind.Incident) ==> instances[i].outputKind == Some(OutputKind.Incident)
    requires Quiet(instances, e)
    ensures Linked(instances[i := x], records, history + [e], evicted)
    ensures Linked(instances[i := x], records, history, evicted)
  {
    assert !IsCommit(e);
    hide RunOk, IncidentsOk, PayloadsOk, Quiet, SlotOf, Coherent, NotBehind, IsCommit, IsTerminal;
    QuietStep(instances, history, evicted, i, x, e);
    PayloadsEvent(records, history, e);
    InstanceKeepsIncidents(instances, records, evicted, i, x);
  }

  /** Kinds that neither commit nor end an output. */
  predicate QuietKind(kind: EventKind) {
    MissionKind(kind) || kind == OperatorRefused || kind == IncidentRefused
  }

  /** Diagnostic fields of one instance, which no invariant names. */
  predicate OnlyMarked(x: Instance, y: Instance) {
    y == x.(lastTouched := y.lastTouched, lastEventSequence := y.lastEventSequence,
            incidentsReceived := y.incidentsReceived, lastOutputSourceGeneration := y.lastOutputSourceGeneration,
            outputAttempts := y.outputAttempts, outputStatus := y.outputStatus)
  }

  /** Marking one instance, with or without a quiet event. */
  lemma MarkedLinked(instances: seq<Instance>, records: seq<IncidentRecord>, history: seq<Event>,
                     evicted: set<Binding>, i: nat, x: Instance, e: Event)
    requires Linked(instances, records, history, evicted) && i < |instances|
    requires OnlyMarked(instances[i], x) && QuietKind(e.kind)
    ensures Linked(instances[i := x], records, history + [e], evicted)
    ensures Linked(instances[i := x], records, history, evicted)
    ensures SameGenerations(instances, instances[i := x])
    ensures OutputsActive(instances) ==> OutputsActive(instances[i := x])
  {
    hide Linked, Quiet, TableOk, QuietKind, OnlyMarked, Coherent, SlotOf, NotBehind;
    LinkedTable(instances, records, history, evicted);
    QuietIsQuiet(instances, e);
    MarkedKeeps(instances[i], x);
    PlaceKept(instances, i, x);
    hide SameGenerations, OutputsActive;
    QuietLinked(instances, records, history, evicted, i, x, e);
  }

  lemma MarkedKeeps(y: Instance, x: Instance)
    requires OnlyMarked(y, x) && Coherent(y)
    ensures Coherent(x) && SlotOf(x) == SlotOf(y) && NotBehind(y, x) && x.incidentRevision == y.incidentRevision
    ensures x.occupied == y.occupied && x.binding == y.binding && x.active == y.active
    ensures x.outputKind == y.outputKind && x.outputPending == y.outputPending
  {}

  lemma QuietIsQuiet(instances: seq<Instance>, e: Event)
    requires QuietKind(e.kind)
    ensures Quiet(instances, e)
  {}

  lemma SameReflexive(instances: seq<Instance>)
    ensures SameGenerations(instances, instances)
  {}

  /** Rewriting one instance in place keeps every generation, and outputs on active instances. */
  lemma PlaceKept(instances: seq<Instance>, i: nat, x: Instance)
    requires i < |instances| && x.occupied == instances[i].occupied && x.binding == instances[i].binding
    requires x.active == instances[i].active && (x.outputPending ==> x.active || instances[i].outputPending)
    ensures SameGenerations(instances, instances[i := x])
    ensures OutputsActive(instances) ==> OutputsActive(instances[i := x])
  {}

  /** Committing an Auth state on an active instance with a free slot. */
  lemma AuthCommitLinked(instances: seq<Instance>, records: seq<IncidentRecord>, history: seq<Event>,
                         evicted: set<Binding>, i: nat, x: Instance, e: Event, lifetimeState: nat, tick: nat)
    requires Linked(instances, records, history, evicted) && i < |instances|
    requires Owns(instances[i], e.binding) && instances[i].active && !instances[i].outputPending
    requires instances[i].stateRevision != MAX_COUNTER
    requires x == AuthCommitted(instances[i], lifetimeState).(lastTouched := x.lastTouched,
                                                              lastEventSequence := x.lastEventSequence)
    requires e == AuthEvent(e.binding, AuthStateCommitted, tick, instances[i].stateRevision + 1, lifetimeState, 0).(
                    sequence := e.sequence)
    ensures Linked(instances[i := x], records, history + [e], evicted)
    ensures SameGenerations(instances, instances[i := x])
    ensures OutputsActive(instances) ==> OutputsActive(instances[i := x])
  {
    LinkedTable(instances, records, history, evicted);
    AuthCommitFacts(instances[i], x, e, lifetimeState, tick);
    hide Linked, TableOk, Coherent, SlotOf, NotBehind, IsCommit, Named, AuthCommitted, AuthEvent;
    PlaceKept(instances, i, x);
    hide SameGenerations, OutputsActive;
    CommitLinked(instances, records, history, evicted, i, x, e);
  }

  lemma AuthCommitFacts(y: Instance, x: Instance, e: Event, lifetimeState: nat, tick: nat)
    requires Coherent(y) && !y.outputPending && Owns(y, e.binding) && y.stateRevision != MAX_COUNTER
    requires x == AuthCommitted(y, lifetimeState).(lastTouched := x.lastTouched, lastEventSequence := x.lastEventSequence)
    requires e == AuthEvent(e.binding, AuthStateCommitted, tick, y.stateRevision + 1, lifetimeState, 0).(
                    sequence := e.sequence)
    ensures Coherent(x) && NotBehind(y, x) && IsCommit(e) && SlotOf(x) == Held(Named(e)) == Shown(Held(Named(e)))
    ensures x.occupied && x.binding == y.binding && x.active == y.active && x.incidentRevision == y.incidentRevision
    ensures x.outputKind == Some(AuthState) && Named(e).kind == AuthState
    ensures Named(e).revision == RevisionOf(y, Named(e).kind) + 1
  {}

  /** Queuing an operator incident on an active instance with a free slot. */
  lemma IncidentQueueLinked(instances: seq<Instance>, records: seq<IncidentRecord>, history: seq<Event>,
                            evicted: set<Binding>, i: nat, x: Instance, e: Event, at: nat, s: nat, incident: nat, tick: nat)
    requires Linked(instances, records, history, evicted) && i < |instances|
    requires Owns(instances[i], e.binding) && instances[i].active && !instances[i].outputPending
    requires instances[i].incidentRevision != MAX_COUNTER
    requires x == IncidentCommitted(instances[i]).(lastTouched := x.lastTouched, lastEventSequence := x.lastEventSequence)
    requires e == IncidentEvent(e.binding, IncidentQueued, tick, instances[i].incidentRevision + 1, incident, 0).(
                    sequence := e.sequence)
    requires at < |records| && (records[at].sequence == 0 || Evictable(records[at])) && s > 0
    ensures Linked(instances[i := x],
                   records[at := QueuedRow(e.binding, incident, instances[i].incidentRevision + 1, s)], history + [e], evicted)
    ensures SameGenerations(instances, instances[i := x])
    ensures OutputsActive(instances) ==> OutputsActive(instances[i := x])
  {
    LinkedTable(instances, records, history, evicted);
    var row := QueuedRow(e.binding, incident, instances[i].incidentRevision + 1, s);
    IncidentQueueFacts(instances[i], x, e, incident, tick, s);
    hide Linked, TableOk, Coherent, SlotOf, NotBehind, IsCommit, Named, IncidentCommitted, IncidentEvent, QueuedRow, Unstaged,
         Evictable;
    PlaceKept(instances, i, x);
    hide SameGenerations, OutputsActive;
    QueueLinked(instances, records, history, evicted, i, x, e, at, row);
  }

  lemma IncidentQueueFacts(y: Instance, x: Instance, e: Event, incident: nat, tick: nat, s: nat)
    requires Coherent(y) && !y.outputPending && Owns(y, e.binding) && s > 0 && y.incidentRevision != MAX_COUNTER
    requires x == IncidentCommitted(y).(lastTouched := x.lastTouched, lastEventSequence := x.lastEventSequence)
    requires e == IncidentEvent(e.binding, IncidentQueued, tick, y.incidentRevision + 1, incident, 0).(
                    sequence := e.sequence)
    ensures Coherent(x) && NotBehind(y, x) && IsCommit(e) && SlotOf(x) == Shown(Held(Named(e)))
    ensures Named(e).content == incident && QueuedRow(e.binding, incident, y.incidentRevision + 1, s).incident == incident
    ensures x.occupied && x.binding == y.binding && x.active == y.active
    ensures x.incidentRevision == y.incidentRevision + 1
    ensures Named(e).kind == OutputKind.Incident && Named(e).revision == x.incidentRevision
    ensures Unstaged(QueuedRow(e.binding, incident, y.incidentRevision + 1, s), x.binding, x.incidentRevision)
  {}

  // ---- ending an output --------------------------------------------------------------------

  /** Releasing a slot with a terminal event. */
  predicate Ends(y: Instance, x: Instance, e: Event) {
    && y.occupied && x.occupied && x.binding == y.binding == e.binding && x.active == y.active
    && Coherent(x) && NotBehind(y, x) && x.incidentRevision == y.incidentRevision && !x.outputPending
    && IsTerminal(e) && e.missionSequence == 0
  }

  /** Releasing a slot that holds an Auth state, which its terminal event names. */
  predicate EndsAuth(y: Instance, x: Instance, e: Event) {
    Ends(y, x, e) && SlotOf(y) == Held(Named(e)) && Named(e).kind == AuthState
  }

  /** Releasing a slot that holds an incident, which its terminal event names as its row does. */
  predicate EndsIncident(y: Instance, x: Instance, e: Event, row: IncidentRecord) {
    && Ends(y, x, e) && y.outputPending && y.outputKind == Some(OutputKind.Incident)
    && Unstaged(row, x.binding, x.incidentRevision)
    && Named(e) == Output(OutputKind.Incident, x.incidentRevision, row.incident)
  }

  lemma EndsNoInput(y: Instance, x: Instance, e: Event)
    requires Ends(y, x, e)
    ensures !MissionKind(e.kind) && e.missionSequence == 0
  {}

  lemma EndsAuthMarked(y: Instance, x: Instance, e: Event, s: nat)
    requires EndsAuth(y, x, e)
    ensures EndsAuth(y, x.(lastEventSequence := s), e.(sequence := s))
    ensures Ends(y, x, e)
  {}

  lemma EndsIncidentMarked(y: Instance, x: Instance, e: Event, row: IncidentRecord, s: nat)
    requires EndsIncident(y, x, e, row)
    ensures EndsIncident(y, x.(lastEventSequence := s), e.(sequence := s), row)
    ensures Ends(y, x, e)
  {}

  lemma EndOutputLinked(instances: seq<Instance>, records: seq<IncidentRecord>, history: seq<Event>,
                        evicted: set<Binding>, i: nat, x: Instance, e: Event, x0: Instance, e0: Event)
    requires Linked(instances, records, history, evicted) && i < |instances| && EndsAuth(instances[i], x0, e0)
    requires x == x0.(lastEventSequence := e.sequence) && e == e0.(sequence := e.sequence)
    ensures Linked(instances[i := x], records, history + [e], evicted)
    ensures SameGenerations(instances, instances[i := x])
    ensures OutputsActive(instances) ==> OutputsActive(instances[i := x])
  {
    EndsAuthMarked(instances[i], x0, e0, e.sequence);
    hide Linked, Coherent, NotBehind, IsTerminal, SlotOf, Named;
    PlaceKept(instances, i, x);
    EndLinked(instances, records, history, evicted, i, x, e);
  }

  lemma EndIncidentRowLinked(instances: seq<Instance>, records: seq<IncidentRecord>, history: seq<Event>,
                             evicted: set<Binding>, i: nat, x: Instance, e: Event, x0: Instance, e0: Event,
                             at: nat, row: IncidentRecord)
    requires Linked(instances, records, history, evicted) && i < |instances| && at < |records|
    requires EndsIncident(instances[i], x0, e0, records[at])
    requires x == x0.(lastEventSequence := e.sequence) && e == e0.(sequence := e.sequence)
    requires SameIncident(records[at], row)
    ensures Linked(instances[i := x], records[at := row], history + [e], evicted)
    ensures SameGenerations(instances, instances[i := x])
    ensures OutputsActive(instances) ==> OutputsActive(instances[i := x])
  {
    EndsIncidentMarked(instances[i], x0, e0, records[at], e.sequence);
    hide Linked, Coherent, NotBehind, IsTerminal, SlotOf, Named, Unstaged, SameIncident;
    PlaceKept(instances, i, x);
    EndIncidentLinked(instances, records, history, evicted, i, x, e, at, row);
  }

  /** The last event of one cancellation. */
  function CancelEvent(x: Instance, incident: nat, now: nat): Event {
    match x.outputKind
    case Some(Incident) => IncidentEvent(x.binding, IncidentCanceled, now, x.incidentRevision, incident, 0)
    case Some(ScriptableOverride) =>
      BlankEvent(x.binding, ScriptableOverrideCanceled, now).(scriptableRevision := x.scriptableRevision)
    case _ => AuthEvent(x.binding, AuthStateCanceled, now, x.stateRevision, x.lifetimeState, 0)
  }

  /** A cancellation names exactly the output the instance held, in its lane and at its revision. */
  predicate CancelsOutput(x: Instance, e: Event, now: nat) {
    && e.binding == x.binding && e.tick == now && x.outputPending
    && match x.outputKind
       case None => false
       case Some(AuthState) =>
         e.kind == AuthStateCanceled && e.stateRevision == x.stateRevision && e.lifetimeState == x.lifetimeState
       case Some(Incident) => e.kind == IncidentCanceled && e.incidentRevision == x.incidentRevision
       case Some(ScriptableOverride) =>
         e.kind == ScriptableOverrideCanceled && e.scriptableRevision == x.scriptableRevision
  }

  lemma CancelEventCancels(x: Instance, incident: nat, now: nat, s: nat)
    requires x.outputPending && x.outputKind.Some?
    ensures CancelsOutput(x, CancelEvent(x, incident, now).(sequence := s), now)
    ensures x.outputKind == Some(OutputKind.Incident) ==> CancelEvent(x, incident, now).(sequence := s).payload == incident
  {}

  lemma CancelEnds(x: Instance, now: nat)
    requires Coherent(x) && x.occupied && x.outputPending
    requires x.outputKind != Some(OutputKind.Incident) && x.outputKind != Some(ScriptableOverride)
    ensures EndsAuth(x, OutputCanceled(x), CancelEvent(x, 0, now)) && x.outputKind.Some?
    ensures OutputCanceled(x).lastTouched == x.lastTouched
  {}

  lemma CancelEndsIncident(x: Instance, row: IncidentRecord, now: nat)
    requires Coherent(x) && x.occupied && x.outputPending && x.outputKind == Some(OutputKind.Incident)
    requires Unstaged(row, x.binding, x.incidentRevision)
    ensures EndsIncident(x, OutputCanceled(x), CancelEvent(x, row.incident, now), row)
    ensures OutputCanceled(x).binding == x.binding && OutputCanceled(x).incidentRevision == x.incidentRevision
    ensures OutputCanceled(x).lastTouched == x.lastTouched
    ensures SameIncident(row, row.(status := IncidentStatus.Canceled))
  {}

  lemma IncidentSeenLinked(instances: seq<Instance>, records: seq<IncidentRecord>, history: seq<Event>,
                           evicted: set<Binding>, i: nat, touched: nat, s: nat, e: Event)
    requires Linked(instances, records, history, evicted) && i < |instances| && e.kind == IncidentReceived
    ensures var x := IncidentSeen(instances[i], touched, s);
            && Linked(instances[i := x], records, history + [e], evicted)
            && SameGenerations(instances, instances[i := x])
            && (OutputsActive(instances) ==> OutputsActive(instances[i := x]))
  {
    hide Linked;
    MarkedLinked(instances, records, history, evicted, i, IncidentSeen(instances[i], touched, s), e);
  }

  /** Refusing a request of one known generation. */
  lemma RefusedLinked(instances: seq<Instance>, records: seq<IncidentRecord>, history: seq<Event>,
                      evicted: set<Binding>, i: nat, s: nat, e: Event)
    requires Linked(instances, records, history, evicted) && i < |instances| && QuietKind(e.kind)
    ensures var x := instances[i].(lastEventSequence := s);
            && Linked(instances[i := x], records, history + [e], evicted)
            && SameGenerations(instances, instances[i := x])
            && (OutputsActive(instances) ==> OutputsActive(instances[i := x]))
  {
    hide Linked, QuietKind;
    MarkedLinked(instances, records, history, evicted, i, instances[i].(lastEventSequence := s), e);
  }

  lemma QuietEventLinked(instances: seq<Instance>, records: seq<IncidentRecord>, history: seq<Event>,
                         evicted: set<Binding>, e: Event)
    requires Linked(instances, records, history, evicted) && QuietKind(e.kind)
    ensures Linked(instances, records, history + [e], evicted)
  {
    QuietIsQuiet(instances, e);
    assert !IsCommit(e);
    hide Quiet, RunOk, IncidentsOk, PayloadsOk, IsCommit;
    QuietEvent(instances, history, evicted, e);
    PayloadsEvent(records, history, e);
  }

  /** Committing an Auth state into a free slot. */
  lemma CommitLinked(instances: seq<Instance>, records: seq<IncidentRecord>, history: seq<Event>,
                     evicted: set<Binding>, i: nat, x: Instance, e: Event)
    requires Linked(instances, records, history, evicted) && i < |instances| && instances[i].occupied && Coherent(x)
    requires x.occupied && x.binding == instances[i].binding == e.binding && NotBehind(instances[i], x)
    requires x.incidentRevision == instances[i].incidentRevision && x.outputKind != Some(OutputKind.Incident)
    requires IsCommit(e) && !instances[i].outputPending && SlotOf(x) == Shown(Held(Named(e)))
    requires Named(e).revision == RevisionOf(instances[i], Named(e).kind) + 1 && Named(e).kind == AuthState
    ensures Linked(instances[i := x], records, history + [e], evicted)
  {
    assert SlotOf(instances[i]) == Free;
    hide RunOk, IncidentsOk, PayloadsOk, IsCommit, Named, SlotOf, Coherent, Shown;
    CommitStep(instances, history, evicted, i, x, e);
    PayloadsEvent(records, history, e);
    InstanceKeepsIncidents(instances, records, evicted, i, x);
  }

  lemma LinkedTable(instances: seq<Instance>, records: seq<IncidentRecord>, history: seq<Event>,
                    evicted: set<Binding>)
    requires Linked(instances, records, history, evicted)
    ensures TableOk(instances, evicted)
    ensures forall i :: 0 <= i < |instances| ==> Coherent(instances[i])
    ensures |records| == INCIDENT_CAPACITY
  {}

  /** Queuing an operator incident: its row is taken and its slot held. */
  lemma QueueLinked(instances: seq<Instance>, records: seq<IncidentRecord>, history: seq<Event>,
                    evicted: set<Binding>, i: nat, x: Instance, e: Event, at: nat, r: IncidentRecord)
    requires Linked(instances, records, history, evicted) && i < |instances| && instances[i].occupied && Coherent(x)
    requires x.occupied && x.binding == instances[i].binding == e.binding && NotBehind(instances[i], x)
    requires x.incidentRevision == instances[i].incidentRevision + 1
    requires IsCommit(e) && !instances[i].outputPending && SlotOf(x) == Shown(Held(Named(e)))
    requires Named(e).kind == OutputKind.Incident && Named(e).revision == x.incidentRevision
    requires Named(e).content == r.incident
    requires at < |records| && (records[at].sequence == 0 || Evictable(records[at]))
    requires Unstaged(r, x.binding, x.incidentRevision)
    ensures Linked(instances[i := x], records[at := r], history + [e], evicted)
  {
    assert SlotOf(instances[i]) == Free;
    LinkedTable(instances, records, history, evicted);
    UnstagedNamed(r, x.binding, x.incidentRevision);
    hide RunOk, IncidentsOk, PayloadsOk, IsCommit, Named, SlotOf, Coherent, TableOk, Unstaged, Evictable, Shown, Names;
    CommitStep(instances, history, evicted, i, x, e);
    QueuedRowKeeps(instances, records, evicted, i, x, at, r);
    IncidentsRows(instances[i := x], records[at := r], evicted);
    PayloadsQueued(records, history, e, at, r);
  }

  lemma UnstagedNamed(r: IncidentRecord, b: Binding, revision: nat)
    requires Unstaged(r, b, revision)
    ensures Names(r, b, revision) && r.status != IncidentStatus.Canceled
  {}

  lemma IncidentsRows(instances: seq<Instance>, records: seq<IncidentRecord>, evicted: set<Binding>)
    requires IncidentsOk(instances, records, evicted)
    ensures OneRowEach(records) && |records| == INCIDENT_CAPACITY
  {}

  /** The history left open what an instance shows. */
  lemma OpenShown(instances: seq<Instance>, history: seq<Event>, evicted: set<Binding>, i: nat)
    requires RunOk(instances, history, evicted) && i < |instances| && instances[i].occupied
    ensures Shown(Open(history, instances[i].binding)) == SlotOf(instances[i])
  {
    IndexUnique(instances, evicted, i, instances[i].binding);
  }

  /** A held incident is the one its unstaged row carries. */
  lemma OpenIncident(instances: seq<Instance>, records: seq<IncidentRecord>, history: seq<Event>,
                     evicted: set<Binding>, i: nat, at: nat)
    requires RunOk(instances, history, evicted) && PayloadsOk(records, history)
    requires i < |instances| && instances[i].occupied && at < |records|
    requires instances[i].outputPending && instances[i].outputKind == Some(OutputKind.Incident)
    requires Unstaged(records[at], instances[i].binding, instances[i].incidentRevision)
    ensures Open(history, instances[i].binding) ==
            Held(Output(OutputKind.Incident, instances[i].incidentRevision, records[at].incident))
  {
    OpenShown(instances, history, evicted, i);
    hide RunOk, Open;
    assert PayloadOk(records[at], Open(history, records[at].binding));
  }

  /** Ending a held output that is not an incident. */
  lemma EndLinked(instances: seq<Instance>, records: seq<IncidentRecord>, history: seq<Event>,
                  evicted: set<Binding>, i: nat, x: Instance, e: Event)
    requires Linked(instances, records, history, evicted) && i < |instances| && instances[i].occupied && Coherent(x)
    requires x.occupied && x.binding == instances[i].binding == e.binding && NotBehind(instances[i], x)
    requires x.incidentRevision == instances[i].incidentRevision && !x.outputPending
    requires IsTerminal(e) && SlotOf(instances[i]) == Held(Named(e)) && Named(e).kind == AuthState
    ensures Linked(instances[i := x], records, history + [e], evicted)
  {
    assert SlotOf(x) == Free && !IsCommit(e);
    assert x.outputKind == None;
    OpenShown(instances, history, evicted, i);
    hide RunOk, IncidentsOk, PayloadsOk, IsCommit, IsTerminal, Named, SlotOf, Coherent, Open;
    TerminalStep(instances, history, evicted, i, x, e);
    PayloadsEvent(records, history, e);
    InstanceKeepsIncidents(instances, records, evicted, i, x);
  }

  /** Ending a held incident together with its row. */
  lemma EndIncidentLinked(instances: seq<Instance>, records: seq<IncidentRecord>, history: seq<Event>,
                          evicted: set<Binding>, i: nat, x: Instance, e: Event, at: nat, r: IncidentRecord)
    requires Linked(instances, records, history, evicted) && i < |instances| && instances[i].occupied && Coherent(x)
    requires x.occupied && x.binding == instances[i].binding == e.binding && NotBehind(instances[i], x)
    requires x.incidentRevision == instances[i].incidentRevision && !x.outputPending
    requires IsTerminal(e) && instances[i].outputPending && instances[i].outputKind == Some(OutputKind.Incident)
    requires at < |records| && Unstaged(records[at], x.binding, x.incidentRevision)
    requires Named(e) == Output(OutputKind.Incident, x.incidentRevision, records[at].incident)
    requires SameIncident(records[at], r)
    ensures Linked(instances[i := x], records[at := r], history + [e], evicted)
  {
    assert SlotOf(x) == Free && !IsCommit(e);
    assert x.outputKind == None;
    LinkedTable(instances, records, history, evicted);
    OpenIncident(instances, records, history, evicted, i, at);
    SameNamed(records[at], r, x.binding, x.incidentRevision);
    hide RunOk, IncidentsOk, PayloadsOk, IsCommit, IsTerminal, Named, SlotOf, Coherent, TableOk, Names, Unstaged, Open, SameIncident;
    TerminalStep(instances, history, evicted, i, x, e);
    EndedRowKeeps(instances, records, evicted, i, x, at, r);
    PayloadsRow(records, history, at, r);
    PayloadsEvent(records[at := r], history, e);
  }

  lemma SameNamed(q: IncidentRecord, r: IncidentRecord, b: Binding, revision: nat)
    requires SameIncident(q, r) && Unstaged(q, b, revision)
    ensures Names(q, b, revision) && Names(r, b, revision)
  {}

  /** Every held incident's row is found, and it is still unstaged. */
  lemma HeldIncidentFound(instances: seq<Instance>, records: seq<IncidentRecord>, history: seq<Event>,
                          evicted: set<Binding>, i: nat)
    requires Linked(instances, records, history, evicted) && i < |instances| && instances[i].occupied
    requires instances[i].outputKind == Some(OutputKind.Incident)
    ensures var b, revision := instances[i].binding, instances[i].incidentRevision;
            && (exists k :: 0 <= k < |records| && Names(records[k], b, revision))
            && forall k :: 0 <= k < |records| && Names(records[k], b, revision) ==> Unstaged(records[k], b, revision)
  {
    var b, revision := instances[i].binding, instances[i].incidentRevision;
    assert Retained(records, b, revision);
    forall k | 0 <= k < |records| && Names(records[k], b, revision)
      ensures Unstaged(records[k], b, revision)
    {
      FoundIsRetained(records, b, revision, k);
    }
  }

  /** Giving replaceable storage to a generation that owns none. */
  lemma ReplaceLinked(instances: seq<Instance>, records: seq<IncidentRecord>, history: seq<Event>,
                      evicted: set<Binding>, i: nat, b: Binding)
    requires Linked(instances, records, history, evicted) && i < |instances| && b !in evicted
    requires IndexOf(instances, b) == |instances| && Replaceable(instances[i])
    ensures Linked(instances[i := Fresh(b)], records, history, EvictedBy(instances, i, evicted))
  {
    LinkedTable(instances, records, history, evicted);
    hide TableOk, IncidentsOk, RunOk;
    ReplaceStep(instances, history, evicted, i, b);
    ReplaceKeepsIncidents(instances, records, evicted, i, b);
  }

  /** A client incident may take any free or evictable row. */
  lemma ClientRowLinked(instances: seq<Instance>, records: seq<IncidentRecord>, history: seq<Event>,
                        evicted: set<Binding>, at: nat, r: IncidentRecord)
    requires Linked(instances, records, history, evicted) && at < |records| && !r.outbound
    requires records[at].sequence == 0 || Evictable(records[at])
    ensures Linked(instances, records[at := r], history, evicted)
  {
    hide RunOk, IncidentsOk, PayloadsOk;
    ClientRowKeeps(instances, records, evicted, at, r);
    PayloadsRow(records, history, at, r);
  }

  /** A failed attempt of a held incident changes its row's attempt count and status. */
  lemma AttemptLinked(instances: seq<Instance>, records: seq<IncidentRecord>, history: seq<Event>,
                      evicted: set<Binding>, at: nat, r: IncidentRecord)
    requires Linked(instances, records, history, evicted) && at < |records|
    requires r == records[at].(attempts := r.attempts, status := r.status) && r.status != IncidentStatus.Canceled
    requires records[at].status != IncidentStatus.Canceled
    ensures Linked(instances, records[at := r], history, evicted)
  {
    hide RunOk, IncidentsOk, PayloadsOk;
    PayloadsRow(records, history, at, r);
    AttemptKeeps(instances, records, evicted, at, r);
  }

  // ---- the service slice -------------------------------------------------------------------

  /** Flags of one instance that no revision and no slot depends on. */
  lemma FlagsLinked(instances: seq<Instance>, records: seq<IncidentRecord>, history: seq<Event>,
                    evicted: set<Binding>, i: nat, active: bool, reserved: bool)
    requires Linked(instances, records, history, evicted) && i < |instances|
    requires (active || reserved) ==> instances[i].occupied
    ensures Linked(instances[i := instances[i].(active := active, scriptableReservationPending := reserved)], records, history, evicted)
  {
    LinkedTable(instances, records, history, evicted);
    var x := instances[i].(active := active, scriptableReservationPending := reserved);
    assert Coherent(instances[i]) && Coherent(x);
    QuietIsQuiet(instances, BlankEvent(x.binding, OperatorRefused, 0));
    hide Linked, Coherent, TableOk, Quiet;
    QuietLinked(instances, records, history, evicted, i, x, BlankEvent(x.binding, OperatorRefused, 0));
  }

  lemma TouchedLinked(instances: seq<Instance>, records: seq<IncidentRecord>, history: seq<Event>,
                      evicted: set<Binding>, i: nat, touched: nat)
    requires Linked(instances, records, history, evicted) && i < |instances|
    ensures Linked(instances[i := instances[i].(lastTouched := touched)], records, history, evicted)
  {
    hide Linked;
    MarkedLinked(instances, records, history, evicted, i, instances[i].(lastTouched := touched),
                 BlankEvent(instances[i].binding, OperatorRefused, 0));
  }

  /** An instance once the active set was recomputed: active exactly when retained, else replaceable. */
  predicate Serviced(x: Instance, bindings: seq<Binding>) {
    && (x.active <==> x.occupied && x.binding in bindings)
    && (!x.active ==> Replaceable(x))
  }

  /** A canceled or idle instance that is not retained can be replaced. */
  lemma DeactivatedServiced(x: Instance, bindings: seq<Binding>)
    requires Coherent(x) && x.active == (x.occupied && x.binding in bindings)
    requires x.active || (!x.outputPending && !x.scriptableReservationPending)
    ensures Serviced(x, bindings)
  {}

  /** While a retained generation has no instance, some storage is replaceable. */
  lemma RoomLeft(instances: seq<Instance>, evicted: set<Binding>, bindings: seq<Binding>, b: Binding)
    requires TableOk(instances, evicted) && RetainedOk(bindings, evicted) && b in bindings
    requires IndexOf(instances, b) == |instances|
    requires forall i :: 0 <= i < |instances| ==> Serviced(instances[i], bindings)
    ensures exists i :: 0 <= i < |instances| && Replaceable(instances[i])
  {
    SomeInactive(instances, evicted, bindings, b);
    var i :| 0 <= i < |instances| && !instances[i].active;
    assert Serviced(instances[i], bindings);
  }

  /** Storage i is the one a new generation takes: the first free, else the oldest replaceable. */
  predicate Chosen(instances: seq<Instance>, i: nat) {
    && i < |instances|
    && if !instances[i].occupied then forall j :: 0 <= j < i ==> instances[j].occupied
       else
         && Replaceable(instances[i])
         && (forall j :: 0 <= j < |instances| ==> instances[j].occupied)
         && forall j :: 0 <= j < |instances| && Replaceable(instances[j]) ==>
              instances[i].lastTouched <= instances[j].lastTouched
  }

  /** Storage i is taken from the least recently touched generation that may be replaced, as none is free. */
  ghost predicate EvictsOldest(instances: seq<Instance>, i: nat) {
    && i < |instances| && !instances[i].active && !instances[i].outputPending && !instances[i].scriptableReservationPending
    && forall j :: 0 <= j < |instances| ==>
         instances[j].occupied && (Replaceable(instances[j]) ==> instances[j].lastTouched >= instances[i].lastTouched)
  }

  lemma ChosenOldest(instances: seq<Instance>, i: nat)
    requires Chosen(instances, i)
    ensures instances[i].occupied ==> EvictsOldest(instances, i)
  {}

  lemma ChosenReplaceable(instances: seq<Instance>, i: nat)
    requires Chosen(instances, i) && Coherent(instances[i])
    ensures Replaceable(instances[i])
  {}

  /** Ensuring one retained generation takes storage from no retained one. */
  lemma EnsuredKeeps(instances: seq<Instance>, evicted: set<Binding>, i: nat, bindings: seq<Binding>, b: Binding)
    requires TableOk(instances, evicted) && RetainedOk(bindings, evicted) && b in bindings
    requires forall j :: 0 <= j < |instances| ==> Serviced(instances[j], bindings)
    requires IndexOf(instances, b) == |instances| && Chosen(instances, i)
    ensures RetainedOk(bindings, EvictedBy(instances, i, evicted))
    ensures IndexOf(instances[i := Fresh(b)], b) == i
    ensures forall c :: c in bindings && IndexOf(instances, c) < |instances| ==>
              IndexOf(instances[i := Fresh(b)], c) < |instances|
  {
    ChosenReplaceable(instances, i);
    assert Serviced(instances[i], bindings);
    ReplacedIndex(instances, evicted, i, b, b);
    forall c | c in bindings && IndexOf(instances, c) < |instances|
      ensures IndexOf(instances[i := Fresh(b)], c) < |instances|
    {
      ReplacedIndex(instances, evicted, i, b, c);
    }
  }

  /** A table whose generation i was made active and touched. */
  lemma ActivatedKeeps(instances: seq<Instance>, bindings: seq<Binding>, i: nat, touched: nat)
    requires i < |instances| && instances[i].occupied && instances[i].binding in bindings
    requires forall j :: 0 <= j < |instances| && j != i ==> Serviced(instances[j], bindings)
    ensures var after := instances[i := instances[i].(active := true, lastTouched := touched)];
            && (forall j :: 0 <= j < |after| ==> Serviced(after[j], bindings))
            && forall c :: IndexOf(after, c) == IndexOf(instances, c)
  {
    var x := instances[i].(active := true, lastTouched := touched);
    forall c
      ensures IndexOf(instances[i := x], c) == IndexOf(instances, c)
    {
      IndexKept(instances, i, x, c);
    }
  }

  /** Every output held after the active set was recomputed belongs to an active instance. */
  lemma ServicedOutputs(instances: seq<Instance>, bindings: seq<Binding>)
    requires forall i :: 0 <= i < |instances| ==> Serviced(instances[i], bindings)
    ensures OutputsActive(instances)
  {
    forall i | 0 <= i < |instances| && instances[i].outputPending
      ensures instances[i].active
    {
      assert Serviced(instances[i], bindings);
    }
  }

  /** Exactly one instance owns a generation, and it is active. */
  ghost predicate OwnedOnce(instances: seq<Instance>, b: Binding) {
    exists i :: && 0 <= i < |instances| && Owns(instances[i], b) && instances[i].active
                && forall j :: 0 <= j < |instances| && Owns(instances[j], b) ==> j == i
  }

  lemma ServicedAll(table: seq<Instance>, instances: seq<Instance>, evicted: set<Binding>, bindings: seq<Binding>)
    requires TableOk(instances, evicted) && SameGenerations(table, instances)
    requires forall i :: 0 <= i < |table| ==> Serviced(table[i], bindings)
    requires forall j :: 0 <= j < |bindings| ==> IndexOf(table, bindings[j]) < |table|
    ensures forall i :: 0 <= i < |instances| ==>
              (instances[i].active <==> instances[i].occupied && instances[i].binding in bindings)
    ensures forall j :: 0 <= j < |bindings| ==> OwnedOnce(instances, bindings[j])
  {
    assert forall i :: 0 <= i < |table| ==> Serviced(table[i], bindings);
    forall j | 0 <= j < |bindings|
      ensures OwnedOnce(instances, bindings[j])
    {
      var i := IndexOf(table, bindings[j]);
      assert Serviced(table[i], bindings);
      assert Owns(instances[i], bindings[j]);
    }
  }

  lemma SameTransitive(a: seq<Instance>, b: seq<Instance>, c: seq<Instance>)
    requires SameGenerations(a, b) && SameGenerations(b, c)
    ensures SameGenerations(a, c)
  {}

  lemma QueueHead(pending: seq<PendingInput>, controls: nat, ingress: nat)
    requires QueueOk(pending, controls, ingress) && pending != []
    ensures KindOk(pending[0])
  {}

  lemma QueueEmpty(controls: nat, ingress: nat)
    requires QueueOk([], controls, ingress)
    ensures controls == 0 && ingress == 0
  {}

  // ---- entry points ------------------------------------------------------------------------

  /** A generation that cannot take another control: one is queued, or its slot is held or reserved. */
  ghost predicate Engaged(instances: seq<Instance>, pending: seq<PendingInput>, b: Binding) {
    var i := IndexOf(instances, b);
    || (exists k :: 0 <= k < |pending| && IsControl(pending[k]) && pending[k].binding == b)
    || (i < |instances| && (instances[i].outputPending || instances[i].scriptableReservationPending))
  }

  /** A status that reports an attempt. */
  predicate AttemptStatus(status: OutputStatus) {
    || status == WaitingForEpoch || status == NoLayout || status == NoGroups || status == NoOverrideTarget
    || status == AmbiguousLinks || status == OutputStatus.FrameRefused
  }

  /** The generation holds exactly this committed Auth state; revision zero names none. */
  predicate HoldsAuth(instances: seq<Instance>, b: Binding, revision: nat, lifetimeState: nat) {
    var i := IndexOf(instances, b);
    && revision != 0 && i < |instances| && instances[i].outputPending && instances[i].outputKind == Some(AuthState)
    && instances[i].stateRevision == revision && instances[i].lifetimeState == lifetimeState
  }

  /** The generation's output is an operator incident. */
  predicate HoldsIncident(instances: seq<Instance>, b: Binding) {
    var i := IndexOf(instances, b);
    i < |instances| && instances[i].outputKind == Some(OutputKind.Incident)
  }

  /** A committed Auth state is held as it was committed. */
  lemma CommittedHolds(instances: seq<Instance>, i: nat, x: Instance, e: Event, lifetimeState: nat, tick: nat)
    requires i < |instances| && i == IndexOf(instances, e.binding)
    requires x == AuthCommitted(instances[i], lifetimeState).(lastTouched := x.lastTouched,
                                                              lastEventSequence := x.lastEventSequence)
    requires e == AuthEvent(e.binding, AuthStateCommitted, tick, instances[i].stateRevision + 1, lifetimeState, 0).(
                    sequence := e.sequence)
    ensures HoldsAuth(instances[i := x], e.binding, e.stateRevision, lifetimeState)
  {
    IndexKept(instances, i, x, e.binding);
  }

  /** The output was staged by one client: one attempt more, the slot given back, no revision spent. */
  predicate Reached(y: Instance, x: Instance, source: nat) {
    && !x.outputPending && x.outputStatus == TransportStaged && x.lastOutputSourceGeneration == source
    && x.outputAttempts == y.outputAttempts + 1
    && x.stateRevision == y.stateRevision && x.incidentRevision == y.incidentRevision
    && x.scriptableRevision == y.scriptableRevision
  }

  function AuthStaged(x: Instance, source: nat): Instance {
    OutputStaged(x, source).(transportRevision := x.stateRevision)
  }

  function IncidentStaged(x: Instance, source: nat): Instance {
    OutputStaged(x, source).(incidentTransportRevision := x.incidentRevision, incidentsPending := 0)
  }

  function RowAttempted(r: IncidentRecord, status: IncidentStatus): IncidentRecord {
    r.(attempts := r.attempts + 1, status := status)
  }

  function RowStaged(r: IncidentRecord): IncidentRecord {
    r.(attempts := r.attempts + 1, transportStages := r.transportStages + 1, status := IncidentStatus.Staged)
  }

  lemma PendingIsKind(x: Instance)
    requires Coherent(x)
    ensures x.outputPending <==> x.outputKind.Some?
  {}

  /** A held incident has a nonzero revision. */
  lemma HeldRevisions(instances: seq<Instance>)
    requires forall i :: 0 <= i < |instances| ==> Coherent(instances[i])
    ensures forall i :: 0 <= i < |instances| && instances[i].outputKind == Some(OutputKind.Incident) ==>
              instances[i].incidentRevision != 0
  {}

  lemma AttemptedLinked(instances: seq<Instance>, records: seq<IncidentRecord>, history: seq<Event>,
                        evicted: set<Binding>, i: nat, source: nat, status: OutputStatus)
    requires Linked(instances, records, history, evicted) && i < |instances|
    ensures var x := Attempted(instances[i], source, status);
            && Linked(instances[i := x], records, history, evicted)
            && SameGenerations(instances, instances[i := x])
            && (OutputsActive(instances) ==> OutputsActive(instances[i := x]))
            && x.lastTouched == instances[i].lastTouched && Retried(instances[i], x, source, status)
  {
    hide Linked;
    MarkedLinked(instances, records, history, evicted, i, Attempted(instances[i], source, status),
                 BlankEvent(instances[i].binding, OperatorRefused, 0));
  }

  lemma StagedEnds(x: Instance, source: nat, tick: nat)
    requires Coherent(x) && x.occupied && x.outputPending && x.outputKind == Some(AuthState)
    ensures EndsAuth(x, AuthStaged(x, source),
                 AuthEvent(x.binding, AuthStateTransportStaged, tick, x.stateRevision, x.lifetimeState, source))
    ensures AuthStaged(x, source).lastTouched == x.lastTouched && Reached(x, AuthStaged(x, source), source)
    ensures AuthStaged(x, source).transportRevision == x.stateRevision
  {}

  lemma StagedEndsIncident(x: Instance, row: IncidentRecord, source: nat, tick: nat)
    requires Coherent(x) && x.occupied && x.outputPending && x.outputKind == Some(OutputKind.Incident)
    requires Unstaged(row, x.binding, x.incidentRevision)
    ensures EndsIncident(x, IncidentStaged(x, source),
                         IncidentEvent(x.binding, IncidentTransportStaged, tick, x.incidentRevision, row.incident, source), row)
    ensures IncidentStaged(x, source).binding == x.binding
    ensures IncidentStaged(x, source).incidentRevision == x.incidentRevision
    ensures IncidentStaged(x, source).lastTouched == x.lastTouched && Reached(x, IncidentStaged(x, source), source)
    ensures IncidentStaged(x, source).incidentTransportRevision == x.incidentRevision
    ensures SameIncident(row, RowStaged(row))
  {}

  lemma IncidentEventPayload(b: Binding, kind: EventKind, tick: nat, revision: nat, incident: nat, source: nat)
    ensures IncidentEvent(b, kind, tick, revision, incident, source).payload == incident
  {}

  lemma CanceledKind(x: Instance, e: Event, now: nat)
    requires CancelsOutput(x, e, now) && x.outputKind == Some(OutputKind.Incident)
    ensures e.kind == IncidentCanceled
  {}

  // ---- the scriptable lane -----------------------------------------------------------------

  /** The instance after the scriptable lane committed a head body. */
  function ScriptableCommitted(x: Instance): Instance {
    x.(scriptableRevision := x.scriptableRevision + 1, outputPending := true, outputKind := Some(ScriptableOverride),
       outputStatus := Pending, lastOutputSourceGeneration := 0, outputAttempts := 0)
  }

  /** The instance once its scriptable bodies reached the transport; a lifetime body latches its state. */
  function ScriptableStaged(x: Instance, source: nat, latched: Option<nat>): Instance {
    OutputStaged(x, source).(scriptableTransportRevision := x.scriptableRevision,
                             lifetimeState := if latched.Some? then latched.value else x.lifetimeState)
  }

  function ScriptableEvent(b: Binding, kind: EventKind, tick: nat, revision: nat, source: nat): (e: Event)
    ensures e.binding == b && e.kind == kind && e.missionSequence == 0 && e.scriptableRevision == revision
  {
    BlankEvent(b, kind, tick).(scriptableRevision := revision, sourceGeneration := source)
  }

  predicate ScriptableKind(kind: EventKind) {
    kind == ScriptableOverrideCommitted || kind == ScriptableOverrideTransportStaged || kind == ScriptableOverrideCanceled
  }

  /** The slot is free or the scriptable lane's own. */
  predicate ScriptableOwns(x: Instance) {
    x.outputPending ==> x.outputKind == Some(ScriptableOverride)
  }

  /** A step of the scriptable lane: it takes the slot, keeps it or gives it back. */
  predicate ScriptableMove(y: Instance, x: Instance) {
    && y.occupied && x.occupied && x.binding == y.binding && x.active == y.active && Coherent(x)
    && NotBehind(y, x) && x.incidentRevision == y.incidentRevision
    && ScriptableOwns(y) && ScriptableOwns(x) && (x.outputPending ==> x.active)
  }

  /** A scriptable step with its event. The Auth-state and incident lanes see nothing of it. */
  lemma ScriptableLinked(instances: seq<Instance>, records: seq<IncidentRecord>, history: seq<Event>,
                         evicted: set<Binding>, i: nat, x: Instance, e: Event)
    requires Linked(instances, records, history, evicted) && i < |instances| && ScriptableMove(instances[i], x)
    requires ScriptableKind(e.kind) && e.binding == x.binding
    ensures Linked(instances[i := x], records, history + [e], evicted)
    ensures SameGenerations(instances, instances[i := x])
    ensures OutputsActive(instances) ==> OutputsActive(instances[i := x])
  {
    LinkedTable(instances, records, history, evicted);
    IndexUnique(instances, evicted, i, e.binding);
    ScriptableQuiet(instances[i], x, e);
    assert Quiet(instances, e);
    hide Linked, Quiet, TableOk, SlotOf, Coherent, NotBehind, ScriptableKind;
    PlaceKept(instances, i, x);
    QuietLinked(instances, records, history, evicted, i, x, e);
  }

  lemma ScriptableQuiet(y: Instance, x: Instance, e: Event)
    requires ScriptableMove(y, x) && ScriptableKind(e.kind) && Coherent(y)
    ensures SlotOf(y) == Free && SlotOf(x) == Free && !IsCommit(e) && !IsTerminal(e)
    ensures x.outputKind != Some(OutputKind.Incident)
  {}

  /** One more scriptable event while the slot is the lane's own or free. */
  lemma ScriptableEventLinked(instances: seq<Instance>, records: seq<IncidentRecord>, history: seq<Event>,
                              evicted: set<Binding>, i: nat, e: Event)
    requires Linked(instances, records, history, evicted) && i < |instances|
    requires ScriptableMove(instances[i], instances[i]) && ScriptableKind(e.kind) && e.binding == instances[i].binding
    ensures Linked(instances, records, history + [e], evicted)
  {
    hide Linked, ScriptableMove, ScriptableKind;
    ScriptableLinked(instances, records, history, evicted, i, instances[i], e);
    assert instances[i := instances[i]] == instances;
  }

  lemma CommitMoves(x: Instance, y: Instance, joins: bool, s: nat)
    requires Coherent(x) && x.occupied && x.active && (x.outputPending <==> joins) && ScriptableOwns(x)
    requires x.scriptableRevision != MAX_COUNTER
    requires y == (if joins then x else ScriptableCommitted(x)).(lastTouched := y.lastTouched)
    ensures ScriptableMove(x, y.(lastEventSequence := s))
  {}

  lemma CancelMoves(x: Instance, now: nat, s: nat)
    requires Coherent(x) && x.occupied && x.outputKind == Some(ScriptableOverride)
    ensures ScriptableMove(x, OutputCanceled(x).(lastEventSequence := s))
    ensures ScriptableKind(CancelEvent(x, 0, now).kind) && CancelEvent(x, 0, now).binding == OutputCanceled(x).binding
    ensures CancelEvent(x, 0, now).missionSequence == 0 && OutputCanceled(x).lastTouched == x.lastTouched
  {}

  lemma CanceledMoves(x: Instance)
    requires Coherent(x) && x.occupied && x.outputKind == Some(ScriptableOverride)
    ensures ScriptableMove(x, OutputCanceled(x))
    ensures OutputCanceled(x).binding == x.binding && OutputCanceled(x).scriptableRevision == x.scriptableRevision
    ensures OutputCanceled(x).lastTouched == x.lastTouched
  {}

  lemma FailedMoves(x: Instance, source: nat, status: OutputStatus)
    requires Coherent(x) && x.occupied && x.outputKind == Some(ScriptableOverride)
    ensures ScriptableMove(x, OutputCanceled(Attempted(x, source, status)).(outputStatus := status))
    ensures OutputCanceled(Attempted(x, source, status)).lastTouched == x.lastTouched
  {}

  lemma StagedMoves(x: Instance, source: nat, latched: Option<nat>)
    requires Coherent(x) && x.occupied && x.outputKind == Some(ScriptableOverride)
    ensures ScriptableMove(x, ScriptableStaged(x, source, latched))
    ensures ScriptableStaged(x, source, latched).binding == x.binding
    ensures ScriptableStaged(x, source, latched).scriptableRevision == x.scriptableRevision
    ensures ScriptableStaged(x, source, latched).lastTouched == x.lastTouched && Reached(x, ScriptableStaged(x, source, latched), source)
    ensures ScriptableStaged(x, source, latched).scriptableTransportRevision == x.scriptableRevision
  {}

  /** The lane may also leave its slot as it is. */
  lemma StillMoves(y: Instance, x: Instance)
    requires ScriptableMove(y, x) && Coherent(y) && (y.outputPending ==> y.active)
    ensures ScriptableMove(y, y) && y.binding == x.binding
  {}

  lemma StillMoved(y: Instance, x: Instance, s: nat)
    requires ScriptableMove(y, x)
    ensures ScriptableMove(y, x.(lastEventSequence := s))
  {}

  /** The generation's output is a scriptable body. */
  predicate HoldsScriptable(instances: seq<Instance>, b: Binding) {
    var i := IndexOf(instances, b);
    i < |instances| && instances[i].outputPending && instances[i].outputKind == Some(ScriptableOverride)
  }

  lemma NoScriptable(instances: seq<Instance>, i: nat, b: Binding)
    requires i == IndexOf(instances, b)
    ensures HoldsScriptable(instances, b) <==>
            i < |instances| && instances[i].outputPending && instances[i].outputKind == Some(ScriptableOverride)
  {}

  lemma HeldActive(instances: seq<Instance>, i: nat)
    requires OutputsActive(instances) && i < |instances|
    ensures instances[i].outputPending ==> instances[i].active
  {}

  /** The events that end one burst: a body each, in order, from one history position on. */
  ghost predicate Ended(events: seq<Event>, start: nat, b: Binding, kind: EventKind, revisions: seq<nat>, source: nat, tick: nat) {
    && |events| == |revisions|
    && forall k :: 0 <= k < |events| ==>
         events[k] == ScriptableEvent(b, kind, tick, revisions[k], source).(sequence := start + k + 1)
  }

  lemma NothingEnded(start: nat, b: Binding, kind: EventKind, source: nat, tick: nat)
    ensures Ended([], start, b, kind, [], source, tick)
  {}

  lemma EndedSnoc(events: seq<Event>, start: nat, b: Binding, kind: EventKind, revisions: seq<nat>, source: nat, tick: nat,
                  revision: nat)
    requires Ended(events, start, b, kind, revisions, source, tick)
    ensures |events| == |revisions|
    ensures Ended(events + [ScriptableEvent(b, kind, tick, revision, source).(sequence := start + |events| + 1)], start, b, kind,
                  revisions + [revision], source, tick)
  {}

  /** A queued control or a held output; a reservation aside. */
  ghost predicate Occupied(instances: seq<Instance>, pending: seq<PendingInput>, b: Binding) {
    var i := IndexOf(instances, b);
    || (exists k :: 0 <= k < |pending| && IsControl(pending[k]) && pending[k].binding == b)
    || (i < |instances| && instances[i].outputPending)
  }

  /** A control of one binding waits in the queue. */
  ghost predicate ControlQueued(pending: seq<PendingInput>, b: Binding) {
    exists k :: 0 <= k < |pending| && IsControl(pending[k]) && pending[k].binding == b
  }

  /**
   * A live generation's request is turned away exactly when a control of it is already queued, its slot is
   * reserved, or the reducer itself would refuse an Auth transition for the slot.
   */
  lemma TurnedAwayExactly(instances: seq<Instance>, pending: seq<PendingInput>, b: Binding)
    requires Live(instances, b) && instances[IndexOf(instances, b)].stateRevision != MAX_COUNTER
    ensures Occupied(instances, pending, b) <==> ControlQueued(pending, b) || !ControlAccepted(instances, b)
    ensures Engaged(instances, pending, b) <==>
            Occupied(instances, pending, b) || instances[IndexOf(instances, b)].scriptableReservationPending
  {}

  function Unreserved(instances: seq<Instance>, b: Binding): seq<Instance> {
    var i := IndexOf(instances, b);
    if i < |instances| then instances[i := instances[i].(scriptableReservationPending := false)] else instances
  }

  /** Where a scriptable revision stands once it is, or can no longer be, in the queue. */
  datatype WithdrawStatus = Mismatched | AlreadyStaged | Advanced | HeldNow | CanceledBefore | TakenBack | Absent

  /** What the instance alone says of one revision; nothing while only the queue can tell. */
  function Standing(x: Instance, revision: nat): Option<WithdrawStatus> {
    if x.scriptableTransportRevision == revision then Some(AlreadyStaged)
    else if x.scriptableRevision > revision || x.scriptableTransportRevision > revision then Some(Advanced)
    else if x.scriptableRevision == revision then
      Some(if x.outputPending && x.outputKind == Some(ScriptableOverride) then HeldNow else CanceledBefore)
    else if x.outputPending || x.scriptableReservationPending then Some(Mismatched)
    else None
  }

  /** Row k is the scriptable request of one intent and revision. */
  predicate Requests(pending: seq<PendingInput>, k: nat, b: Binding, intent: nat, revision: nat) {
    k < |pending| && pending[k].ScriptableControl? && pending[k].binding == b && pending[k].intent == intent
    && pending[k].revision == revision
  }

  /** What each answer to a withdrawal says of the instance and of the queue; exactly one of them is true. */
  ghost predicate WithdrawAnswers(instances: seq<Instance>, pending: seq<PendingInput>, b: Binding, intent: nat, revision: nat,
                                  status: WithdrawStatus)
  {
    var i := IndexOf(instances, b);
    var named := intent != 0 && revision != 0 && i < |instances|;
    var requested := exists k: nat :: Requests(pending, k, b, intent, revision);
    var ahead := named && instances[i].scriptableRevision < revision && instances[i].scriptableTransportRevision < revision;
    var taken := named && (instances[i].outputPending || instances[i].scriptableReservationPending);
    match status
    case AlreadyStaged => named && instances[i].scriptableTransportRevision == revision
    case Advanced =>
      && named && instances[i].scriptableTransportRevision != revision
      && (revision < instances[i].scriptableRevision || revision < instances[i].scriptableTransportRevision)
    case HeldNow =>
      named && instances[i].scriptableTransportRevision < revision == instances[i].scriptableRevision && HoldsScriptable(instances, b)
    case CanceledBefore =>
      named && instances[i].scriptableTransportRevision < revision == instances[i].scriptableRevision && !HoldsScriptable(instances, b)
    case Mismatched => !named || (ahead && taken)
    case TakenBack => ahead && !taken && requested
    case Absent => ahead && !taken && !requested
  }

  /** The first matching row is discarded and nothing else moves. */
  ghost predicate TookBack(pending: seq<PendingInput>, after: seq<PendingInput>, b: Binding, intent: nat, revision: nat) {
    exists k: nat :: && Requests(pending, k, b, intent, revision)
                     && (forall j: nat :: j < k ==> !Requests(pending, j, b, intent, revision))
                     && after == pending[k := DiscardedControl(Binding(0, 0))]
  }

  lemma EmptyQueue()
    ensures QueueOk([], 0, 0)
  {}

  // ---- what a run's history says -----------------------------------------------------------

  /**
   * In every run, whatever the scriptable lane does, between two successive Auth-state or incident
   * commits of a binding the first output ends exactly once, before the scriptable lane runs again.
   */
  lemma RunLives(instances: seq<Instance>, records: seq<IncidentRecord>, history: seq<Event>, evicted: set<Binding>,
                 i: nat, j: nat)
    returns (k: nat)
    requires Linked(instances, records, history, evicted) && i < j < |history|
    requires IsCommit(history[i]) && IsCommit(history[j]) && history[i].binding == history[j].binding
    requires forall m :: i < m < j ==> !(history[m].binding == history[i].binding && IsCommit(history[m]))
    ensures i < k < j && history[k].binding == history[i].binding && IsTerminal(history[k])
    ensures Named(history[k]) == Named(history[i])
    ensures forall m :: i < m < j && history[m].binding == history[i].binding && IsTerminal(history[m]) ==> m == k
    ensures forall m :: i < m < k && history[m].binding == history[i].binding ==> !IsScriptable(history[m])
    ensures Named(history[i]).kind == Named(history[j]).kind ==> Named(history[i]).revision < Named(history[j]).revision
  {
    hide IsCommit, IsTerminal, IsScriptable, Named, Open;
    k := OneTerminalBetween(history, i, j);
    assert Named(history[i]).kind == Named(history[j]).kind ==> SameLane(history[i], history[j]);
  }

  /**
   * In every run, the table's held outputs are the ones the history left open: an instance holds the
   * very Auth state of its last commit, and the row of a held incident the very incident.
   */
  lemma RunOpen(instances: seq<Instance>, records: seq<IncidentRecord>, history: seq<Event>, evicted: set<Binding>,
                i: nat)
    requires Linked(instances, records, history, evicted) && i < |instances| && instances[i].occupied
    ensures var x, slot := instances[i], Open(history, instances[i].binding);
            match x.outputKind
            case Some(AuthState) => slot == Held(Output(AuthState, x.stateRevision, x.lifetimeState))
            case Some(Incident) =>
              exists at :: && 0 <= at < |records| && Unstaged(records[at], x.binding, x.incidentRevision)
                           && slot == Held(Output(OutputKind.Incident, x.incidentRevision, records[at].incident))
            case _ => slot == Free
    ensures instances[i].outputPending <==> instances[i].outputKind.Some?
    ensures instances[i].incidentsPending == if instances[i].outputKind == Some(OutputKind.Incident) then 1 else 0
  {
    LinkedTable(instances, records, history, evicted);
    assert Coherent(instances[i]);
    OpenShown(instances, history, evicted, i);
    hide RunOk, IncidentsOk, PayloadsOk, Open, TableOk;
    if instances[i].outputKind == Some(OutputKind.Incident) {
      HeldRow(instances, records, evicted, i);
      var at :| 0 <= at < |records| && Unstaged(records[at], instances[i].binding, instances[i].incidentRevision);
      OpenIncident(instances, records, history, evicted, i, at);
    }
  }

  lemma HeldRow(instances: seq<Instance>, records: seq<IncidentRecord>, evicted: set<Binding>, i: nat)
    requires IncidentsOk(instances, records, evicted) && i < |instances| && instances[i].occupied
    requires instances[i].outputKind == Some(OutputKind.Incident)
    ensures exists at :: 0 <= at < |records| && Unstaged(records[at], instances[i].binding, instances[i].incidentRevision)
  {
    assert Retained(records, instances[i].binding, instances[i].incidentRevision);
  }
}
