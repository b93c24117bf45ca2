/** One service slice of the Host: what every queued row does, and what a whole drained queue did. */
module HostSlice {
  import opened HostTypes
  import opened OutputLives
  import opened HostTable
  import opened HostLinks
  import opened HostSteps
  import opened Incidents
  import opened MissionInputs
  import opened Wrappers

  /** What reducing a row may change. */
  datatype State = State(
    instances: seq<Instance>, records: seq<IncidentRecord>, rows: seq<Row>, sequence: nat, durable: Durable,
    touched: nat, droppedIngress: nat, refusedControls: nat, incidentsDropped: nat, incidentsRefused: nat)

  /**
   * What one row is told from outside: whether the allocator and mission State grant an input its
   * durable sequence, and, of a scriptable body, whether mission State still assigns it, whether its
   * burst has room and whether it could be encoded.
   */
  datatype Replies = Replies(granted: bool, armed: bool, room: bool, encoded: bool)

  // ---- events ------------------------------------------------------------------------------

  /** The event of one client State change, entity-slot request or Sense update. */
  function InputEvent(p: PendingInput, x: Instance, now: nat): (e: Event)
    requires p.ClientInput?
    ensures e.binding == p.binding && e.kind == p.kind && e.payload == p.payload && e.missionSequence == 0
  {
    BlankEvent(p.binding, p.kind, now).(
      sourceGeneration := p.sourceGeneration, payload := p.payload,
      stateRevision := if p.kind == ClientStateChanged then 0 else x.stateRevision,
      lifetimeState := if p.kind == SenseUpdate then x.lifetimeState else 0)
  }

  /** The feed event of one client envelope. */
  function MessageEvent(p: PendingInput, x: Instance, now: nat): (e: Event)
    requires p.ClientMessage?
    ensures e.binding == p.binding && e.kind == ClientMessageReceived && e.missionSequence == 0
  {
    BlankEvent(p.binding, ClientMessageReceived, now).(
      sourceGeneration := p.sourceGeneration, payload := p.payload, stateRevision := x.stateRevision)
  }

  // ---- what one row does -------------------------------------------------------------------

  /** The durable sequence the next accepted input of a binding gets, zero when it gets none. */
  function GrantedSequence(durable: Durable, b: Binding, granted: bool): nat {
    if granted && b in durable && HighWater(durable[b]) != MAX_COUNTER then HighWater(durable[b]) + 1 else 0
  }

  lemma MessagesAreInputs()
    ensures MissionKind(ClientMessageReceived) && MissionKind(IncidentReceived)
  {}

  lemma InputsEnterFeed(p: PendingInput)
    requires KindOk(p) && p.ClientInput?
    ensures MissionKind(p.kind)
  {}

  lemma ReceivedInbound(b: Binding, incident: nat, n: nat)
    ensures !ReceivedRow(b, incident, n).outbound
  {}

  /** One event's place in the accepted-input feed: a row exactly when it holds a durable sequence. */
  ghost predicate Accepted(e: Event, s: State, t: State) {
    if e.missionSequence == 0 then t.rows == s.rows && t.sequence == s.sequence && t.durable == s.durable
    else
      && e.binding in s.durable && t.durable == Issued(s.durable, e.binding)
      && e.missionSequence == HighWater(s.durable[e.binding]) + 1
      && t.sequence == s.sequence + 1 && t.rows == s.rows + [Fed(e, t.sequence)]
  }

  /**
   * A reservation: the row takes a free place or else the oldest evictable one, or every place holds
   * unstaged operator work and the row is turned away.
   */
  ghost predicate RowTaken(records: seq<IncidentRecord>, after: seq<IncidentRecord>, row: IncidentRecord, away: int) {
    if forall k :: 0 <= k < |records| ==> records[k].sequence != 0 && !Evictable(records[k])
    then after == records && away == 1
    else away == 0 && exists at: nat :: Reserved(records, at) && after == records[at := row]
  }

  /** An input of a generation that is not live is lost, and only counted. */
  ghost predicate Lost(p: PendingInput, s: State, t: State, answer: seq<Event>) {
    && t == s.(droppedIngress := s.droppedIngress + 1,
               incidentsDropped := s.incidentsDropped + if p.ClientIncident? then 1 else 0)
    && answer == []
  }

  /** A client State change, entity-slot request or Sense update enters both histories. */
  ghost predicate InputReduced(p: PendingInput, r: Replies, now: nat, s: State, t: State, answer: seq<Event>, n: nat)
    requires p.ClientInput?
  {
    if !Live(s.instances, p.binding) then Lost(p, s, t, answer)
    else
      var i := IndexOf(s.instances, p.binding);
      var x := s.instances[i];
      && answer == [InputEvent(p, x, now).(
                      missionSequence := GrantedSequence(s.durable, p.binding, r.granted), sequence := n)]
      && Accepted(answer[0], s, t)
      && t == s.(instances := s.instances[i := x.(lastTouched := s.touched + 1, lastEventSequence := n)],
                 touched := s.touched + 1, rows := t.rows, sequence := t.sequence, durable := t.durable)
  }

  /** A client envelope enters the accepted-input feed only. */
  ghost predicate MessageReduced(p: PendingInput, r: Replies, now: nat, s: State, t: State, answer: seq<Event>)
    requires p.ClientMessage?
  {
    if !Live(s.instances, p.binding) then Lost(p, s, t, answer)
    else
      var i := IndexOf(s.instances, p.binding);
      var x := s.instances[i];
      && answer == []
      && Accepted(MessageEvent(p, x, now).(missionSequence := GrantedSequence(s.durable, p.binding, r.granted)), s, t)
      && t == s.(instances := s.instances[i := x.(lastTouched := s.touched + 1)], touched := s.touched + 1,
                 rows := t.rows, sequence := t.sequence, durable := t.durable)
  }

  /** A client incident enters both histories and, when a row allows, the incident history. */
  ghost predicate IncidentReduced(p: PendingInput, r: Replies, now: nat, s: State, t: State, answer: seq<Event>, n: nat)
    requires p.ClientIncident?
  {
    if !Live(s.instances, p.binding) then Lost(p, s, t, answer)
    else
      var i := IndexOf(s.instances, p.binding);
      var x := s.instances[i];
      && answer == [IncidentEvent(p.binding, IncidentReceived, now, 0, p.incident, p.sourceGeneration).(
                      missionSequence := GrantedSequence(s.durable, p.binding, r.granted), sequence := n)]
      && Accepted(answer[0], s, t)
      && RowTaken(s.records, t.records, ReceivedRow(p.binding, p.incident, n), t.incidentsDropped - s.incidentsDropped)
      && t == s.(instances := s.instances[i := IncidentSeen(x, s.touched + 1, n)], touched := s.touched + 1,
                 rows := t.rows, sequence := t.sequence, durable := t.durable,
                 records := t.records, incidentsDropped := t.incidentsDropped)
  }

  /** A refused request marks its generation, if known, and is counted. */
  ghost predicate Refused(p: PendingInput, s: State, t: State, n: nat) {
    t == s.(instances := Marked(s.instances, p.binding, n), refusedControls := s.refusedControls + 1,
            incidentsRefused := s.incidentsRefused + if p.IncidentControl? then 1 else 0)
  }

  /** An Auth transition is committed into a free slot, or refused. */
  ghost predicate AuthReduced(p: PendingInput, now: nat, s: State, t: State, answer: seq<Event>, n: nat)
    requires p.AuthControl?
  {
    if !ControlAccepted(s.instances, p.binding) then
      && Refused(p, s, t, n)
      && answer == [AuthEvent(p.binding, OperatorRefused, now, KnownRevision(s.instances, p.binding), p.lifetimeState, 0).(
                      sequence := n)]
    else
      var i := IndexOf(s.instances, p.binding);
      var x := s.instances[i];
      && answer == [AuthEvent(p.binding, AuthStateCommitted, now, x.stateRevision + 1, p.lifetimeState, 0).(sequence := n)]
      && t == s.(instances := s.instances[i := AuthCommitted(x, p.lifetimeState).(lastTouched := s.touched + 1,
                                                                                  lastEventSequence := n)],
                 touched := s.touched + 1)
      && HoldsAuth(t.instances, p.binding, answer[0].stateRevision, p.lifetimeState)
  }

  /** An operator incident is committed into a free slot and a row of the incident history, or refused. */
  ghost predicate QueueReduced(p: PendingInput, now: nat, s: State, t: State, answer: seq<Event>, n: nat)
    requires p.IncidentControl?
  {
    if !IncidentAccepted(s.instances, s.records, p.binding) then
      && Refused(p, s, t, n)
      && answer == [IncidentEvent(p.binding, IncidentRefused, now, 0, p.incident, 0).(sequence := n)]
    else
      var i := IndexOf(s.instances, p.binding);
      var x := s.instances[i];
      && answer == [IncidentEvent(p.binding, IncidentQueued, now, x.incidentRevision + 1, p.incident, 0).(sequence := n)]
      && RowTaken(s.records, t.records, QueuedRow(p.binding, p.incident, x.incidentRevision + 1, n), 0)
      && t == s.(instances := s.instances[i := IncidentCommitted(x).(lastTouched := s.touched + 1, lastEventSequence := n)],
                 touched := s.touched + 1, records := t.records)
  }

  lemma QueueTurnedAway(p: PendingInput, now: nat, s: State, t: State, answer: seq<Event>, n: nat)
    requires p.IncidentControl? && !IncidentAccepted(s.instances, s.records, p.binding) && Refused(p, s, t, n)
    requires answer == [IncidentEvent(p.binding, IncidentRefused, now, 0, p.incident, 0).(sequence := n)]
    ensures QueueReduced(p, now, s, t, answer, n)
  {}

  lemma QueueTaken(p: PendingInput, now: nat, s: State, t: State, answer: seq<Event>, n: nat, at: nat)
    requires p.IncidentControl? && IncidentAccepted(s.instances, s.records, p.binding) && Reserved(s.records, at)
    requires var i := IndexOf(s.instances, p.binding);
             var x := s.instances[i];
             && answer == [IncidentEvent(p.binding, IncidentQueued, now, x.incidentRevision + 1, p.incident, 0).(sequence := n)]
             && t == s.(instances := s.instances[i := IncidentCommitted(x).(lastTouched := s.touched + 1, lastEventSequence := n)],
                        touched := s.touched + 1,
                        records := s.records[at := QueuedRow(p.binding, p.incident, x.incidentRevision + 1, n)])
    ensures QueueReduced(p, now, s, t, answer, n)
  {
    ReservedFree(s.records, at);
  }

  /** A burst body that joins the burst its binding already holds. */
  predicate Joins(x: Instance, p: PendingInput, room: bool)
    requires p.ScriptableControl?
  {
    p.burst && room && x.outputPending && x.outputKind == Some(ScriptableOverride) && p.revision == x.scriptableRevision
  }

  /** A scriptable body commits: it joins its burst, or is the expected head of a free slot. */
  predicate ScriptableAccepted(instances: seq<Instance>, p: PendingInput, r: Replies)
    requires p.ScriptableControl?
  {
    var i := IndexOf(instances, p.binding);
    && i < |instances| && instances[i].active && r.armed && r.encoded && instances[i].scriptableRevision != MAX_COUNTER
    && (Joins(instances[i], p, r.room)
        || (!instances[i].outputPending && (p.revision == 0 || p.revision == instances[i].scriptableRevision + 1)))
  }

  /** A scriptable body is committed at its burst's revision or one up, or refused. */
  ghost predicate ScriptableReduced(p: PendingInput, r: Replies, now: nat, s: State, t: State, answer: seq<Event>, n: nat)
    requires p.ScriptableControl?
  {
    if !ScriptableAccepted(s.instances, p, r) then
      && Refused(p, s, t, n)
      && answer == [BlankEvent(p.binding, OperatorRefused, now).(sequence := n)]
    else
      var i := IndexOf(s.instances, p.binding);
      var x := s.instances[i];
      var y := if x.outputPending then x else ScriptableCommitted(x);
      && answer == [ScriptableEvent(p.binding, ScriptableOverrideCommitted, now, y.scriptableRevision, 0).(sequence := n)]
      && t == s.(instances := s.instances[i := y.(lastTouched := s.touched + 1, lastEventSequence := n)],
                 touched := s.touched + 1)
  }

  lemma ScriptableTaken(p: PendingInput, r: Replies, now: nat, s: State, t: State, answer: seq<Event>, n: nat)
    requires p.ScriptableControl? && ScriptableAccepted(s.instances, p, r)
    requires var i := IndexOf(s.instances, p.binding);
             var x := s.instances[i];
             var y := if x.outputPending then x else ScriptableCommitted(x);
             && answer == [ScriptableEvent(p.binding, ScriptableOverrideCommitted, now, y.scriptableRevision, 0).(sequence := n)]
             && t == s.(instances := s.instances[i := y.(lastTouched := s.touched + 1, lastEventSequence := n)],
                        touched := s.touched + 1)
    ensures ScriptableReduced(p, r, now, s, t, answer, n)
  {}

  lemma ScriptableTurnedAway(p: PendingInput, r: Replies, now: nat, s: State, t: State, answer: seq<Event>, n: nat)
    requires p.ScriptableControl? && !ScriptableAccepted(s.instances, p, r) && Refused(p, s, t, n)
    requires answer == [BlankEvent(p.binding, OperatorRefused, now).(sequence := n)]
    ensures ScriptableReduced(p, r, now, s, t, answer, n)
  {}

  /** What one queued row does. Its answer, if any, is history event n. */
  ghost predicate Reduces(p: PendingInput, r: Replies, now: nat, s: State, t: State, answer: seq<Event>, n: nat) {
    match p
    case AuthControl(_, _) => AuthReduced(p, now, s, t, answer, n)
    case IncidentControl(_, _) => QueueReduced(p, now, s, t, answer, n)
    case ScriptableControl(_, _, _, _) => ScriptableReduced(p, r, now, s, t, answer, n)
    case DiscardedControl(_) => t == s && answer == []
    case ClientIncident(_, _, _) => IncidentReduced(p, r, now, s, t, answer, n)
    case ClientInput(_, _, _, _) => InputReduced(p, r, now, s, t, answer, n)
    case ClientMessage(_, _, _) => MessageReduced(p, r, now, s, t, answer)
  }

  // ---- what one row's answer says ----------------------------------------------------------

  /** The one event that answers a control, and whether it says that the control was committed. */
  ghost predicate ControlAnswered(p: PendingInput, r: Replies, now: nat, s: State, answer: seq<Event>, n: nat) {
    && |answer| == 1 && answer[0].binding == p.binding && answer[0].tick == now && answer[0].sequence == n
    && match p
       case AuthControl(b, lifetimeState) =>
         && answer[0].kind == (if ControlAccepted(s.instances, b) then AuthStateCommitted else OperatorRefused)
         && answer[0].lifetimeState == lifetimeState
         && var i := IndexOf(s.instances, b);
            answer[0].stateRevision == if ControlAccepted(s.instances, b) then s.instances[i].stateRevision + 1
                                       else if Live(s.instances, b) then s.instances[i].stateRevision else 0
       case IncidentControl(b, incident) =>
         && answer[0].kind == (if IncidentAccepted(s.instances, s.records, b) then IncidentQueued else IncidentRefused)
         && answer[0].payload == incident
         && answer[0].incidentRevision == if IncidentAccepted(s.instances, s.records, b)
                                          then s.instances[IndexOf(s.instances, b)].incidentRevision + 1 else 0
       case ScriptableControl(b, _, _, _) =>
         && answer[0].kind == (if ScriptableAccepted(s.instances, p, r) then ScriptableOverrideCommitted else OperatorRefused)
         && var i := IndexOf(s.instances, b);
            && answer[0].scriptableRevision == (if ScriptableAccepted(s.instances, p, r)
                                                then s.instances[i].scriptableRevision + if s.instances[i].outputPending then 0 else 1
                                                else 0)
            && (ScriptableAccepted(s.instances, p, r) ==>
                  && Live(s.instances, b) && (p.revision != 0 ==> answer[0].scriptableRevision == p.revision)
                  && (s.instances[i].outputPending ==> p.burst && s.instances[i].outputKind == Some(ScriptableOverride)))
       case _ => false
  }

  /** A commit into a free slot holds its output from now on: not attempted, not reported, in its own lane. */
  ghost predicate Started(p: PendingInput, s: State, t: State, e: Event) {
    var i := IndexOf(s.instances, p.binding);
    e.kind == AuthStateCommitted || e.kind == IncidentQueued || e.kind == ScriptableOverrideCommitted ==>
      && i < |s.instances| == |t.instances| && t.instances[i].outputPending
      && (!s.instances[i].outputPending ==>
            && t.instances[i].outputStatus == Pending && t.instances[i].outputAttempts == 0
            && t.instances[i].lastOutputSourceGeneration == 0
            && t.instances[i].outputKind == Some(if p.AuthControl? then AuthState
                                                 else if p.IncidentControl? then OutputKind.Incident else ScriptableOverride))
  }

  /** The one event that records a live generation's input. */
  ghost predicate InputAnswered(p: PendingInput, now: nat, s: State, answer: seq<Event>, n: nat) {
    && |answer| == 1 && answer[0].binding == p.binding && answer[0].tick == now && answer[0].sequence == n
    && match p
       case ClientIncident(_, source, incident) =>
         answer[0].kind == IncidentReceived && answer[0].sourceGeneration == source && answer[0].payload == incident
       case ClientInput(_, kind, source, payload) =>
         && answer[0].kind == kind && answer[0].sourceGeneration == source && answer[0].payload == payload
         && var i := IndexOf(s.instances, p.binding);
            && i < |s.instances|
            && answer[0].stateRevision == (if kind == ClientStateChanged then 0 else s.instances[i].stateRevision)
            && (kind == SenseUpdate ==> answer[0].lifetimeState == s.instances[i].lifetimeState)
       case _ => false
  }

  /** An operator incident that still waits for the transport. */
  predicate Waits(r: IncidentRecord) { Unstaged(r, r.binding, r.revision) }

  /** One row was rewritten: the first free one, or else the oldest that holds no waiting operator incident. */
  ghost predicate Displaced(records: seq<IncidentRecord>, after: seq<IncidentRecord>, at: nat) {
    && at < |records| == |after| && after == records[at := after[at]]
    && if records[at].sequence == 0 then forall i :: 0 <= i < at ==> records[i].sequence != 0
       else
         && !Waits(records[at])
         && forall i :: 0 <= i < |records| ==>
              records[i].sequence != 0 && (Waits(records[i]) || records[at].sequence <= records[i].sequence)
  }

  /**
   * The row of one incident, of a client or of an operator. A client's is turned away, and counted, when its
   * generation is not live or every row waits for the transport.
   */
  ghost predicate Recorded(p: PendingInput, live: set<Binding>, s: State, t: State, answer: seq<Event>, n: nat) {
    match p
    case ClientIncident(b, _, incident) =>
      if b !in live || forall k :: 0 <= k < |s.records| ==> Waits(s.records[k])
      then t.records == s.records && t.incidentsDropped == s.incidentsDropped + 1
      else
        && t.incidentsDropped == s.incidentsDropped
        && exists at: nat :: Displaced(s.records, t.records, at) && Receives(t.records[at], b, incident, n)
    case IncidentControl(b, incident) =>
      && t.incidentsDropped == s.incidentsDropped
      && if answer != [] && answer[0].kind == IncidentQueued
         then exists at: nat :: Displaced(s.records, t.records, at) && Queues(t.records[at], b, answer[0].incidentRevision, incident, n)
         else t.records == s.records
    case _ => t.records == s.records && t.incidentsDropped == s.incidentsDropped
  }

  predicate Receives(r: IncidentRecord, b: Binding, incident: nat, n: nat) {
    r.binding == b && r.incident == incident && r.sequence == n && !r.outbound
  }

  predicate Queues(r: IncidentRecord, b: Binding, revision: nat, incident: nat, n: nat) {
    Unstaged(r, b, revision) && r.incident == incident && r.sequence == n && r.attempts == 0
  }

  lemma ReservedDisplaces(records: seq<IncidentRecord>, at: nat, row: IncidentRecord)
    requires Reserved(records, at)
    ensures Displaced(records, records[at := row], at) && records[at := row][at] == row
  {}

  /** The counters of one row: a refusal, an incident refused or received, and the newest event of its generation. */
  ghost predicate Counted(p: PendingInput, live: set<Binding>, s: State, t: State, answer: seq<Event>, n: nat) {
    var i := IndexOf(s.instances, p.binding);
    var refused := IsControl(p) && answer != [] && (answer[0].kind == OperatorRefused || answer[0].kind == IncidentRefused);
    && |t.instances| == |s.instances|
    && t.refusedControls == s.refusedControls + (if refused then 1 else 0)
    && t.incidentsRefused == s.incidentsRefused + (if refused && p.IncidentControl? then 1 else 0)
    && (i < |s.instances| && answer != [] ==>
          && t.instances[i].lastEventSequence == n
          && t.instances[i].incidentsReceived == s.instances[i].incidentsReceived + (if p.ClientIncident? then 1 else 0)
          && t.instances[i].incidentsQueued ==
             s.instances[i].incidentsQueued + if p.IncidentControl? && !refused then 1 else 0)
  }

  /** An input of a generation in this set is recorded; any other is lost. */
  predicate Stray(p: PendingInput, live: set<Binding>) { RoleOf(p) == Ingress && p.binding !in live }

  /** The input gets a durable sequence, and with it one row of the accepted-input feed. */
  predicate Sequenced(p: PendingInput, r: Replies, live: set<Binding>, durable: Durable) {
    && RoleOf(p) == Ingress && p.binding in live && r.granted
    && p.binding in durable && HighWater(durable[p.binding]) != MAX_COUNTER
  }

  /** The input is the one its feed row and its event describe, at the next durable sequence of its binding. */
  ghost predicate FeedRow(p: PendingInput, durable: Durable, row: Row, sequence: nat) {
    && row.sequence == sequence && row.event.sequence > 0
    && row.event.binding == p.binding && p.binding in durable
    && row.event.missionSequence == HighWater(durable[p.binding]) + 1
    && match p
       case ClientIncident(_, source, incident) =>
         row.event.kind == IncidentReceived && row.event.sourceGeneration == source && row.event.payload == incident
       case ClientInput(_, kind, source, payload) =>
         row.event.kind == kind && row.event.sourceGeneration == source && row.event.payload == payload
       case ClientMessage(_, source, payload) =>
         row.event.kind == ClientMessageReceived && row.event.sourceGeneration == source && row.event.payload == payload
       case _ => false
  }

  /**
   * What one row leaves behind while exactly these generations are live: a control one answer, by
   * whether the table it finds accepts it; a live generation's input its one event and, exactly when it
   * is granted a durable sequence, one feed row; any other input one count of its loss.
   */
  ghost predicate RowExact(p: PendingInput, r: Replies, now: nat, live: set<Binding>, s: State, t: State,
                           answer: seq<Event>, n: nat)
  {
    && (if IsControl(p) then ControlAnswered(p, r, now, s, answer, n) && Started(p, s, t, answer[0])
        else if (p.ClientIncident? || p.ClientInput?) && p.binding in live then InputAnswered(p, now, s, answer, n)
        else answer == [])
    && t.droppedIngress == s.droppedIngress + (if Stray(p, live) then 1 else 0)
    && Recorded(p, live, s, t, answer, n) && Counted(p, live, s, t, answer, n)
    && (if Sequenced(p, r, live, s.durable) then
          |t.rows| == |s.rows| + 1 && t.rows[..|s.rows|] == s.rows && FeedRow(p, s.durable, t.rows[|s.rows|], s.sequence + 1)
        else t.rows == s.rows && t.durable == s.durable)
  }

  /** These are the generations that are known and active. */
  ghost predicate LiveSet(instances: seq<Instance>, live: set<Binding>) {
    forall b :: b in live <==> Live(instances, b)
  }

  lemma ControlExact(p: PendingInput, r: Replies, now: nat, live: set<Binding>, s: State, t: State, answer: seq<Event>, n: nat)
    requires Reduces(p, r, now, s, t, answer, n) && RoleOf(p) != Ingress && (answer != [] ==> n > 0)
    ensures RowExact(p, r, now, live, s, t, answer, n)
  {
    hide Marked, RowTaken, HoldsAuth, IndexOf, QueuedRow, Recorded, Counted, IncidentCommitted, AuthCommitted, Started;
    if IsControl(p) {
      ControlStarted(p, r, now, s, t, answer, n);
    }
    ControlRecorded(p, r, now, live, s, t, answer, n);
    RowCounted(p, r, now, live, s, t, answer, n);
  }

  lemma ControlStarted(p: PendingInput, r: Replies, now: nat, s: State, t: State, answer: seq<Event>, n: nat)
    requires Reduces(p, r, now, s, t, answer, n) && IsControl(p)
    ensures answer != [] && Started(p, s, t, answer[0])
  {
    hide Marked, RowTaken, HoldsAuth, IndexOf, QueuedRow;
  }

  lemma ControlRecorded(p: PendingInput, r: Replies, now: nat, live: set<Binding>, s: State, t: State, answer: seq<Event>, n: nat)
    requires Reduces(p, r, now, s, t, answer, n) && RoleOf(p) != Ingress && (answer != [] ==> n > 0)
    ensures Recorded(p, live, s, t, answer, n)
  {
    hide Marked, HoldsAuth, IndexOf, Reserved, IncidentAccepted, ControlAccepted, ScriptableAccepted, AuthCommitted,
         ScriptableCommitted, IncidentCommitted, KnownRevision, QueueReduced;
    if p.IncidentControl? {
      QueueRecorded(p, now, live, s, t, answer, n);
    }
  }

  lemma QueueRecorded(p: PendingInput, now: nat, live: set<Binding>, s: State, t: State, answer: seq<Event>, n: nat)
    requires p.IncidentControl? && QueueReduced(p, now, s, t, answer, n) && (answer != [] ==> n > 0)
    ensures Recorded(p, live, s, t, answer, n)
  {
    hide IndexOf, Marked, IncidentCommitted;
    if IncidentAccepted(s.instances, s.records, p.binding) {
      var x := s.instances[IndexOf(s.instances, p.binding)];
      var row := QueuedRow(p.binding, p.incident, x.incidentRevision + 1, n);
      var at: nat :| Reserved(s.records, at) && t.records == s.records[at := row];
      ReservedDisplaces(s.records, at, row);
      assert Queues(row, p.binding, x.incidentRevision + 1, p.incident, n);
    }
  }

  lemma InputExact(p: PendingInput, r: Replies, now: nat, live: set<Binding>, s: State, t: State, answer: seq<Event>, n: nat)
    requires Reduces(p, r, now, s, t, answer, n) && RoleOf(p) == Ingress && (p.binding in live <==> Live(s.instances, p.binding))
    requires answer != [] ==> n > 0
    ensures RowExact(p, r, now, live, s, t, answer, n)
  {
    hide RowTaken, IncidentSeen, IndexOf, ReceivedRow, HighWater, Issued, Recorded, Counted;
    InputRecorded(p, r, now, live, s, t, answer, n);
    RowCounted(p, r, now, live, s, t, answer, n);
  }

  lemma InputRecorded(p: PendingInput, r: Replies, now: nat, live: set<Binding>, s: State, t: State, answer: seq<Event>, n: nat)
    requires Reduces(p, r, now, s, t, answer, n) && RoleOf(p) == Ingress && (p.binding in live <==> Live(s.instances, p.binding))
    ensures Recorded(p, live, s, t, answer, n)
  {
    hide Live, Accepted, IncidentSeen, IndexOf, GrantedSequence;
    if p.ClientIncident? && p.binding in live && exists k :: 0 <= k < |s.records| && !Waits(s.records[k]) {
      var k :| 0 <= k < |s.records| && !Waits(s.records[k]);
      assert s.records[k].sequence == 0 || Evictable(s.records[k]);
      var row := ReceivedRow(p.binding, p.incident, n);
      var at: nat :| Reserved(s.records, at) && t.records == s.records[at := row];
      ReservedDisplaces(s.records, at, row);
      assert Receives(row, p.binding, p.incident, n);
    }
  }

  lemma RowCounted(p: PendingInput, r: Replies, now: nat, live: set<Binding>, s: State, t: State, answer: seq<Event>, n: nat)
    requires Reduces(p, r, now, s, t, answer, n) && (IsControl(p) ==> |answer| == 1)
    ensures Counted(p, live, s, t, answer, n)
  {
    hide IndexOf, RowTaken, Accepted, HoldsAuth, QueuedRow, ReceivedRow, GrantedSequence, KnownRevision;
  }

  // ---- a drained queue ---------------------------------------------------------------------

  /** The states before, between and after the rows of a drained queue, and each row's answer. */
  datatype Run = Run(states: seq<State>, answers: seq<seq<Event>>)

  function Joined(answers: seq<seq<Event>>): seq<Event> {
    if answers == [] then [] else Joined(answers[..|answers| - 1]) + answers[|answers| - 1]
  }

  lemma JoinedSnoc(answers: seq<seq<Event>>, answer: seq<Event>)
    ensures Joined(answers + [answer]) == Joined(answers) + answer
  {
    assert (answers + [answer])[..|answers|] == answers;
  }

  /** How long the history is after row k, which found it this long at the start. */
  function LengthAfter(run: Run, start: nat, k: nat): nat
    requires k < |run.answers|
  {
    start + |Joined(run.answers[..k + 1])|
  }

  ghost predicate RunStep(inputs: seq<PendingInput>, replies: nat -> Replies, now: nat, run: Run, start: nat, k: nat)
    requires k < |inputs| && |run.states| == |inputs| + 1 && |run.answers| == |inputs|
  {
    && Reduces(inputs[k], replies(k), now, run.states[k], run.states[k + 1], run.answers[k], LengthAfter(run, start, k))
    && SameGenerations(run.states[k].instances, run.states[k + 1].instances)
  }

  /** A run reduces every row once, in queue order, each from the state the row before it left. */
  ghost predicate Ran(inputs: seq<PendingInput>, replies: nat -> Replies, now: nat, run: Run, start: nat) {
    && |run.states| == |inputs| + 1 && |run.answers| == |inputs|
    && forall k :: 0 <= k < |inputs| ==> RunStep(inputs, replies, now, run, start, k)
  }

  lemma NothingRan(replies: nat -> Replies, now: nat, s: State, start: nat)
    ensures Ran([], replies, now, Run([s], []), start) && Joined([]) == []
  {}

  lemma RanSnoc(inputs: seq<PendingInput>, replies: nat -> Replies, now: nat, run: Run, start: nat, p: PendingInput, t: State,
                answer: seq<Event>)
    requires Ran(inputs, replies, now, run, start)
    requires Reduces(p, replies(|inputs|), now, run.states[|inputs|], t, answer, start + |Joined(run.answers)| + |answer|)
    requires SameGenerations(run.states[|inputs|].instances, t.instances)
    ensures Ran(inputs + [p], replies, now, Run(run.states + [t], run.answers + [answer]), start)
    ensures Joined(run.answers + [answer]) == Joined(run.answers) + answer
  {
    hide Reduces, SameGenerations, Joined;
    var more := Run(run.states + [t], run.answers + [answer]);
    JoinedSnoc(run.answers, answer);
    forall k | 0 <= k <= |inputs|
      ensures RunStep(inputs + [p], replies, now, more, start, k)
    {
      if k < |inputs| {
        assert RunStep(inputs, replies, now, run, start, k);
        assert more.answers[..k + 1] == run.answers[..k + 1];
      } else {
        assert more.answers[..k + 1] == more.answers;
      }
    }
  }

  function Strays(inputs: seq<PendingInput>, live: set<Binding>): nat {
    if inputs == [] then 0
    else Strays(inputs[..|inputs| - 1], live) + if Stray(inputs[|inputs| - 1], live) then 1 else 0
  }

  /** How many rows have an event: controls, and the inputs of live generations but for envelopes. */
  function Answered(inputs: seq<PendingInput>, live: set<Binding>): nat {
    if inputs == [] then 0
    else
      var p := inputs[|inputs| - 1];
      Answered(inputs[..|inputs| - 1], live) +
      if IsControl(p) || ((p.ClientIncident? || p.ClientInput?) && p.binding in live) then 1 else 0
  }

  lemma SameIndex(a: seq<Instance>, b: seq<Instance>, c: Binding)
    requires SameGenerations(a, b)
    ensures IndexOf(a, c) == IndexOf(b, c) && (Live(a, c) <==> Live(b, c))
  {
    assert forall j :: 0 <= j < |a| ==> (Owns(a[j], c) <==> Owns(b[j], c));
    var p, q := IndexOf(a, c), IndexOf(b, c);
    assert p < |a| ==> Owns(b[p], c);
    assert q < |b| ==> Owns(a[q], c);
  }

  lemma SameLive(a: seq<Instance>, b: seq<Instance>, live: set<Binding>)
    requires SameGenerations(a, b) && LiveSet(a, live)
    ensures LiveSet(b, live)
  {
    hide Live;
    forall c
      ensures c in live <==> Live(b, c)
    {
      SameIndex(a, b, c);
    }
  }

  /** Row k of a run is exact, and the generations live before it are live after it. */
  lemma StepExact(inputs: seq<PendingInput>, replies: nat -> Replies, now: nat, run: Run, start: nat, live: set<Binding>, k: nat)
    requires Ran(inputs, replies, now, run, start) && k < |inputs| && LiveSet(run.states[k].instances, live)
    ensures RowExact(inputs[k], replies(k), now, live, run.states[k], run.states[k + 1], run.answers[k], LengthAfter(run, start, k))
    ensures LiveSet(run.states[k + 1].instances, live)
    ensures Joined(run.answers[..k + 1]) == Joined(run.answers[..k]) + run.answers[k]
  {
    hide Reduces, SameGenerations, RowExact, LiveSet, Joined, Live;
    assert RunStep(inputs, replies, now, run, start, k);
    SameLive(run.states[k].instances, run.states[k + 1].instances, live);
    assert run.answers[..k + 1] == run.answers[..k] + [run.answers[k]];
    JoinedSnoc(run.answers[..k], run.answers[k]);
    RowOf(inputs[k], replies(k), now, live, run.states[k], run.states[k + 1], run.answers[k], LengthAfter(run, start, k));
  }

  lemma RowOf(p: PendingInput, r: Replies, now: nat, live: set<Binding>, s: State, t: State, answer: seq<Event>, n: nat)
    requires Reduces(p, r, now, s, t, answer, n) && LiveSet(s.instances, live) && (answer != [] ==> n > 0)
    ensures RowExact(p, r, now, live, s, t, answer, n)
  {
    hide Reduces, RowExact, Live;
    if RoleOf(p) == Ingress {
      InputExact(p, r, now, live, s, t, answer, n);
    } else {
      ControlExact(p, r, now, live, s, t, answer, n);
    }
  }

  /** What a run has done after k rows, in numbers. */
  ghost predicate Tallied(inputs: seq<PendingInput>, run: Run, live: set<Binding>, k: nat)
    requires k <= |inputs| && |run.states| == |inputs| + 1 && |run.answers| == |inputs|
  {
    && run.states[k].droppedIngress == run.states[0].droppedIngress + Strays(inputs[..k], live)
    && |Joined(run.answers[..k])| == Answered(inputs[..k], live)
  }

  lemma TallyStep(inputs: seq<PendingInput>, r: Replies, now: nat, run: Run, live: set<Binding>, k: nat, n: nat)
    requires k < |inputs| && |run.states| == |inputs| + 1 && |run.answers| == |inputs| && Tallied(inputs, run, live, k)
    requires RowExact(inputs[k], r, now, live, run.states[k], run.states[k + 1], run.answers[k], n)
    requires Joined(run.answers[..k + 1]) == Joined(run.answers[..k]) + run.answers[k]
    ensures Tallied(inputs, run, live, k + 1)
  {
    hide Joined, FeedRow, Stray, Sequenced, ControlAccepted, IncidentAccepted, ScriptableAccepted;
    assert inputs[..k + 1][..k] == inputs[..k] && inputs[..k + 1][k] == inputs[k];
    AnswerCounted(inputs[k], r, now, live, run.states[k], run.answers[k], n);
  }

  lemma AnswerCounted(p: PendingInput, r: Replies, now: nat, live: set<Binding>, s: State, answer: seq<Event>, n: nat)
    requires if IsControl(p) then ControlAnswered(p, r, now, s, answer, n)
             else if (p.ClientIncident? || p.ClientInput?) && p.binding in live then InputAnswered(p, now, s, answer, n)
             else answer == []
    ensures |answer| == if IsControl(p) || ((p.ClientIncident? || p.ClientInput?) && p.binding in live) then 1 else 0
  {}

  /**
   * A drained queue is exact row by row: while the same generations stay live, every control and every
   * input of theirs has its one event, and the losses counted are exactly the inputs of others.
   */
  lemma {:induction false} RunExact(inputs: seq<PendingInput>, replies: nat -> Replies, now: nat, run: Run, start: nat,
                                    live: set<Binding>, k: nat)
    requires Ran(inputs, replies, now, run, start) && LiveSet(run.states[0].instances, live) && k <= |inputs|
    ensures LiveSet(run.states[k].instances, live) && Tallied(inputs, run, live, k)
    ensures forall j :: 0 <= j < k ==>
              RowExact(inputs[j], replies(j), now, live, run.states[j], run.states[j + 1], run.answers[j], LengthAfter(run, start, j))
    decreases k
  {
    hide Ran, RowExact, LiveSet, LengthAfter;
    Shaped(inputs, replies, now, run, start);
    if k > 0 {
      RunExact(inputs, replies, now, run, start, live, k - 1);
      StepExact(inputs, replies, now, run, start, live, k - 1);
      TallyStep(inputs, replies(k - 1), now, run, live, k - 1, LengthAfter(run, start, k - 1));
    }
  }

  /** The same of the whole queue. */
  lemma RunTotals(inputs: seq<PendingInput>, replies: nat -> Replies, now: nat, run: Run, start: nat, live: set<Binding>)
    requires Ran(inputs, replies, now, run, start) && LiveSet(run.states[0].instances, live)
    ensures run.states[|inputs|].droppedIngress == run.states[0].droppedIngress + Strays(inputs, live)
    ensures |Joined(run.answers)| == Answered(inputs, live)
    ensures forall k :: 0 <= k < |inputs| ==>
              RowExact(inputs[k], replies(k), now, live, run.states[k], run.states[k + 1], run.answers[k], LengthAfter(run, start, k))
  {
    RunExact(inputs, replies, now, run, start, live, |inputs|);
    assert inputs[..|inputs|] == inputs && run.answers[..|inputs|] == run.answers;
    hide Joined, Strays, Answered, RowExact, LiveSet, RunStep;
  }

  lemma Shaped(inputs: seq<PendingInput>, replies: nat -> Replies, now: nat, run: Run, start: nat)
    requires Ran(inputs, replies, now, run, start)
    ensures |run.states| == |inputs| + 1 && |run.answers| == |inputs|
  {}

  // ---- touches -----------------------------------------------------------------------------

  /** Every active generation was touched later than this, and no other was. */
  ghost predicate TouchedSince(instances: seq<Instance>, since: nat) {
    forall i :: 0 <= i < |instances| ==> (instances[i].active <==> instances[i].lastTouched > since)
  }

  /** A row touches at most one generation, a live one, and makes it the newest. */
  lemma RowTouches(p: PendingInput, r: Replies, now: nat, s: State, t: State, answer: seq<Event>, n: nat, j: nat)
    requires Reduces(p, r, now, s, t, answer, n) && |t.instances| == |s.instances| && j < |s.instances|
    ensures s.touched <= t.touched
    ensures || t.instances[j].lastTouched == s.instances[j].lastTouched
            || (s.instances[j].active && t.instances[j].lastTouched == s.touched + 1 == t.touched)
  {
    hide IndexOf, RowTaken, Accepted, HoldsAuth, QueuedRow, ReceivedRow, GrantedSequence, KnownRevision;
  }

  /** Draining the queue keeps every live generation newer than every other. */
  lemma {:induction false} RunTouches(inputs: seq<PendingInput>, replies: nat -> Replies, now: nat, run: Run, start: nat,
                                      since: nat, k: nat)
    requires Ran(inputs, replies, now, run, start) && k <= |inputs|
    requires TouchedSince(run.states[0].instances, since) && since <= run.states[0].touched
    ensures TouchedSince(run.states[k].instances, since) && since <= run.states[k].touched
    decreases k
  {
    hide Reduces;
    if k > 0 {
      RunTouches(inputs, replies, now, run, start, since, k - 1);
      assert RunStep(inputs, replies, now, run, start, k - 1);
      var s, t := run.states[k - 1], run.states[k];
      forall j | 0 <= j < |s.instances|
        ensures t.instances[j].active <==> t.instances[j].lastTouched > since
      {
        RowTouches(inputs[k - 1], replies(k - 1), now, s, t, run.answers[k - 1], LengthAfter(run, start, k - 1), j);
      }
      RowTouchesAny(inputs[k - 1], replies(k - 1), now, s, t, run.answers[k - 1], LengthAfter(run, start, k - 1));
    }
  }

  lemma RowTouchesAny(p: PendingInput, r: Replies, now: nat, s: State, t: State, answer: seq<Event>, n: nat)
    requires Reduces(p, r, now, s, t, answer, n)
    ensures s.touched <= t.touched
  {
    hide IndexOf, RowTaken, Accepted, HoldsAuth, QueuedRow, ReceivedRow, GrantedSequence, KnownRevision;
  }

  // ---- the table before the queue ----------------------------------------------------------

  /** A known generation that is retained. */
  predicate Kept(x: Instance, bindings: seq<Binding>) { x.occupied && x.binding in bindings }

  /** A retained generation becomes active; any other loses its output, its reservation and its activity. */
  ghost predicate Released(x: Instance, y: Instance, bindings: seq<Binding>) {
    if Kept(x, bindings) then y == x.(active := true)
    else
      y == (if x.outputPending then OutputCanceled(x) else x).(
             active := false, scriptableReservationPending := false, lastEventSequence := y.lastEventSequence)
  }

  /** One cancellation for every output that an unretained generation of the first n holds, in table order. */
  ghost predicate Cancels(table: seq<Instance>, n: nat, bindings: seq<Binding>, now: nat, events: seq<Event>)
    requires n <= |table|
  {
    if n == 0 then events == []
    else
      var x, m := table[n - 1], |events| - 1;
      if x.outputPending && !Kept(x, bindings)
      then m >= 0 && CancelsOutput(x, events[m], now) && Cancels(table, n - 1, bindings, now, events[..m])
      else Cancels(table, n - 1, bindings, now, events)
  }

  lemma NothingCanceled(table: seq<Instance>, bindings: seq<Binding>, now: nat)
    ensures Cancels(table, 0, bindings, now, [])
  {}

  lemma CancelsNext(table: seq<Instance>, n: nat, bindings: seq<Binding>, now: nat, events: seq<Event>, answer: seq<Event>)
    requires n < |table| && Cancels(table, n, bindings, now, events)
    requires if table[n].outputPending && !Kept(table[n], bindings) then |answer| == 1 && CancelsOutput(table[n], answer[0], now)
             else answer == []
    ensures Cancels(table, n + 1, bindings, now, events + answer)
  {
    if answer == [] {
      assert events + answer == events;
    } else {
      assert (events + answer)[..|events|] == events;
    }
  }

  /** Nothing of a retained generation is canceled. */
  lemma {:induction false} CancelsOthers(table: seq<Instance>, n: nat, bindings: seq<Binding>, now: nat, events: seq<Event>)
    requires n <= |table| && Cancels(table, n, bindings, now, events)
    requires forall i :: 0 <= i < n && table[i].outputPending ==> table[i].occupied
    ensures forall k :: 0 <= k < |events| ==>
              && events[k].binding !in bindings
              && (events[k].kind == AuthStateCanceled || events[k].kind == IncidentCanceled
                  || events[k].kind == ScriptableOverrideCanceled)
    decreases n
  {
    if n > 0 {
      var x, m := table[n - 1], |events| - 1;
      if x.outputPending && !Kept(x, bindings) {
        CancelsOthers(table, n - 1, bindings, now, events[..m]);
        assert events == events[..m] + [events[m]];
      } else {
        CancelsOthers(table, n - 1, bindings, now, events);
      }
    }
  }

  /** One retained generation once it was given its instance: its old one, or a fresh one. */
  ghost predicate ActivatedAs(before: seq<Instance>, after: seq<Instance>, b: Binding, stamp: nat) {
    var i, j := IndexOf(after, b), IndexOf(before, b);
    && i < |after| && after[i] == (if j < |before| then before[j] else Fresh(b)).(active := true, lastTouched := stamp)
    && (j < |before| ==> i == j)
  }

  /** Every retained generation is activated, each a touch later than the one before; nothing else is new. */
  ghost predicate Activated(before: seq<Instance>, after: seq<Instance>, bindings: seq<Binding>, n: nat, touched: nat)
    requires n <= |bindings|
  {
    && |after| == |before|
    && (forall j :: 0 <= j < n ==> ActivatedAs(before, after, bindings[j], touched + j + 1))
    && (forall i :: 0 <= i < |after| && !Kept(after[i], bindings) ==> after[i] == before[i])
  }

  /** A retained generation not yet activated stands where it stood. */
  ghost predicate Waiting(before: seq<Instance>, table: seq<Instance>, b: Binding) {
    var i := IndexOf(before, b);
    && |table| == |before| && IndexOf(table, b) == i
    && (i < |before| ==> table[i] == before[i])
  }

  lemma NothingActivated(table: seq<Instance>, bindings: seq<Binding>, touched: nat)
    ensures Activated(table, table, bindings, 0, touched)
    ensures forall j :: 0 <= j < |bindings| ==> Waiting(table, table, bindings[j])
  {}

  /** Storage b was given is rewritten, and no other generation moved. */
  ghost predicate OnlyActivated(table: seq<Instance>, after: seq<Instance>, b: Binding) {
    var i := IndexOf(after, b);
    |after| == |table| && i < |after| && after == table[i := after[i]]
  }

  /** Activating one more retained generation leaves the others as they are. */
  lemma ActivatedNext(before: seq<Instance>, table: seq<Instance>, after: seq<Instance>, evicted: set<Binding>,
                      bindings: seq<Binding>, n: nat, touched: nat)
    requires RetainedOk(bindings, evicted) && n < |bindings| && Activated(before, table, bindings, n, touched)
    requires forall j :: n <= j < |bindings| ==> Waiting(before, table, bindings[j])
    requires ActivatedAs(table, after, bindings[n], touched + n + 1) && OnlyActivated(table, after, bindings[n])
    requires forall b :: b in bindings && b != bindings[n] ==> IndexOf(after, b) == IndexOf(table, b)
    ensures Activated(before, after, bindings, n + 1, touched)
    ensures forall j :: n < j < |bindings| ==> Waiting(before, after, bindings[j])
  {
    OthersUntouched(before, table, after, bindings, n, touched);
    hide IndexOf, Kept, ActivatedAs, Waiting, OnlyActivated;
    JustActivated(before, table, after, bindings[n], touched + n + 1);
    forall j | 0 <= j < n
      ensures ActivatedAs(before, after, bindings[j], touched + j + 1)
    {
      StaysActivated(before, table, after, bindings[n], bindings[j], touched + j + 1);
    }
    forall j | n < j < |bindings|
      ensures Waiting(before, after, bindings[j])
    {
      StaysWaiting(before, table, after, bindings[n], bindings[j]);
    }
  }

  lemma OthersUntouched(before: seq<Instance>, table: seq<Instance>, after: seq<Instance>, bindings: seq<Binding>, n: nat,
                        touched: nat)
    requires n < |bindings| && Activated(before, table, bindings, n, touched) && OnlyActivated(table, after, bindings[n])
    ensures |after| == |before| && forall i :: 0 <= i < |after| && !Kept(after[i], bindings) ==> after[i] == before[i]
  {
    hide ActivatedAs;
    OwnedKept(after, bindings, n);
    hide IndexOf, Kept;
  }

  lemma JustActivated(before: seq<Instance>, table: seq<Instance>, after: seq<Instance>, b: Binding, stamp: nat)
    requires Waiting(before, table, b) && ActivatedAs(table, after, b, stamp)
    ensures ActivatedAs(before, after, b, stamp)
  {
    hide IndexOf;
  }

  lemma StaysActivated(before: seq<Instance>, table: seq<Instance>, after: seq<Instance>, b: Binding, c: Binding, stamp: nat)
    requires ActivatedAs(before, table, c, stamp) && OnlyActivated(table, after, b) && |table| == |before|
    requires b != c && IndexOf(after, c) == IndexOf(table, c)
    ensures ActivatedAs(before, after, c, stamp)
  {
    OtherStands(table, after, b, c);
    hide IndexOf;
  }

  lemma StaysWaiting(before: seq<Instance>, table: seq<Instance>, after: seq<Instance>, b: Binding, c: Binding)
    requires Waiting(before, table, c) && OnlyActivated(table, after, b)
    requires b != c && IndexOf(after, c) == IndexOf(table, c)
    ensures Waiting(before, after, c)
  {
    OtherStands(table, after, b, c);
    hide IndexOf;
  }

  lemma OtherStands(table: seq<Instance>, after: seq<Instance>, b: Binding, c: Binding)
    requires OnlyActivated(table, after, b) && b != c && IndexOf(after, c) == IndexOf(table, c)
    ensures IndexOf(table, c) < |table| ==> after[IndexOf(table, c)] == table[IndexOf(table, c)]
  {}

  lemma OwnedKept(after: seq<Instance>, bindings: seq<Binding>, n: nat)
    requires n < |bindings| && IndexOf(after, bindings[n]) < |after|
    ensures Kept(after[IndexOf(after, bindings[n])], bindings)
  {}

  /** The retained generations are the live ones. */
  lemma ActivatedLive(released: seq<Instance>, table: seq<Instance>, bindings: seq<Binding>, touched: nat)
    requires Activated(released, table, bindings, |bindings|, touched)
    requires forall i :: 0 <= i < |table| ==> Serviced(table[i], bindings)
    ensures LiveSet(table, set b | b in bindings)
    ensures forall j :: 0 <= j < |bindings| ==> IndexOf(table, bindings[j]) < |table|
  {
    var live := set b | b in bindings;
    forall b
      ensures b in live <==> Live(table, b)
    {
      if b in bindings {
        var j :| 0 <= j < |bindings| && bindings[j] == b;
        assert ActivatedAs(released, table, bindings[j], touched + j + 1);
      }
      if Live(table, b) {
        assert Serviced(table[IndexOf(table, b)], bindings);
      }
    }
    forall j | 0 <= j < |bindings|
      ensures IndexOf(table, bindings[j]) < |table|
    {
      assert ActivatedAs(released, table, bindings[j], touched + j + 1);
    }
  }

  /** Every retained generation is newer than every other. */
  lemma ActivatedTouches(released: seq<Instance>, table: seq<Instance>, evicted: set<Binding>, bindings: seq<Binding>,
                         touched: nat)
    requires Activated(released, table, bindings, |bindings|, touched) && Recent(released, touched)
    requires TableOk(table, evicted) && forall i :: 0 <= i < |table| ==> Serviced(table[i], bindings)
    ensures TouchedSince(table, touched)
  {
    forall i | 0 <= i < |table|
      ensures table[i].active <==> table[i].lastTouched > touched
    {
      assert Serviced(table[i], bindings);
      if Kept(table[i], bindings) {
        var j :| 0 <= j < |bindings| && bindings[j] == table[i].binding;
        assert ActivatedAs(released, table, bindings[j], touched + j + 1);
        IndexUnique(table, evicted, i, bindings[j]);
      }
    }
  }

  /**
   * While a slice gives retained generations their instances, none is evicted while storage is free, and
   * a generation that is evicted was touched no later than any unretained one that stays.
   */
  ghost predicate SparesNewer(before: seq<Instance>, after: seq<Instance>, bindings: seq<Binding>) {
    && |after| == |before|
    && forall i, j :: 0 <= i < |after| && 0 <= j < |after| && Evicted(before[i], after[i]) ==>
         after[j].occupied && (Kept(after[j], bindings) || before[i].lastTouched <= after[j].lastTouched)
  }

  predicate Evicted(x: Instance, y: Instance) { x.occupied && y.binding != x.binding }

  lemma NothingSpared(table: seq<Instance>, bindings: seq<Binding>)
    ensures SparesNewer(table, table, bindings)
  {}

  lemma SparesNext(before: seq<Instance>, table: seq<Instance>, after: seq<Instance>, bindings: seq<Binding>, n: nat, touched: nat)
    requires n < |bindings| && Activated(before, table, bindings, n, touched) && SparesNewer(before, table, bindings)
    requires forall j :: 0 <= j < |table| ==> Serviced(table[j], bindings)
    requires OnlyActivated(table, after, bindings[n])
    requires var i := IndexOf(after, bindings[n]);
             if IndexOf(table, bindings[n]) == |table| then table[i].occupied ==> EvictsOldest(table, i)
             else i == IndexOf(table, bindings[n])
    ensures SparesNewer(before, after, bindings)
  {
    OwnedKept(after, bindings, n);
    var at := IndexOf(after, bindings[n]);
    assert Owns(after[at], bindings[n]);
    hide ActivatedAs, IndexOf;
    forall i, j | 0 <= i < |after| && 0 <= j < |after| && Evicted(before[i], after[i])
      ensures after[j].occupied && (Kept(after[j], bindings) || before[i].lastTouched <= after[j].lastTouched)
    {
      if j != at && !Evicted(before[i], table[i]) {
        assert i == at;
        assert Serviced(table[j], bindings) && Serviced(table[i], bindings);
      }
    }
  }
}
