/** The bounded instance table, and how it mirrors the event history. */
module HostTable {
  import opened HostTypes
  import opened OutputLives
  import opened Wrappers

  const INSTANCE_CAPACITY: nat := 24
  const DEFAULT_LIFETIME_STATE: nat := 3
  const MAXIMUM_LIFETIME_STATE: nat := 10

  datatype OutputStatus =
    | Idle | Pending | WaitingForEpoch | NoLayout | NoGroups | NoOverrideTarget | AmbiguousLinks
    | FrameRefused | TransportStaged | Canceled

  /** Mutable storage of one activity generation. */
  datatype Instance = Instance(
    binding: Binding, stateRevision: nat, transportRevision: nat, incidentRevision: nat,
    incidentTransportRevision: nat, scriptableRevision: nat, scriptableTransportRevision: nat, lastEventSequence: nat,
    lastOutputSourceGeneration: nat, outputAttempts: nat, incidentsReceived: nat,
    incidentsQueued: nat, incidentsPending: nat, lifetimeState: nat, outputStatus: OutputStatus,
    outputKind: Option<OutputKind>, outputPending: bool, scriptableReservationPending: bool,
    active: bool, lastTouched: nat, occupied: bool)

  function Cleared(): Instance {
    Instance(Binding(0, 0), 0, 0, 0, 0, 0, 0, 0, 0, 0, 0, 0, 0, DEFAULT_LIFETIME_STATE, Idle, None, false,
             false, false, 0, false)
  }

  function EmptyTable(): (t: seq<Instance>)
    ensures |t| == INSTANCE_CAPACITY && forall i :: 0 <= i < |t| ==> t[i] == Cleared()
  {
    seq(INSTANCE_CAPACITY, _ => Cleared())
  }

  function RevisionOf(x: Instance, kind: OutputKind): nat {
    match kind
    case AuthState => x.stateRevision
    case Incident => x.incidentRevision
    case ScriptableOverride => x.scriptableRevision
  }

  /** The Auth-state or incident output one instance holds; the incident itself is in its row. */
  function SlotOf(x: Instance): Slot {
    if x.outputPending && x.outputKind == Some(AuthState) then Held(Output(AuthState, x.stateRevision, x.lifetimeState))
    else if x.outputPending && x.outputKind == Some(Incident) then Held(Output(Incident, x.incidentRevision, 0))
    else Free
  }

  /** A slot as an instance shows it, without the incident. */
  function Shown(slot: Slot): Slot {
    if slot.Held? && slot.output.kind == Incident then Held(slot.output.(content := 0)) else slot
  }

  /** The flags of one instance agree, and its 64-bit counters never wrapped. */
  predicate Coherent(x: Instance) {
    && (x.outputPending <==> x.outputKind.Some?)
    && x.incidentsPending == (if x.outputKind == Some(Incident) then 1 else 0)
    && (x.outputKind == Some(Incident) ==> x.incidentRevision > 0)
    && (!x.occupied ==> !x.active && !x.outputPending && !x.scriptableReservationPending)
    && x.stateRevision <= MAX_COUNTER && x.incidentRevision <= MAX_COUNTER && x.scriptableRevision <= MAX_COUNTER
  }

  /** May give its storage to another generation. */
  predicate Replaceable(x: Instance) {
    !x.active && !x.outputPending && !x.scriptableReservationPending && x.incidentsPending == 0
  }

  predicate Owns(x: Instance, b: Binding) { x.occupied && x.binding == b }

  /** Index of the first instance that owns a binding, or the table size. */
  function IndexOf(instances: seq<Instance>, b: Binding): (i: nat)
    ensures i <= |instances|
    ensures i < |instances| ==> Owns(instances[i], b)
    ensures forall j :: 0 <= j < i ==> !Owns(instances[j], b)
  {
    if instances == [] then 0
    else if Owns(instances[0], b) then 0
    else 1 + IndexOf(instances[1..], b)
  }

  function SlotIn(instances: seq<Instance>, b: Binding): Slot {
    var i := IndexOf(instances, b);
    if i < |instances| then SlotOf(instances[i]) else Free
  }

  /** Distinct generations, coherent flags, and no generation that was evicted before. */
  ghost predicate TableOk(instances: seq<Instance>, evicted: set<Binding>) {
    && |instances| == INSTANCE_CAPACITY
    && (forall i :: 0 <= i < |instances| ==> Coherent(instances[i]))
    && (forall i, j :: 0 <= i < j < |instances| && instances[i].occupied && instances[j].occupied ==>
                         instances[i].binding != instances[j].binding)
    && (forall i :: 0 <= i < |instances| && instances[i].occupied ==> instances[i].binding !in evicted)
  }

  /** Every slot is what the history says it is. */
  ghost predicate Mirrors(instances: seq<Instance>, history: seq<Event>) {
    forall b :: Shown(Open(history, b)) == SlotIn(instances, b)
  }

  /** A commit's revision is not above its instance's, or its generation was evicted. */
  ghost predicate DatedEvent(instances: seq<Instance>, e: Event, evicted: set<Binding>) {
    IsCommit(e) && e.binding !in evicted ==>
      && IndexOf(instances, e.binding) < |instances|
      && Named(e).revision <= RevisionOf(instances[IndexOf(instances, e.binding)], Named(e).kind)
  }

  ghost predicate Dated(instances: seq<Instance>, history: seq<Event>, evicted: set<Binding>) {
    forall k :: 0 <= k < |history| ==> DatedEvent(instances, history[k], evicted)
  }

  /** The table and the history of one run agree. */
  ghost predicate RunOk(instances: seq<Instance>, history: seq<Event>, evicted: set<Binding>) {
    && TableOk(instances, evicted) && Mirrors(instances, history) && Dated(instances, history, evicted)
    && LifeCycle(history) && Rising(history)
  }

  // ---- steps -------------------------------------------------------------------------------

  lemma IndexUnique(instances: seq<Instance>, evicted: set<Binding>, i: nat, b: Binding)
    requires TableOk(instances, evicted) && i < |instances| && Owns(instances[i], b)
    ensures IndexOf(instances, b) == i
  {
    var j := IndexOf(instances, b);
    assert Owns(instances[j], b);
  }

  /** Rewriting an occupied instance in place moves no binding. */
  lemma IndexKept(instances: seq<Instance>, i: nat, x: Instance, b: Binding)
    requires i < |instances| && x.occupied == instances[i].occupied && x.binding == instances[i].binding
    ensures IndexOf(instances[i := x], b) == IndexOf(instances, b)
  {
    var after := instances[i := x];
    assert forall j :: 0 <= j < |instances| ==> (Owns(after[j], b) <==> Owns(instances[j], b));
    var p, q := IndexOf(instances, b), IndexOf(after, b);
    assert p < |instances| ==> Owns(after[p], b);
    assert q < |instances| ==> Owns(instances[q], b);
  }

  lemma TableKept(instances: seq<Instance>, evicted: set<Binding>, i: nat, x: Instance)
    requires TableOk(instances, evicted) && i < |instances| && Coherent(x)
    requires x.occupied == instances[i].occupied && x.binding == instances[i].binding
    ensures TableOk(instances[i := x], evicted)
  {}

  lemma SlotAfter(instances: seq<Instance>, evicted: set<Binding>, i: nat, x: Instance, b: Binding)
    requires TableOk(instances, evicted) && i < |instances| && instances[i].occupied
    requires x.occupied && x.binding == instances[i].binding
    ensures SlotIn(instances[i := x], b) == if b == x.binding then SlotOf(x) else SlotIn(instances, b)
    ensures b == x.binding ==> SlotIn(instances, b) == SlotOf(instances[i])
  {
    IndexKept(instances, i, x, b);
    if b == x.binding {
      IndexUnique(instances, evicted, i, b);
    }
  }

  /** Revisions of an instance never fall. */
  predicate NotBehind(x: Instance, y: Instance) {
    x.stateRevision <= y.stateRevision && x.incidentRevision <= y.incidentRevision
    && x.scriptableRevision <= y.scriptableRevision
  }

  lemma DatedKept(instances: seq<Instance>, history: seq<Event>, evicted: set<Binding>, i: nat, x: Instance)
    requires Dated(instances, history, evicted) && i < |instances|
    requires x.occupied == instances[i].occupied && x.binding == instances[i].binding
    requires NotBehind(instances[i], x)
    ensures Dated(instances[i := x], history, evicted)
  {
    forall k | 0 <= k < |history|
      ensures DatedEvent(instances[i := x], history[k], evicted)
    {
      assert DatedEvent(instances, history[k], evicted);
      IndexKept(instances, i, x, history[k].binding);
    }
  }

  /** An event that neither commits nor ends an output; the scriptable lane needs the slot free. */
  ghost predicate Quiet(instances: seq<Instance>, e: Event) {
    !IsCommit(e) && !IsTerminal(e) && (IsScriptable(e) ==> SlotIn(instances, e.binding) == Free)
  }

  /** A step that neither commits nor ends an output, and leaves the instance's slot alone. */
  lemma QuietStep(instances: seq<Instance>, history: seq<Event>, evicted: set<Binding>, i: nat, x: Instance, e: Event)
    requires RunOk(instances, history, evicted) && i < |instances| && Coherent(x)
    requires x.occupied == instances[i].occupied && x.binding == instances[i].binding
    requires SlotOf(x) == SlotOf(instances[i]) && NotBehind(instances[i], x) && Quiet(instances, e)
    ensures RunOk(instances[i := x], history + [e], evicted)
    ensures RunOk(instances[i := x], history, evicted)
  {
    assert Shown(Open(history, e.binding)) == SlotIn(instances, e.binding);
    hide IsCommit, IsTerminal, IsScriptable, SlotOf, Open, LifeCycle, Mirrors, TableOk, Dated, Rising, Coherent, NotBehind;
    TableKept(instances, evicted, i, x);
    DatedKept(instances, history, evicted, i, x);
    QuietRecord(instances[i := x], history, evicted, e);
    LifeCycleSnoc(history, e);
    QuietSlots(instances, history, i, x, e);
  }

  lemma QuietRecord(instances: seq<Instance>, history: seq<Event>, evicted: set<Binding>, e: Event)
    requires Dated(instances, history, evicted) && Rising(history) && !IsCommit(e)
    ensures Dated(instances, history + [e], evicted) && Rising(history + [e])
  {
    hide IsCommit, Named;
    var grown := history + [e];
    forall k | 0 <= k < |grown|
      ensures DatedEvent(instances, grown[k], evicted)
    {
      assert k < |history| ==> DatedEvent(instances, history[k], evicted);
    }
    forall i, j | 0 <= i < j < |grown| && SameLane(grown[i], grown[j])
      ensures Named(grown[i]).revision < Named(grown[j]).revision
    {
      assert SameLane(history[i], history[j]);
    }
  }

  lemma QuietSlots(instances: seq<Instance>, history: seq<Event>, i: nat, x: Instance, e: Event)
    requires Mirrors(instances, history) && i < |instances| && SlotOf(x) == SlotOf(instances[i])
    requires x.occupied == instances[i].occupied && x.binding == instances[i].binding
    requires !IsCommit(e) && !IsTerminal(e)
    ensures Mirrors(instances[i := x], history) && Mirrors(instances[i := x], history + [e])
  {
    hide IsCommit, IsTerminal, SlotOf, Open;
    forall b
      ensures Shown(Open(history, b)) == SlotIn(instances[i := x], b) == Shown(Open(history + [e], b))
    {
      OpenSnoc(history, e, b);
      IndexKept(instances, i, x, b);
      assert Shown(Open(history, b)) == SlotIn(instances, b);
    }
  }

  /** An event alone, with no instance to write. */
  lemma QuietEvent(instances: seq<Instance>, history: seq<Event>, evicted: set<Binding>, e: Event)
    requires RunOk(instances, history, evicted) && Quiet(instances, e)
    ensures RunOk(instances, history + [e], evicted)
  {
    assert instances[0 := instances[0]] == instances;
    QuietStep(instances, history, evicted, 0, instances[0], e);
  }

  lemma RisingSnoc(instances: seq<Instance>, history: seq<Event>, evicted: set<Binding>, i: nat, e: Event)
    requires RunOk(instances, history, evicted) && i < |instances| && Owns(instances[i], e.binding)
    requires IsCommit(e) && RevisionOf(instances[i], Named(e).kind) < Named(e).revision
    ensures Rising(history + [e])
  {
    IndexUnique(instances, evicted, i, e.binding);
    var grown := history + [e];
    forall p, q | 0 <= p < q < |grown| && SameLane(grown[p], grown[q])
      ensures Named(grown[p]).revision < Named(grown[q]).revision
    {
      if q == |history| {
        assert DatedEvent(instances, history[p], evicted);
      } else {
        assert SameLane(history[p], history[q]);
      }
    }
  }

  /** Committing an output into a free slot, one revision up in its lane. */
  lemma CommitStep(instances: seq<Instance>, history: seq<Event>, evicted: set<Binding>, i: nat, x: Instance, e: Event)
    requires RunOk(instances, history, evicted) && i < |instances| && instances[i].occupied && Coherent(x)
    requires x.occupied && x.binding == instances[i].binding == e.binding && NotBehind(instances[i], x)
    requires IsCommit(e) && SlotOf(instances[i]) == Free && SlotOf(x) == Shown(Held(Named(e)))
    requires Named(e).revision == RevisionOf(instances[i], Named(e).kind) + 1
    ensures RunOk(instances[i := x], history + [e], evicted)
  {
    RisingSnoc(instances, history, evicted, i, e);
    assert RevisionOf(x, Named(e).kind) == Named(e).revision;
    hide IsCommit, IsTerminal, IsScriptable, SlotOf, Open, LifeCycle, Rising, Named;
    var after := instances[i := x];
    TableKept(instances, evicted, i, x);
    DatedKept(instances, history, evicted, i, x);
    IndexUnique(after, evicted, i, e.binding);
    CommitSlots(instances, history, evicted, i, x, e);
    LifeCycleSnoc(history, e);
    SlotAfter(instances, evicted, i, x, e.binding);
    assert Shown(Open(history, e.binding)) == SlotIn(instances, e.binding);
    CommitNotTerminal(e);
  }

  lemma CommitNotTerminal(e: Event)
    requires IsCommit(e)
    ensures !IsTerminal(e) && !IsScriptable(e)
  {}

  lemma CommitSlots(instances: seq<Instance>, history: seq<Event>, evicted: set<Binding>, i: nat, x: Instance, e: Event)
    requires TableOk(instances, evicted) && Mirrors(instances, history)
    requires i < |instances| && instances[i].occupied && x.occupied && x.binding == instances[i].binding == e.binding
    requires (IsCommit(e) && SlotOf(x) == Shown(Held(Named(e)))) || (IsTerminal(e) && SlotOf(x) == Free)
    ensures Mirrors(instances[i := x], history + [e])
  {
    if IsCommit(e) {
      CommitNotTerminal(e);
    }
    hide IsCommit, IsTerminal, SlotOf, Open, Named, TableOk;
    forall b
      ensures Shown(Open(history + [e], b)) == SlotIn(instances[i := x], b)
    {
      OpenSnoc(history, e, b);
      SlotAfter(instances, evicted, i, x, b);
      assert Shown(Open(history, b)) == SlotIn(instances, b);
    }
  }

  /** Ending the held output, staged or canceled. */
  lemma TerminalStep(instances: seq<Instance>, history: seq<Event>, evicted: set<Binding>, i: nat, x: Instance, e: Event)
    requires RunOk(instances, history, evicted) && i < |instances| && instances[i].occupied && Coherent(x)
    requires x.occupied && x.binding == instances[i].binding == e.binding && NotBehind(instances[i], x)
    requires IsTerminal(e) && Open(history, e.binding) == Held(Named(e)) && SlotOf(x) == Free
    ensures RunOk(instances[i := x], history + [e], evicted)
  {
    assert !IsCommit(e) && !IsScriptable(e);
    hide IsCommit, IsTerminal, IsScriptable, SlotOf, Open, LifeCycle, Named;
    TableKept(instances, evicted, i, x);
    DatedKept(instances, history, evicted, i, x);
    CommitSlots(instances, history, evicted, i, x, e);
    LifeCycleSnoc(history, e);
    SlotAfter(instances, evicted, i, x, e.binding);
    assert Shown(Open(history, e.binding)) == SlotIn(instances, e.binding);
  }

  // ---- a new generation --------------------------------------------------------------------

  /** A fresh instance for one generation. */
  function Fresh(b: Binding): Instance {
    Cleared().(occupied := true, binding := b, lifetimeState := DEFAULT_LIFETIME_STATE)
  }

  /** The generations evicted once storage i is reused. */
  function EvictedBy(instances: seq<Instance>, i: nat, evicted: set<Binding>): set<Binding>
    requires i < |instances|
  {
    if instances[i].occupied then evicted + {instances[i].binding} else evicted
  }

  lemma ReplacedIndex(instances: seq<Instance>, evicted: set<Binding>, i: nat, b: Binding, c: Binding)
    requires TableOk(instances, evicted) && i < |instances| && IndexOf(instances, b) == |instances|
    ensures IndexOf(instances[i := Fresh(b)], c) ==
            if c == b then i
            else if Owns(instances[i], c) then |instances|
            else IndexOf(instances, c)
  {
    var after := instances[i := Fresh(b)];
    assert after[i].binding == b && after[i].occupied;
    assert forall j :: 0 <= j < |instances| && j != i ==> after[j] == instances[j] && !Owns(after[j], b);
    var p, q := IndexOf(instances, c), IndexOf(after, c);
    assert q < |instances| ==> Owns(after[q], c);
    if c != b && Owns(instances[i], c) {
      IndexUnique(instances, evicted, i, c);
      assert forall j :: 0 <= j < |instances| && j != i ==> after[j] == instances[j] && !Owns(instances[j], c);
    } else if c != b {
      assert p < |instances| ==> after[p] == instances[p];
    }
  }

  lemma ReplacedTable(instances: seq<Instance>, evicted: set<Binding>, i: nat, b: Binding)
    requires TableOk(instances, evicted) && i < |instances| && b !in evicted
    requires IndexOf(instances, b) == |instances|
    ensures TableOk(instances[i := Fresh(b)], EvictedBy(instances, i, evicted))
  {
    assert forall j :: 0 <= j < |instances| ==> !Owns(instances[j], b);
  }

  /** Giving replaceable storage to a generation never seen before keeps the run. */
  lemma ReplaceStep(instances: seq<Instance>, history: seq<Event>, evicted: set<Binding>, i: nat, b: Binding)
    requires RunOk(instances, history, evicted) && i < |instances| && b !in evicted
    requires IndexOf(instances, b) == |instances| && Replaceable(instances[i])
    ensures RunOk(instances[i := Fresh(b)], history, EvictedBy(instances, i, evicted))
  {
    ReplacedTable(instances, evicted, i, b);
    var after, gone := instances[i := Fresh(b)], EvictedBy(instances, i, evicted);
    forall c
      ensures Shown(Open(history, c)) == SlotIn(after, c)
    {
      ReplacedIndex(instances, evicted, i, b, c);
      assert Shown(Open(history, c)) == SlotIn(instances, c);
      if Owns(instances[i], c) {
        IndexUnique(instances, evicted, i, c);
      }
    }
    ReplacedDates(instances, history, evicted, i, b);
  }

  lemma ReplacedDates(instances: seq<Instance>, history: seq<Event>, evicted: set<Binding>, i: nat, b: Binding)
    requires TableOk(instances, evicted) && Dated(instances, history, evicted) && i < |instances| && b !in evicted
    requires IndexOf(instances, b) == |instances|
    ensures Dated(instances[i := Fresh(b)], history, EvictedBy(instances, i, evicted))
  {
    hide IsCommit, Named, TableOk;
    var after, gone := instances[i := Fresh(b)], EvictedBy(instances, i, evicted);
    forall k | 0 <= k < |history|
      ensures DatedEvent(after, history[k], gone)
    {
      assert DatedEvent(instances, history[k], evicted);
      ReplacedIndex(instances, evicted, i, b, history[k].binding);
      var p := IndexOf(instances, history[k].binding);
      assert p < |instances| && p != i ==> after[p] == instances[p];
    }
  }

  // ---- the table is never too small --------------------------------------------------------

  /** The retained generations: distinct, at most as many as there are instances, none evicted. */
  ghost predicate RetainedOk(bindings: seq<Binding>, evicted: set<Binding>) {
    && |bindings| <= INSTANCE_CAPACITY
    && (forall i, j :: 0 <= i < j < |bindings| ==> bindings[i] != bindings[j])
    && (forall i :: 0 <= i < |bindings| ==> bindings[i] !in evicted)
  }

  lemma {:induction false} DistinctImage(instances: seq<Instance>, n: nat, owned: set<Binding>)
    requires n <= |instances|
    requires forall i, j :: 0 <= i < j < n ==> instances[i].binding != instances[j].binding
    requires owned == set i | 0 <= i < n :: instances[i].binding
    ensures |owned| == n
  {
    if n > 0 {
      var less := set i | 0 <= i < n - 1 :: instances[i].binding;
      DistinctImage(instances, n - 1, less);
      assert owned == less + {instances[n - 1].binding};
    } else {
      assert owned == {};
    }
  }

  lemma {:induction false} SeqSetSize(bindings: seq<Binding>)
    ensures |set x | x in bindings| <= |bindings|
  {
    if bindings == [] {
      assert (set x | x in bindings) == {};
    } else {
      var n := |bindings| - 1;
      SeqSetSize(bindings[..n]);
      assert bindings == bindings[..n] + [bindings[n]];
      assert (set x | x in bindings) == (set x | x in bindings[..n]) + {bindings[n]};
    }
  }

  lemma SubsetSize<T>(a: set<T>, b: set<T>)
    requires a <= b
    ensures |a| <= |b|
    decreases b
  {
    if a != b {
      assert b == a + (b - a);
    }
  }

  /**
   * Pigeonhole: while every active instance owns a retained generation and one retained
   * generation has no instance, some storage is free or inactive.
   */
  lemma SomeInactive(instances: seq<Instance>, evicted: set<Binding>, bindings: seq<Binding>, b: Binding)
    requires TableOk(instances, evicted) && RetainedOk(bindings, evicted) && b in bindings
    requires IndexOf(instances, b) == |instances|
    requires forall i :: 0 <= i < |instances| && instances[i].active ==> instances[i].binding in bindings
    ensures exists i :: 0 <= i < |instances| && !instances[i].active
  {
    if forall i :: 0 <= i < |instances| ==> instances[i].active {
      var owned := set i | 0 <= i < |instances| :: instances[i].binding;
      DistinctImage(instances, |instances|, owned);
      var retained := set x | x in bindings;
      SeqSetSize(bindings);
      assert b !in owned by {
        assert forall i :: 0 <= i < |instances| ==> !Owns(instances[i], b);
      }
      assert |owned + {b}| == |owned| + 1;
      SubsetSize(owned + {b}, retained);
    }
  }
}
