/**
 * The life of a serialized output slot, read off the event history: the Auth-state and incident
 * lanes, which name every output they commit and end. The scriptable lane shares the slot but
 * commits and ends whole bursts of bodies at one revision, so its events only mark when it ran.
 */
module OutputLives {
  import opened HostTypes

  datatype OutputKind = AuthState | Incident | ScriptableOverride

  /** One committed output: its lane, the revision it was committed at, and the state or incident it carries. */
  datatype Output = Output(kind: OutputKind, revision: nat, content: nat)

  /** What the Auth-state and incident lanes hold; free also while the scriptable lane has the slot. */
  datatype Slot = Free | Held(output: Output)

  predicate IsCommit(e: Event) {
    e.kind == AuthStateCommitted || e.kind == IncidentQueued
  }

  predicate IsTerminal(e: Event) {
    e.kind == AuthStateTransportStaged || e.kind == AuthStateCanceled
    || e.kind == IncidentTransportStaged || e.kind == IncidentCanceled
  }

  /** Events of the scriptable lane: of a head body or of any body that rides with it. */
  predicate IsScriptable(e: Event) {
    e.kind == ScriptableOverrideCommitted || e.kind == ScriptableOverrideTransportStaged
    || e.kind == ScriptableOverrideCanceled
  }

  /** The output a commit or terminal event names. */
  function Named(e: Event): Output {
    if e.kind == AuthStateCommitted || e.kind == AuthStateTransportStaged || e.kind == AuthStateCanceled
    then Output(AuthState, e.stateRevision, e.lifetimeState)
    else Output(Incident, e.incidentRevision, e.payload)
  }

  /** The output of one binding that has committed and not ended. */
  ghost function Open(history: seq<Event>, b: Binding): Slot {
    if history == [] then Free
    else
      var e := history[|history| - 1];
      if e.binding == b && IsCommit(e) then Held(Named(e))
      else if e.binding == b && IsTerminal(e) then Free
      else Open(history[..|history| - 1], b)
  }

  /**
   * A commit finds its binding's slot free; a terminal event ends exactly the held output; the
   * scriptable lane runs only while neither other lane holds an output.
   */
  ghost predicate Orderly(before: seq<Event>, e: Event) {
    && (IsCommit(e) || IsScriptable(e) ==> Open(before, e.binding) == Free)
    && (IsTerminal(e) ==> Open(before, e.binding) == Held(Named(e)))
  }

  ghost predicate LifeCycle(history: seq<Event>) {
    history == [] || (LifeCycle(history[..|history| - 1]) && Orderly(history[..|history| - 1], history[|history| - 1]))
  }

  /** Two commits of one binding in one lane. */
  predicate SameLane(d: Event, e: Event) {
    IsCommit(d) && IsCommit(e) && d.binding == e.binding && Named(d).kind == Named(e).kind
  }

  /** The committed revisions of one binding and lane strictly increase. */
  ghost predicate Rising(history: seq<Event>) {
    forall i, j :: 0 <= i < j < |history| && SameLane(history[i], history[j]) ==>
                     Named(history[i]).revision < Named(history[j]).revision
  }

  lemma OpenSnoc(history: seq<Event>, e: Event, b: Binding)
    ensures Open(history + [e], b) ==
            if e.binding == b && IsCommit(e) then Held(Named(e))
            else if e.binding == b && IsTerminal(e) then Free
            else Open(history, b)
  {
    assert (history + [e])[..|history|] == history;
  }

  lemma LifeCycleSnoc(history: seq<Event>, e: Event)
    ensures LifeCycle(history + [e]) <==> LifeCycle(history) && Orderly(history, e)
  {
    assert (history + [e])[..|history|] == history;
  }

  lemma {:induction false} LifeCyclePrefix(history: seq<Event>, n: nat)
    requires LifeCycle(history) && n <= |history|
    ensures LifeCycle(history[..n])
    ensures n < |history| ==> Orderly(history[..n], history[n])
  {
    if n < |history| {
      var m := |history| - 1;
      if n < m {
        LifeCyclePrefix(history[..m], n);
        assert history[..m][..n] == history[..n];
      }
    } else {
      assert history[..n] == history;
    }
  }

  /**
   * A stretch of history over which one binding's output, held at its start, either stays held or
   * ends once, at k; the scriptable lane does not run before it ends.
   */
  ghost predicate Span(history: seq<Event>, i: nat, j: nat, b: Binding, o: Output, ended: bool, k: nat)
    requires j <= |history|
  {
    && (ended ==> i <= k < j && history[k].binding == b && IsTerminal(history[k]) && Named(history[k]) == o)
    && forall m :: i <= m < j && history[m].binding == b ==>
         (IsTerminal(history[m]) ==> ended && m == k) && (IsScriptable(history[m]) ==> ended && k < m)
  }

  lemma SpanStart(history: seq<Event>, i: nat, b: Binding, o: Output)
    requires i <= |history|
    ensures Span(history, i, i, b, o, false, 0)
  {}

  lemma SpanStep(history: seq<Event>, i: nat, j: nat, b: Binding, o: Output, ended: bool, k: nat)
    returns (over: bool, at: nat)
    requires i <= j < |history| && Span(history, i, j, b, o, ended, k)
    requires var e := history[j];
             e.binding == b ==> (IsTerminal(e) ==> !ended && Named(e) == o) && (IsScriptable(e) ==> ended)
    ensures Span(history, i, j + 1, b, o, over, at)
    ensures over <==> ended || (history[j].binding == b && IsTerminal(history[j]))
  {
    hide IsTerminal, IsScriptable, Named;
    over, at := ended, k;
    if history[j].binding == b && IsTerminal(history[j]) {
      over, at := true, j;
      TerminalNotScriptable(history[j]);
    }
  }

  lemma TerminalNotScriptable(e: Event)
    requires IsTerminal(e)
    ensures !IsScriptable(e)
  {}

  /** What one event that commits nothing of a binding does to its slot. */
  lemma OpenNext(history: seq<Event>, j: nat, b: Binding)
    requires LifeCycle(history) && j < |history| && !(history[j].binding == b && IsCommit(history[j]))
    ensures var e, slot := history[j], Open(history[..j], b);
            if e.binding == b && IsTerminal(e) then slot == Held(Named(e)) && Open(history[..j + 1], b) == Free
            else Open(history[..j + 1], b) == slot && (e.binding == b && IsScriptable(e) ==> slot == Free)
    ensures IsTerminal(history[j]) ==> !IsScriptable(history[j])
  {
    hide Open, LifeCycle, IsCommit, IsTerminal, IsScriptable, Named;
    assert history[..j + 1] == history[..j] + [history[j]];
    OpenSnoc(history[..j], history[j], b);
    LifeCyclePrefix(history, j);
  }

  /** Between two points with no commit of a binding, a held slot spans to its end. */
  lemma {:induction false} HeldUntilEnd(history: seq<Event>, i: nat, j: nat, b: Binding, o: Output)
    returns (ended: bool, k: nat)
    requires LifeCycle(history) && i <= j <= |history| && Open(history[..i], b) == Held(o)
    requires forall m :: i <= m < j ==> !(history[m].binding == b && IsCommit(history[m]))
    ensures Open(history[..j], b) == if ended then Free else Held(o)
    ensures Span(history, i, j, b, o, ended, k)
    decreases j
  {
    hide Open, LifeCycle, IsCommit, IsTerminal, IsScriptable, Named, Span;
    if i == j {
      ended, k := false, 0;
      SpanStart(history, i, b, o);
    } else {
      var before;
      before, k := HeldUntilEnd(history, i, j - 1, b, o);
      OpenNext(history, j - 1, b);
      ended, k := SpanStep(history, i, j - 1, b, o, before, k);
    }
  }

  /**
   * Between one commit of a binding and the next there is exactly one terminal event of it, staged
   * or canceled, it names the lane and revision of the first and the state or incident committed
   * with it, and the scriptable lane does not run before it.
   */
  lemma OneTerminalBetween(history: seq<Event>, i: nat, j: nat) returns (k: nat)
    requires LifeCycle(history) && i < j < |history|
    requires IsCommit(history[i]) && IsCommit(history[j]) && history[i].binding == history[j].binding
    requires forall m :: i < m < j ==> !(history[m].binding == history[i].binding && IsCommit(history[m]))
    ensures i < k < j && history[k].binding == history[i].binding && IsTerminal(history[k])
    ensures Named(history[k]) == Named(history[i])
    ensures forall m :: i < m < j && history[m].binding == history[i].binding && IsTerminal(history[m]) ==> m == k
    ensures forall m :: i < m < k && history[m].binding == history[i].binding ==> !IsScriptable(history[m])
  {
    var b := history[i].binding;
    assert history[..i + 1] == history[..i] + [history[i]];
    OpenSnoc(history[..i], history[i], b);
    var ended;
    ended, k := HeldUntilEnd(history, i + 1, j, b, Named(history[i]));
    LifeCyclePrefix(history, j);
  }
}
