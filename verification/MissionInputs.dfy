/** The durable accepted-input feed: one retained row for every input mission State still owes. */
module MissionInputs {
  import opened HostTypes

  const READ_PAGE_SIZE: nat := 64

  /** Durable cursors of one binding: inputs up to committed are done, up to issued are accepted. */
  datatype Cursors = Cursors(committed: nat, issued: nat, faulted: bool)

  type Durable = map<Binding, Cursors>

  /** One accepted input with its feed position. */
  datatype Row = Row(event: Event, sequence: nat)

  datatype MissionCursor = MissionCursor(generation: nat, sequence: nat)

  datatype MissionRead = MissionRead(events: seq<Row>, cursor: MissionCursor, missed: nat, gap: bool, reset: bool)

  function HighWater(c: Cursors): nat {
    if c.committed < c.issued then c.issued else c.committed
  }

  /** Mission State issuing the next durable sequence of one binding. */
  function Issued(durable: Durable, b: Binding): Durable
    requires b in durable
  {
    durable[b := durable[b].(issued := HighWater(durable[b]) + 1)]
  }

  predicate Owed(row: Row, durable: Durable) {
    var b := row.event.binding;
    b in durable && !durable[b].faulted
    && durable[b].committed < row.event.missionSequence <= durable[b].issued
  }

  /** The rows durable mission State still owes, in feed order. */
  function Settled(rows: seq<Row>, durable: Durable): seq<Row> {
    if rows == [] then []
    else
      var n := |rows| - 1;
      Settled(rows[..n], durable) + if Owed(rows[n], durable) then [rows[n]] else []
  }

  // ---- what the feed keeps -----------------------------------------------------------------

  function FloorOf(floor: map<Binding, nat>, b: Binding): nat {
    if b in floor then floor[b] else 0
  }

  /** Feed positions increase and stay within the feed sequence. */
  ghost predicate Positioned(rows: seq<Row>, sequence: nat) {
    && (forall i, j :: 0 <= i < j < |rows| ==> rows[i].sequence < rows[j].sequence)
    && (forall i :: 0 <= i < |rows| ==> 0 < rows[i].sequence <= sequence)
  }

  /**
   * Where the feed's promise applies: past a floor, which a reset raises to what was issued and a
   * recovery lowers again, and off the generations that were recovered over unread rows.
   */
  datatype Scope = Scope(floor: map<Binding, nat>, torn: set<Binding>)

  /** The durable sequences of one binding increase along the feed, up to its high water. */
  ghost predicate Distinguished(rows: seq<Row>, durable: Durable, torn: set<Binding>) {
    && (forall i, j :: 0 <= i < j < |rows| && rows[i].event.binding == rows[j].event.binding
                       && rows[i].event.binding !in torn ==>
                         rows[i].event.missionSequence < rows[j].event.missionSequence)
    && (forall i :: 0 <= i < |rows| && rows[i].event.binding in durable && rows[i].event.binding !in torn ==>
                      rows[i].event.missionSequence <= HighWater(durable[rows[i].event.binding]))
  }

  /** Row i retains one durable sequence of one binding. */
  predicate Retains(rows: seq<Row>, i: int, b: Binding, s: nat) {
    0 <= i < |rows| && rows[i].event.binding == b && rows[i].event.missionSequence == s
  }

  ghost predicate Holds(rows: seq<Row>, b: Binding, s: nat) {
    exists i :: Retains(rows, i, b, s)
  }

  /** Mission State owes this sequence, and it was issued since the last reset. */
  ghost predicate Due(durable: Durable, floor: map<Binding, nat>, b: Binding, s: nat) {
    b in durable && !durable[b].faulted && FloorOf(floor, b) < s
    && durable[b].committed < s <= durable[b].issued
  }

  /** Every owed sequence issued since the last reset has a row. */
  ghost predicate Covered(rows: seq<Row>, durable: Durable, floor: map<Binding, nat>) {
    forall b, s: nat :: Due(durable, floor, b, s) ==> Holds(rows, b, s)
  }

  ghost predicate FeedOk(rows: seq<Row>, sequence: nat, durable: Durable, scope: Scope) {
    Positioned(rows, sequence) && Distinguished(rows, durable, scope.torn) && Covered(rows, durable, scope.floor)
  }

  /** No owed input is ever dropped, whatever was recovered. */
  lemma OwedRetained(rows: seq<Row>, sequence: nat, durable: Durable, scope: Scope, b: Binding, s: nat)
    requires FeedOk(rows, sequence, durable, scope) && Due(durable, scope.floor, b, s)
    ensures exists i :: Retains(rows, i, b, s)
  {
    assert Holds(rows, b, s);
  }

  /** One row retains the sequence and no other does. */
  ghost predicate RetainedOnce(rows: seq<Row>, b: Binding, s: nat) {
    exists i :: Retains(rows, i, b, s) && forall j :: Retains(rows, j, b, s) ==> j == i
  }

  /** The promise to one generation: each owed sequence has exactly one retained row. */
  ghost predicate OwedOnce(rows: seq<Row>, durable: Durable, floor: map<Binding, nat>, b: Binding) {
    forall s: nat :: Due(durable, floor, b, s) ==> RetainedOnce(rows, b, s)
  }

  /** The owed interval of a generation that is not torn has exactly one retained row per sequence. */
  lemma OwedExactlyOnce(rows: seq<Row>, sequence: nat, durable: Durable, scope: Scope, b: Binding)
    requires FeedOk(rows, sequence, durable, scope) && b !in scope.torn
    ensures OwedOnce(rows, durable, scope.floor, b)
  {
    forall s: nat | Due(durable, scope.floor, b, s)
      ensures RetainedOnce(rows, b, s)
    {
      assert Holds(rows, b, s);
      var i :| Retains(rows, i, b, s);
      forall j | Retains(rows, j, b, s)
        ensures j == i
      {}
    }
  }

  // ---- steps -------------------------------------------------------------------------------

  /** Accepting an input: its sequence is issued, then its row is appended. */
  lemma AcceptKeeps(rows: seq<Row>, sequence: nat, durable: Durable, scope: Scope, row: Row)
    requires FeedOk(rows, sequence, durable, scope)
    requires row.event.binding in durable && row.sequence == sequence + 1
    requires row.event.missionSequence == HighWater(durable[row.event.binding]) + 1
    ensures FeedOk(rows + [row], sequence + 1, Issued(durable, row.event.binding), scope)
  {
    var grown, after := rows + [row], Issued(durable, row.event.binding);
    forall b, s: nat | Due(after, scope.floor, b, s)
      ensures Holds(grown, b, s)
    {
      if b == row.event.binding && s == row.event.missionSequence {
        assert Retains(grown, |rows|, b, s);
      } else {
        assert Due(durable, scope.floor, b, s);
        assert Holds(rows, b, s);
        var i :| Retains(rows, i, b, s);
        assert Retains(grown, i, b, s);
      }
    }
  }

  lemma {:induction false} SettledMembers(rows: seq<Row>, durable: Durable)
    ensures forall row :: row in Settled(rows, durable) <==> row in rows && Owed(row, durable)
  {
    if rows != [] {
      SettledMembers(rows[..|rows| - 1], durable);
      assert rows == rows[..|rows| - 1] + [rows[|rows| - 1]];
    }
  }

  /** The rows that stay are exactly those whose sequence is past the committed and up to the issued cursor. */
  lemma SettledExactly(rows: seq<Row>, durable: Durable)
    ensures forall row :: row in Settled(rows, durable) <==>
              row in rows && Due(durable, map[], row.event.binding, row.event.missionSequence)
  {
    SettledMembers(rows, durable);
    hide Settled;
  }

  lemma SettledLast(rows: seq<Row>, durable: Durable)
    requires rows != []
    ensures var n := |rows| - 1;
            Settled(rows, durable) == Settled(rows[..n], durable) + if Owed(rows[n], durable) then [rows[n]] else []
  {}

  lemma SettledNone(durable: Durable)
    ensures Settled([], durable) == []
  {}

  lemma PositionedSnoc(kept: seq<Row>, row: Row, sequence: nat)
    requires Positioned(kept, sequence) && 0 < row.sequence <= sequence
    requires forall i :: 0 <= i < |kept| ==> kept[i].sequence < row.sequence
    ensures Positioned(kept + [row], sequence)
  {}

  /** Retiring settled rows keeps the feed positions of the rest in order. */
  lemma {:induction false} SettledPositioned(rows: seq<Row>, sequence: nat, durable: Durable)
    requires Positioned(rows, sequence)
    ensures Positioned(Settled(rows, durable), sequence)
  {
    hide Settled, Owed;
    if rows == [] {
      SettledNone(durable);
    } else {
      var n := |rows| - 1;
      var kept := Settled(rows[..n], durable);
      SettledLast(rows, durable);
      SettledPositioned(rows[..n], sequence, durable);
      SettledMembers(rows[..n], durable);
      forall i | 0 <= i < |kept|
        ensures kept[i].sequence < rows[n].sequence
      {
        assert kept[i] in kept;
        var k :| 0 <= k < n && rows[k] == kept[i];
      }
      PositionedSnoc(kept, rows[n], sequence);
    }
  }

  lemma DistinguishedSnoc(kept: seq<Row>, row: Row, durable: Durable, torn: set<Binding>)
    requires Distinguished(kept, durable, torn)
    requires row.event.binding in durable && row.event.binding !in torn ==>
               row.event.missionSequence <= HighWater(durable[row.event.binding])
    requires forall i :: 0 <= i < |kept| && kept[i].event.binding == row.event.binding && row.event.binding !in torn ==>
                           kept[i].event.missionSequence < row.event.missionSequence
    ensures Distinguished(kept + [row], durable, torn)
  {}

  /** Retiring settled rows keeps the durable sequences of the rest in order. */
  lemma {:induction false} SettledDistinguished(rows: seq<Row>, durable: Durable, torn: set<Binding>)
    requires Distinguished(rows, durable, torn)
    ensures Distinguished(Settled(rows, durable), durable, torn)
  {
    hide Settled, Owed, HighWater;
    if rows == [] {
      SettledNone(durable);
    } else {
      var n := |rows| - 1;
      var kept := Settled(rows[..n], durable);
      SettledLast(rows, durable);
      SettledDistinguished(rows[..n], durable, torn);
      SettledMembers(rows[..n], durable);
      forall i | 0 <= i < |kept| && kept[i].event.binding == rows[n].event.binding && rows[n].event.binding !in torn
        ensures kept[i].event.missionSequence < rows[n].event.missionSequence
      {
        assert kept[i] in kept;
        var k :| 0 <= k < n && rows[k] == kept[i];
      }
      DistinguishedSnoc(kept, rows[n], durable, torn);
    }
  }

  predicate HasRow(rows: seq<Row>, b: Binding) {
    exists i :: 0 <= i < |rows| && rows[i].event.binding == b
  }

  /** A torn generation is whole again once the feed holds no row of it. */
  ghost function Healed(rows: seq<Row>, scope: Scope): Scope {
    scope.(torn := set b | b in scope.torn && HasRow(rows, b))
  }

  /** Retiring settled rows drops no owed row. */
  lemma RetireKeeps(rows: seq<Row>, sequence: nat, durable: Durable, scope: Scope)
    requires FeedOk(rows, sequence, durable, scope)
    ensures FeedOk(Settled(rows, durable), sequence, durable, Healed(Settled(rows, durable), scope))
  {
    SettledPositioned(rows, sequence, durable);
    SettledDistinguished(rows, durable, scope.torn);
    SettledCovered(rows, durable, scope.floor);
    hide Settled;
    HealedDistinguished(Settled(rows, durable), durable, scope);
  }

  lemma HealedDistinguished(rows: seq<Row>, durable: Durable, scope: Scope)
    requires Distinguished(rows, durable, scope.torn)
    ensures Distinguished(rows, durable, Healed(rows, scope).torn)
  {
    var torn := Healed(rows, scope).torn;
    forall i | 0 <= i < |rows|
      ensures rows[i].event.binding in torn <==> rows[i].event.binding in scope.torn
    {
      assert HasRow(rows, rows[i].event.binding);
    }
  }

  lemma SettledCovered(rows: seq<Row>, durable: Durable, floor: map<Binding, nat>)
    requires Covered(rows, durable, floor)
    ensures Covered(Settled(rows, durable), durable, floor)
  {
    SettledMembers(rows, durable);
    var kept := Settled(rows, durable);
    hide Settled;
    forall b, s: nat | Due(durable, floor, b, s)
      ensures Holds(kept, b, s)
    {
      assert Holds(rows, b, s);
      var i :| Retains(rows, i, b, s);
      assert rows[i] in kept;
      var j :| 0 <= j < |kept| && kept[j] == rows[i];
      assert Retains(kept, j, b, s);
    }
  }

  /** What mission State may do to one binding's cursors between Host steps. */
  datatype DurableStep =
    | Commit(to: nat)
    | Fault
    | RetireUnbound
    | Recover

  ghost predicate DurableAllowed(c: Cursors, step: DurableStep) {
    match step
    case Commit(to) => c.committed <= to <= c.issued && !c.faulted
    case Fault => true
    case RetireUnbound => true
    case Recover => c.faulted
  }

  function DurableNext(c: Cursors, step: DurableStep): Cursors {
    match step
    case Commit(to) => c.(committed := to)
    case Fault => c.(faulted := true)
    case RetireUnbound => c.(committed := c.issued)
    case Recover => c.(faulted := false, issued := c.committed)
  }

  /** No retained row of a binding lies past its committed cursor. */
  ghost predicate Drained(rows: seq<Row>, b: Binding, committed: nat) {
    forall i :: 0 <= i < |rows| && rows[i].event.binding == b ==> rows[i].event.missionSequence <= committed
  }

  /** Issued never falls behind committed between Host steps, and never wraps. */
  ghost predicate Sane(durable: Durable) {
    forall b :: b in durable ==> durable[b].committed <= durable[b].issued <= MAX_COUNTER
  }

  /** A recovery owes everything past the committed cursor anew, and tears what was not drained. */
  ghost function DurableScope(rows: seq<Row>, c: Cursors, scope: Scope, b: Binding, step: DurableStep): Scope {
    if !step.Recover? then scope
    else Scope(scope.floor[b := c.committed], if Drained(rows, b, c.committed) then scope.torn else scope.torn + {b})
  }

  /** A durable step keeps the feed; a recovery over undrained rows tears its generation. */
  lemma DurableKeeps(rows: seq<Row>, sequence: nat, durable: Durable, scope: Scope, b: Binding, step: DurableStep)
    requires FeedOk(rows, sequence, durable, scope) && Sane(durable)
    requires b in durable && DurableAllowed(durable[b], step)
    ensures var after := durable[b := DurableNext(durable[b], step)];
            Sane(after) && FeedOk(rows, sequence, after, DurableScope(rows, durable[b], scope, b, step))
  {
    var after, next := durable[b := DurableNext(durable[b], step)], DurableScope(rows, durable[b], scope, b, step);
    forall c, s: nat | Due(after, next.floor, c, s)
      ensures Holds(rows, c, s)
    {
      assert Due(durable, scope.floor, c, s);
    }
  }

  /** Opening the cursors of a generation without rows keeps the feed. */
  lemma OpenKeeps(rows: seq<Row>, sequence: nat, durable: Durable, scope: Scope, b: Binding)
    requires FeedOk(rows, sequence, durable, scope) && Sane(durable) && b !in durable && !HasRow(rows, b)
    ensures var after := durable[b := Cursors(0, 0, false)];
            FeedOk(rows, sequence, after, scope) && Sane(after)
  {
    var after := durable[b := Cursors(0, 0, false)];
    assert forall i :: 0 <= i < |rows| ==> HasRow(rows, rows[i].event.binding);
    forall c, s: nat | Due(after, scope.floor, c, s)
      ensures Holds(rows, c, s)
    {
      assert Due(durable, scope.floor, c, s);
    }
  }

  /** Forgetting the cursors of a generation keeps the feed: nothing of it is owed any more. */
  lemma CloseKeeps(rows: seq<Row>, sequence: nat, durable: Durable, scope: Scope, b: Binding)
    requires FeedOk(rows, sequence, durable, scope) && Sane(durable)
    ensures FeedOk(rows, sequence, durable - {b}, scope) && Sane(durable - {b})
  {
    forall c, s: nat | Due(durable - {b}, scope.floor, c, s)
      ensures Holds(rows, c, s)
    {
      assert Due(durable, scope.floor, c, s);
    }
  }

  /** How far each binding had issued, which is where its feed starts after a reset. */
  function IssuedSoFar(durable: Durable): map<Binding, nat> {
    map b | b in durable :: durable[b].issued
  }

  /** A reset drops every row; nothing issued before it is due after it. */
  lemma EmptyFeed(durable: Durable)
    ensures FeedOk([], 0, durable, Scope(IssuedSoFar(durable), {}))
  {
    assert forall c, s: nat :: !Due(durable, IssuedSoFar(durable), c, s);
  }

  // ---- recovery ----------------------------------------------------------------------------

  /** The feed and the durable cursors between two Host steps. */
  datatype FeedState = FeedState(rows: seq<Row>, sequence: nat, durable: Durable)

  /** One input accepted, if mission State knows its generation: issued, then retained. */
  function Take(f: FeedState, e: Event): FeedState {
    if e.binding !in f.durable then f
    else
      var stamped := e.(missionSequence := HighWater(f.durable[e.binding]) + 1);
      FeedState(f.rows + [Fed(stamped, f.sequence + 1)], f.sequence + 1, Issued(f.durable, e.binding))
  }

  function TakeAll(f: FeedState, events: seq<Event>): FeedState {
    if events == [] then f else Take(TakeAll(f, events[..|events| - 1]), events[|events| - 1])
  }

  function Recovered(f: FeedState, b: Binding): FeedState
    requires b in f.durable
  {
    f.(durable := f.durable[b := DurableNext(f.durable[b], Recover)])
  }

  /** A read drops what mission State no longer owes. */
  function Read(f: FeedState): FeedState {
    f.(rows := Settled(f.rows, f.durable))
  }

  predicate AllOf(events: seq<Event>, b: Binding) {
    forall k :: 0 <= k < |events| ==> events[k].binding == b
  }

  lemma {:induction false} TakeAllKeeps(f: FeedState, scope: Scope, events: seq<Event>)
    requires FeedOk(f.rows, f.sequence, f.durable, scope)
    ensures var after := TakeAll(f, events); FeedOk(after.rows, after.sequence, after.durable, scope)
  {
    if events != [] {
      var n := |events| - 1;
      TakeAllKeeps(f, scope, events[..n]);
      var before, e := TakeAll(f, events[..n]), events[n];
      hide FeedOk;
      if e.binding in before.durable {
        AcceptKeeps(before.rows, before.sequence, before.durable, scope,
                    Fed(e.(missionSequence := HighWater(before.durable[e.binding]) + 1), before.sequence + 1));
      }
    }
  }

  /** Accepting inputs of one generation numbers them on from its high water. */
  lemma {:induction false} TakeAllNumbers(f: FeedState, b: Binding, events: seq<Event>)
    requires b in f.durable && AllOf(events, b)
    ensures var after := TakeAll(f, events);
            && |after.rows| == |f.rows| + |events| && f.rows <= after.rows && b in after.durable
            && (events == [] ==> after == f)
            && (events != [] ==>
                  && after.durable[b] == f.durable[b].(issued := HighWater(f.durable[b]) + |events|)
                  && Retains(after.rows, |after.rows| - 1, b, HighWater(f.durable[b]) + |events|))
  {
    if events != [] {
      var n := |events| - 1;
      TakeAllNumbers(f, b, events[..n]);
    }
  }

  /**
   * Recovery over an undrained row duplicates it: once its sequence is issued again, with no read
   * between, two rows retain it and both are owed.
   */
  lemma UndrainedDuplicates(f: FeedState, b: Binding, k: nat, events: seq<Event>)
    requires b in f.durable && f.durable[b].faulted && k < |f.rows| && f.rows[k].event.binding == b
    requires f.rows[k].event.missionSequence > f.durable[b].committed && AllOf(events, b)
    requires |events| == f.rows[k].event.missionSequence - f.durable[b].committed
    ensures var after, s := TakeAll(Recovered(f, b), events), f.rows[k].event.missionSequence;
            && k < |after.rows| - 1 && Retains(after.rows, k, b, s) && Retains(after.rows, |after.rows| - 1, b, s)
            && Owed(after.rows[k], after.durable) && Owed(after.rows[|after.rows| - 1], after.durable)
            && !OwedOnce(after.rows, after.durable, map[b := f.durable[b].committed], b)
  {
    hide TakeAll;
    TakeAllNumbers(Recovered(f, b), b, events);
    var after, s := TakeAll(Recovered(f, b), events), f.rows[k].event.missionSequence;
    assert after.rows[k] == f.rows[k];
    assert Due(after.durable, map[b := f.durable[b].committed], b, s);
  }

  /**
   * When recovery keeps the promise, exactly: whatever inputs of the generation are accepted after
   * it, each owed sequence has one retained row, if and only if its rows were drained.
   */
  lemma RecoverExact(f: FeedState, scope: Scope, b: Binding)
    requires FeedOk(f.rows, f.sequence, f.durable, scope) && Sane(f.durable)
    requires b in f.durable && f.durable[b].faulted && b !in scope.torn
    ensures Drained(f.rows, b, f.durable[b].committed) <==>
            forall events | AllOf(events, b) ::
              var after := TakeAll(Recovered(f, b), events);
              OwedOnce(after.rows, after.durable, map[b := f.durable[b].committed], b)
  {
    var c := f.durable[b].committed;
    if Drained(f.rows, b, c) {
      var next := DurableScope(f.rows, f.durable[b], scope, b, Recover);
      DurableKeeps(f.rows, f.sequence, f.durable, scope, b, Recover);
      forall events | AllOf(events, b)
        ensures var after := TakeAll(Recovered(f, b), events); OwedOnce(after.rows, after.durable, map[b := c], b)
      {
        TakeAllKeeps(Recovered(f, b), next, events);
        var after := TakeAll(Recovered(f, b), events);
        OwedExactlyOnce(after.rows, after.sequence, after.durable, next, b);
        SameFloor(after.rows, after.durable, next.floor, map[b := c], b);
      }
    } else {
      var k :| 0 <= k < |f.rows| && f.rows[k].event.binding == b && f.rows[k].event.missionSequence > c;
      var events := seq(f.rows[k].event.missionSequence - c, _ => BlankEvent(b, SenseUpdate, 0));
      assert AllOf(events, b);
      UndrainedDuplicates(f, b, k, events);
    }
  }

  lemma SameFloor(rows: seq<Row>, durable: Durable, floor: map<Binding, nat>, other: map<Binding, nat>, b: Binding)
    requires OwedOnce(rows, durable, floor, b) && FloorOf(floor, b) == FloorOf(other, b)
    ensures OwedOnce(rows, durable, other, b)
  {
    forall s: nat | Due(durable, other, b, s)
      ensures RetainedOnce(rows, b, s)
    {
      assert Due(durable, floor, b, s);
    }
  }

  /** A read while the generation is faulted drops every row of it. */
  lemma FaultedReadDrops(f: FeedState, b: Binding)
    requires b in f.durable && f.durable[b].faulted
    ensures !HasRow(Read(f).rows, b)
  {
    SettledMembers(f.rows, f.durable);
    hide Settled;
    var kept := Settled(f.rows, f.durable);
    forall i | 0 <= i < |kept|
      ensures kept[i].event.binding != b
    {
      assert kept[i] in kept;
    }
  }

  /**
   * Reading while a generation is faulted drains it for a recovery, exactly as long as no input of
   * it is accepted in between: accepting one does not ask whether the generation is faulted.
   */
  lemma {:induction false} ReadThenRecover(f: FeedState, b: Binding, events: seq<Event>)
    requires b in f.durable && f.durable[b].faulted
    ensures var after := TakeAll(Read(f), events);
            && b in after.durable && after.durable[b].faulted && after.durable[b].committed == f.durable[b].committed
            && (Drained(after.rows, b, f.durable[b].committed) <==>
                forall k :: 0 <= k < |events| ==> events[k].binding != b)
  {
    if events == [] {
      FaultedReadDrops(f, b);
      assert forall i :: 0 <= i < |Read(f).rows| ==> HasRow(Read(f).rows, Read(f).rows[i].event.binding);
    } else {
      var n := |events| - 1;
      ReadThenRecover(f, b, events[..n]);
      var before := TakeAll(Read(f), events[..n]);
      TakeDrained(before, b, events[n]);
      assert events == events[..n] + [events[n]];
    }
  }

  /** One accepted input leaves a generation drained exactly when it is of another. */
  lemma TakeDrained(f: FeedState, b: Binding, e: Event)
    requires b in f.durable
    ensures var after := Take(f, e);
            && b in after.durable && after.durable[b].(issued := f.durable[b].issued) == f.durable[b]
            && (Drained(after.rows, b, f.durable[b].committed) <==>
                Drained(f.rows, b, f.durable[b].committed) && e.binding != b)
  {
    var after, c := Take(f, e), f.durable[b].committed;
    if e.binding in f.durable {
      var row := after.rows[|f.rows|];
      assert after.rows == f.rows + [row];
      assert forall i :: 0 <= i < |f.rows| ==> after.rows[i] == f.rows[i];
    }
  }

  /** Reading right after a recovery, before an input is accepted, leaves no row of the generation. */
  lemma RecoverThenRead(f: FeedState, b: Binding)
    requires b in f.durable
    ensures !HasRow(Read(Recovered(f, b)).rows, b)
  {
    var after := Recovered(f, b);
    SettledMembers(after.rows, after.durable);
    hide Settled;
    var kept := Settled(after.rows, after.durable);
    forall i | 0 <= i < |kept|
      ensures kept[i].event.binding != b
    {
      assert kept[i] in kept;
    }
  }

  // ---- pages -------------------------------------------------------------------------------

  /** The rows past one feed position. */
  function RowsAfter(rows: seq<Row>, position: nat): seq<Row> {
    if rows == [] then []
    else if rows[0].sequence > position then rows
    else RowsAfter(rows[1..], position)
  }

  function Page(rows: seq<Row>): seq<Row> {
    if |rows| <= READ_PAGE_SIZE then rows else rows[..READ_PAGE_SIZE]
  }

  function NextPosition(page: seq<Row>, position: nat): nat {
    if page == [] then position else page[|page| - 1].sequence
  }

  /** In an increasing feed the rows past a position are exactly a suffix. */
  lemma {:induction false} RowsAfterSuffix(rows: seq<Row>, sequence: nat, position: nat)
    requires Positioned(rows, sequence)
    ensures var tail := RowsAfter(rows, position);
            && |tail| <= |rows| && tail == rows[|rows| - |tail|..]
            && (forall i :: 0 <= i < |rows| ==> (rows[i].sequence > position <==> i >= |rows| - |tail|))
  {
    if rows != [] && rows[0].sequence <= position {
      RowsAfterSuffix(rows[1..], sequence, position);
      assert forall i :: 1 <= i < |rows| ==> rows[i] == rows[1..][i - 1];
    }
  }

  /** One page, then the rows past its cursor, are all the rows past the first cursor. */
  lemma PageSplits(rows: seq<Row>, sequence: nat, position: nat)
    requires Positioned(rows, sequence)
    ensures var page := Page(RowsAfter(rows, position));
            RowsAfter(rows, position) == page + RowsAfter(rows, NextPosition(page, position))
  {
    var tail := RowsAfter(rows, position);
    var page := Page(tail);
    var next := NextPosition(page, position);
    RowsAfterSuffix(rows, sequence, position);
    RowsAfterSuffix(rows, sequence, next);
    var rest := RowsAfter(rows, next);
    if page != [] {
      var at := |rows| - |tail| + |page| - 1;
      assert rows[at] == page[|page| - 1];
      assert rows[at].sequence == next;
      assert at + 1 < |rows| ==> rows[at + 1].sequence > next;
      assert |rest| == |rows| - at - 1;
    }
  }

  /** Every page read from a position on, concatenated. */
  ghost function Pages(rows: seq<Row>, position: nat, turns: nat): seq<Row>
    decreases turns
  {
    if turns == 0 then []
    else
      var page := Page(RowsAfter(rows, position));
      page + Pages(rows, NextPosition(page, position), turns - 1)
  }

  /** Enough page reads deliver every retained row past the starting cursor once, in order. */
  lemma {:induction false} PagesDeliver(rows: seq<Row>, sequence: nat, position: nat, turns: nat)
    requires Positioned(rows, sequence)
    requires |RowsAfter(rows, position)| <= turns * READ_PAGE_SIZE
    ensures Pages(rows, position, turns) == RowsAfter(rows, position)
    decreases turns
  {
    if turns > 0 {
      var page := Page(RowsAfter(rows, position));
      PageSplits(rows, sequence, position);
      PagesDeliver(rows, sequence, NextPosition(page, position), turns - 1);
    }
  }

  /** The feed as one read finds it, settled rows already dropped. */
  datatype Feed = Feed(rows: seq<Row>, sequence: nat)

  /** The cursor one read returns. */
  function NextCursor(feed: Feed, cursor: nat): nat {
    if feed.rows == [] && cursor < feed.sequence then feed.sequence
    else NextPosition(Page(RowsAfter(feed.rows, cursor)), cursor)
  }

  /** Feed positions past a cursor that lie before every retained row. */
  ghost function Skipped(feed: Feed, from: nat): set<nat> {
    set q: nat | from < q <= feed.sequence && Before(q, feed.rows)
  }

  ghost predicate Before(q: nat, rows: seq<Row>) {
    forall i :: 0 <= i < |rows| ==> q < rows[i].sequence
  }

  /** The numbers after one and up to another. */
  ghost function Interval(after: nat, last: nat): (numbers: set<nat>)
    ensures forall q: nat :: q in numbers <==> after < q <= last
    decreases last
  {
    if after < last then Interval(after, last - 1) + {last} else {}
  }

  lemma {:induction false} IntervalCount(after: nat, last: nat)
    ensures |Interval(after, last)| == if after < last then last - after else 0
    decreases last
  {
    if after < last {
      IntervalCount(after, last - 1);
    }
  }

  /** The skipped positions are an interval that ends before the first row, or with the feed. */
  lemma SkippedInterval(feed: Feed, from: nat)
    requires Positioned(feed.rows, feed.sequence)
    ensures Skipped(feed, from) == Interval(from, if feed.rows == [] then feed.sequence else feed.rows[0].sequence - 1)
  {
    if feed.rows != [] {
      forall q: nat
        ensures Before(q, feed.rows) <==> q < feed.rows[0].sequence
      {}
    }
  }

  /** A read right behind a retained row, or from the feed's end on, skips nothing. */
  lemma NothingSkipped(feed: Feed, from: nat)
    requires Positioned(feed.rows, feed.sequence)
    ensures from >= feed.sequence ==> Skipped(feed, from) == {}
    ensures (exists i :: 0 <= i < |feed.rows| && feed.rows[i].sequence == from + 1) ==> Skipped(feed, from) == {}
  {}

  /** One read passes every position it skips, and they are all it passes before the first retained row. */
  lemma SkipPassed(feed: Feed, from: nat, q: nat)
    requires Positioned(feed.rows, feed.sequence)
    ensures q in Skipped(feed, from) <==> from < q <= NextCursor(feed, from) && Before(q, feed.rows)
  {
    hide Page, RowsAfter, Positioned, NextCursor, Skipped, Before;
    SkippedInterval(feed, from);
    if feed.rows == [] {
      BeforeNone(feed, from, q);
    } else {
      BeforeFirst(feed, q);
      if from < q < feed.rows[0].sequence {
        FirstPassed(feed, from);
      }
    }
  }

  lemma BeforeNone(feed: Feed, from: nat, q: nat)
    requires feed.rows == []
    ensures Before(q, feed.rows)
    ensures NextCursor(feed, from) == if from < feed.sequence then feed.sequence else from
  {}

  lemma BeforeFirst(feed: Feed, q: nat)
    requires Positioned(feed.rows, feed.sequence) && feed.rows != []
    ensures Before(q, feed.rows) <==> q < feed.rows[0].sequence
    ensures 0 < feed.rows[0].sequence <= feed.sequence
  {}

  /** A read from before the first row passes it. */
  lemma FirstPassed(feed: Feed, from: nat)
    requires Positioned(feed.rows, feed.sequence) && feed.rows != [] && from < feed.rows[0].sequence
    ensures feed.rows[0].sequence <= NextCursor(feed, from)
  {
    var skip := PageSlice(feed.rows, feed.sequence, from);
    var end := skip + |Page(RowsAfter(feed.rows, from))|;
    CursorMoves(feed, from, skip, end);
    hide Page, RowsAfter, NextCursor;
  }

  /** The cursor after a chain of reads, each from the cursor the one before it returned. */
  function LastCursor(feeds: seq<Feed>, start: nat): nat {
    if feeds == [] then start else NextCursor(feeds[|feeds| - 1], LastCursor(feeds[..|feeds| - 1], start))
  }

  /** Everything a chain of reads delivered. */
  function ChainDelivered(feeds: seq<Feed>, start: nat): seq<Row> {
    if feeds == [] then []
    else
      var n := |feeds| - 1;
      ChainDelivered(feeds[..n], start) + Page(RowsAfter(feeds[n].rows, LastCursor(feeds[..n], start)))
  }

  /** Feed positions increase, strictly after one cursor and up to another. */
  ghost predicate Within(rows: seq<Row>, after: nat, last: nat) {
    && (forall i, j :: 0 <= i < j < |rows| ==> rows[i].sequence < rows[j].sequence)
    && (forall i :: 0 <= i < |rows| ==> after < rows[i].sequence <= last)
  }

  /** A page is a slice of the feed: everything before it is at or before the cursor, the rest is after it. */
  lemma PageSlice(rows: seq<Row>, sequence: nat, cursor: nat) returns (skip: nat)
    requires Positioned(rows, sequence)
    ensures var page := Page(RowsAfter(rows, cursor));
            && skip + |page| <= |rows| && page == rows[skip..skip + |page|]
            && (forall i :: 0 <= i < |rows| ==> (rows[i].sequence > cursor <==> i >= skip))
            && (page == [] ==> skip == |rows|)
  {
    RowsAfterSuffix(rows, sequence, cursor);
    skip := |rows| - |RowsAfter(rows, cursor)|;
  }

  /** Where one read leaves its cursor: at its last row, at the feed's end, or where it was. */
  lemma CursorMoves(feed: Feed, cursor: nat, skip: nat, end: nat)
    requires skip <= end <= |feed.rows| && Page(RowsAfter(feed.rows, cursor)) == feed.rows[skip..end]
    ensures if skip < end then NextCursor(feed, cursor) == feed.rows[end - 1].sequence
            else NextCursor(feed, cursor) == if feed.rows == [] && cursor < feed.sequence then feed.sequence else cursor
  {
    hide Page, RowsAfter;
    if skip < end {
      assert feed.rows[skip..end][end - skip - 1] == feed.rows[end - 1];
    }
  }

  lemma SliceWithin(rows: seq<Row>, skip: nat, end: nat, cursor: nat)
    requires forall i, j :: 0 <= i < j < |rows| ==> rows[i].sequence < rows[j].sequence
    requires forall i :: 0 <= i < |rows| ==> (rows[i].sequence > cursor <==> i >= skip)
    requires skip < end <= |rows|
    ensures Within(rows[skip..end], cursor, rows[end - 1].sequence)
  {}

  /** One read delivers, in order, exactly the rows between its two cursors. */
  lemma PageWithin(feed: Feed, cursor: nat)
    requires Positioned(feed.rows, feed.sequence)
    ensures cursor <= NextCursor(feed, cursor)
    ensures Within(Page(RowsAfter(feed.rows, cursor)), cursor, NextCursor(feed, cursor))
    ensures forall row :: row in feed.rows ==>
              (row in Page(RowsAfter(feed.rows, cursor)) <==> cursor < row.sequence <= NextCursor(feed, cursor))
  {
    var skip := PageSlice(feed.rows, feed.sequence, cursor);
    var end := skip + |Page(RowsAfter(feed.rows, cursor))|;
    hide Page, RowsAfter, Within, NextCursor;
    CursorMoves(feed, cursor, skip, end);
    if skip < end {
      SliceWithin(feed.rows, skip, end, cursor);
    } else {
      NothingBetween(cursor, NextCursor(feed, cursor));
    }
    forall row | row in feed.rows
      ensures row in feed.rows[skip..end] <==> cursor < row.sequence <= NextCursor(feed, cursor)
    {
      var k :| 0 <= k < |feed.rows| && feed.rows[k] == row;
      SliceHas(feed.rows, skip, end, row, k);
    }
  }

  lemma NothingBetween(after: nat, last: nat)
    ensures Within([], after, last)
  {}

  /** In an increasing feed a row lies in a slice exactly when its position does. */
  lemma SliceHas(rows: seq<Row>, skip: nat, end: nat, row: Row, k: nat)
    requires forall i, j :: 0 <= i < j < |rows| ==> rows[i].sequence < rows[j].sequence
    requires skip <= end <= |rows| && k < |rows| && rows[k] == row
    ensures row in rows[skip..end] <==> skip <= k < end
  {
    if skip <= k < end {
      assert rows[skip..end][k - skip] == row;
    }
  }

  lemma WithinConcat(a: seq<Row>, b: seq<Row>, start: nat, middle: nat, last: nat)
    requires Within(a, start, middle) && Within(b, middle, last) && start <= middle <= last
    ensures Within(a + b, start, last)
  {}

  /**
   * However the feed grows and is retired between reads, a chain delivers rows in increasing order,
   * and a row retained throughout exactly when the cursor has passed it.
   */
  lemma {:induction false} ChainDelivers(feeds: seq<Feed>, start: nat, row: Row)
    requires forall i :: 0 <= i < |feeds| ==> Positioned(feeds[i].rows, feeds[i].sequence)
    ensures start <= LastCursor(feeds, start)
    ensures Within(ChainDelivered(feeds, start), start, LastCursor(feeds, start))
    ensures (forall i :: 0 <= i < |feeds| ==> row in feeds[i].rows) ==>
              (row in ChainDelivered(feeds, start) <==> start < row.sequence <= LastCursor(feeds, start))
  {
    hide Within, Positioned, Page, RowsAfter, NextCursor;
    if feeds == [] {
      NothingBetween(start, start);
    } else {
      var n := |feeds| - 1;
      var before, c := feeds[..n], LastCursor(feeds[..n], start);
      ChainDelivers(before, start, row);
      PageWithin(feeds[n], c);
      var page := Page(RowsAfter(feeds[n].rows, c));
      WithinConcat(ChainDelivered(before, start), page, start, c, LastCursor(feeds, start));
      PageAfter(page, c, LastCursor(feeds, start), row);
      PageAfter(ChainDelivered(before, start), start, c, row);
      assert forall i :: 0 <= i < n ==> before[i] == feeds[i];
    }
  }

  /** The cursor before one read of a chain, and after the one before it. */
  function CursorBefore(feeds: seq<Feed>, start: nat, i: nat): nat
    requires i <= |feeds|
  {
    LastCursor(feeds[..i], start)
  }

  /** Every position a chain of reads skipped. */
  ghost function ChainSkipped(feeds: seq<Feed>, start: nat): set<nat> {
    if feeds == [] then {}
    else
      var n := |feeds| - 1;
      ChainSkipped(feeds[..n], start) + Skipped(feeds[n], LastCursor(feeds[..n], start))
  }

  /** What a chain of reads counts as missed. */
  ghost function ChainMissed(feeds: seq<Feed>, start: nat): nat {
    if feeds == [] then 0
    else
      var n := |feeds| - 1;
      ChainMissed(feeds[..n], start) + |Skipped(feeds[n], LastCursor(feeds[..n], start))|
  }

  /** A read of the chain passed this position, and it lay before every row retained then. */
  ghost predicate PassedUnretained(feeds: seq<Feed>, start: nat, q: nat, i: nat)
    requires i < |feeds|
  {
    CursorBefore(feeds, start, i) < q <= CursorBefore(feeds, start, i + 1) && Before(q, feeds[i].rows)
  }

  /**
   * However the feed grows and is retired between reads, a chain counts exactly the positions that a
   * read passed while they lay before every retained row, each once, and none that was delivered.
   */
  lemma {:induction false} ChainAccounts(feeds: seq<Feed>, start: nat)
    requires forall i :: 0 <= i < |feeds| ==> Positioned(feeds[i].rows, feeds[i].sequence)
    ensures ChainMissed(feeds, start) == |ChainSkipped(feeds, start)|
    ensures forall q: nat :: q in ChainSkipped(feeds, start) <==> exists i :: 0 <= i < |feeds| && PassedUnretained(feeds, start, q, i)
    ensures forall row :: row in ChainDelivered(feeds, start) ==> row.sequence !in ChainSkipped(feeds, start)
  {
    hide Positioned, Page, RowsAfter, NextCursor, Skipped, Before, Within, LastCursor, PassedUnretained;
    ChainSkips(feeds, start);
    if feeds != [] {
      var n := |feeds| - 1;
      var before, c := feeds[..n], LastCursor(feeds[..n], start);
      assert forall i :: 0 <= i < n ==> before[i] == feeds[i];
      ChainAccounts(before, start);
      ChainSkips(before, start);
      ChainCursors(feeds, start);
      forall q: nat
        ensures q in Skipped(feeds[n], c) ==> c < q
      {
        SkipPassed(feeds[n], c, q);
      }
      assert Skipped(feeds[n], c) !! ChainSkipped(before, start);
      DeliveredApart(feeds[n], c, start, ChainDelivered(before, start), ChainSkipped(before, start));
    }
  }

  /** The positions a chain skips are those one of its reads passed before every row retained then. */
  lemma {:induction false} ChainSkips(feeds: seq<Feed>, start: nat)
    requires forall i :: 0 <= i < |feeds| ==> Positioned(feeds[i].rows, feeds[i].sequence)
    ensures forall q: nat :: q in ChainSkipped(feeds, start) <==> exists i :: 0 <= i < |feeds| && PassedUnretained(feeds, start, q, i)
    ensures forall q :: q in ChainSkipped(feeds, start) ==> start < q <= LastCursor(feeds, start)
  {
    hide Positioned, Page, RowsAfter, NextCursor, Skipped, Before, Within, PassedUnretained;
    if feeds != [] {
      var n := |feeds| - 1;
      var before, c, last := feeds[..n], LastCursor(feeds[..n], start), LastCursor(feeds, start);
      assert forall i :: 0 <= i < n ==> before[i] == feeds[i];
      ChainSkips(before, start);
      ChainCursors(feeds, start);
      PassedOne(feeds, start);
      forall q: nat
        ensures q in Skipped(feeds[n], c) <==> c < q <= last && Before(q, feeds[n].rows)
      {
        SkipPassed(feeds[n], c, q);
      }
      assert forall q: nat :: q in Skipped(feeds[n], c) <==> PassedUnretained(feeds, start, q, n);
    }
  }

  /** Cursors never move back along a chain, and its deliveries lie between its ends. */
  lemma ChainCursors(feeds: seq<Feed>, start: nat)
    requires feeds != [] && forall i :: 0 <= i < |feeds| ==> Positioned(feeds[i].rows, feeds[i].sequence)
    ensures var n := |feeds| - 1;
            start <= LastCursor(feeds[..n], start) <= LastCursor(feeds, start) &&
            Within(ChainDelivered(feeds[..n], start), start, LastCursor(feeds[..n], start))
  {
    hide Positioned, NextCursor, Within;
    var n := |feeds| - 1;
    assert forall i :: 0 <= i < n ==> feeds[..n][i] == feeds[i];
    ChainDelivers(feeds[..n], start, Row(BlankEvent(Binding(0, 0), OperatorRefused, 0), 0));
    PageWithin(feeds[n], LastCursor(feeds[..n], start));
  }

  /** The reads of a chain are those before its last, and its last. */
  lemma PassedOne(feeds: seq<Feed>, start: nat)
    requires feeds != []
    ensures var n := |feeds| - 1;
            && (forall q: nat, i :: 0 <= i < n ==> (PassedUnretained(feeds, start, q, i) <==> PassedUnretained(feeds[..n], start, q, i)))
            && (forall q: nat :: PassedUnretained(feeds, start, q, n) <==>
                            LastCursor(feeds[..n], start) < q <= LastCursor(feeds, start) && Before(q, feeds[n].rows))
  {
    hide LastCursor, Before;
    var n := |feeds| - 1;
    assert feeds[..n + 1] == feeds;
    assert forall i :: 0 <= i <= n ==> feeds[..n][..i] == feeds[..i];
  }

  /** What the last read delivers or skips is past what the chain did before it. */
  lemma DeliveredApart(feed: Feed, cursor: nat, start: nat, delivered: seq<Row>, skipped: set<nat>)
    requires Positioned(feed.rows, feed.sequence) && Within(delivered, start, cursor)
    requires forall q :: q in skipped ==> q <= cursor
    requires forall row :: row in delivered ==> row.sequence !in skipped
    ensures forall row :: row in delivered + Page(RowsAfter(feed.rows, cursor)) ==>
                            row.sequence !in skipped + Skipped(feed, cursor)
  {
    hide Positioned, NextCursor, Skipped, Page, RowsAfter, Within;
    PageApart(feed, cursor);
    forall row | row in delivered
      ensures row.sequence !in Skipped(feed, cursor)
    {
      SkipPassed(feed, cursor, row.sequence);
      PageAfter(delivered, start, cursor, row);
    }
  }

  lemma PageApart(feed: Feed, cursor: nat)
    requires Positioned(feed.rows, feed.sequence)
    ensures forall row :: row in Page(RowsAfter(feed.rows, cursor)) ==>
                            cursor < row.sequence && row.sequence !in Skipped(feed, cursor)
  {
    hide Positioned, NextCursor, Skipped, Page, RowsAfter, Within;
    PageWithin(feed, cursor);
    forall row | row in Page(RowsAfter(feed.rows, cursor))
      ensures cursor < row.sequence && row.sequence !in Skipped(feed, cursor)
    {
      PageAfter(Page(RowsAfter(feed.rows, cursor)), cursor, NextCursor(feed, cursor), row);
      SkipPassed(feed, cursor, row.sequence);
      RowOfPage(feed, cursor, row);
    }
  }

  lemma RowOfPage(feed: Feed, cursor: nat, row: Row)
    requires Positioned(feed.rows, feed.sequence) && row in Page(RowsAfter(feed.rows, cursor))
    ensures row in feed.rows
  {
    var skip := PageSlice(feed.rows, feed.sequence, cursor);
  }

  lemma PageAfter(rows: seq<Row>, after: nat, last: nat, row: Row)
    requires Within(rows, after, last)
    ensures row in rows ==> after < row.sequence <= last
  {}

  lemma NoRows(position: nat)
    ensures Page(RowsAfter([], position)) == []
  {}

  lemma PositionedFirst(rows: seq<Row>, sequence: nat)
    requires Positioned(rows, sequence)
    ensures rows != [] ==> rows[0].sequence > 0
  {}

  /** A page ends with the feed, or once it is full. */
  lemma PageOf(rows: seq<Row>, tail: seq<Row>, skip: nat, end: nat)
    requires skip <= |rows| && tail == rows[skip..] && end <= |rows|
    requires end == |rows| || (skip < end && end - skip == READ_PAGE_SIZE)
    requires end - skip <= READ_PAGE_SIZE
    ensures Page(tail) == if end <= skip then [] else rows[skip..end]
  {}

  /** The row that retains one event at one feed position. */
  function Fed(event: Event, sequence: nat): Row {
    Row(if event.sequence == 0 then event.(sequence := sequence) else event, sequence)
  }

  class MissionFeed {
    var rows: seq<Row>
    var sequence: nat

    constructor ()
      ensures rows == [] && sequence == 0
    {
      rows, sequence := [], 0;
    }

    /** Retains one accepted input; an event without a durable sequence is not one. */
    method Append(event: Event)
      modifies this
      ensures event.missionSequence == 0 ==> rows == old(rows) && sequence == old(sequence)
      ensures event.missionSequence != 0 ==>
                sequence == old(sequence) + 1 && rows == old(rows) + [Fed(event, sequence)]
    {
      if event.missionSequence == 0 {
        return;
      }
      sequence := sequence + 1;
      var stored := event;
      if stored.sequence == 0 {
        stored := stored.(sequence := sequence);
      }
      rows := rows + [Row(stored, sequence)];
    }

    /** Keeps exactly the rows still owed. */
    method Retire(durable: Durable)
      modifies this`rows
      ensures rows == Settled(old(rows), durable)
    {
      var kept := [];
      for index := 0 to |rows|
        invariant kept == Settled(rows[..index], durable)
      {
        assert rows[..index + 1][..index] == rows[..index];
        if Owed(rows[index], durable) {
          kept := kept + [rows[index]];
        }
      }
      assert rows[..|rows|] == rows;
      rows := kept;
    }

    /** Copies one page of accepted inputs after one cursor. */
    method ReadAfter(after: MissionCursor, generation: nat, durable: Durable) returns (output: MissionRead)
      requires Positioned(rows, sequence)
      modifies this`rows
      ensures rows == Settled(old(rows), durable)
      ensures output.reset <==> after.generation != generation
      ensures var from := if output.reset then 0 else after.sequence;
              && output.events == Page(RowsAfter(rows, from))
              && output.cursor == MissionCursor(generation, NextCursor(Feed(rows, sequence), from))
              && output.missed == |Skipped(Feed(rows, sequence), from)|
              && (output.gap <==> Skipped(Feed(rows, sequence), from) != {})
    {
      hide Settled, RowsAfter, Page, Skipped, Interval;
      var reset := after.generation != generation;
      var from := if reset then 0 else after.sequence;
      SettledPositioned(rows, sequence, durable);
      Retire(durable);
      PositionedFirst(rows, sequence);
      NoRows(from);
      SkippedInterval(Feed(rows, sequence), from);
      IntervalCount(from, if rows == [] then sequence else rows[0].sequence - 1);
      hide Positioned;
      var events, next, missed, gap := [], from, 0, false;
      if rows != [] {
        var predecessor := rows[0].sequence - 1;
        if from < predecessor {
          gap, missed := true, predecessor - from;
        }
        events := CopyPage(from);
        if events != [] {
          next := events[|events| - 1].sequence;
        }
      } else if from < sequence {
        gap, missed, next := true, sequence - from, sequence;
      }
      output := MissionRead(events, MissionCursor(generation, next), missed, gap, reset);
    }

    /** The first page of rows past one position. */
    method CopyPage(from: nat) returns (events: seq<Row>)
      requires Positioned(rows, sequence)
      ensures events == Page(RowsAfter(rows, from))
    {
      events := [];
      ghost var tail := RowsAfter(rows, from);
      ghost var skip := |rows| - |tail|;
      RowsAfterSuffix(rows, sequence, from);
      hide RowsAfter, Positioned, Page;
      var index := 0;
      while index < |rows|
        invariant 0 <= index <= |rows|
        invariant |events| <= READ_PAGE_SIZE
        invariant events == if index <= skip then [] else rows[skip..index]
      {
        if rows[index].sequence <= from {
          index := index + 1;
          continue;
        }
        if |events| == READ_PAGE_SIZE {
          break;
        }
        assert index > skip ==> rows[skip..index + 1] == rows[skip..index] + [rows[index]];
        events := events + [rows[index]];
        index := index + 1;
      }
      PageOf(rows, tail, skip, index);
    }

    method Reset()
      modifies this
      ensures rows == [] && sequence == 0
    {
      rows, sequence := [], 0;
    }
  }
}
