/** The bounded event ring and its cursor reads. */
module EventFeed {
  import opened HostTypes

  const EVENT_CAPACITY: nat := 64

  /** Position in one reset generation. */
  datatype EventCursor = EventCursor(generation: nat, sequence: nat)

  datatype EventRead = EventRead(events: seq<Event>, cursor: EventCursor, missed: nat, gap: bool, reset: bool)

  /** Event k of a history carries sequence k + 1. */
  ghost predicate Numbered(history: seq<Event>) {
    forall k :: 0 <= k < |history| ==> history[k].sequence == k + 1
  }

  function Min(a: nat, b: nat): nat { if a < b then a else b }
  function Max(a: nat, b: nat): nat { if a < b then b else a }

  /** Slot of the index-th retained event. */
  function Slot(start: nat, index: nat): (slot: nat)
    requires start < EVENT_CAPACITY && index <= EVENT_CAPACITY
    ensures slot == if start + index < EVENT_CAPACITY then start + index else start + index - EVENT_CAPACITY
  {
    (start + index) % EVENT_CAPACITY
  }

  /** Where one read of a history starts: at its cursor, or at the oldest event still retained. */
  function ReadStart(history: seq<Event>, from: nat): nat {
    Max(from, |history| - Min(EVENT_CAPACITY, |history|))
  }

  /** What one read delivers. A cursor past the history finds nothing. */
  function ReadEvents(history: seq<Event>, from: nat): seq<Event> {
    if ReadStart(history, from) <= |history| then history[ReadStart(history, from)..] else []
  }

  /** What one read counts as overwritten before it came. */
  function ReadMissed(history: seq<Event>, from: nat): nat {
    ReadStart(history, from) - from
  }

  class EventRing {
    const slots: array<Event>
    var start: nat
    var count: nat
    var sequence: nat
    var overwritten: nat
    var generation: nat
    /** Every event appended since the last reset. */
    ghost var history: seq<Event>

    /** The ring holds the newest events, consecutively, and counts the rest as overwritten. */
    ghost predicate Valid()
      reads this, slots
    {
      && slots.Length == EVENT_CAPACITY && start < EVENT_CAPACITY
      && sequence == |history| && overwritten + count == |history|
      && count == Min(EVENT_CAPACITY, |history|)
      && Numbered(history)
      && forall k :: 0 <= k < count ==> slots[Slot(start, k)] == history[|history| - count + k]
    }

    constructor ()
      ensures Valid() && history == [] && generation == 1 && fresh(slots)
    {
      slots := new Event[EVENT_CAPACITY](_ => BlankEvent(Binding(0, 0), OperatorRefused, 0));
      start, count, sequence, overwritten, generation, history := 0, 0, 0, 0, 1, [];
    }

    /** Appends one event in oldest-to-newest order, overwriting the oldest when full. */
    method Append(event: Event) returns (stamped: Event)
      requires Valid()
      modifies this`start, this`count, this`sequence, this`overwritten, this`history, slots
      ensures Valid()
      ensures stamped == event.(sequence := |old(history)| + 1)
      ensures history == old(history) + [stamped]
    {
      sequence := sequence + 1;
      stamped := event.(sequence := sequence);
      ghost var full := count == EVENT_CAPACITY;
      var index := Slot(start, count);
      if count == EVENT_CAPACITY {
        index := start;
        start := Slot(start, 1);
        overwritten := overwritten + 1;
      } else {
        count := count + 1;
      }
      slots[index] := stamped;
      history := history + [stamped];
      forall k | 0 <= k < count
        ensures slots[Slot(start, k)] == history[|history| - count + k]
      {
        if k < count - 1 {
          assert full ==> Slot(start, k) == Slot(old(start), k + 1) != index;
          assert !full ==> Slot(start, k) == Slot(old(start), k) != index;
        }
      }
    }

    /** What happened since one cursor, and how much of it is lost. */
    method ReadAfter(after: EventCursor) returns (output: EventRead)
      requires Valid()
      ensures output.cursor == EventCursor(generation, |history|)
      ensures output.reset <==> after.generation != generation
      ensures var from := if output.reset then 0 else after.sequence;
              && output.events == ReadEvents(history, from)
              && output.missed == ReadMissed(history, from) && (output.gap <==> from < overwritten)
              && output.missed == (if from < overwritten then overwritten - from else 0)
              && (|output.events| < EVENT_CAPACITY ==> output.missed == 0)
    {
      var reset := after.generation != generation;
      var events, missed, gap := [], 0, false;
      if count != 0 {
        var from := if reset then 0 else after.sequence;
        var oldest := slots[start].sequence;
        assert slots[Slot(start, 0)] == history[|history| - count];
        var first := 0;
        if from < oldest {
          var predecessor := oldest - 1;
          if from < predecessor {
            gap := true;
            missed := predecessor - from;
          }
        } else {
          first := SkipThrough(from);
        }
        events := CopyFrom(first);
      }
      output := EventRead(events, EventCursor(generation, sequence), missed, gap, reset);
    }

    /** Index of the first retained event past one sequence. */
    method SkipThrough(from: nat) returns (first: nat)
      requires Valid()
      ensures first == Min(count, Max(from, |history| - count) - (|history| - count))
    {
      first := 0;
      while first < count && slots[Slot(start, first)].sequence <= from
        invariant first <= count
        invariant first > 0 ==> |history| - count + first <= from
      {
        assert slots[Slot(start, first)] == history[|history| - count + first];
        first := first + 1;
      }
      if first < count {
        assert slots[Slot(start, first)] == history[|history| - count + first];
      }
    }

    /** The retained events from one index on. */
    method CopyFrom(first: nat) returns (events: seq<Event>)
      requires Valid() && first <= count
      ensures events == history[|history| - count + first..]
    {
      events := [];
      for index := first to count
        invariant events == history[|history| - count + first..|history| - count + index]
      {
        assert slots[Slot(start, index)] == history[|history| - count + index];
        events := events + [slots[Slot(start, index)]];
      }
    }

    /** Forgets every event and opens the next generation. */
    method Reset()
      requires Valid()
      modifies this, slots
      ensures Valid() && history == [] && generation == old(generation) + 1
    {
      generation := generation + 1;
      forall k | 0 <= k < EVENT_CAPACITY {
        slots[k] := BlankEvent(Binding(0, 0), OperatorRefused, 0);
      }
      start, count, sequence, overwritten, history := 0, 0, 0, 0, [];
    }
  }

  // ---- chained reads -----------------------------------------------------------------------

  /**
   * The history as each of a chain of reads in one generation finds it. Each read starts from the
   * cursor the one before it returned, which is the end of the history that one found.
   */
  ghost predicate Grows(histories: seq<seq<Event>>) {
    forall i :: 0 < i < |histories| ==> histories[i - 1] <= histories[i]
  }

  /** The cursor a chain of reads returns. */
  ghost function ChainCursor(histories: seq<seq<Event>>, cursor: nat): nat {
    if histories == [] then cursor else |histories[|histories| - 1]|
  }

  /** Everything a chain of reads delivered, in delivery order. */
  ghost function Delivered(histories: seq<seq<Event>>, cursor: nat): seq<Event> {
    if histories == [] then []
    else
      var n := |histories| - 1;
      Delivered(histories[..n], cursor) + ReadEvents(histories[n], ChainCursor(histories[..n], cursor))
  }

  /** Everything a chain of reads counted missed. */
  ghost function Missed(histories: seq<seq<Event>>, cursor: nat): nat {
    if histories == [] then 0
    else
      var n := |histories| - 1;
      Missed(histories[..n], cursor) + ReadMissed(histories[n], ChainCursor(histories[..n], cursor))
  }

  /** Delivered sequences are increasing and lie strictly after one cursor, up to a bound. */
  ghost predicate Between(d: seq<Event>, cursor: nat, last: nat) {
    && (forall i, j :: 0 <= i < j < |d| ==> d[i].sequence < d[j].sequence)
    && (forall i :: 0 <= i < |d| ==> cursor < d[i].sequence <= last)
  }

  lemma BetweenEmpty(cursor: nat)
    ensures Between([], cursor, cursor)
  {}

  lemma BetweenConcat(d: seq<Event>, cursor: nat, middle: nat, history: seq<Event>, first: nat)
    requires Between(d, cursor, middle) && cursor <= middle <= first <= |history| && Numbered(history)
    ensures Between(d + history[first..], cursor, |history|)
  {
    var tail := history[first..];
    assert forall i :: 0 <= i < |tail| ==> tail[i].sequence == first + i + 1;
  }

  /** One read from a cursor within the history delivers or counts everything after the cursor. */
  lemma ReadAccounts(history: seq<Event>, from: nat)
    requires from <= |history|
    ensures from <= ReadStart(history, from) <= |history|
    ensures ReadEvents(history, from) == history[ReadStart(history, from)..]
    ensures |ReadEvents(history, from)| + ReadMissed(history, from) == |history| - from
  {}

  /**
   * Chained reads deliver or count every event after the starting cursor once: the delivered and
   * missed counts add up, and the delivered sequences are distinct and increasing.
   */
  lemma {:induction false} ReadsAccount(histories: seq<seq<Event>>, cursor: nat)
    requires Grows(histories) && (histories != [] ==> cursor <= |histories[0]|)
    requires forall i :: 0 <= i < |histories| ==> Numbered(histories[i])
    ensures cursor <= ChainCursor(histories, cursor)
    ensures |Delivered(histories, cursor)| + Missed(histories, cursor) == ChainCursor(histories, cursor) - cursor
    ensures Between(Delivered(histories, cursor), cursor, ChainCursor(histories, cursor))
  {
    hide Between, Numbered, ReadEvents, ReadMissed, ReadStart;
    if histories == [] {
      BetweenEmpty(cursor);
    } else {
      var n := |histories| - 1;
      var before, history := histories[..n], histories[n];
      ReadsAccount(before, cursor);
      var middle := ChainCursor(before, cursor);
      assert n > 0 ==> before[n - 1] == histories[n - 1] && histories[n - 1] <= histories[n];
      ReadAccounts(history, middle);
      BetweenConcat(Delivered(before, cursor), cursor, middle, history, ReadStart(history, middle));
    }
  }
}
