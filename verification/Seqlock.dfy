/**
 * The published player position: writers and readers of one seqlock, as micro-steps that may
 * interleave in any order. Each step is one shared load, one shared store or one sequence bump.
 */
module Seqlock {
  import opened Wrappers

  const SEQUENCE_LIMIT: nat := 0x1_0000_0000

  datatype Vector = Vector(x: int, y: int, z: int)

  /** A publishing thread: idle, between its two bumps with some words stored, or past both. */
  datatype Writer =
    | Idle
    | Storing(position: Vector, stored: nat)
    | Published

  /**
   * A reading thread. Within an attempt it holds the sequence it read, and the words read so far;
   * loadedAt is the number of bumps when the sequence was read.
   */
  datatype Reader =
    | Start
    | Attempt
    | Reading(before: nat, loadedAt: nat, taken: Vector, count: nat)
    | Done(result: Option<Vector>, loadedAt: nat)

  datatype State = State(
    bumps: nat, position: Vector, present: bool, published: seq<Vector>,
    writers: seq<Writer>, readers: seq<Reader>)

  datatype Step =
    | Bump(w: nat, v: Vector)
    | StoreWord(w: nat)
    | BumpAgain(w: nat)
    | SetPresent(w: nat)
    | Drop
    | LoadPresent(r: nat)
    | LoadSequence(r: nat)
    | LoadWord(r: nat)
    | CheckSequence(r: nat)
    | Return(r: nat)

  /** The sequence word: the bumps so far, in 32 bits. */
  function Sequence(s: State): nat {
    s.bumps % SEQUENCE_LIMIT
  }

  /** One vector with its word n taken from another. */
  function WithWord(into: Vector, from: Vector, n: nat): Vector {
    if n == 0 then into.(x := from.x) else if n == 1 then into.(y := from.y) else into.(z := from.z)
  }

  ghost predicate Init(s: State) {
    && s.bumps == 0 && s.position == Vector(0, 0, 0) && !s.present && s.published == []
    && (forall w :: 0 <= w < |s.writers| ==> s.writers[w] == Idle)
    && (forall r :: 0 <= r < |s.readers| ==> s.readers[r] == Start)
  }

  predicate Enabled(s: State, step: Step) {
    match step
    case Bump(w, _) => w < |s.writers| && s.writers[w] == Idle
    case StoreWord(w) => w < |s.writers| && s.writers[w].Storing? && s.writers[w].stored < 3
    case BumpAgain(w) => w < |s.writers| && s.writers[w].Storing? && s.writers[w].stored == 3
    case SetPresent(w) => w < |s.writers| && s.writers[w] == Published
    case Drop => true
    case LoadPresent(r) => r < |s.readers| && s.readers[r] == Start
    case LoadSequence(r) => r < |s.readers| && s.readers[r] == Attempt
    case LoadWord(r) => r < |s.readers| && s.readers[r].Reading? && s.readers[r].count < 3
    case CheckSequence(r) => r < |s.readers| && s.readers[r].Reading? && s.readers[r].count == 3
    case Return(r) => r < |s.readers| && s.readers[r].Done?
  }

  function Next(s: State, step: Step): State
    requires Enabled(s, step)
  {
    match step
    case Bump(w, v) => s.(bumps := s.bumps + 1, writers := s.writers[w := Storing(v, 0)])
    case StoreWord(w) =>
      var pc := s.writers[w];
      s.(position := WithWord(s.position, pc.position, pc.stored),
         writers := s.writers[w := pc.(stored := pc.stored + 1)])
    case BumpAgain(w) =>
      s.(bumps := s.bumps + 1, published := s.published + [s.writers[w].position],
         writers := s.writers[w := Published])
    case SetPresent(w) => s.(present := true, writers := s.writers[w := Idle])
    case Drop => s.(present := false)
    case LoadPresent(r) =>
      s.(readers := s.readers[r := if s.present then Attempt else Done(None, s.bumps)])
    case LoadSequence(r) =>
      if Sequence(s) % 2 == 1 then s
      else s.(readers := s.readers[r := Reading(Sequence(s), s.bumps, Vector(0, 0, 0), 0)])
    case LoadWord(r) =>
      var pc := s.readers[r];
      s.(readers := s.readers[r := pc.(taken := WithWord(pc.taken, s.position, pc.count), count := pc.count + 1)])
    case CheckSequence(r) =>
      var pc := s.readers[r];
      s.(readers := s.readers[r := if Sequence(s) == pc.before then Done(Some(pc.taken), pc.loadedAt) else Attempt])
    case Return(r) => s.(readers := s.readers[r := Start])
  }

  /** A run of the machine from its initial state. */
  ghost predicate Run(states: seq<State>, steps: seq<Step>) {
    && |states| == |steps| + 1 && Init(states[0])
    && forall k :: 0 <= k < |steps| ==> Enabled(states[k], steps[k]) && states[k + 1] == Next(states[k], steps[k])
  }

  /** At most one writer is between its two bumps. */
  ghost predicate OneWriter(s: State) {
    forall a, b :: 0 <= a < b < |s.writers| ==> !(s.writers[a].Storing? && s.writers[b].Storing?)
  }

  /** No read outlives 2^32 bumps. */
  ghost predicate NoWrap(s: State) {
    forall r :: 0 <= r < |s.readers| && s.readers[r].Reading? ==> s.bumps < s.readers[r].loadedAt + SEQUENCE_LIMIT
  }

  // ---- the invariant -----------------------------------------------------------------------

  function LastPublished(s: State): Vector {
    if s.published == [] then Vector(0, 0, 0) else s.published[|s.published| - 1]
  }

  /** The first n words of one vector, then the words of another. */
  function Mixed(v: Vector, n: nat, old_: Vector): Vector {
    Vector(if n > 0 then v.x else old_.x, if n > 1 then v.y else old_.y, if n > 2 then v.z else old_.z)
  }

  /** Writers account for the bumps, and the memory is the last vector overwritten in part. */
  ghost predicate WritersOk(s: State) {
    && (s.present ==> s.published != [])
    && (forall w :: 0 <= w < |s.writers| && s.writers[w] == Published ==> s.published != [])
    && (forall w :: 0 <= w < |s.writers| && s.writers[w].Storing? ==>
          && s.writers[w].stored <= 3 && s.bumps == 2 * |s.published| + 1
          && s.position == Mixed(s.writers[w].position, s.writers[w].stored, LastPublished(s)))
    && ((forall w :: 0 <= w < |s.writers| ==> !s.writers[w].Storing?) ==>
          s.bumps == 2 * |s.published| && s.position == LastPublished(s))
  }

  /** The vector that was current when one sequence was loaded. */
  function Current(s: State, loadedAt: nat): Vector
    requires 2 <= loadedAt <= 2 * |s.published| + 1
  {
    s.published[loadedAt / 2 - 1]
  }

  /**
   * An attempt that no bump has interrupted has read words of the vector that was current when it
   * loaded the sequence; a finished read has all of them.
   */
  ghost predicate ReaderOk(s: State, pc: Reader) {
    match pc
    case Start => true
    case Attempt => s.published != []
    case Reading(before, loadedAt, taken, count) =>
      && count <= 3 && 2 <= loadedAt <= s.bumps && loadedAt % 2 == 0 && loadedAt <= 2 * |s.published|
      && before == loadedAt % SEQUENCE_LIMIT
      && (s.bumps == loadedAt ==> taken == Mixed(Current(s, loadedAt), count, Vector(0, 0, 0)))
    case Done(Some(v), loadedAt) =>
      2 <= loadedAt <= 2 * |s.published| && loadedAt % 2 == 0 && v == Current(s, loadedAt)
    case Done(None, _) => true
  }

  ghost predicate Inv(s: State) {
    WritersOk(s) && forall r :: 0 <= r < |s.readers| ==> ReaderOk(s, s.readers[r])
  }

  /** With no one storing, the position is the last published vector and the bumps are even. */
  lemma QuietMemory(s: State)
    requires WritersOk(s) && s.bumps % 2 == 0
    ensures s.bumps == 2 * |s.published| && s.position == LastPublished(s)
    ensures forall w :: 0 <= w < |s.writers| ==> !s.writers[w].Storing?
  {
    forall w | 0 <= w < |s.writers|
      ensures !s.writers[w].Storing?
    {
      assert s.writers[w].Storing? ==> s.bumps == 2 * |s.published| + 1;
    }
  }

  lemma BumpKeeps(s: State, w: nat, v: Vector)
    requires WritersOk(s) && OneWriter(s) && Enabled(s, Bump(w, v)) && OneWriter(Next(s, Bump(w, v)))
    ensures WritersOk(Next(s, Bump(w, v)))
  {
    var after := Next(s, Bump(w, v));
    assert after.writers[w].Storing?;
    assert forall u :: 0 <= u < |s.writers| && u != w ==> after.writers[u] == s.writers[u];
    assert forall u :: 0 <= u < |s.writers| ==> !s.writers[u].Storing?;
  }

  lemma StoreKeeps(s: State, w: nat)
    requires WritersOk(s) && OneWriter(s) && Enabled(s, StoreWord(w)) && OneWriter(Next(s, StoreWord(w)))
    ensures WritersOk(Next(s, StoreWord(w)))
  {
    var after := Next(s, StoreWord(w));
    assert forall u :: 0 <= u < |s.writers| && u != w ==> after.writers[u] == s.writers[u] && !s.writers[u].Storing?;
    assert after.writers[w].Storing?;
  }

  lemma BumpAgainKeeps(s: State, w: nat)
    requires WritersOk(s) && OneWriter(s) && Enabled(s, BumpAgain(w)) && OneWriter(Next(s, BumpAgain(w)))
    ensures WritersOk(Next(s, BumpAgain(w)))
  {
    var after := Next(s, BumpAgain(w));
    assert s.writers[w].Storing?;
    assert forall u :: 0 <= u < |s.writers| && u != w ==> after.writers[u] == s.writers[u] && !s.writers[u].Storing?;
    assert Mixed(s.writers[w].position, 3, LastPublished(s)) == s.writers[w].position;
  }

  lemma SetPresentKeeps(s: State, w: nat)
    requires WritersOk(s) && OneWriter(s) && Enabled(s, SetPresent(w)) && OneWriter(Next(s, SetPresent(w)))
    ensures WritersOk(Next(s, SetPresent(w)))
  {
    var after := Next(s, SetPresent(w));
    assert s.writers[w] == Published;
    assert forall u :: 0 <= u < |s.writers| && u != w ==> after.writers[u] == s.writers[u];
    assert !after.writers[w].Storing? && !s.writers[w].Storing?;
  }

  lemma WriterStep(s: State, step: Step)
    requires WritersOk(s) && OneWriter(s) && Enabled(s, step) && OneWriter(Next(s, step))
    ensures WritersOk(Next(s, step))
  {
    match step
    case Bump(w, v) => BumpKeeps(s, w, v);
    case StoreWord(w) => StoreKeeps(s, w);
    case BumpAgain(w) => BumpAgainKeeps(s, w);
    case SetPresent(w) => SetPresentKeeps(s, w);
    case _ => QuietKeeps(s, step);
  }

  lemma QuietKeeps(s: State, step: Step)
    requires WritersOk(s) && Enabled(s, step)
    requires !step.Bump? && !step.StoreWord? && !step.BumpAgain? && !step.SetPresent?
    ensures WritersOk(Next(s, step))
  {
    var after := Next(s, step);
    assert after.writers == s.writers && after.position == s.position && after.published == s.published;
    assert after.bumps == s.bumps;
  }

  /** A reader that does not move stays right: bumps and published vectors only grow. */
  lemma ReaderKept(s: State, step: Step, pc: Reader)
    requires WritersOk(s) && Enabled(s, step) && ReaderOk(s, pc)
    requires s.bumps <= Next(s, step).bumps && s.published <= Next(s, step).published
    requires Next(s, step).bumps == s.bumps ==> Next(s, step).published == s.published
    ensures ReaderOk(Next(s, step), pc)
  {
    var after := Next(s, step);
    assert forall k :: 0 <= k < |s.published| ==> after.published[k] == s.published[k];
  }

  lemma Grows(s: State, step: Step)
    requires Enabled(s, step)
    ensures s.bumps <= Next(s, step).bumps && s.published <= Next(s, step).published
    ensures Next(s, step).bumps == s.bumps ==> Next(s, step).published == s.published
  {}

  /** The reader that moves stays right as well. */
  lemma ReaderMoved(s: State, step: Step, r: nat)
    requires WritersOk(s) && NoWrap(s) && Enabled(s, step) && r < |s.readers| && ReaderOk(s, s.readers[r])
    requires step == LoadPresent(r) || step == LoadSequence(r) || step == LoadWord(r) || step == CheckSequence(r) || step == Return(r)
    ensures ReaderOk(Next(s, step), Next(s, step).readers[r])
  {
    match step
    case LoadSequence(_) =>
      EvenSequence(s.bumps);
      if Sequence(s) % 2 == 0 {
        QuietMemory(s);
      }
    case LoadWord(_) =>
      if s.bumps == s.readers[r].loadedAt {
        QuietMemory(s);
      }
    case CheckSequence(_) =>
      SameSequence(s.readers[r].loadedAt, s.bumps);
    case _ =>
  }

  lemma EvenSequence(bumps: nat)
    ensures bumps % SEQUENCE_LIMIT % 2 == bumps % 2
  {
    assert bumps == bumps / SEQUENCE_LIMIT * SEQUENCE_LIMIT + bumps % SEQUENCE_LIMIT;
  }

  /** Within 2^32 bumps an equal sequence means no bump at all. */
  lemma SameSequence(loadedAt: nat, bumps: nat)
    requires loadedAt <= bumps < loadedAt + SEQUENCE_LIMIT
    ensures bumps % SEQUENCE_LIMIT == loadedAt % SEQUENCE_LIMIT ==> bumps == loadedAt
  {
    if bumps % SEQUENCE_LIMIT == loadedAt % SEQUENCE_LIMIT {
      assert bumps - loadedAt == (bumps / SEQUENCE_LIMIT - loadedAt / SEQUENCE_LIMIT) * SEQUENCE_LIMIT;
    }
  }

  lemma InvStep(s: State, step: Step)
    requires Inv(s) && OneWriter(s) && NoWrap(s) && Enabled(s, step) && OneWriter(Next(s, step))
    ensures Inv(Next(s, step))
  {
    WriterStep(s, step);
    Grows(s, step);
    var after := Next(s, step);
    hide WritersOk, ReaderOk, OneWriter, NoWrap;
    forall r | 0 <= r < |after.readers|
      ensures ReaderOk(after, after.readers[r])
    {
      assert ReaderOk(s, s.readers[r]);
      if step == LoadPresent(r) || step == LoadSequence(r) || step == LoadWord(r) || step == CheckSequence(r) || step == Return(r) {
        ReaderMoved(s, step, r);
      } else {
        ReaderKept(s, step, s.readers[r]);
        assert after.readers[r] == s.readers[r];
      }
    }
  }

  lemma {:induction false} InvAlways(states: seq<State>, steps: seq<Step>, k: nat)
    requires Run(states, steps) && k < |states|
    requires forall i :: 0 <= i < |states| ==> OneWriter(states[i]) && NoWrap(states[i])
    ensures Inv(states[k])
  {
    if k > 0 {
      InvAlways(states, steps, k - 1);
      InvStep(states[k - 1], steps[k - 1]);
    }
  }

  /**
   * Reads are never torn: in every run with at most one writer between its bumps and no read across
   * 2^32 bumps, every vector a reader returns is one whole published vector, the one that was
   * current when that read loaded the sequence.
   */
  lemma NeverTorn(states: seq<State>, steps: seq<Step>, k: nat, r: nat)
    requires Run(states, steps) && k < |states| && r < |states[k].readers|
    requires forall i :: 0 <= i < |states| ==> OneWriter(states[i]) && NoWrap(states[i])
    requires states[k].readers[r].Done? && states[k].readers[r].result.Some?
    ensures var s := states[k];
            && 2 <= s.readers[r].loadedAt <= 2 * |s.published|
            && s.readers[r].result.value == s.published[s.readers[r].loadedAt / 2 - 1]
            && s.readers[r].result.value in s.published
  {
    InvAlways(states, steps, k);
    assert ReaderOk(states[k], states[k].readers[r]);
  }

  // ---- when a read takes place -------------------------------------------------------------

  /** A reader that holds a loaded sequence, or returned what it read under one. */
  predicate Loaded(pc: Reader) { pc.Reading? || (pc.Done? && pc.result.Some?) }

  /** Only loading the sequence makes a reader hold one. */
  lemma LoadedStep(s: State, step: Step, r: nat)
    requires Enabled(s, step) && r < |Next(s, step).readers| && Loaded(Next(s, step).readers[r])
    ensures r < |s.readers| && step != LoadPresent(r)
    ensures if step == LoadSequence(r) then Next(s, step).readers[r].loadedAt == s.bumps && Sequence(s) % 2 == 0
            else Loaded(s.readers[r]) && s.readers[r].loadedAt == Next(s, step).readers[r].loadedAt
  {
    hide WithWord;
  }

  /** A reading or finished attempt loaded its sequence at one step of the run. */
  lemma {:induction false} SequenceLoaded(states: seq<State>, steps: seq<Step>, k: nat, r: nat) returns (j: nat)
    requires Run(states, steps) && k < |states| && r < |states[k].readers| && Loaded(states[k].readers[r])
    ensures j < k && steps[j] == LoadSequence(r)
    ensures states[j].bumps == states[k].readers[r].loadedAt && Sequence(states[j]) % 2 == 0
    ensures forall i :: j < i < k ==> steps[i] != LoadSequence(r) && steps[i] != LoadPresent(r)
  {
    hide Next, Sequence;
    if k > 0 {
      assert Enabled(states[k - 1], steps[k - 1]) && states[k] == Next(states[k - 1], steps[k - 1]);
      LoadedStep(states[k - 1], steps[k - 1], r);
      if steps[k - 1] == LoadSequence(r) {
        j := k - 1;
      } else {
        j := SequenceLoaded(states, steps, k - 1, r);
      }
    }
  }

  lemma {:induction false} PublishedGrows(states: seq<State>, steps: seq<Step>, j: nat, k: nat)
    requires Run(states, steps) && j <= k < |states|
    ensures states[j].published <= states[k].published
  {
    if j < k {
      PublishedGrows(states, steps, j, k - 1);
      assert Enabled(states[k - 1], steps[k - 1]) && states[k] == Next(states[k - 1], steps[k - 1]);
    }
  }

  /** A read takes place at once, when it loads the sequence: it returns what memory holds whole just then. */
  lemma ReadsAtOnce(states: seq<State>, steps: seq<Step>, k: nat, r: nat) returns (j: nat)
    requires Run(states, steps) && k < |states| && r < |states[k].readers|
    requires forall i :: 0 <= i < |states| ==> OneWriter(states[i]) && NoWrap(states[i])
    requires states[k].readers[r].Done? && states[k].readers[r].result.Some?
    ensures j < k && steps[j] == LoadSequence(r)
    ensures states[j].published != [] && states[k].readers[r].result.value == LastPublished(states[j]) == states[j].position
    ensures forall w :: 0 <= w < |states[j].writers| ==> !states[j].writers[w].Storing?
  {
    NeverTorn(states, steps, k, r);
    j := SequenceLoaded(states, steps, k, r);
    InvAlways(states, steps, j);
    QuietMemory(states[j]);
    PublishedGrows(states, steps, j, k);
  }

  /** A read returns nothing only when it found that no position was present. */
  lemma {:induction false} NothingOnlyAbsent(states: seq<State>, steps: seq<Step>, k: nat, r: nat) returns (j: nat)
    requires Run(states, steps) && k < |states| && r < |states[k].readers|
    requires states[k].readers[r].Done? && states[k].readers[r].result.None?
    ensures j < k && steps[j] == LoadPresent(r) && !states[j].present
    ensures forall i :: j < i <= k ==> r < |states[i].readers| && states[i].readers[r] == states[k].readers[r]
  {
    if k > 0 {
      assert Enabled(states[k - 1], steps[k - 1]) && states[k] == Next(states[k - 1], steps[k - 1]);
      if states[k - 1].readers[r] == states[k].readers[r] {
        j := NothingOnlyAbsent(states, steps, k - 1, r);
      } else {
        j := k - 1;
      }
    }
  }

  // ---- why one writer ----------------------------------------------------------------------

  function Execute(s: State, steps: seq<Step>): Option<State>
    decreases |steps|
  {
    if steps == [] then Some(s)
    else if !Enabled(s, steps[0]) then None
    else Execute(Next(s, steps[0]), steps[1..])
  }

  const ONES := Vector(1, 1, 1)
  const TWOS := Vector(2, 2, 2)
  const THREES := Vector(3, 3, 3)

  const EMPTY := State(0, Vector(0, 0, 0), false, [], [Idle, Idle], [Start])
  const CALM := State(2, ONES, true, [ONES], [Idle, Idle], [Start])
  const OVERLAPPED := State(4, Vector(2, 1, 1), true, [ONES], [Storing(TWOS, 1), Storing(THREES, 0)], [Attempt])
  const TORN := OVERLAPPED.(readers := [Done(Some(Vector(2, 1, 1)), 4)])

  const PUBLISH_ONES := [Bump(0, ONES), StoreWord(0), StoreWord(0), StoreWord(0), BumpAgain(0), SetPresent(0)]
  const OVERLAP := [LoadPresent(0), Bump(0, TWOS), Bump(1, THREES), StoreWord(0)]
  const READ := [LoadSequence(0), LoadWord(0), LoadWord(0), LoadWord(0), CheckSequence(0)]

  /**
   * Two writers that overlap between their bumps leave an even sequence over a half-written vector:
   * a reader in that window returns a vector nobody published.
   */
  lemma OverlappingWritersTear()
    ensures Init(EMPTY) && Execute(EMPTY, PUBLISH_ONES) == Some(CALM)
    ensures Execute(CALM, OVERLAP) == Some(OVERLAPPED) && !OneWriter(OVERLAPPED) && NoWrap(OVERLAPPED)
    ensures Execute(OVERLAPPED, READ) == Some(TORN) && NoWrap(TORN)
    ensures TORN.readers[0].result.value !in TORN.published + [TWOS, THREES]
  {
    ExecutePublish();
    ExecuteOverlap();
    ExecuteRead();
    assert OVERLAPPED.writers[0].Storing? && OVERLAPPED.writers[1].Storing?;
  }

  lemma ExecutePublish()
    ensures Execute(EMPTY, PUBLISH_ONES) == Some(CALM)
  {
    ExecuteCons(EMPTY, Bump(0, ONES), [StoreWord(0), StoreWord(0), StoreWord(0), BumpAgain(0), SetPresent(0)]);
    var s1 := Next(EMPTY, Bump(0, ONES));
    ExecuteCons(s1, StoreWord(0), [StoreWord(0), StoreWord(0), BumpAgain(0), SetPresent(0)]);
    var s2 := Next(s1, StoreWord(0));
    ExecuteCons(s2, StoreWord(0), [StoreWord(0), BumpAgain(0), SetPresent(0)]);
    var s3 := Next(s2, StoreWord(0));
    ExecuteCons(s3, StoreWord(0), [BumpAgain(0), SetPresent(0)]);
    var s4 := Next(s3, StoreWord(0));
    ExecuteCons(s4, BumpAgain(0), [SetPresent(0)]);
    var s5 := Next(s4, BumpAgain(0));
    ExecuteCons(s5, SetPresent(0), []);
    assert Next(s5, SetPresent(0)) == CALM;
  }

  lemma ExecuteOverlap()
    ensures Execute(CALM, OVERLAP) == Some(OVERLAPPED)
  {
    ExecuteCons(CALM, LoadPresent(0), [Bump(0, TWOS), Bump(1, THREES), StoreWord(0)]);
    var s1 := Next(CALM, LoadPresent(0));
    ExecuteCons(s1, Bump(0, TWOS), [Bump(1, THREES), StoreWord(0)]);
    var s2 := Next(s1, Bump(0, TWOS));
    ExecuteCons(s2, Bump(1, THREES), [StoreWord(0)]);
    var s3 := Next(s2, Bump(1, THREES));
    ExecuteCons(s3, StoreWord(0), []);
    assert Next(s3, StoreWord(0)) == OVERLAPPED;
  }

  lemma ExecuteRead()
    ensures Execute(OVERLAPPED, READ) == Some(TORN)
  {
    ExecuteCons(OVERLAPPED, LoadSequence(0), [LoadWord(0), LoadWord(0), LoadWord(0), CheckSequence(0)]);
    var s1 := OVERLAPPED.(readers := [Reading(4, 4, Vector(0, 0, 0), 0)]);
    assert Next(OVERLAPPED, LoadSequence(0)) == s1;
    ExecuteCons(s1, LoadWord(0), [LoadWord(0), LoadWord(0), CheckSequence(0)]);
    var s2 := s1.(readers := [Reading(4, 4, Vector(2, 0, 0), 1)]);
    assert Next(s1, LoadWord(0)) == s2;
    ExecuteCons(s2, LoadWord(0), [LoadWord(0), CheckSequence(0)]);
    var s3 := s2.(readers := [Reading(4, 4, Vector(2, 1, 0), 2)]);
    assert Next(s2, LoadWord(0)) == s3;
    ExecuteCons(s3, LoadWord(0), [CheckSequence(0)]);
    var s4 := s3.(readers := [Reading(4, 4, Vector(2, 1, 1), 3)]);
    assert Next(s3, LoadWord(0)) == s4;
    ExecuteCons(s4, CheckSequence(0), []);
    assert Next(s4, CheckSequence(0)) == TORN;
  }

  lemma ExecuteCons(s: State, step: Step, rest: seq<Step>)
    requires Enabled(s, step)
    ensures Execute(s, [step] + rest) == Execute(Next(s, step), rest)
    ensures rest == [] ==> Execute(s, [step]) == Some(Next(s, step))
  {
    assert ([step] + rest)[1..] == rest;
  }
}
