/** The 32-row incident history, which never evicts an unstaged operator incident. */
module Incidents {
  import opened HostTypes

  const INCIDENT_CAPACITY: nat := 32

  datatype IncidentStatus = Received | Queued | EncodeFailed | FrameRefused | Staged | Canceled

  /** One retained incident and its transport state; sequence zero marks a free row. */
  datatype IncidentRecord = IncidentRecord(
    binding: Binding, incident: nat, sequence: nat, revision: nat, attempts: nat,
    transportStages: nat, status: IncidentStatus, outbound: bool)

  const FREE_RECORD: IncidentRecord :=
    IncidentRecord(Binding(0, 0), 0, 0, 0, 0, 0, Received, false)

  predicate Evictable(r: IncidentRecord) {
    !r.outbound || r.transportStages != 0 || r.status == Canceled
  }

  /** The retained outbound row of one revision. */
  predicate Names(r: IncidentRecord, b: Binding, revision: nat) {
    r.sequence != 0 && r.outbound && r.revision == revision && r.binding == b
  }

  predicate Outbound(r: IncidentRecord) { r.sequence != 0 && r.outbound }

  /** A committed operator incident that has neither staged nor been canceled. */
  predicate Unstaged(r: IncidentRecord, b: Binding, revision: nat) {
    Names(r, b, revision) && r.transportStages == 0 && r.status != Canceled
  }

  ghost predicate Retained(records: seq<IncidentRecord>, b: Binding, revision: nat) {
    exists i :: 0 <= i < |records| && Unstaged(records[i], b, revision)
  }

  /** No two retained rows name the same revision of the same binding. */
  ghost predicate OneRowEach(records: seq<IncidentRecord>) {
    forall i, j :: 0 <= i < j < |records| && Outbound(records[i]) && Outbound(records[j]) ==>
                     records[i].binding != records[j].binding || records[i].revision != records[j].revision
  }

  /** Row `at` is the one a reservation takes: the first free one, else the oldest evictable one. */
  predicate Reserved(records: seq<IncidentRecord>, at: nat) {
    && at < |records|
    && if records[at].sequence == 0 then forall i :: 0 <= i < at ==> records[i].sequence != 0
       else
         && Evictable(records[at]) && (forall i :: 0 <= i < |records| ==> records[i].sequence != 0)
         && forall i :: 0 <= i < |records| && Evictable(records[i]) ==> records[at].sequence <= records[i].sequence
  }

  lemma ReservedFree(records: seq<IncidentRecord>, at: nat)
    requires Reserved(records, at)
    ensures at < |records| && (records[at].sequence == 0 || Evictable(records[at]))
  {}

  class IncidentHistory {
    var records: seq<IncidentRecord>
    var dropped: nat
    var refused: nat
    var overwritten: nat

    ghost predicate Valid()
      reads this
    {
      |records| == INCIDENT_CAPACITY && OneRowEach(records)
    }

    constructor ()
      ensures Valid() && forall i :: 0 <= i < |records| ==> records[i] == FREE_RECORD
    {
      records := seq(INCIDENT_CAPACITY, _ => FREE_RECORD);
      dropped, refused, overwritten := 0, 0, 0;
    }

    /**
     * Reserves a row: the first free one, else the oldest evictable one. A reservation fails only
     * when every row holds an unstaged operator incident.
     */
    method Reserve() returns (reserved: nat)
      requires |records| == INCIDENT_CAPACITY
      modifies this`overwritten
      ensures reserved <= INCIDENT_CAPACITY
      ensures reserved < INCIDENT_CAPACITY ==> Reserved(records, reserved)
      ensures reserved == INCIDENT_CAPACITY <==>
                forall i :: 0 <= i < |records| ==> records[i].sequence != 0 && !Evictable(records[i])
      ensures overwritten == old(overwritten) +
                if reserved < INCIDENT_CAPACITY && records[reserved].sequence != 0 then 1 else 0
    {
      reserved := INCIDENT_CAPACITY;
      for index := 0 to INCIDENT_CAPACITY
        invariant forall i :: 0 <= i < index ==> records[i].sequence != 0
        invariant reserved == INCIDENT_CAPACITY || reserved < index
        invariant reserved == INCIDENT_CAPACITY ==> forall i :: 0 <= i < index ==> !Evictable(records[i])
        invariant reserved < index ==> Evictable(records[reserved])
        invariant reserved < index ==>
                    forall i :: 0 <= i < index && Evictable(records[i]) ==>
                                  records[reserved].sequence <= records[i].sequence
        invariant overwritten == old(overwritten)
      {
        if records[index].sequence == 0 {
          return index;
        }
        if Evictable(records[index])
           && (reserved == INCIDENT_CAPACITY || records[index].sequence < records[reserved].sequence) {
          reserved := index;
        }
      }
      if reserved != INCIDENT_CAPACITY {
        overwritten := overwritten + 1;
      }
    }

    /** The first retained row of one outbound revision, or the capacity when there is none. */
    method Find(b: Binding, revision: nat) returns (found: nat)
      requires |records| == INCIDENT_CAPACITY
      ensures found <= INCIDENT_CAPACITY
      ensures found < INCIDENT_CAPACITY ==> Names(records[found], b, revision)
      ensures found == INCIDENT_CAPACITY ==> forall i :: 0 <= i < |records| ==> !Names(records[i], b, revision)
    {
      found := 0;
      while found < INCIDENT_CAPACITY && !Names(records[found], b, revision)
        invariant found <= INCIDENT_CAPACITY
        invariant forall i :: 0 <= i < found ==> !Names(records[i], b, revision)
      {
        found := found + 1;
      }
    }

    method Reset()
      modifies this
      ensures Valid() && forall i :: 0 <= i < |records| ==> records[i] == FREE_RECORD
    {
      records := seq(INCIDENT_CAPACITY, _ => FREE_RECORD);
      dropped, refused, overwritten := 0, 0, 0;
    }
  }

  // ---- what a change of one row keeps ------------------------------------------------------

  /** The row found for an unstaged revision is that unstaged row. */
  lemma FoundIsRetained(records: seq<IncidentRecord>, b: Binding, revision: nat, found: nat)
    requires OneRowEach(records) && Retained(records, b, revision)
    requires found < |records| && Names(records[found], b, revision)
    ensures Unstaged(records[found], b, revision)
  {
    var i :| 0 <= i < |records| && Unstaged(records[i], b, revision);
  }

  /** Overwriting a row that is free or evictable loses no unstaged operator incident. */
  lemma OverwriteKeeps(records: seq<IncidentRecord>, at: nat, r: IncidentRecord, b: Binding, revision: nat)
    requires at < |records| && (records[at].sequence == 0 || Evictable(records[at]))
    requires Retained(records, b, revision)
    ensures Retained(records[at := r], b, revision)
  {
    var i :| 0 <= i < |records| && Unstaged(records[i], b, revision);
    assert records[at := r][i] == records[i];
  }

  /** Changing the status of one binding's row leaves every other binding's rows retained. */
  lemma OtherKeeps(records: seq<IncidentRecord>, at: nat, r: IncidentRecord, b: Binding, revision: nat)
    requires at < |records| && (records[at].binding != b || records[at].revision != revision)
    requires Retained(records, b, revision)
    ensures Retained(records[at := r], b, revision)
  {
    var i :| 0 <= i < |records| && Unstaged(records[i], b, revision);
    assert records[at := r][i] == records[i];
  }
}
