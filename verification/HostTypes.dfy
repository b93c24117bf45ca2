/** The records the Activity Host units share. */
module HostTypes {
  const MAX_COUNTER: nat := 0xFFFF_FFFF_FFFF_FFFF

  /** Exact generation of one committed activity session. */
  datatype Binding = Binding(sessionId: nat, createdRevision: nat)

  datatype EventKind =
    | SenseUpdate | ClientStateChanged | ClientMessageReceived | EntitySlotsRequested | IncidentReceived
    | AuthStateCommitted | AuthStateTransportStaged | AuthStateCanceled
    | IncidentQueued | IncidentTransportStaged | IncidentCanceled | IncidentRefused
    | ScriptableOverrideCommitted | ScriptableOverrideTransportStaged | ScriptableOverrideCanceled
    | OperatorRefused

  /** One row of the event history; a field a kind does not use is zero. */
  datatype Event = Event(
    binding: Binding, kind: EventKind, tick: nat, sequence: nat, missionSequence: nat,
    stateRevision: nat, incidentRevision: nat, scriptableRevision: nat, lifetimeState: nat,
    sourceGeneration: nat, payload: nat)

  function BlankEvent(binding: Binding, kind: EventKind, tick: nat): Event {
    Event(binding, kind, tick, 0, 0, 0, 0, 0, 0, 0, 0)
  }

  /** Kinds that enter the ordered mission-input feed. */
  predicate MissionKind(kind: EventKind) {
    kind == SenseUpdate || kind == IncidentReceived || kind == ClientStateChanged
    || kind == EntitySlotsRequested || kind == ClientMessageReceived
  }
}
