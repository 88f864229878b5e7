/**
 Whether deliveries work: numbered observations are applied in the order of their numbers, however late they
 arrive, and an alert that has not been sent yet is kept with the state it tells of.
 */
module DeliveryHealth {
  import opened Text

  datatype Status = Healthy | Degraded

  datatype AlertKind = Error | Recovery

  datatype Alert = Alert(kind: AlertKind, changedAt: nat, failureAt: nat, classification: string)

  /** A failure as far as it is kept. */
  datatype Failure = Failure(classification: string, hash: string)

  datatype State = State(
    status: Status, changedAt: nat, next: nat, last: nat, failure: Option<Failure>, pending: Option<Alert>)

  const PHP_INT_MAX: nat := 0x7FFF_FFFF_FFFF_FFFF

  const FAILURE_CLASSIFICATIONS: set<string> := {
    "invalid_payload", "invalid_parameter", "missing_parameter", "invalid_webhook_url", "rate_limited", "http_error",
    "transport_error",
    "forced_test_failure", "internal_error", "health_state_failure", "unknown"}

  /** The classifications a state may carry; older ones have one more. */
  predicate IsClassification(c: string) {
    c in FAILURE_CLASSIFICATIONS || c == "system_mail_suppressed"
  }

  predicate IsHash(s: string) { IsHex(s, 64) }

  /** What `readState` accepts. */
  predicate Accepted(s: State) {
    && s.last <= s.next
    && (s.failure.Some? <==> s.status == Degraded)
    && (s.failure.Some? ==> IsClassification(s.failure.value.classification) && IsHash(s.failure.value.hash))
    && (s.pending.Some? ==>
          var a := s.pending.value;
          && a.kind == (if s.status == Degraded then Error else Recovery)
          && a.changedAt == s.changedAt && a.failureAt <= a.changedAt && IsClassification(a.classification))
  }

  /** What is accepted makes sense: its failure, its alert and its numbers fit together. */
  lemma AcceptedMakesSense(s: State)
    requires Accepted(s)
    ensures s.last <= s.next
    ensures s.status == Degraded <==> s.failure.Some?
    ensures s.failure.Some? ==> |s.failure.value.hash| == 64 && forall c :: c in s.failure.value.hash ==> IsHexDigit(c)
    ensures s.failure.Some? ==> s.failure.value.classification in FAILURE_CLASSIFICATIONS + {"system_mail_suppressed"}
    ensures s.pending.Some? ==> (s.pending.value.kind == Error <==> s.status == Degraded)
    ensures s.pending.Some? ==> s.pending.value.failureAt <= s.pending.value.changedAt == s.changedAt
    ensures s.pending.Some? ==> s.pending.value.classification in FAILURE_CLASSIFICATIONS + {"system_mail_suppressed"}
  {
  }

  /** A state of an older version, whose failure was a suppressed mail, is still accepted. */
  lemma OlderIsAccepted(s: State, hash: string)
    requires s.last <= s.next && s.status == Degraded && s.pending.None? && IsHash(hash)
    requires s.failure == Some(Failure("system_mail_suppressed", hash))
    ensures Accepted(s)
  {
  }

  // ---------------------------------------------------------------- what was observed

  /** An observation that was applied; a success carries no failure. */
  datatype Observation = Observation(sequence: nat, failure: Option<Failure>, at: nat)

  function StatusOf(o: Observation): Status { if o.failure.None? then Healthy else Degraded }

  /** The outcome of the last observation. */
  function StatusAfter(applied: seq<Observation>): Status {
    if applied == [] then Healthy else StatusOf(applied[|applied| - 1])
  }

  function LastSequence(applied: seq<Observation>): nat {
    if applied == [] then 0 else applied[|applied| - 1].sequence
  }

  /** The alert the latest change of status calls for. */
  function LatestAlert(applied: seq<Observation>): Option<Alert> {
    if applied == [] then None
    else
      var earlier, o := applied[..|applied| - 1], applied[|applied| - 1];
      if StatusOf(o) == StatusAfter(earlier) then LatestAlert(earlier)
      else if o.failure.Some? then Some(Alert(Error, o.at, o.at, o.failure.value.classification))
      else
        var failed := LatestAlert(earlier);
        if failed.None? then None else Some(Alert(Recovery, o.at, failed.value.changedAt, failed.value.classification))
  }

  /** The failure of the latest change for the worse. */
  function LatestFailure(applied: seq<Observation>): Option<Failure> {
    if applied == [] then None
    else
      var earlier, o := applied[..|applied| - 1], applied[|applied| - 1];
      if StatusOf(o) == StatusAfter(earlier) then LatestFailure(earlier) else o.failure
  }

  /** While deliveries fail, the latest change is the one for the worse. */
  lemma {:induction false} DegradedHasFailed(applied: seq<Observation>)
    ensures StatusAfter(applied) == Degraded ==>
              LatestAlert(applied).Some? && LatestAlert(applied).value.kind == Error && LatestFailure(applied).Some?
              && LatestAlert(applied).value.classification == LatestFailure(applied).value.classification
    ensures StatusAfter(applied) == Healthy ==> LatestFailure(applied).None?
    ensures LatestAlert(applied).Some? ==>
              (LatestAlert(applied).value.kind == Error <==> StatusAfter(applied) == Degraded)
  {
    if applied != [] {
      DegradedHasFailed(applied[..|applied| - 1]);
    }
  }

  predicate Ascending(applied: seq<Observation>) {
    forall i, j :: 0 <= i < j < |applied| ==> applied[i].sequence < applied[j].sequence
  }

  /** The stored state tells of the observations applied so far. */
  ghost predicate Tells(s: State, applied: seq<Observation>) {
    && Ascending(applied) && s.last == LastSequence(applied) <= s.next
    && s.status == StatusAfter(applied) && s.failure == LatestFailure(applied)
    && (s.pending.Some? ==> s.pending == LatestAlert(applied))
    && (LatestAlert(applied).Some? ==> s.changedAt == LatestAlert(applied).value.changedAt)
  }

  /** One more observation. */
  lemma Observed(applied: seq<Observation>, o: Observation)
    requires Ascending(applied) && LastSequence(applied) < o.sequence
    ensures var more := applied + [o];
            && Ascending(more) && LastSequence(more) == o.sequence && StatusAfter(more) == StatusOf(o)
            && (StatusOf(o) == StatusAfter(applied) ==>
              LatestAlert(more) == LatestAlert(applied) && LatestFailure(more) == LatestFailure(applied))
            && (StatusOf(o) != StatusAfter(applied) ==>
                  && LatestAlert(more).Some? && LatestFailure(more) == o.failure
                  && LatestAlert(more) == Some(
                       if o.failure.Some? then Alert(Error, o.at, o.at, o.failure.value.classification)
                       else
                         var failed := LatestAlert(applied).value;
                         Alert(Recovery, o.at, failed.changedAt, failed.classification)))
  {
    var more := applied + [o];
    assert more[..|applied|] == applied;
    DegradedHasFailed(applied);
  }

  // ---------------------------------------------------------------- the stored state

  datatype Mail = TakesAll | TakesNothing | TakesSome

  class Monitor {
    /** `hash('sha256', …)` of what is not a hash already. */
    const sha256: string -> string

    var stored: Option<State>
    ghost var applied: seq<Observation>
    /** The alerts that were handed to sendmail. */
    ghost var sent: seq<Alert>
    /** Whether every write of the state is carried out, and what sendmail takes. */
    var calm: bool
    var mail: Mail

    ghost predicate Valid()
      reads this
    {
      && (forall s :: IsHash(sha256(s)))
      && (stored.None? ==> applied == [])
      && (stored.Some? ==> Tells(stored.value, applied))
    }

    /** How many numbers were given out. */
    function Given(): nat
      reads this`stored
    {
      if stored.Some? then stored.value.next else 0
    }

    /** The next read is not refused. */
    ghost predicate Readable()
      reads this`stored
    {
      stored.Some? ==> Accepted(stored.value)
    }

    constructor (sha256: string -> string)
      requires forall s :: IsHash(sha256(s))
      ensures Valid() && Readable() && stored == None && applied == [] && sent == [] && calm && mail == TakesSome
    {
      this.sha256, stored, applied, sent, calm, mail := sha256, None, [], [], true, TakesSome;
    }

    /** `writeState`: an atomic replacement that may fail. */
    method Write(s: State) returns (ok: bool)
      modifies this`stored
      ensures stored == if ok then Some(s) else old(stored)
      ensures calm ==> ok
    {
      ok := *;
      ok := ok || calm;
      if ok {
        stored := Some(s);
      }
    }

    /** The time of the state is that of the call, or what it was. */
    ghost predicate Dated(before: Option<State>, now: nat)
      reads this`stored
    {
      stored.Some? ==>
        stored.value.changedAt == now || (before.Some? && stored.value.changedAt == before.value.changedAt)
    }

    /** `readState`: a state that is not there yet is created, one that is not accepted is refused. */
    method Read(now: nat) returns (s: Option<State>)
      requires Valid()
      modifies this`stored
      ensures Valid() && (old(Readable()) ==> Readable())
      ensures s.Some? ==> stored == s && Accepted(s.value) && (old(stored).Some? ==> stored == old(stored))
      ensures s.None? ==> stored == old(stored)
      ensures old(stored).None? && s.Some? ==> s == Some(State(Healthy, now, 0, 0, None, None))
      ensures old(stored).Some? ==> (s.None? <==> !Accepted(old(stored).value))
      ensures calm ==> (s.Some? <==> old(Readable()))
      ensures Dated(old(stored), now)
    {
      if stored.None? {
        var initial := State(Healthy, now, 0, 0, None, None);
        var ok := Write(initial);
        return if ok then Some(initial) else None;
      }
      return if Accepted(stored.value) then stored else None;
    }

    /** `reserveObservation`: the next number, greater than every one given out before. */
    method Reserve(now: nat) returns (sequence: Option<nat>)
      requires Valid()
      modifies this`stored
      ensures Valid() && (old(Readable()) ==> Readable())
      ensures sequence.Some? ==>
                stored.Some? && stored.value.next == sequence.value && 1 <= sequence.value <= PHP_INT_MAX
      ensures sequence.Some? && old(stored).Some? ==>
                stored == Some(old(stored).value.(next := old(stored).value.next + 1))
      ensures sequence.None? ==> stored == old(stored) || old(stored).None?
      ensures !old(Readable()) ==> sequence.None? && stored == old(stored)
      ensures sequence.Some? && old(stored).None? ==> stored == Some(State(Healthy, now, 1, 0, None, None))
      ensures Given() == old(Given()) + (if sequence.Some? then 1 else 0)
      ensures calm && old(Readable()) ==> stored.Some?
      ensures calm ==>
                (sequence.Some? <==> old(Readable()) && (old(stored).Some? ==> old(stored).value.next < PHP_INT_MAX))
      ensures Dated(old(stored), now)
    {
      var state := Read(now);
      if state.None? || state.value.next >= PHP_INT_MAX {
        return None;
      }
      var s := state.value.(next := state.value.next + 1);
      var ok := Write(s);
      return if ok then Some(s.next) else None;
    }

    /** `sendPendingAlert`: the alert is forgotten only once it was handed over and that is stored. */
    method SendPendingAlert(s: State)
      requires Valid() && stored == Some(s)
      modifies this`stored, this`sent
      ensures Valid() && (old(Readable()) ==> Readable())
      ensures stored == Some(s)
                || (stored == Some(s.(pending := None)) && s.pending.Some? && sent == old(sent) + [s.pending.value])
      ensures mail == TakesNothing ==> stored == Some(s) && sent == old(sent)
      ensures mail == TakesAll && s.pending.Some? ==> sent == old(sent) + [s.pending.value]
      ensures mail == TakesAll && calm ==> stored == Some(s.(pending := None))
      ensures sent == old(sent)
                || (s.pending.Some? && s.pending == LatestAlert(applied) && sent == old(sent) + [s.pending.value])
    {
      if s.pending.None? {
        return;
      }
      var handedOver: bool := *;
      if (!handedOver && mail != TakesAll) || mail == TakesNothing {
        return;
      }
      sent := sent + [s.pending.value];
      var stops: bool := *;
      if stops && !calm {
        return;
      }
      var ok := Write(s.(pending := None));
    }

    /** The state after an observation that changes the status. */
    function Changed(s: State, o: Observation): State {
      var alert :=
        if o.failure.Some? then Alert(Error, o.at, o.at, o.failure.value.classification)
        else Alert(Recovery, o.at, s.changedAt, if s.failure.Some? then s.failure.value.classification else "");
      State(StatusOf(o), o.at, s.next, o.sequence, o.failure, Some(alert))
    }

    lemma ChangedTells(s: State, o: Observation)
      requires Tells(s, applied) && s.last < o.sequence <= s.next && StatusOf(o) != s.status
      ensures Tells(Changed(s, o), applied + [o])
    {
      Observed(applied, o);
      DegradedHasFailed(applied);
    }

    lemma UnchangedTells(s: State, o: Observation)
      requires Tells(s, applied) && s.last < o.sequence <= s.next && StatusOf(o) == s.status
      ensures Tells(s.(last := o.sequence), applied + [o])
    {
      Observed(applied, o);
    }

    /**
     A change of status is accepted when it is read again exactly when the clock has not gone back since the last one.
     */
    lemma ChangedAccepted(s: State, o: Observation)
      requires Tells(s, applied) && Accepted(s) && s.last < o.sequence <= s.next && StatusOf(o) != s.status
      requires o.failure.Some? ==> IsClassification(o.failure.value.classification) && IsHash(o.failure.value.hash)
      ensures Accepted(Changed(s, o)) <==> o.failure.Some? || s.changedAt <= o.at
    {
    }

    /** Without its alert a changed state is accepted whatever the clock says. */
    lemma ToldIsAccepted(s: State, o: Observation)
      requires Tells(s, applied) && Accepted(s) && s.last < o.sequence <= s.next && StatusOf(o) != s.status
      requires o.failure.Some? ==> IsClassification(o.failure.value.classification) && IsHash(o.failure.value.hash)
      ensures Accepted(Changed(s, o).(pending := None))
    {
    }

    /** The next number to be applied, or one that was given out after it. */
    predicate Due(sequence: nat)
      reads this`stored
    {
      stored.Some? && Accepted(stored.value) && stored.value.last < sequence <= stored.value.next
    }

    /** The alert that is due once an observation is applied: that of a change, or one that is left over. */
    function TellsOf(s: State, sequence: nat, failure: Option<Failure>, now: nat): Option<Alert> {
      var o := Observation(sequence, failure, now);
      if StatusOf(o) == s.status then s.pending else Changed(s, o).pending
    }

    /** `record`: an observation is applied unless a later one was. */
    method Record(sequence: nat, failure: Option<Failure>, now: nat)
      requires Valid()
      requires failure.Some? ==> IsClassification(failure.value.classification) && IsHash(failure.value.hash)
      modifies this`stored, this`applied, this`sent
      ensures Valid() && (applied == old(applied) || applied == old(applied) + [Observation(sequence, failure, now)])
      ensures applied != old(applied) ==> old(Due(sequence))
      ensures calm && old(Due(sequence)) ==> applied == old(applied) + [Observation(sequence, failure, now)]
      ensures (old(stored).Some? ==> stored.Some?) && Given() == old(Given())
      ensures calm && old(Readable()) ==> stored.Some?
      ensures applied != old(applied) ==>
                var s, o := old(stored).value, Observation(sequence, failure, now);
                && (StatusOf(o) == s.status ==> Readable())
                && (StatusOf(o) != s.status ==>
                      stored.Some? && stored.value.(pending := None) == Changed(s, o).(pending := None)
                      && (Readable() <==> stored.value.pending.None? || failure.Some? || s.changedAt <= now)
                      && (mail == TakesNothing ==> stored == Some(Changed(s, o))))
      ensures applied == old(applied) && old(stored).Some? ==> stored == old(stored) && sent == old(sent)
      ensures applied != old(applied) ==>
                var due := TellsOf(old(stored).value, sequence, failure, now);
                && stored.Some? && (stored.value.pending == due || (stored.value.pending.None? && sent != old(sent)))
                && (sent == old(sent) || (due.Some? && sent == old(sent) + [due.value]))
                && (mail == TakesAll && due.Some? ==> sent != old(sent) && (calm ==> stored.value.pending.None?))
      ensures old(stored).Some? && sequence <= old(stored).value.last ==> applied == old(applied)
      ensures !old(Readable()) ==> stored == old(stored) && applied == old(applied) && sent == old(sent)
      ensures old(Readable()) && (old(stored).Some? ==> old(stored).value.changedAt <= now) ==> Readable()
      ensures Dated(old(stored), now)
    {
      hide Tells, Ascending, LatestAlert, LatestFailure, IsClassification, IsHash;
      var state := Read(now);
      if state.None? || sequence < 1 || sequence > state.value.next || sequence <= state.value.last {
        return;
      }
      var s, o := state.value, Observation(sequence, failure, now);
      if StatusOf(o) == s.status {
        UnchangedTells(s, o);
        var ok := Write(s.(last := sequence));
        if ok {
          applied := applied + [o];
          SendPendingAlert(s.(last := sequence));
        }
        return;
      }
      ChangedTells(s, o);
      ChangedAccepted(s, o);
      ToldIsAccepted(s, o);
      var ok := Write(Changed(s, o));
      if ok {
        applied := applied + [o];
        SendPendingAlert(Changed(s, o));
      }
    }

    /** The failure as it is recorded. */
    function Recorded(classification: string, hash: string): Failure {
      Failure(
        if classification in FAILURE_CLASSIFICATIONS then classification else "unknown",
        if IsHash(hash) then hash else sha256(hash))
    }

    /** `recordFailure`: what is not a known classification or a hash is replaced by one. */
    method RecordFailure(sequence: nat, classification: string, hash: string, now: nat)
      requires Valid()
      modifies this`stored, this`applied, this`sent
      ensures Valid() && Dated(old(stored), now)
      ensures calm && old(Due(sequence)) ==>
                applied == old(applied) + [Observation(sequence, Some(Recorded(classification, hash)), now)]
      ensures applied != old(applied) ==> old(Due(sequence)) && Readable()
      ensures applied != old(applied) ==>
                var known := if classification in FAILURE_CLASSIFICATIONS then classification else "unknown";
                var hashed := if IsHex(hash, 64) then hash else sha256(hash);
                applied == old(applied) + [Observation(sequence, Some(Failure(known, hashed)), now)]
      ensures applied != old(applied) && mail == TakesNothing && old(stored).value.status == Healthy ==>
                stored == Some(Changed(old(stored).value,
                  Observation(sequence, Some(Recorded(classification, hash)), now)))
      ensures (old(stored).Some? ==> stored.Some?) && Given() == old(Given())
      ensures calm && old(Readable()) ==> stored.Some?
      ensures !old(Readable()) ==> stored == old(stored) && applied == old(applied) && sent == old(sent)
      ensures old(Readable()) && (old(stored).Some? ==> old(stored).value.changedAt <= now) ==> Readable()
    {
      hide Tells;
      Record(sequence, Some(Recorded(classification, hash)), now);
    }

    /** The clock does not go back over some calls, nor was it ahead before them. */
    ghost predicate InTime(calls: seq<Call>)
      reads this`stored
    {
      && (forall i, j :: 0 <= i < j < |calls| ==> calls[i].now <= calls[j].now)
      && (stored.Some? ==> forall i :: 0 <= i < |calls| ==> stored.value.changedAt <= calls[i].now)
    }

    /** One call, whatever it is. */
    method Handle(call: Call)
      requires Valid()
      modifies this`stored, this`applied, this`sent
      ensures Valid() && Dated(old(stored), call.now)
      ensures old(Readable()) && (old(stored).Some? ==> old(stored).value.changedAt <= call.now) ==> Readable()
      ensures !old(Readable()) ==> stored == old(stored) && applied == old(applied) && sent == old(sent)
      ensures (old(stored).Some? || (calm && old(Readable()))) ==> stored.Some?
      ensures calm && old(Readable()) && old(Given()) < PHP_INT_MAX ==>
                Given() == old(Given()) + (if call.Reserving? then 1 else 0)
    {
      hide Tells, Accepted, Monitor.Changed, Monitor.TellsOf, Monitor.Recorded, Monitor.Due, StatusOf;
      match call
      case Reserving(now) => var sequence := Reserve(now);
      case Succeeding(sequence, now) => Record(sequence, None, now);
      case Failing(sequence, classification, hash, now) => RecordFailure(sequence, classification, hash, now);
    }

    /**
     Any interleaving of reservations and records.  While the clock does not go back, every state that is stored is
     accepted when it is read again, and it tells of the observations that were applied.  A state that is not
     accepted once is never accepted: no call changes it or sends anything.
     */
    method Run(calls: seq<Call>)
      requires Valid()
      modifies this`stored, this`applied, this`sent
      ensures Valid()
      ensures old(Readable()) && old(InTime(calls)) ==> Readable()
      ensures calm && old(Readable()) && old(InTime(calls)) && old(Given()) + |calls| <= PHP_INT_MAX ==>
                Given() == old(Given()) + Reservations(calls)
      ensures calm && calls != [] && old(Readable()) ==> stored.Some?
      ensures !old(Readable()) ==> stored == old(stored) && applied == old(applied) && sent == old(sent)
    {
      hide Monitor.Valid, Monitor.Readable, Reservations;
      for i := 0 to |calls|
        invariant Valid() && (old(Readable()) && old(InTime(calls)) ==> Readable() && InTime(calls[i..]))
        invariant calm && old(Readable()) && old(InTime(calls)) &&
                  old(Given()) + |calls| <= PHP_INT_MAX ==>
                    Given() ==
                    old(Given()) + Reservations(calls[..i])
        invariant if i == 0 then stored == old(stored) else calm && old(Readable()) ==> stored.Some?
        invariant !old(Readable()) ==> stored == old(stored) && applied == old(applied) && sent == old(sent)
      {
        ReservationsGrow(calls, i);
        Handle(calls[i]);
      }
      assert calls[..|calls|] == calls;
    }
  }

  datatype Call =
    | Reserving(now: nat)
    | Succeeding(sequence: nat, now: nat)
    | Failing(sequence: nat, classification: string, hash: string, now: nat)

  /** How many numbers are asked for. */
  function Reservations(calls: seq<Call>): (n: nat)
    ensures n <= |calls|
  {
    if calls == [] then 0
    else Reservations(calls[..|calls| - 1]) + (if calls[|calls| - 1].Reserving? then 1 else 0)
  }

  lemma ReservationsGrow(calls: seq<Call>, i: nat)
    requires i < |calls|
    ensures Reservations(calls[..i + 1]) == Reservations(calls[..i]) + (if calls[i].Reserving? then 1 else 0) <= i + 1
    ensures calls[..|calls|] == calls
  {
    assert calls[..i + 1][..i] == calls[..i];
  }

  /** The last sequence applied is the highest, and with it the status. */
  lemma StatusIsOfHighest(s: State, applied: seq<Observation>, i: nat)
    requires Tells(s, applied) && i < |applied|
    ensures applied[i].sequence <= s.last <= s.next
    ensures applied[i].sequence == s.last ==> s.status == StatusOf(applied[i])
  {
    var n := |applied| - 1;
    if i < n {
      assert applied[i].sequence < applied[n].sequence;
    }
  }

  /**
   A recovery that is dated before its failure, and whose alert sendmail does not take, leaves a state that is not
   accepted, and so, by `Run`, never is again.
   */
  method ClockSetBack(sha256: string -> string) returns (monitor: Monitor)
    requires forall s :: IsHash(sha256(s))
    ensures monitor.Valid() && !monitor.Readable() && |monitor.applied| == 2
  {
    hide Tells, LatestAlert, LatestFailure, IsHash, IsClassification, Accepted;
    monitor := new Monitor(sha256);
    monitor.mail := TakesNothing;
    var _ := monitor.Reserve(1);
    monitor.RecordFailure(1, "http_error", "", 1);
    var _ := monitor.Reserve(1);
    monitor.Record(2, None, 0);
  }
}
