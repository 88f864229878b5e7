/**
 Moving from the old filters to the new ones through a maintenance window in which there is none at all: the old
 ones are deleted, the empty set is read back and recorded, the locator is switched, and only then are the new
 ones added, all within a deadline that was fixed when the window was authorized.
 */
module BootstrapMigration {
  import opened Outcomes
  import opened Text

  type Id = string
  type Body = string
  type Filters = map<Id, Body>

  datatype Pair = Old | New

  datatype Phase = Prepared | Authorized | Window | Committed

  datatype Marker = Marker(
    phase: Phase, locator: Pair, started: Option<int>, ended: Option<int>, authorized: Option<int>,
    deadline: Option<int>)

  const MAX_DOWNTIME := 120

  /** `_read_migration_state`: what a recorded state must be like to be taken up. */
  predicate Readable(m: Marker) {
    if m.phase == Prepared then
      m.started.None? && m.ended.None? && m.authorized.None? && m.deadline.None? && m.locator == Old
    else
      && m.authorized.Some? && m.deadline.Some? && m.deadline.value - m.authorized.value == MAX_DOWNTIME
      && (m.started.Some? <==> m.phase != Authorized) && (m.ended.Some? <==> m.phase == Committed)
      && m.locator == (if m.phase == Committed then New else Old)
      && (m.started.Some? ==> m.authorized.value <= m.started.value <= m.deadline.value)
      && (m.started.Some? && m.ended.Some? ==> m.started.value <= m.ended.value <= m.deadline.value)
  }

  /** What is taken up fits its phase, and its times are in order, within the deadline two minutes after the start. */
  lemma ReadableMakesSense(m: Marker)
    requires Readable(m)
    ensures m.phase == Prepared ==> m.started.None? && m.ended.None? && m.authorized.None? && m.deadline.None?
    ensures m.phase != Prepared ==> m.authorized.Some? && m.deadline == Some(m.authorized.value + 120)
    ensures m.phase in {Window, Committed} <==> m.started.Some?
    ensures m.phase == Committed <==> m.ended.Some?
    ensures m.phase == Committed <==> m.locator == New
    ensures m.started.Some? ==> m.authorized.value <= m.started.value <= m.deadline.value
    ensures m.ended.Some? ==> m.started.value <= m.ended.value <= m.deadline.value
  {
  }

  // ---------------------------------------------------------------- counting bodies

  ghost function AnyOf(f: Filters): (id: Id)
    requires f != map[]
    ensures id in f
  {
    var id :| id in f; id
  }

  /** The bodies of some filters, each as often as it occurs. */
  ghost function Bodies(f: Filters): multiset<Body>
    decreases |f|
  {
    if f == map[] then multiset{} else Bodies(f - {AnyOf(f)}) + multiset{f[AnyOf(f)]}
  }

  lemma BodiesStep(f: Filters)
    requires f != map[]
    ensures Bodies(f) == Bodies(f - {AnyOf(f)}) + multiset{f[AnyOf(f)]}
  {
  }

  lemma {:induction false} BodiesWithout(f: Filters, id: Id)
    requires id in f
    ensures Bodies(f) == Bodies(f - {id}) + multiset{f[id]}
    decreases |f|
  {
    hide Bodies;
    BodiesStep(f);
    var first := AnyOf(f);
    if first != id {
      var a, b := f - {first}, f - {id};
      BodiesWithout(a, id);
      BodiesWithout(b, first);
      assert a - {id} == b - {first};
    }
  }

  lemma BodiesWith(f: Filters, id: Id, body: Body)
    requires id !in f
    ensures Bodies(f[id := body]) == Bodies(f) + multiset{body}
  {
    BodiesWithout(f[id := body], id);
    assert f[id := body] - {id} == f;
  }

  lemma {:induction false} BodiesOccur(f: Filters, body: Body)
    ensures body in Bodies(f) <==> exists id :: id in f && f[id] == body
    decreases |f|
  {
    if f != map[] {
      var id :| id in f;
      BodiesWithout(f, id);
      BodiesOccur(f - {id}, body);
      if k :| k in f && f[k] == body {
        assert k == id || k in f - {id};
      }
    }
  }

  lemma {:induction false} BodiesOfPart(f: Filters, g: Filters)
    requires PartOf(f, g)
    ensures Bodies(f) <= Bodies(g)
    decreases |f|
  {
    if f != map[] {
      var id :| id in f;
      BodiesWithout(f, id);
      BodiesWithout(g, id);
      BodiesOfPart(f - {id}, g - {id});
    }
  }

  /** `Counter` */
  method Count(f: Filters) returns (bodies: multiset<Body>)
    ensures bodies == Bodies(f)
  {
    bodies := multiset{};
    var rest := f;
    while rest != map[]
      invariant bodies + Bodies(rest) == Bodies(f)
      decreases |rest|
    {
      var id :| id in rest;
      BodiesWithout(rest, id);
      bodies := bodies + multiset{rest[id]};
      rest := rest - {id};
    }
  }

  /** What is missing, when the first i desired bodies have been looked at. */
  ghost predicate Missing(desired: seq<Body>, i: nat, there: multiset<Body>, remaining: multiset<Body>)
    requires i <= |desired|
  {
    there + remaining == multiset(desired) && remaining <= multiset(desired[i..])
  }

  lemma LookAt(desired: seq<Body>, i: nat, there: multiset<Body>, remaining: multiset<Body>)
    requires i < |desired| && Missing(desired, i, there, remaining)
    ensures remaining[desired[i]] == 0 ==> Missing(desired, i + 1, there, remaining)
    ensures remaining[desired[i]] > 0 ==>
              && there + multiset{desired[i]} <= multiset(desired)
              && Missing(desired, i + 1, there + multiset{desired[i]},
                remaining[desired[i] := remaining[desired[i]] - 1])
  {
    assert desired[i..] == [desired[i]] + desired[i + 1..];
  }

  // ---------------------------------------------------------------- the migration

  /** How an attempt that returns normally ended. */
  datatype Ending = NothingToDo | MaintenanceCommitted(started: int, ended: int)

  /** What the bodies on the server amount to. */
  datatype FilterState = AuthorizedState | MaintenanceState | OldState | NewState | MixedState

  predicate Disjoint(a: multiset<Body>, b: multiset<Body>) {
    forall body :: body in a ==> body !in b
  }

  /** The case distinction of `bootstrap_migrate`, None when nothing fits. */
  function Classify(prior: Option<Marker>, locator: Pair, actual: multiset<Body>, former: multiset<Body>,
      desired: multiset<Body>):
    Option<FilterState>
  {
    if prior.Some? && prior.value.phase == Authorized && Disjoint(actual, desired) && actual <= former then
      Some(AuthorizedState)
    else if prior.Some? && prior.value.phase == Window && Disjoint(actual, former) && actual <= desired then
      Some(MaintenanceState)
    else if actual == former then Some(OldState)
    else if actual == desired then Some(NewState)
    else if locator == Old && former <= actual <= former + desired then Some(MixedState)
    else if locator == New && desired <= actual <= former + desired then Some(MixedState)
    else None
  }

  /** A server with anything besides old and new rules, or too many of one, is not classified at all. */
  lemma ForeignIsIsolated(
      prior: Option<Marker>, locator: Pair, actual: multiset<Body>, former: multiset<Body>, desired: multiset<Body>)
    requires !(actual <= former + desired)
    ensures Classify(prior, locator, actual, former, desired) == None
  {
  }

  /** Rules are taken for a remnant of the maintenance, or for both sets, only when they are. */
  lemma ClassifyTells(
      prior: Option<Marker>, locator: Pair, actual: multiset<Body>, former: multiset<Body>, desired: multiset<Body>)
    ensures match Classify(prior, locator, actual, former, desired)
            case Some(AuthorizedState) => forall body :: body in actual ==> body in former && body !in desired
            case Some(MaintenanceState) => forall body :: body in actual ==> body in desired && body !in former
            case Some(OldState) => actual == former
            case Some(NewState) => actual == desired
            case Some(MixedState) => (if locator == Old then former <= actual else desired <= actual)
            case None => actual != former && actual != desired
    ensures prior.None? && former < actual <= former + desired && actual != desired && locator == Old ==>
              Classify(prior, locator, actual, former, desired) == Some(MixedState)
    ensures prior.None? && desired < actual <= former + desired && actual != former && locator == New ==>
              Classify(prior, locator, actual, former, desired) == Some(MixedState)
  {
  }

  /** `classify_convergence`: whether the migration is isolated. */
  predicate Isolated(locator: Pair, state: FilterState) {
    match state
    case AuthorizedState => false
    case MaintenanceState => false
    case OldState => locator == New
    case NewState => locator == Old
    case MixedState => false
  }

  predicate PartOf(f: Filters, g: Filters) {
    f.Keys <= g.Keys && forall id :: id in f ==> f[id] == g[id]
  }

  class Migration {
    const former: Filters
    const desired: seq<Body>
    /** The successive readings of the clock. */
    const clock: nat -> int

    var server: Filters
    var marker: Option<Marker>
    var locator: Pair
    /** Remote changes left before the power fails; None: it never does. */
    var fuel: Option<nat>
    /** Whether every remote call is carried out and answered. */
    var calm: bool
    var readings: nat

    /** Old and new bodies are disjoint, and the clock does not go back. */
    ghost predicate Premise() {
      && (forall id :: id in former ==> former[id] !in desired)
      && (forall i, j :: 0 <= i <= j ==> clock(i) <= clock(j))
    }

    /** A recorded window, whether or not it began in time. */
    predicate Opened(m: Marker) {
      && m.phase == Window && m.locator == Old && m.ended.None? && m.authorized.Some? && m.started.Some?
      && m.deadline == Some(m.authorized.value + MAX_DOWNTIME) && m.authorized.value <= m.started.value
    }

    /** The record of a window can be taken up exactly when the window began by its deadline. */
    lemma ReadableWindow(m: Marker)
      requires Opened(m)
      ensures Readable(m) <==> m.started.value <= m.deadline.value
    {
    }

    ghost predicate OnServer(m: Option<Marker>)
      reads this`server, this`locator
    {
      if m.None? || m.value.phase == Prepared then server == former && locator == Old
      else if m.value.phase == Authorized then locator == Old && PartOf(server, former)
      else if m.value.phase == Window then Bodies(server) <= multiset(desired) && (locator == Old ==> server == map[])
      else Bodies(server) == multiset(desired) && locator == New
    }

    ghost predicate OnClock(m: Option<Marker>)
      reads this`readings
    {
      m.Some? ==>
        && (m.value.phase == Window ==> Opened(m.value) && m.value.started.value <= clock(readings))
        && (m.value.phase != Window ==> Readable(m.value))
        && (m.value.phase == Authorized ==> m.value.authorized.value <= clock(readings))
    }

    ghost predicate Safe()
      reads this
    {
      Premise() && OnServer(marker) && OnClock(marker)
    }

    /** Old and new rules are never there together, and a new rule is there only once the locator is switched. */
    lemma NeverTogether(a: Id, b: Id)
      requires Safe() && a in server && b in server
      ensures server[a] in desired ==> locator == New && server[b] in desired && server[b] !in former.Values
    {
      BodiesOccur(server, server[a]);
      BodiesOccur(server, server[b]);
    }

    constructor (former: Filters, desired: seq<Body>, clock: nat -> int)
      requires forall id :: id in former ==> former[id] !in desired
      requires forall i, j :: 0 <= i <= j ==> clock(i) <= clock(j)
      ensures Safe() && marker == None && server == former && locator == Old
      ensures fuel.None? && calm && readings == 0
      ensures this.former == former && this.desired == desired && this.clock == clock
    {
      this.former, this.desired, this.clock := former, desired, clock;
      server, marker, locator, fuel, calm, readings := former, None, Old, None, true, 0;
    }

    static function Spent(fuel: Option<nat>): Option<nat> {
      if fuel.Some? && fuel.value > 0 then Some(fuel.value - 1) else fuel
    }

    method Tick() returns (alive: bool)
      modifies this`fuel
      ensures alive <==> old(fuel) != Some(0)
      ensures fuel == Spent(old(fuel))
    {
      if fuel.Some? && fuel.value == 0 {
        return false;
      }
      fuel := if fuel.Some? then Some(fuel.value - 1) else None;
      return true;
    }

    method Now() returns (t: int)
      requires Premise()
      modifies this`readings
      ensures readings == old(readings) + 1 && t == clock(old(readings)) && t <= clock(readings)
      ensures OnClock(marker) || !old(OnClock(marker))
    {
      t := clock(readings);
      readings := readings + 1;
    }

    /** `ensure_deadline` */
    method EnsureDeadline(m: Marker) returns (ok: bool)
      requires Safe() && m.authorized.Some? && m.deadline.Some?
      modifies this`readings
      ensures Safe() && readings == old(readings) + 1
      ensures ok <==> m.authorized.value <= clock(old(readings)) < m.deadline.value
    {
      var current := Now();
      return m.authorized.value <= current < m.deadline.value;
    }

    /** `persist_state`: the record is replaced, perhaps without an answer. */
    method Persist(m: Marker) returns (out: Outcome<()>)
      requires Safe() && OnServer(Some(m)) && OnClock(Some(m))
      modifies this`marker, this`fuel
      ensures Safe() && (marker == old(marker) || marker == Some(m))
      ensures out.Done? ==> marker == Some(m)
      ensures calm ==> fuel == Spent(old(fuel))
      ensures calm ==> if old(fuel) == Some(0) then out.Crashed? && marker == old(marker) else out.Done?
    {
      hide Bodies, Readable, Opened, OnServer, OnClock, Premise;
      var alive := Tick();
      if !alive {
        return Crashed;
      }
      var acts, answers: bool := *, *;
      if acts || calm {
        marker := Some(m);
      }
      return if (acts && answers) || calm then Done(()) else Refused;
    }

    /** The clock stays below a deadline. */
    ghost predicate InTime(from: nat, deadline: int) {
      forall n :: n >= from ==> clock(n) < deadline
    }

    // -------------------------------------------------------------- opening the window

    /** Some deletions in a row, the first of which takes a certain reading, all find the deadline ahead. */
    ghost predicate DeletedInTime(from: nat, count: nat, deadline: int) {
      count > 0 ==> clock(from + count - 1) < deadline
    }

    /** A window is opened that cannot be taken up: the deletions are in time, the reading after them is not. */
    ghost predicate OpenedTooLate(from: nat, count: nat, deadline: int) {
      DeletedInTime(from, count, deadline) && clock(from + count) > deadline
    }

    /** One old filter is deleted and the rest is read back. */
    method DeleteOld(m: Marker, id: Id) returns (out: Outcome<()>)
      requires Safe() && marker == Some(m) && m.phase == Authorized && id in server
      modifies this`server, this`fuel, this`readings
      ensures Safe() && readings == old(readings) + 1
      ensures out.Done? ==> server == old(server) - {id} && clock(old(readings)) < m.deadline.value
      ensures calm && clock(old(readings)) < m.deadline.value && old(fuel) != Some(0) ==>
                out.Done? && fuel == Spent(old(fuel))
      ensures old(fuel) == Some(0) || clock(old(readings)) >= m.deadline.value ==> !out.Done? && server == old(server)
      ensures old(fuel).None? ==> fuel.None? && !out.Crashed?
    {
      hide Bodies;
      var expected := server - {id};
      var inTime := EnsureDeadline(m);
      if !inTime {
        return Refused;
      }
      var alive := Tick();
      if !alive {
        return Crashed;
      }
      var acts, answers: bool := *, *;
      if acts || calm {
        server := server - {id};
      }
      if !((acts && answers) || calm) || server != expected {
        return Refused;
      }
      return Done(());
    }

    /** Every old filter is deleted. */
    method DeleteAll(m: Marker) returns (out: Outcome<()>)
      requires Safe() && marker == Some(m) && m.phase == Authorized
      modifies this`server, this`fuel, this`readings
      ensures Safe() && m.deadline.Some?
      ensures out.Done? ==> server == map[] && Deleting(m, old(readings), |old(server)|, old(fuel))
      ensures calm && old(fuel).None? ==> fuel.None? && !out.Crashed?
      ensures calm && DeletedInTime(old(readings), |old(server)|, m.deadline.value) &&
              old(fuel) in {None, Some(|old(server)|)} ==>
                out.Done?
    {
      hide Bodies, Readable, Opened, OnServer, OnClock, Premise, Safe, DeletedInTime;
      HasDeadline(m);
      NoneInTime(readings, m.deadline.value);
      var rest := server.Keys;
      while rest != {}
        invariant Safe() && marker == Some(m) && rest == server.Keys
        invariant Deleting(m, old(readings), |old(server)|, old(fuel))
      {
        SomeInTime(old(readings), |old(server)|, readings, m.deadline.value);
        var id :| id in rest;
        var _ :- DeleteOld(m, id);
        rest := rest - {id};
      }
      return Done(());
    }

    /** How far the deletions have come that began with some reading, some number of filters and some power left. */
    ghost predicate Deleting(m: Marker, from: nat, total: nat, power: Option<nat>)
      requires m.deadline.Some?
      reads this`server, this`readings, this`fuel, this`calm
    {
      && |server| <= total && readings == from + total - |server|
      && DeletedInTime(from, total - |server|, m.deadline.value)
      && (calm && power.None? ==> fuel.None?)
      && (calm && power == Some(total) ==> fuel == Some(|server|))
    }

    lemma HasDeadline(m: Marker)
      requires Safe() && marker == Some(m) && m.phase == Authorized
      ensures m.deadline.Some? && locator == Old
    {
    }

    lemma NoneInTime(from: nat, deadline: int)
      ensures DeletedInTime(from, 0, deadline)
    {
    }

    lemma SomeInTime(from: nat, count: nat, reading: nat, deadline: int)
      requires Safe() && from <= reading < from + count
      ensures DeletedInTime(from, count, deadline) ==> clock(reading) < deadline
      ensures clock(reading) < deadline ==> DeletedInTime(from, reading - from + 1, deadline)
    {
    }

    /** Every old filter is deleted, and the empty set is recorded. */
    method OpenWindow(authorized: Marker) returns (out: Outcome<Marker>)
      requires Safe() && marker == Some(authorized) && authorized.phase == Authorized
      modifies this`server, this`marker, this`fuel, this`readings
      ensures Safe() && authorized.deadline.Some?
      ensures out.Done? ==> marker == Some(out.value) && Opened(out.value) && server == map[] && locator == Old
      ensures out.Done? ==> out.value.authorized == authorized.authorized && out.value.deadline == authorized.deadline
      ensures out.Done? ==> readings == old(readings) + |old(server)| + 1
      ensures marker == old(marker)
                || (marker.Some? && OpenedAt(marker.value, old(readings) + |old(server)|, authorized.deadline.value))
      ensures calm && old(fuel).None? ==> fuel.None? && (out.Done? || (out.Refused? && marker == old(marker)))
      ensures calm && old(fuel).None? ==>
                (out.Done? <==> DeletedInTime(old(readings), |old(server)|, authorized.deadline.value))
      ensures calm && old(fuel) == Some(|old(server)|)
                && DeletedInTime(old(readings), |old(server)|, authorized.deadline.value) ==>
                out.Crashed? && marker == old(marker) && server == map[]
    {
      hide Bodies, OnServer, DeletedInTime;
      HasDeadline(authorized);
      var _ :- DeleteAll(authorized);
      var started := Now();
      if server != map[] {
        return Refused;
      }
      var m := authorized.(phase := Window, started := Some(started));
      EmptyFits(m);
      ReadableWindow(m);
      var _ :- Persist(m);
      return Done(m);
    }

    /** A window that began at a reading of the clock is accepted exactly when the deadline had not passed then. */
    ghost predicate OpenedAt(m: Marker, reading: nat, deadline: int) {
      m.phase == Window && m.started == Some(clock(reading)) && (Readable(m) <==> clock(reading) <= deadline)
    }

    lemma EmptyFits(m: Marker)
      requires server == map[] && m.phase == Window
      ensures OnServer(Some(m))
    {
    }

    // -------------------------------------------------------------- closing it

    /** The locator is switched, perhaps without an answer. */
    method Switch(m: Marker) returns (out: Outcome<()>)
      requires Safe() && marker == Some(m) && m.phase == Window
      modifies this`locator, this`fuel, this`readings
      ensures Safe() && readings >= old(readings)
      ensures out.Done? ==> locator == New
      ensures !Readable(m) ==> out.Refused? && locator == old(locator)
      ensures clock(old(readings) + 1) >= m.deadline.value ==> out.Refused? && locator == old(locator)
      ensures old(fuel) == Some(0) ==> !out.Done? && locator == old(locator)
      ensures old(fuel).None? && calm && InTime(old(readings), m.deadline.value) ==> out.Done? && fuel.None?
    {
      hide Bodies;
      var inTime := EnsureDeadline(m);
      if !inTime {
        return Refused;
      }
      inTime := EnsureDeadline(m);
      if !inTime {
        return Refused;
      }
      var alive := Tick();
      if !alive {
        return Crashed;
      }
      var acts, answers: bool := *, *;
      if acts || calm {
        locator := New;
      }
      return if (acts && answers) || calm then Done(()) else Refused;
    }

    /** One new rule is added, and all of them are read back. */
    method AddNew(m: Marker, body: Body) returns (out: Outcome<()>)
      requires Safe() && marker == Some(m) && m.phase == Window && locator == New
      requires Bodies(server) + multiset{body} <= multiset(desired)
      modifies this`server, this`fuel, this`readings
      ensures Safe() && readings >= old(readings)
      ensures out.Done? ==> Bodies(server) == old(Bodies(server)) + multiset{body}
      ensures clock(old(readings) + 1) >= m.deadline.value ==> out.Refused? && server == old(server)
      ensures old(fuel) == Some(0) ==> !out.Done? && server == old(server)
      ensures old(fuel).None? && calm && InTime(old(readings), m.deadline.value) ==> out.Done? && fuel.None?
    {
      hide Bodies;
      var inTime := EnsureDeadline(m);
      if !inTime {
        return Refused;
      }
      inTime := EnsureDeadline(m);
      if !inTime {
        return Refused;
      }
      var alive := Tick();
      if !alive {
        return Crashed;
      }
      var acts, answers: bool := *, *;
      if !acts && !calm {
        return Refused;
      }
      var id: Id := *;
      if id == "" || id in server {
        id := NewKey(server.Keys);
      }
      BodiesWith(server, id, body);
      var expected := server[id := body];
      server := server[id := body];
      if !(answers || calm) || server != expected {
        return Refused;
      }
      return Done(());
    }

    /** The rules that are still missing are added in order. */
    method AddRemaining(m: Marker) returns (out: Outcome<()>)
      requires Safe() && marker == Some(m) && m.phase == Window && locator == New
      modifies this`server, this`fuel, this`readings
      ensures Safe() && readings >= old(readings) && m.deadline.Some?
      ensures out.Done? ==> Bodies(server) == multiset(desired)
      ensures old(fuel).None? && calm && InTime(old(readings), m.deadline.value) ==> out.Done? && fuel.None?
    {
      hide Bodies, Missing, OnServer, OnClock, Premise, InTime;
      WindowHolds();
      var there := Count(server);
      var remaining := multiset(desired) - there;
      assert Missing(desired, 0, there, remaining) by { AllMissing(there); }
      for i := 0 to |desired|
        invariant Safe() && locator == New && readings >= old(readings)
        invariant Missing(desired, i, Bodies(server), remaining)
        invariant old(fuel).None? && calm && InTime(old(readings), m.deadline.value) ==> fuel.None?
      {
        LookAt(desired, i, Bodies(server), remaining);
        if InTime(old(readings), m.deadline.value) {
          LaterInTime(old(readings), readings, m.deadline.value);
        }
        if remaining[desired[i]] > 0 {
          var _ :- AddNew(m, desired[i]);
          remaining := remaining[desired[i] := remaining[desired[i]] - 1];
        }
      }
      NoneMissing(Bodies(server), remaining);
      return Done(());
    }

    lemma WindowHolds()
      requires Safe() && marker.Some? && marker.value.phase == Window
      ensures Bodies(server) <= multiset(desired) && marker.value.deadline.Some?
    {
    }

    lemma LaterInTime(from: nat, later: nat, deadline: int)
      requires from <= later && InTime(from, deadline)
      ensures InTime(later, deadline)
    {
    }

    lemma AllMissing(there: multiset<Body>)
      requires there <= multiset(desired)
      ensures Missing(desired, 0, there, multiset(desired) - there)
    {
      assert desired[0..] == desired;
    }

    lemma NoneMissing(there: multiset<Body>, remaining: multiset<Body>)
      requires Missing(desired, |desired|, there, remaining)
      ensures there == multiset(desired)
    {
    }

    ghost predicate Unchanged(before: Filters, record: Option<Marker>, switched: Pair)
      reads this`server, this`marker, this`locator
    {
      server == before && marker == record && locator == switched
    }

    /** From the recorded window to the commit. */
    method CloseWindow(m: Marker) returns (out: Outcome<Ending>)
      requires Safe() && marker == Some(m) && Opened(m)
      modifies this`server, this`locator, this`marker, this`fuel, this`readings
      ensures Safe()
      ensures !Readable(m) && old(locator) == Old ==> out.Refused? && Unchanged(old(server), old(marker), old(locator))
      ensures Readable(m) ==> marker.Some? && Readable(marker.value)
      ensures out.Done? ==>
                && out.value.MaintenanceCommitted? && marker.Some? && marker.value.phase == Committed
                && Readable(marker.value)
                && Bodies(server) == multiset(desired) && locator == New
      ensures old(fuel).None? && calm && InTime(old(readings), m.deadline.value) ==> out.Done?
    {
      hide Bodies;
      if locator == Old {
        var _ :- Switch(m);
      }
      var _ :- AddRemaining(m);
      var ended := Now();
      var inTime := EnsureDeadline(m);
      if !inTime {
        return Refused;
      }
      var committed := m.(phase := Committed, locator := New, ended := Some(ended));
      var _ :- Persist(committed);
      return Done(MaintenanceCommitted(m.started.value, ended));
    }

    // -------------------------------------------------------------- whole attempts

    lemma ServerIsOld()
      requires Safe() && PartOf(server, former)
      ensures Bodies(server) <= Bodies(former) && Disjoint(Bodies(server), multiset(desired))
    {
      BodiesOfPart(server, former);
      forall body | body in Bodies(server) ensures body !in multiset(desired) {
        BodiesOccur(server, body);
      }
    }

    lemma NewIsNotOld()
      requires Safe() && Bodies(server) <= multiset(desired)
      ensures Disjoint(Bodies(server), Bodies(former))
    {
      forall body | body in Bodies(server) ensures body !in Bodies(former) {
        BodiesOccur(former, body);
      }
    }

    /** What an attempt finds, by what is recorded. */
    lemma Found()
      requires Safe()
      ensures var state := Classify(marker, locator, Bodies(server), Bodies(former), multiset(desired));
              && (marker.None? || marker.value.phase == Prepared ==>
                state == Some(OldState) && server == former && locator == Old)
              && (marker.Some? && marker.value.phase == Authorized ==> state == Some(AuthorizedState))
              && (marker.Some? && marker.value.phase == Window ==> state == Some(MaintenanceState))
              && (marker.Some? && marker.value.phase == Committed ==>
                locator == New && (state == Some(OldState) || state == Some(NewState)))
    {
      hide Bodies, Readable, Opened;
      if marker.Some? && marker.value.phase == Authorized {
        ServerIsOld();
      } else if marker.Some? && marker.value.phase == Window {
        NewIsNotOld();
      }
    }

    /** The clock leaves enough time for what is recorded. */
    ghost predicate OnTime()
      reads this`marker, this`readings
    {
      if marker.None? || marker.value.phase == Prepared then InTime(readings, clock(readings) + MAX_DOWNTIME)
      else marker.value.deadline.Some? && Readable(marker.value) && InTime(readings, marker.value.deadline.value)
    }

    /** The confirmed start of a window. */
    method Authorize() returns (out: Outcome<Marker>)
      requires Safe() && marker.Some? && marker.value.phase == Prepared
      modifies this`marker, this`fuel, this`readings
      ensures Safe() && readings == old(readings) + 1
      ensures out.Done? ==> marker == Some(out.value) && out.value.phase == Authorized
      ensures out.Done? ==> out.value.deadline == Some(clock(old(readings)) + MAX_DOWNTIME)
      ensures marker.Some? && Readable(marker.value)
      ensures calm && old(fuel) != Some(0) ==> out.Done? && fuel == Spent(old(fuel))
    {
      hide Bodies;
      var authorized := Now();
      var m :=
        marker.value.(phase := Authorized, authorized := Some(authorized), deadline := Some(authorized + MAX_DOWNTIME));
      var _ :- Persist(m);
      return Done(m);
    }

    /** The server is empty, and the record of the window is never accepted. */
    predicate Stuck()
      reads this`server, this`marker, this`locator
    {
      marker.Some? && Opened(marker.value) && !Readable(marker.value) && server == map[] && locator == Old
    }

    /**
     What a calm and confirmed attempt leaves, that begins with all old filters, some durable steps before the
     deletions and a certain reading: a window opened too late exactly when the reading after the deletions is the
     first one past the deadline, and an empty server under the old locator when the power fails before the record.
     */
    ghost predicate FirstAttempt(power: Option<nat>, steps: nat, from: nat, filters: nat, out: Outcome<Ending>)
      reads this`server, this`marker, this`locator
    {
      && (power.None? ==> (Stuck() <==> OpenedTooLate(from + 1, filters, clock(from) + MAX_DOWNTIME)))
      && (power.None? && Stuck() ==> out.Refused?)
      && (power == Some(steps + filters) && DeletedInTime(from + 1, filters, clock(from) + MAX_DOWNTIME) ==>
            out.Crashed? && server == map[] && locator == Old && marker.Some? && Readable(marker.value)
              && marker.value.phase == Authorized)
    }

    /** From the authorization to the commit. */
    method OpenAndClose(m: Marker) returns (out: Outcome<Ending>)
      requires Safe() && marker == Some(m) && m.phase == Authorized
      modifies this`server, this`locator, this`marker, this`fuel, this`readings
      ensures Safe() && m.deadline.Some?
      ensures out.Done? ==>
                && out.value.MaintenanceCommitted? && marker.Some? && marker.value.phase == Committed
                && Readable(marker.value)
                && Bodies(server) == multiset(desired) && locator == New
      ensures calm && old(fuel).None? ==>
                (Stuck() <==> OpenedTooLate(old(readings), |old(server)|, m.deadline.value))
                  && (Stuck() ==> out.Refused?)
      ensures calm && old(fuel) == Some(|old(server)|)
                && DeletedInTime(old(readings), |old(server)|, m.deadline.value) ==>
                out.Crashed? && server == map[] && marker == Some(m) && locator == Old
      ensures old(fuel).None? && calm && InTime(old(readings), m.deadline.value) ==> out.Done?
    {
      hide Bodies, OnServer, Premise, Safe;
      HasDeadline(m);
      var window :- OpenWindow(m);
      out := CloseWindow(window);
    }

    /** From what is found to the commit. */
    method Maintain(confirmed: bool) returns (out: Outcome<Ending>)
      requires Safe() && marker.Some? && Readable(marker.value) && marker.value.phase != Committed
      modifies this`server, this`locator, this`marker, this`fuel, this`readings
      ensures Safe()
      ensures out.Done? ==>
                && out.value.MaintenanceCommitted? && marker.Some? && marker.value.phase == Committed
                && Readable(marker.value)
                && Bodies(server) == multiset(desired) && locator == New
      ensures !confirmed && old(marker).value.phase == Prepared ==>
                out.Refused? && Unchanged(old(server), old(marker), old(locator))
      ensures calm && confirmed && old(marker).value.phase == Prepared ==>
                FirstAttempt(old(fuel), 1, old(readings), |old(server)|, out)
      ensures calm && old(fuel).None? && old(marker).value.phase == Authorized ==>
                old(marker).value.deadline.Some? &&
                (Stuck() <==> OpenedTooLate(old(readings), |old(server)|, old(marker).value.deadline.value))
      ensures old(fuel).None? && calm && confirmed && old(OnTime()) ==> out.Done?
    {
      hide Bodies, OnServer, Premise, Safe, DeletedInTime, OpenedTooLate;
      var m := marker.value;
      if m.phase == Window {
        out := CloseWindow(m);
        return;
      }
      if m.phase == Prepared {
        if !confirmed {
          return Refused;
        }
        m :- Authorize();
      }
      out := OpenAndClose(m);
    }

    /** No confirmation has been given so far. */
    predicate Unauthorized()
      reads this`marker
    {
      marker.None? || marker.value.phase == Prepared
    }

    /** A window was authorized and is not recorded yet. */
    predicate Resumes()
      reads this`marker
    {
      marker.Some? && marker.value.phase == Authorized && marker.value.deadline.Some?
    }

    /** `bootstrap_migrate`: one attempt, which may be cut short anywhere. */
    method Migrate(confirmed: bool) returns (out: Outcome<Ending>)
      requires Safe()
      modifies this`server, this`locator, this`marker, this`fuel, this`readings
      ensures Safe()
      ensures out.Done? ==> Bodies(server) == multiset(desired)
      ensures out.Done? && out.value.MaintenanceCommitted? ==>
                marker.Some? && marker.value.phase == Committed && Readable(marker.value) && locator == New
      ensures out.Done? ==> (out.value.NothingToDo? <==> old(server) == map[] && desired == [])
      ensures out.Done? && out.value.NothingToDo? ==> Unchanged(old(server), old(marker), old(locator))
      ensures out.Done? ==> (locator == New <==> !(old(server) == map[] && desired == [] && old(locator) == Old))
      ensures old(server) == map[] && desired == []
                && (old(marker).None? || (Readable(old(marker).value) && old(marker).value.phase != Committed)) ==>
                out.Done?
      ensures old(marker).Some? && !Readable(old(marker).value) ==>
                out.Refused? && Unchanged(old(server), old(marker), old(locator))
      ensures !confirmed && old(Unauthorized()) ==>
                server == old(server) && locator == old(locator) && Unauthorized()
                && (out.Done? ==> out.value == NothingToDo)
      ensures old(marker).Some? && old(marker).value.phase == Committed && !(old(server) == map[] && desired == []) ==>
                out.Refused? && Unchanged(old(server), old(marker), old(locator))
      ensures calm && confirmed && old(marker).None? && !(old(server) == map[] && desired == []) ==>
                FirstAttempt(old(fuel), 2, old(readings), |old(server)|, out)
      ensures calm && old(fuel).None? && old(Resumes()) && !(old(server) == map[] && desired == []) ==>
                (Stuck() <==> OpenedTooLate(old(readings), |old(server)|, old(marker).value.deadline.value))
      ensures old(fuel).None? && calm && confirmed && old(OnTime())
                && (old(marker).Some? ==> old(marker).value.phase != Committed) ==>
                out.Done?
    {
      hide Bodies, Readable, Opened, Safe, OnServer, OnClock, DeletedInTime, OpenedTooLate, InTime, FirstAttempt, Stuck,
           Disjoint;
      OthersAreReadable();
      var prior := marker;
      if prior.Some? && !Readable(prior.value) {
        return Refused;
      }
      var actual := Count(server);
      var formerBodies := Count(former);
      Found();
      var state := Classify(prior, locator, actual, formerBodies, multiset(desired));
      if state.None? || Isolated(locator, state.value) || (state.value == OldState && server != former) {
        return Refused;
      }
      if server == map[] && desired == [] {
        NothingThere();
        return Done(NothingToDo);
      }
      if prior.None? {
        var prepared := Marker(Prepared, locator, None, None, None, None);
        PreparedFits(prepared);
        NoPower(fuel, readings, |server|);
        var _ :- Persist(prepared);
      }
      if state.value == NewState || state.value == MixedState {
        return Refused;
      }
      out := Maintain(confirmed);
      OneStepMore(old(fuel), old(readings), |old(server)|, out);
    }

    lemma OthersAreReadable()
      requires Safe()
      ensures marker.Some? && marker.value.phase != Window ==> Readable(marker.value)
    {
    }

    lemma PreparedFits(m: Marker)
      requires Safe() && marker.None? && m == Marker(Prepared, locator, None, None, None, None)
      ensures OnServer(Some(m)) && OnClock(Some(m)) && Readable(m)
    {
    }

    lemma NoPower(power: Option<nat>, from: nat, filters: nat)
      ensures power == Some(0) ==> FirstAttempt(power, 2, from, filters, Crashed)
    {
    }

    lemma OneStepMore(power: Option<nat>, from: nat, filters: nat, out: Outcome<Ending>)
      ensures power != Some(0) && FirstAttempt(Spent(power), 1, from, filters, out) ==>
                FirstAttempt(power, 2, from, filters, out)
    {
    }

    lemma NothingThere()
      ensures Bodies(map[]) == multiset{}
    {
    }

    /** How a run may end, and what is there at its end. */
    ghost predicate Ended(ending: Ending)
      reads this
    {
      && Bodies(server) == multiset(desired)
      && match ending {
        case NothingToDo => desired == [] && server == map[]
        case MaintenanceCommitted(_, _) =>
          marker.Some? && marker.value.phase == Committed && Readable(marker.value) && locator == New
      }
    }

    /**
     Any number of attempts, each cut short anywhere, until one ends: what must not break never does, and the rules
     there at the end are the desired ones.  With any desired rule at all the end is a commit, read again without
     complaint, under the new locator.
     */
    method Run(power: seq<Option<nat>>, calms: seq<bool>, confirmed: seq<bool>) returns (ending: Option<Ending>)
      requires Safe() && |calms| == |power| == |confirmed|
      modifies this
      ensures Safe() && (ending.Some? ==> Ended(ending.value))
      ensures |power| > 0 && power[0].None? && calms[0] && confirmed[0] && old(OnTime()) &&
              (old(marker).Some? ==> old(marker).value.phase != Committed) ==>
                ending.Some?
      ensures old(Stuck()) ==> ending.None? && Stuck()
      ensures old(Unauthorized()) && (forall i :: 0 <= i < |confirmed| ==> !confirmed[i]) ==>
                server == old(server) && locator == old(locator) && Unauthorized()
                && (ending.Some? ==> ending.value == NothingToDo)
      ensures ending.Some? && desired != [] ==>
                ending.value.MaintenanceCommitted? && marker.Some? && marker.value.phase == Committed
                  && Readable(marker.value) && locator == New
    {
      hide Bodies, Readable, Opened, OnServer, OnClock;
      ending := None;
      for i := 0 to |power|
        invariant i == 0 ==> marker == old(marker) && readings == old(readings) && ending.None?
        invariant i > 0 && power[0].None? && calms[0] && confirmed[0] && old(OnTime()) &&
                  (old(marker).Some? ==> old(marker).value.phase != Committed) ==>
                    ending.Some?
        invariant old(Unauthorized()) && (forall j :: 0 <= j < |confirmed| ==> !confirmed[j]) ==>
                    server == old(server) && locator == old(locator) && Unauthorized()
                    && (ending.Some? ==> ending.value == NothingToDo)
        invariant Safe() && (ending.Some? ==> Ended(ending.value)) && (old(Stuck()) ==> ending.None? && Stuck())
      {
        if ending.None? {
          fuel, calm := power[i], calms[i];
          var attempt := Migrate(confirmed[i]);
          if attempt.Done? {
            ending := Some(attempt.value);
          }
        }
      }
    }
  }

  /**
   With no new rule the end need not be a commit: an attempt loses its power after the deletions, and the next one
   returns with nothing to do and the locator not switched.
   */
  method EndsUnswitched() returns (migration: Migration, ending: Outcome<Ending>)
    ensures migration.former != map[] && migration.desired == [] && migration.Safe()
    ensures ending == Done(NothingToDo) && migration.server == map[] && migration.locator == Old
    ensures migration.marker.Some? && migration.marker.value.phase == Authorized
  {
    migration := new Migration(map["1" := "a"], [], n => 0);
    migration.fuel := Some(3);
    var cut := migration.Migrate(true);
    assert cut.Crashed?;
    migration.fuel := None;
    ending := migration.Migrate(true);
  }

  /**
   A window can be opened too late: an attempt that nothing disturbs deletes the one old filter in time, and reads
   the clock again after the deadline.  Its record is stored, and the next attempt refuses it without any change.
   */
  method OpensTooLate() returns (migration: Migration, next: Outcome<Ending>)
    ensures migration.former != map[] && migration.desired != [] && migration.Safe()
    ensures migration.Stuck() && next.Refused?
    ensures migration.server == map[] && migration.locator == Old && migration.marker.Some?
  {
    migration := new Migration(map["1" := "a"], ["b"], n => if n < 2 then 0 else 121);
    var attempt := migration.Migrate(true);
    assert attempt.Refused? && migration.Stuck();
    next := migration.Migrate(true);
  }
}
