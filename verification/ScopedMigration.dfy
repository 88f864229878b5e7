/**
 Migrating the managed filters: every addition and deletion is announced in a durable journal before
 the API call, the whole filter set is audited after it, and a run that was cut short is taken up
 again from the journal.  The server may renumber priorities when it deletes; nobody else writes.
 */
module ScopedMigration {
  import opened Outcomes
  import opened Text
  import opened PriorityCompaction

  datatype Rule = Rule(domain: string, body: string, priority: nat)

  type Filters = map<Id, Rule>

  // ---------------------------------------------------------------- the durable journal

  datatype Phase = Prepared | Active | Committed

  datatype Kind = Adding | Deleting

  datatype Pending = Pending(kind: Kind, id: Id, sha: string)

  datatype State = State(
    phase: Phase,
    stale: map<Id, string>,
    wanted: seq<string>,
    unrelated: map<Id, string>,
    newIds: map<Id, string>,
    retired: set<Id>,
    pending: Option<Pending>,
    applied: bool)

  predicate Distinct<T(==)>(s: seq<T>) {
    forall i, j :: 0 <= i < j < |s| ==> s[i] != s[j]
  }

  /** The digests of the added filters are the announced ones, each once. */
  predicate SameDigests(newIds: map<Id, string>, wanted: seq<string>) {
    newIds.Values == (set d | d in wanted) && |newIds| == |wanted|
  }

  /** Identifiers and digests are told apart, and what was added or retired was announced. */
  predicate ScopeValid(stale: map<Id, string>, wanted: seq<string>, unrelated: map<Id, string>, newIds: map<Id, string>,
                       retired: set<Id>)
  {
    && "" !in stale && "" !in unrelated && "" !in newIds
    && stale.Keys !! unrelated.Keys && stale.Keys !! newIds.Keys && unrelated.Keys !! newIds.Keys
    && Distinct(wanted)
    && (forall a, b :: a in stale && b in stale && stale[a] == stale[b] ==> a == b)
    && (forall id :: id in newIds ==> newIds[id] in wanted)
    && retired <= stale.Keys + newIds.Keys
  }

  predicate PendingValid(p: Pending, stale: map<Id, string>, wanted: seq<string>, newIds: map<Id, string>) {
    if p.kind == Adding then p.sha in wanted && (p.id != "" ==> p.id in newIds)
    else (p.id in stale && p.sha == stale[p.id]) || (p.id in newIds && p.sha == newIds[p.id])
  }

  /** `ScopeJournal._validate` */
  predicate Validated(s: State) {
    && ScopeValid(s.stale, s.wanted, s.unrelated, s.newIds, s.retired)
    && (s.pending.Some? ==> PendingValid(s.pending.value, s.stale, s.wanted, s.newIds))
    && (s.phase == Prepared ==> s.pending.None? && s.newIds == map[] && s.retired == {} && !s.applied)
    && (s.phase == Committed ==>
      s.pending.None? && s.stale.Keys <= s.retired && SameDigests(s.newIds, s.wanted) && s.applied)
  }

  /**
   What passes the checks makes sense: no identifier is empty or stands for two kinds of filters, what is desired is
   told apart and so is what is old, only announced bodies were added, only known filters were retired or are being
   deleted, nothing has happened yet at first, and at the end everything has.
   */
  lemma ValidatedMakesSense(s: State)
    requires Validated(s)
    ensures forall id :: id in s.stale || id in s.unrelated || id in s.newIds ==> id != ""
    ensures forall id :: id in s.stale ==> id !in s.unrelated && id !in s.newIds
    ensures forall id :: id in s.unrelated ==> id !in s.newIds
    ensures forall i, j :: 0 <= i < j < |s.wanted| ==> s.wanted[i] != s.wanted[j]
    ensures forall a, b :: a in s.stale && b in s.stale && a != b ==> s.stale[a] != s.stale[b]
    ensures forall id :: id in s.newIds ==> s.newIds[id] in s.wanted
    ensures forall id :: id in s.retired ==> id in s.stale || id in s.newIds
    ensures s.pending.Some? && s.pending.value.kind == Adding ==>
              s.pending.value.sha in s.wanted && (s.pending.value.id == "" || s.pending.value.id in s.newIds)
    ensures s.pending.Some? && s.pending.value.kind == Deleting ==>
              var p := s.pending.value;
              (p.id in s.stale || p.id in s.newIds) && p.sha == (s.stale + s.newIds)[p.id]
    ensures s.phase == Prepared ==> s.pending.None? && s.newIds == map[] && s.retired == {} && !s.applied
    ensures s.phase == Committed ==> s.pending.None? && s.applied && forall id :: id in s.stale ==> id in s.retired
    ensures s.phase == Committed ==>
              |s.newIds| == |s.wanted| && forall d :: d in s.wanted ==> exists id :: id in s.newIds && s.newIds[id] == d
  {
    if s.phase == Committed {
      forall d | d in s.wanted ensures exists id :: id in s.newIds && s.newIds[id] == d {
        assert d in s.newIds.Values;
      }
    }
  }

  /** What the running client intends. */
  datatype Intent = ToAdd(sha: string) | ToDelete(id: Id)

  predicate SameButPriority(a: Rule, b: Rule) { a.domain == b.domain && a.body == b.body }

  /** The same filters, their priorities apart. */
  predicate Renumbered(a: Filters, b: Filters) {
    a.Keys == b.Keys && forall id :: id in a ==> SameButPriority(a[id], b[id])
  }

  ghost predicate Present(f: Filters, body: string) {
    exists id :: id in f && f[id].body == body
  }

  /** What a migration is about; the baseline is what the server held when it was prepared. */
  datatype Plan =
    Plan(digest: string -> string, stamp: Rule -> string, baseline: Filters, stale: set<Id>, desired: seq<string>) {

    /** Digests tell texts apart. */
    ghost predicate Distinguishes() {
      && (forall a: string, b: string {:trigger digest(a), digest(b)} :: digest(a) == digest(b) ==> a == b)
      && (forall a: Rule, b: Rule {:trigger stamp(a), stamp(b)} :: stamp(a) == stamp(b) ==> a == b)
    }

    /** The filters to retire are on the server, and no desired body is there already. */
    ghost predicate Premise() {
      && stale <= baseline.Keys && "" !in baseline
      && (forall id :: id in baseline ==> baseline[id].body !in desired)
    }

    ghost predicate AllPresent(f: Filters) {
      forall body {:trigger Present(f, body)} :: body in desired ==> Present(f, body)
    }

    /**
     Unrelated filters are untouched, old ones are whole or gone, everything else has a desired body, no
     desired body is there twice, and no old filter is gone before all desired bodies are there.
     */
    ghost predicate ServerSafe(f: Filters) {
      && (forall id :: id in baseline && id !in stale ==> id in f)
      && (forall id :: id in baseline && id in f ==> SameButPriority(f[id], baseline[id]))
      && (forall id :: id in f && id !in baseline ==> id != "" && f[id].body in desired)
      && (forall a, b :: a in f && b in f && f[a].body == f[b].body && f[a].body in desired ==> a == b)
      && (stale <= f.Keys || AllPresent(f))
    }

    function StaleDigests(): map<Id, string>
    {
      map id | id in stale && id in baseline :: digest(baseline[id].body)
    }

    function WantedDigests(): seq<string> {
      seq(|desired|, i requires 0 <= i < |desired| => digest(desired[i]))
    }

    function UnrelatedStamps(): map<Id, string> {
      map id | id in baseline && id !in stale :: stamp(baseline[id])
    }

    /** `prepare_v2` */
    function Fresh(): State {
      State(Prepared, StaleDigests(), WantedDigests(), UnrelatedStamps(), map[], {}, None, false)
    }

    ghost function BeingDeleted(p: Option<Pending>): set<Id> {
      if p.Some? && p.value.kind == Deleting then {p.value.id} else {}
    }

    /** The filters the journal names are the new ones, and one it does not name is the one it announced. */
    ghost predicate Named(newIds: map<Id, string>, f: Filters) {
      forall id :: id in newIds ==> id in f && id !in baseline && newIds[id] == digest(f[id].body)
    }

    ghost predicate UnnamedIsPending(newIds: map<Id, string>, p: Option<Pending>, f: Filters) {
      forall id :: id in f && id !in baseline && id !in newIds ==> p == Some(Pending(Adding, "", digest(f[id].body)))
    }

    /** The journal accounts for every filter. */
    ghost predicate JournalSafe(s: State, f: Filters) {
      && Validated(s) && s.stale == StaleDigests() && s.wanted == WantedDigests() && s.unrelated == UnrelatedStamps()
      && Named(s.newIds, f) && UnnamedIsPending(s.newIds, s.pending, f)
      && s.retired == stale - f.Keys - BeingDeleted(s.pending) && BeingDeleted(s.pending) <= stale
      && (s.pending.Some? && s.pending.value.kind == Adding ==> s.pending.value.id == "")
    }

    /** Nothing is left to do on the server. */
    ghost predicate Converged(f: Filters) {
      AllPresent(f) && stale !! f.Keys
    }

    // -------------------------------------------------------------- what one API call does to it

    lemma FreshIsSafe()
      requires Premise() && Validated(Fresh())
      ensures ServerSafe(baseline) && JournalSafe(Fresh(), baseline)
    {
    }

    lemma RenumberIsSafe(a: Filters, b: Filters)
      requires ServerSafe(a) && Renumbered(a, b)
      ensures ServerSafe(b) && (AllPresent(a) ==> AllPresent(b))
    {
      if AllPresent(a) {
        forall body | body in desired ensures Present(b, body) {
          assert Present(a, body);
        }
      }
    }

    lemma RenumberIsJournalled(s: State, a: Filters, b: Filters)
      requires JournalSafe(s, a) && Renumbered(a, b)
      ensures JournalSafe(s, b)
    {
    }

    /** Adding a desired body that is not there, while every old filter still is. */
    lemma AddIsSafe(f: Filters, id: Id, rule: Rule)
      requires Premise() && ServerSafe(f) && id !in f && id != ""
      requires rule.body in desired && !Present(f, rule.body)
      ensures ServerSafe(f[id := rule]) && id !in baseline
    {
      assert !AllPresent(f);
      var g := f[id := rule];
      assert stale <= g.Keys;
      forall a | a in f && f[a].body == rule.body ensures false {
        assert Present(f, rule.body);
      }
    }

    /** An announced addition is accounted for when every other one is named. */
    lemma AddIsJournalled(s: State, f: Filters, id: Id, rule: Rule)
      requires JournalSafe(s, f) && f.Keys <= baseline.Keys + s.newIds.Keys && id !in f && id !in baseline
      requires s.pending == Some(Pending(Adding, "", digest(rule.body)))
      ensures JournalSafe(s, f[id := rule])
    {
      assert stale - f[id := rule].Keys == stale - f.Keys || id in stale;
    }

    /** Deleting an old filter once every desired body is there. */
    lemma DeleteIsSafe(f: Filters, id: Id)
      requires Premise() && ServerSafe(f) && AllPresent(f) && id in stale
      ensures ServerSafe(f - {id}) && AllPresent(f - {id})
    {
      forall body | body in desired ensures Present(f - {id}, body) {
        assert Present(f, body);
        var k :| k in f && f[k].body == body;
        assert k in f - {id};
      }
    }

    /** An announced deletion is accounted for. */
    lemma DeleteIsJournalled(s: State, f: Filters, id: Id)
      requires stale <= baseline.Keys && JournalSafe(s, f)
      requires s.pending.Some? && s.pending.value.kind == Deleting && s.pending.value.id == id
      ensures JournalSafe(s, f - {id})
    {
      assert id in BeingDeleted(s.pending);
    }

    // -------------------------------------------------------------- what one journal write does to it

    /** A pending operation the journal may announce while everything else is settled. */
    ghost predicate Announceable(p: Option<Pending>, f: Filters) {
      p.Some? ==>
        var q := p.value;
        if q.kind == Adding then q.id == "" && exists body :: body in desired && q.sha == digest(body)
        else q.id in stale && q.id in baseline && q.id in f && q.sha == digest(baseline[q.id].body)
    }

    lemma AnnouncementIsValid(s: State, f: Filters, p: Option<Pending>)
      requires s.stale == StaleDigests() && s.wanted == WantedDigests() && Announceable(p, f)
      ensures p.Some? ==> PendingValid(p.value, s.stale, s.wanted, s.newIds)
    {
      if p.Some? && p.value.kind == Adding {
        var body :| body in desired && p.value.sha == digest(body);
        var i :| 0 <= i < |desired| && desired[i] == body;
        assert WantedDigests()[i] == p.value.sha;
      }
    }

    lemma AnnouncementIsJournalled(s: State, f: Filters, p: Option<Pending>)
      requires JournalSafe(s, f) && f.Keys <= baseline.Keys + s.newIds.Keys && s.retired == stale - f.Keys
      requires Announceable(p, f)
      ensures JournalSafe(s.(phase := Active, pending := p), f)
    {
      AnnouncementIsValid(s, f, p);
      assert stale - f.Keys - BeingDeleted(p) == stale - f.Keys;
    }

    lemma NameIsValid(s: State, f: Filters, id: Id)
      requires Premise() && ServerSafe(f) && JournalSafe(s, f) && id in f && id !in baseline && id !in s.newIds
      ensures ScopeValid(s.stale, s.wanted, s.unrelated, s.newIds[id := digest(f[id].body)], s.retired)
      ensures digest(f[id].body) in s.wanted
    {
      var i :| 0 <= i < |desired| && desired[i] == f[id].body;
      assert WantedDigests()[i] == digest(f[id].body);
    }

    /** Naming the announced addition. */
    lemma NameIsJournalled(s: State, f: Filters, id: Id, p: Option<Pending>)
      requires Premise() && ServerSafe(f) && JournalSafe(s, f) && id in f && id !in baseline && id !in s.newIds
      requires p == s.pending || p == None
      requires forall k :: k in f && k !in baseline && k !in s.newIds ==> k == id
      ensures JournalSafe(s.(phase := Active, newIds := s.newIds[id := digest(f[id].body)], pending := p), f)
    {
      NameIsValid(s, f, id);
      assert BeingDeleted(p) == {} == BeingDeleted(s.pending);
    }

    /** Retiring the filter whose deletion was announced, once it is gone. */
    lemma RetirementIsJournalled(s: State, f: Filters)
      requires stale <= baseline.Keys && JournalSafe(s, f)
      requires BeingDeleted(s.pending) != {} && BeingDeleted(s.pending) !! f.Keys
      ensures JournalSafe(s.(phase := Active, retired := stale - f.Keys, pending := None), f)
    {
      assert stale <= s.stale.Keys;
    }

    /** An addition the journal does not name is the only one. */
    lemma OneUnknown(s: State, f: Filters, a: Id, b: Id)
      requires Distinguishes() && ServerSafe(f) && JournalSafe(s, f)
      requires a in f && a !in baseline && a !in s.newIds && b in f && b !in baseline && b !in s.newIds
      ensures a == b
    {
      assert digest(f[a].body) == digest(f[b].body);
    }
  }

  class Migration {
    const plan: Plan
    /** The private configuration before and after. */
    const before: string
    const after: string

    var server: Filters
    var durable: Option<State>
    var config: string
    /** Durable steps left before the power fails; None: it never fails. */
    var fuel: Option<nat>
    /** Whether the server carries out every call, answers it, and keeps the priorities. */
    var calm: bool

    /** The memory of the running client. */
    var active: set<Id>
    var retired: set<Id>
    var newById: map<Id, string>
    var confirmed: set<Id>
    var pending: Option<Intent>
    var pendingDelete: Option<Id>
    var priorities: map<Id, Option<nat>>

    // -------------------------------------------------------------- what is never broken

    /** The configuration changes once the server has converged, and the journal says so only after that. */
    ghost predicate ConfigSafe()
      reads this`server, this`durable, this`config
    {
      && (config == before || (config == after && plan.Converged(server)))
      && (durable.Some? && durable.value.applied ==> config == after && plan.Converged(server))
    }

    ghost predicate Safe()
      reads this`server, this`durable, this`config
    {
      && plan.Premise() && plan.ServerSafe(server) && ConfigSafe()
      && (if durable.None? then server == plan.baseline && config == before
          else plan.JournalSafe(durable.value, server) && durable.value.phase != Committed)
    }

    function PendingOf(intent: Option<Intent>, hashes: map<Id, string>): Option<Pending> {
      match intent
      case None => None
      case Some(ToAdd(sha)) => Some(Pending(Adding, "", sha))
      case Some(ToDelete(id)) => Some(Pending(Deleting, id, if id in hashes then hashes[id] else ""))
    }

    function DigestsOf(bodies: map<Id, string>): map<Id, string> {
      map id | id in bodies :: plan.digest(bodies[id])
    }

    /** `persist_scope`: the journal as the memory would have it. */
    function Remembered(s: State): State
      reads this`retired, this`newById, this`pending
    {
      var newIds := DigestsOf(newById);
      s.(phase := Active, retired := retired, newIds := newIds, pending := PendingOf(pending, s.stale + newIds))
    }

    lemma DigestsOfMore(bodies: map<Id, string>, id: Id, body: string)
      ensures DigestsOf(bodies[id := body]) == DigestsOf(bodies)[id := plan.digest(body)]
    {
    }

    /** The client's memory is what the journal says. */
    ghost predicate Recalls(s: State)
      reads this`retired, this`newById, this`pending
    {
      retired == s.retired && s.newIds == DigestsOf(newById) && s.pending == PendingOf(pending, s.stale + s.newIds)
    }

    ghost predicate InStep()
      reads this
    {
      && Safe() && durable.Some? && Recalls(durable.value) && Sound()
    }

    /** The memory itself makes sense. */
    ghost predicate Sound()
      reads this`server, this`active, this`retired, this`newById, this`confirmed
    {
      && active == plan.stale - retired
      && (forall id :: id in newById ==> id in server && newById[id] == server[id].body)
      && confirmed <= newById.Keys
    }

    /** A deletion under way is the one that is announced, or is over. */
    ghost predicate DeleteFits()
      reads this`pending, this`pendingDelete
    {
      pendingDelete.Some? ==> pending == None || pending == Some(ToDelete(pendingDelete.value))
    }

    /** Every filter is accounted for by name, and every missing old one is retired. */
    ghost predicate Settled()
      reads this`server, this`newById, this`retired
    {
      server.Keys <= plan.baseline.Keys + newById.Keys && retired == plan.stale - server.Keys
    }

    /** Nothing has touched the priority of an unrelated filter so far. */
    ghost predicate Undisturbed()
      reads this`server
    {
      forall id :: id in plan.baseline && id !in plan.stale && id in server ==> server[id] == plan.baseline[id]
    }

    constructor (plan: Plan, before: string, after: string)
      requires plan.Premise() && plan.Distinguishes()
      ensures Safe() && durable == None && server == plan.baseline && config == before
      ensures this.plan == plan && this.before == before && this.after == after
    {
      this.plan, this.before, this.after := plan, before, after;
      server, durable, config, fuel, calm := plan.baseline, None, before, None, true;
      active, retired, newById, confirmed, pending, pendingDelete, priorities := {}, {}, map[], {}, None, None, map[];
    }

    method Tick() returns (alive: bool)
      modifies this`fuel
      ensures alive <==> old(fuel) != Some(0)
      ensures fuel == if alive && old(fuel).Some? then Some(old(fuel).value - 1) else old(fuel)
    {
      if fuel.Some? && fuel.value == 0 {
        return false;
      }
      fuel := if fuel.Some? then Some(fuel.value - 1) else None;
      return true;
    }

    // -------------------------------------------------------------- the journal and the server

    /** `ScopeJournal.write`: an atomic replacement of the journal, refused unless valid. */
    method Write(s: State) returns (out: Outcome<()>)
      modifies this`durable, this`fuel
      ensures durable == (if out.Done? then Some(s) else old(durable))
      ensures out.Done? ==> Validated(s)
      ensures old(fuel) == Some(0) ==> !out.Done?
      ensures Validated(s) && old(fuel).None? ==> out.Done? && fuel.None?
    {
      if !Validated(s) {
        return Refused;
      }
      var alive := Tick();
      if !alive {
        return Crashed;
      }
      durable := Some(s);
      return Done(());
    }

    /** The server gives the same filters other priorities, unless it is calm. */
    method Renumber()
      modifies this`server
      ensures Renumbered(old(server), server)
      ensures calm ==> server == old(server)
    {
      var other: Filters := *;
      if !calm && Renumbered(server, other) {
        server := other;
      }
    }

    /** The call that adds a filter: it may not be carried out, and may not be answered when it is. */
    method ServerAdd(rule: Rule) returns (out: Outcome<Id>, ghost added: Option<Id>)
      modifies this`server
      ensures added.None? ==> server == old(server)
      ensures added.Some? ==>
                added.value !in old(server) && added.value != "" && Renumbered(old(server)[added.value := rule], server)
      ensures !out.Crashed? && (out.Done? ==> added == Some(out.value))
      ensures calm ==> out.Done? && server == old(server)[out.value := rule]
    {
      var acts, answers: bool := *, *;
      if !calm && !acts {
        return Refused, None;
      }
      var id: Id := *;
      if id == "" || id in server {
        id := NewKey(server.Keys);
      }
      server := server[id := rule];
      Renumber();
      return if calm || answers then Done(id) else Refused, Some(id);
    }

    /** The call that deletes a filter. */
    method ServerDelete(id: Id) returns (out: Outcome<()>)
      modifies this`server
      ensures server == old(server) || Renumbered(old(server) - {id}, server)
      ensures !out.Crashed? && (out.Done? ==> id !in server)
      ensures calm ==> out.Done? && server == old(server) - {id}
    {
      var acts, answers: bool := *, *;
      if !calm && !acts {
        return Refused;
      }
      server := server - {id};
      Renumber();
      return if calm || answers then Done(()) else Refused;
    }

    // -------------------------------------------------------------- the audit of a whole readback

    function Unknown(): set<Id>
      reads this`server, this`newById
    {
      server.Keys - plan.baseline.Keys - newById.Keys
    }

    /** An unknown filter is the only one, and the addition that was announced. */
    lemma UnknownIsAnnounced(id: Id)
      requires plan.Distinguishes() && InStep() && id in Unknown()
      ensures Unknown() == {id} && pending == Some(ToAdd(plan.digest(server[id].body)))
    {
      var s := durable.value;
      assert s.pending == Some(Pending(Adding, "", plan.digest(server[id].body)));
      forall v | v in Unknown() ensures v == id {
        plan.OneUnknown(s, server, id, v);
      }
    }

    /** `_save_journal`, once the memory accounts for every filter. */
    method Save() returns (out: Outcome<()>)
      requires Safe() && durable.Some? && Sound() && plan.JournalSafe(Remembered(durable.value), server)
      modifies this`durable, this`fuel
      ensures Safe() && (out.Done? ==> InStep())
      ensures old(fuel).None? ==> out.Done? && fuel.None?
    {
      hide Plan.ServerSafe, Plan.Converged, Plan.Premise, ScopeValid, PendingValid, DigestsOf, Sound;
      out := Write(Remembered(durable.value));
    }

    lemma NameIsRemembered(id: Id, p: Option<Intent>)
      requires InStep() && Unknown() == {id} && pending.Some? && pending.value.ToAdd?
      requires p == pending || p == None
      ensures id in server && id !in newById && id !in plan.baseline
      ensures var newIds := DigestsOf(newById[id := server[id].body]);
              plan.JournalSafe(durable.value.(phase := Active, retired := retired, newIds := newIds,
                                              pending := PendingOf(p, durable.value.stale + newIds)), server)
    {
      var s := durable.value;
      assert forall k :: k in server && k !in plan.baseline && k !in s.newIds ==> k in Unknown();
      plan.NameIsJournalled(s, server, id, PendingOf(p, map[]));
      DigestsOfMore(newById, id, server[id].body);
    }

    /** Naming the announced addition in the journal, which may go on announcing it. */
    method Name(id: Id, p: Option<Intent>, confirm: bool) returns (out: Outcome<()>)
      requires InStep() && Unknown() == {id} && pending.Some? && pending.value.ToAdd?
      requires p == pending || p == None
      modifies this`durable, this`fuel, this`newById, this`confirmed, this`pending
      ensures Safe() && pending == p && newById == old(newById)[id := server[id].body]
      ensures confirmed == old(confirmed) + (if confirm then {id} else {})
      ensures out.Done? ==> InStep() && Unknown() == {}
      ensures old(fuel).None? ==> out.Done? && fuel.None?
    {
      hide Plan.JournalSafe, Plan.ServerSafe, Plan.Converged, Plan.Premise, DigestsOf, ConfigSafe, PendingOf;
      NameIsRemembered(id, p);
      newById, pending := newById[id := server[id].body], p;
      confirmed := confirmed + (if confirm then {id} else {});
      assert newById.Keys == old(newById.Keys) + {id};
      assert server.Keys == old(server.Keys);
      assert Unknown() == old(Unknown()) - {id};
      out := Save();
    }

    /** An unknown filter that has the announced body is the addition that was announced. */
    method Adopt() returns (out: Outcome<()>)
      requires plan.Distinguishes() && InStep() && DeleteFits()
      modifies this`durable, this`fuel, this`newById, this`confirmed, this`pending
      ensures Safe()
      ensures out.Done? ==> InStep() && Unknown() == {}
      ensures old(fuel).None? ==> out.Done? && fuel.None?
      ensures DeleteFits() && (old(Unknown()) == {} ==> out.Done? && unchanged(this))
    {
      hide Plan.Distinguishes, Sound, Recalls, Plan.JournalSafe, Plan.ServerSafe, Plan.Premise, ConfigSafe;
      if Unknown() != {} {
        ghost var u :| u in Unknown();
        UnknownIsAnnounced(u);
        var matching := set k | k in Unknown() && pending == Some(ToAdd(plan.digest(server[k].body)));
        assert matching == {u};
        if |Unknown()| == 1 && |matching| == 1 {
          var id :| id in matching;
          out := Name(id, None, true);
          return;
        }
      }
      return Done(());
    }

    /** The old filter whose absence is expected. */
    function Authorized(): Option<Id>
      reads this`pending, this`pendingDelete
    {
      if pendingDelete.Some? then pendingDelete
      else if pending.Some? && pending.value.ToDelete? then Some(pending.value.id) else None
    }

    function Peers(id: Id): set<Id>
      requires id in plan.baseline
    {
      set a | a in plan.baseline && plan.baseline[a].domain == plan.baseline[id].domain
    }

    /** The priorities of a filter's domain, when every one of them is known. */
    function PeerPriorities(id: Id): Option<map<Id, nat>>
      requires id in plan.baseline
      reads this`priorities
    {
      if exists a :: a in Peers(id) && (a !in priorities || priorities[a].None?) then None
      else Some(map a | a in Peers(id) :: priorities[a].value)
    }

    /** The peers of a filter are those of its domain, and their priorities are known all or not at all. */
    lemma PeersTell(id: Id)
      requires id in plan.baseline
      ensures forall a :: a in Peers(id) <==> a in plan.baseline && plan.baseline[a].domain == plan.baseline[id].domain
      ensures PeerPriorities(id).Some? <==> forall a :: a in Peers(id) ==> a in priorities && priorities[a].Some?
      ensures PeerPriorities(id).Some? ==> PeerPriorities(id).value.Keys == Peers(id)
      ensures PeerPriorities(id).Some? ==>
                forall a :: a in Peers(id) ==> priorities[a] == Some(PeerPriorities(id).value[a])
    {
    }

    predicate UnrelatedIntact()
      reads this`server, this`priorities, this`retired, this`pending, this`pendingDelete
    {
      var mayMiss := retired + (if Authorized().Some? then {Authorized().value} else {});
      forall id :: id in plan.baseline && id !in plan.stale ==>
        && id in server
        && (server[id] == plan.baseline[id] ||
            (&& SameButPriority(server[id], plan.baseline[id])
             && PeerPriorities(id).Some?
             && Expected(PeerPriorities(id).value, server.Keys, mayMiss, id) == Some(server[id].priority)))
    }

    /** Every unrelated filter is as it was, or has just moved up where filters before it are gone. */
    ghost predicate MovedUpAtMost()
      reads this`server, this`priorities
    {
      forall id :: id in plan.baseline && id !in plan.stale ==>
        && id in server
        && (server[id] == plan.baseline[id] ||
            (&& SameButPriority(server[id], plan.baseline[id])
             && PeerPriorities(id).Some?
             && var peers := PeerPriorities(id).value;
                server[id].priority == Rank(peers, peers.Keys * server.Keys, id)))
    }

    lemma IntactMovedUpAtMost()
      requires UnrelatedIntact()
      ensures MovedUpAtMost()
    {
      var mayMiss := retired + (if Authorized().Some? then {Authorized().value} else {});
      forall id | id in plan.baseline && id !in plan.stale && server[id] != plan.baseline[id]
        ensures var peers := PeerPriorities(id).value; server[id].priority == Rank(peers, peers.Keys * server.Keys, id)
      {
        ExpectedIsRank(PeerPriorities(id).value, server.Keys, mayMiss, id);
      }
    }

    predicate OldIntact()
      reads this`server, this`retired
    {
      && retired !! server.Keys
      && (forall id :: id in plan.stale && id in plan.baseline && id in server ==>
        SameButPriority(server[id], plan.baseline[id]))
    }

    predicate NewIntact()
      reads this`server, this`retired, this`newById, this`confirmed
    {
      forall id :: id in newById ==>
        if id in server then id !in retired && server[id].body == newById[id] else id !in confirmed
    }

    lemma AuditPasses()
      requires InStep()
      ensures Undisturbed() ==> UnrelatedIntact()
      ensures OldIntact() && NewIntact()
    {
    }

    lemma MissingIsAnnounced()
      requires InStep() && DeleteFits()
      ensures active <= server.Keys ==> retired == plan.stale - server.Keys
      ensures !(active <= server.Keys) ==>
        && Authorized().Some? && active - server.Keys == {Authorized().value}
        && retired + (active - server.Keys) == plan.stale - server.Keys
        && plan.JournalSafe(durable.value.(phase := Active, retired := plan.stale - server.Keys,
          newIds := DigestsOf(newById), pending := None), server)
    {
      var s := durable.value;
      if !(active <= server.Keys) {
        var id :| id in active && id !in server;
        assert plan.BeingDeleted(s.pending) == {id};
        plan.RetirementIsJournalled(s, server);
      }
    }

    /**
     Every unrelated filter is as it was, or has the priority the server gives it when it closes the gaps that the
     filters which are gone leave in a numbering.
     */
    ghost predicate Compacted()
      reads this`server, this`priorities
    {
      forall id :: id in plan.baseline && id !in plan.stale ==>
        && id in server
        && (server[id] == plan.baseline[id] ||
            (&& SameButPriority(server[id], plan.baseline[id])
             && PeerPriorities(id).Some?
             && var peers := PeerPriorities(id).value;
                IsNumbering(peers) && !(peers.Keys <= server.Keys) &&
                server[id].priority == Rank(peers, peers.Keys * server.Keys, id)))
    }

    /** Whatever is missing may be missing. */
    lemma MissingMayMiss()
      requires InStep() && DeleteFits()
      ensures plan.baseline.Keys - server.Keys <=
              retired + (if Authorized().Some? then {Authorized().value} else {})
    {
      hide Plan.JournalSafe;
      MissingIsAnnounced();
      forall id | id in plan.baseline.Keys - server.Keys ensures id in plan.stale {
      }
    }

    /** The audit of the unrelated filters accepts exactly a compacted server. */
    lemma IntactIffCompacted()
      requires InStep() && DeleteFits()
      ensures UnrelatedIntact() <==> Compacted()
    {
      hide InStep, DeleteFits, IsNumbering, Rank;
      MissingMayMiss();
      var mayMiss := retired + (if Authorized().Some? then {Authorized().value} else {});
      forall id | id in plan.baseline && id !in plan.stale && id in server && PeerPriorities(id).Some?
        ensures var peers := PeerPriorities(id).value;
                Expected(peers, server.Keys, mayMiss, id) == Some(server[id].priority) <==>
                  && IsNumbering(peers) && !(peers.Keys <= server.Keys)
                  && server[id].priority == Rank(peers, peers.Keys * server.Keys, id)
      {
        CompactedOne(PeerPriorities(id).value, server.Keys, mayMiss, id, server[id].priority);
      }
    }

    lemma UndisturbedIsCompacted()
      requires InStep()
      ensures Undisturbed() ==> Compacted()
    {
    }

    lemma NothingMissing(all: set<Id>, present: set<Id>)
      ensures all <= present <==> all - present == {}
    {
      if all - present == {} {
        forall id | id in all ensures id in present {
          assert id !in all - present;
        }
      }
    }

    lemma CompactedOne(peers: map<Id, nat>, present: set<Id>, mayMiss: set<Id>, id: Id, p: nat)
      requires id in peers && id in present && peers.Keys - present <= mayMiss
      ensures Expected(peers, present, mayMiss, id) == Some(p) <==>
                IsNumbering(peers) && !(peers.Keys <= present) && p == Rank(peers, peers.Keys * present, id)
    {
      hide IsNumbering, Rank;
      NothingMissing(peers.Keys, present);
      if Expected(peers, present, mayMiss, id).Some? {
        ExpectedIsRank(peers, present, mayMiss, id);
      }
    }

    /** An old filter that is gone was to be deleted: it is retired. */
    method Retire() returns (out: Outcome<()>)
      requires InStep() && DeleteFits()
      modifies this`durable, this`fuel, this`active, this`retired, this`pending
      ensures Safe()
      ensures out.Done? ==> InStep() && retired == plan.stale - server.Keys
      ensures old(fuel).None? ==> out.Done? && fuel.None?
      ensures old(retired == plan.stale - server.Keys) ==> unchanged(this)
    {
      hide Plan.JournalSafe, Plan.ServerSafe, Plan.Converged, Plan.Premise, DigestsOf, ConfigSafe;
      MissingIsAnnounced();
      var gone := active - server.Keys;
      if gone != {} {
        if Authorized().None? || gone != {Authorized().value} {
          return Refused;
        }
        active, retired, pending := active - gone, retired + gone, None;
        out := Save();
        return;
      }
      return Done(());
    }

    /** `snapshot_filters`: the audit of a whole readback. */
    method SnapshotFilters() returns (out: Outcome<set<Id>>)
      requires plan.Distinguishes() && InStep() && DeleteFits()
      modifies this`durable, this`fuel, this`active, this`retired, this`newById, this`confirmed, this`pending
      ensures Safe()
      ensures out.Done? ==>
                InStep() && Settled() && MovedUpAtMost() && out.value == server.Keys * (plan.stale + newById.Keys)
      ensures old(fuel).None? ==> (out.Done? <==> Compacted()) && fuel.None?
      ensures Undisturbed() ==> Compacted()
      ensures old(Settled()) ==> unchanged(this)
    {
      hide Plan.JournalSafe, Plan.ServerSafe, Plan.Converged, Plan.Premise, Plan.Distinguishes, DigestsOf, ConfigSafe,
           UnrelatedIntact, OldIntact, NewIntact, Compacted, MovedUpAtMost, Undisturbed, PendingOf, Recalls;
      UndisturbedIsCompacted();
      var _ :- Adopt();
      AuditPasses();
      IntactIffCompacted();
      if Unknown() != {} || !UnrelatedIntact() || !OldIntact() {
        return Refused;
      }
      IntactMovedUpAtMost();
      var _ :- Retire();
      AuditPasses();
      if !NewIntact() {
        return Refused;
      }
      assert server.Keys <= plan.baseline.Keys + newById.Keys + Unknown();
      return Done(server.Keys * (plan.stale + newById.Keys));
    }

    // -------------------------------------------------------------- adding and deleting one filter

    /** What may be announced while everything is settled. */
    ghost predicate MayAnnounce(p: Option<Intent>)
      reads this`server
    {
      match p
      case None => true
      case Some(ToAdd(sha)) => exists body :: body in plan.desired && sha == plan.digest(body)
      case Some(ToDelete(id)) => id in plan.stale && id in server
    }

    lemma AnnouncementIsRemembered(p: Option<Intent>)
      requires InStep() && Settled() && MayAnnounce(p)
      ensures var newIds := DigestsOf(newById);
              plan.JournalSafe(durable.value.(phase := Active, retired := retired, newIds := newIds,
                                              pending := PendingOf(p, durable.value.stale + newIds)), server)
    {
      var s := durable.value;
      var q := PendingOf(p, s.stale + s.newIds);
      if p.Some? && p.value.ToDelete? {
        assert p.value.id !in s.newIds && p.value.id in s.stale;
      }
      assert plan.Announceable(q, server);
      plan.AnnouncementIsJournalled(s, server, q);
    }

    /** Announcing the next operation in the journal, or that there is none. */
    method Announce(p: Option<Intent>) returns (out: Outcome<()>)
      requires InStep() && Settled() && MayAnnounce(p)
      modifies this`durable, this`fuel, this`pending
      ensures Safe() && pending == p
      ensures out.Done? ==> InStep()
      ensures old(fuel).None? ==> out.Done? && fuel.None?
    {
      hide Plan.JournalSafe, Plan.ServerSafe, Plan.Converged, Plan.Premise, DigestsOf, ConfigSafe, PendingOf,
           MayAnnounce, Settled;
      AnnouncementIsRemembered(p);
      pending := p;
      out := Save();
    }

    /** Bodies other than one are on the server as before. */
    ghost predicate SameApartFrom(body: string, f: Filters, g: Filters) {
      forall b {:trigger Present(g, b)} :: b != body ==> (Present(f, b) <==> Present(g, b))
    }

    lemma AddedIsPresent(f: Filters, g: Filters, id: Id, rule: Rule)
      requires id !in f && Renumbered(f[id := rule], g)
      ensures Present(g, rule.body) && SameApartFrom(rule.body, f, g)
    {
      assert id in g && g[id].body == rule.body;
      forall b | b != rule.body ensures Present(f, b) <==> Present(g, b) {
        if Present(f, b) {
          var k :| k in f && f[k].body == b;
          assert k in g && g[k].body == b;
        }
        if Present(g, b) {
          var k :| k in g && g[k].body == b;
          assert k in f && f[k].body == b;
        }
      }
    }

    lemma AddedIsNew(f: Filters, s: State, id: Id, rule: Rule)
      requires plan.Premise() && plan.ServerSafe(f) && plan.JournalSafe(s, f) && id !in f && id != ""
      requires rule.body in plan.desired && !Present(f, rule.body)
      ensures plan.ServerSafe(f[id := rule]) && id !in plan.baseline && id !in plan.stale && id !in s.newIds
    {
      plan.AddIsSafe(f, id, rule);
    }

    lemma AddIsAccounted(f: Filters, g: Filters, s: State, id: Id, rule: Rule)
      requires plan.Premise() && plan.ServerSafe(f) && plan.JournalSafe(s, f)
      requires f.Keys <= plan.baseline.Keys + s.newIds.Keys && id !in f && id != "" && Renumbered(f[id := rule], g)
      requires rule.body in plan.desired && !Present(f, rule.body)
      requires s.pending == Some(Pending(Adding, "", plan.digest(rule.body)))
      ensures plan.ServerSafe(g) && plan.JournalSafe(s, g) && plan.stale - g.Keys == plan.stale - f.Keys
      ensures g.Keys - plan.baseline.Keys - s.newIds.Keys == {id} && g[id].body == rule.body
    {
      hide Plan.JournalSafe, Plan.ServerSafe, Plan.Premise;
      AddedIsNew(f, s, id, rule);
      assert g.Keys == f.Keys + {id};
      plan.AddIsJournalled(s, f, id, rule);
      plan.RenumberIsSafe(f[id := rule], g);
      plan.RenumberIsJournalled(s, f[id := rule], g);
    }

    /** While a desired body is missing, the configuration is the old one. */
    lemma NotYetConfigured(body: string)
      requires Safe() && body in plan.desired && !Present(server, body)
      ensures config == before && (durable.Some? ==> !durable.value.applied)
    {
    }

    /** The announced addition; whatever the server does, the journal accounts for it. */
    method CallAdd(rule: Rule) returns (out: Outcome<Id>)
      requires InStep() && Settled() && pending == Some(ToAdd(plan.digest(rule.body)))
      requires rule.body in plan.desired && !Present(server, rule.body)
      modifies this`server
      ensures InStep() && !out.Crashed?
      ensures out.Done? ==> out.value != "" && Unknown() == {out.value} && server[out.value].body == rule.body
      ensures out.Done? ==> SameApartFrom(rule.body, old(server), server) && Present(server, rule.body)
      ensures retired == plan.stale - server.Keys
      ensures calm ==> out.Done? && (old(Undisturbed()) ==> Undisturbed())
    {
      hide Plan.JournalSafe, Plan.ServerSafe, Plan.Premise, Plan.AllPresent, Present, SameApartFrom, DigestsOf;
      ghost var f, s := server, durable.value;
      NotYetConfigured(rule.body);
      KeysOfNames();
      ghost var added;
      out, added := ServerAdd(rule);
      if added.Some? {
        AddIsAccounted(f, server, s, added.value, rule);
        AddedIsPresent(f, server, added.value, rule);
      }
    }

    lemma KeysOfNames()
      requires InStep()
      ensures durable.value.newIds.Keys == newById.Keys
    {
    }

    /** `add_filter`, for a body the server does not have. */
    method AddFilter(rule: Rule) returns (out: Outcome<()>)
      requires plan.Distinguishes() && InStep() && pendingDelete.None? && !Present(server, rule.body)
      modifies this`server, this`durable, this`fuel, this`active, this`retired, this`newById, this`confirmed,
               this`pending
      ensures Safe()
      ensures out.Done? ==>
                && InStep() && Present(server, rule.body) && SameApartFrom(rule.body, old(server), server)
                && MovedUpAtMost()
      ensures old(fuel).None? && calm && old(Undisturbed()) && rule.body in plan.desired ==>
                out.Done? && fuel.None? && Undisturbed()
    {
      hide Plan.JournalSafe, Plan.ServerSafe, Plan.Premise, Plan.Distinguishes, DigestsOf, ConfigSafe, Recalls, Sound,
           PendingOf, Undisturbed,
           SameApartFrom, Present, MovedUpAtMost, Plan.Converged;
      var _ :- SnapshotFilters();
      if rule.body !in plan.desired {
        return Refused;
      }
      var _ :- Announce(Some(ToAdd(plan.digest(rule.body))));
      var id :- CallAdd(rule);
      if id == "" || id in plan.baseline || id in newById || id in retired {
        return Refused;
      }
      out := ConfirmAdded(id, rule.body);
    }

    /** The second half of `add_filter`: the answer is named, read back, and no longer announced. */
    method ConfirmAdded(id: Id, body: string) returns (out: Outcome<()>)
      requires plan.Distinguishes() && InStep() && pendingDelete.None? && pending.Some? && pending.value.ToAdd?
      requires Unknown() == {id} && retired == plan.stale - server.Keys && server[id].body == body
      modifies this`durable, this`fuel, this`active, this`retired, this`newById, this`confirmed, this`pending
      ensures Safe()
      ensures out.Done? ==> InStep() && MovedUpAtMost() && id in confirmed
      ensures old(fuel).None? && Undisturbed() ==> out.Done? && fuel.None?
    {
      hide Plan.JournalSafe, Plan.ServerSafe, Plan.Premise, Plan.Distinguishes, DigestsOf, ConfigSafe, Recalls,
           PendingOf, Undisturbed, MovedUpAtMost,
           Plan.Converged, SameButPriority, Compacted;
      var _ :- Name(id, pending, false);
      assert Settled() by {
        assert server.Keys <= plan.baseline.Keys + newById.Keys + Unknown();
      }
      var readback :- SnapshotFilters();
      if id !in readback || id !in server || server[id].body != body {
        return Refused;
      }
      confirmed := confirmed + {id};
      out := Announce(None);
    }

    lemma DeleteIsAccounted(f: Filters, g: Filters, s: State, id: Id)
      requires plan.Premise() && plan.ServerSafe(f) && plan.JournalSafe(s, f) && plan.AllPresent(f) && id in plan.stale
      requires s.pending.Some? && s.pending.value.kind == Deleting && s.pending.value.id == id
      requires Renumbered(f - {id}, g)
      ensures plan.ServerSafe(g) && plan.JournalSafe(s, g) && plan.AllPresent(g) && g.Keys == f.Keys - {id}
    {
      hide Plan.JournalSafe, Plan.ServerSafe, Plan.Premise, Plan.AllPresent;
      assert plan.stale <= plan.baseline.Keys by {
        PremiseNamesOld();
      }
      plan.DeleteIsSafe(f, id);
      plan.DeleteIsJournalled(s, f, id);
      plan.RenumberIsSafe(f - {id}, g);
      plan.RenumberIsJournalled(s, f - {id}, g);
    }

    lemma PremiseNamesOld()
      requires plan.Premise()
      ensures plan.stale <= plan.baseline.Keys
    {
    }

    lemma OldFilterIsThere(id: Id)
      requires InStep() && id in plan.stale && id in server
      ensures config == before && !durable.value.applied && id !in newById
    {
    }

    /** The announced deletion. */
    method CallDelete(id: Id) returns (out: Outcome<()>)
      requires InStep() && Settled() && plan.AllPresent(server) && id in plan.stale && id in server
      requires pending == Some(ToDelete(id))
      modifies this`server
      ensures InStep() && !out.Crashed? && plan.AllPresent(server) && server.Keys <= old(server.Keys)
      ensures server.Keys == old(server.Keys) || server.Keys == old(server.Keys) - {id}
      ensures out.Done? ==> server.Keys == old(server.Keys) - {id}
      ensures calm ==> out.Done? && (old(Undisturbed()) ==> Undisturbed())
    {
      hide Plan.JournalSafe, Plan.ServerSafe, Plan.Premise, Plan.AllPresent, DigestsOf;
      ghost var f, s := server, durable.value;
      OldFilterIsThere(id);
      out := ServerDelete(id);
      if server != f {
        DeleteIsAccounted(f, server, s, id);
      }
    }

    /** `delete_filter`, for an old filter that is there, once every desired one is. */
    method DeleteFilter(id: Id) returns (out: Outcome<()>)
      requires plan.Distinguishes() && InStep() && pendingDelete.None?
      requires plan.AllPresent(server) && id in plan.stale && id in server
      modifies this`server, this`durable, this`fuel, this`active, this`retired, this`newById, this`confirmed,
               this`pending, this`pendingDelete
      ensures Safe() && pendingDelete.None?
      ensures out.Done? ==>
                InStep() && plan.AllPresent(server) && server.Keys == old(server.Keys) - {id} && MovedUpAtMost()
      ensures old(fuel).None? && calm && old(Undisturbed()) ==> out.Done? && fuel.None? && Undisturbed()
    {
      hide Plan.JournalSafe, Plan.ServerSafe, Plan.Premise, Plan.Distinguishes, DigestsOf, ConfigSafe, Recalls,
           PendingOf, Undisturbed,
           MovedUpAtMost, Plan.Converged, Plan.AllPresent;
      var _ :- SnapshotFilters();
      pendingDelete := Some(id);
      out := AnnounceAndDelete(id);
      pendingDelete := None;
    }

    /** The guarded part of `delete_filter`. */
    method AnnounceAndDelete(id: Id) returns (out: Outcome<()>)
      requires plan.Distinguishes() && InStep() && Settled() && pendingDelete == Some(id)
      requires plan.AllPresent(server) && id in plan.stale && id in server
      modifies this`server, this`durable, this`fuel, this`active, this`retired, this`newById, this`confirmed,
               this`pending
      ensures Safe()
      ensures out.Done? ==>
                InStep() && plan.AllPresent(server) && server.Keys == old(server.Keys) - {id} && MovedUpAtMost()
      ensures old(fuel).None? && calm && old(Undisturbed()) ==> out.Done? && fuel.None? && Undisturbed()
    {
      hide Plan.JournalSafe, Plan.ServerSafe, Plan.Premise, Plan.Distinguishes, DigestsOf, ConfigSafe, Recalls,
           PendingOf, Undisturbed,
           MovedUpAtMost, Plan.Converged, Plan.AllPresent;
      var _ :- Announce(Some(ToDelete(id)));
      var _ :- CallDelete(id);
      var readback :- SnapshotFilters();
      if id in readback {
        return Refused;
      }
      return Done(());
    }

    // -------------------------------------------------------------- a whole run

    /** What a run that finds a journal asks of each filter before it goes on. */
    predicate Listed(s: State, id: Id)
      requires id in server
      reads this`server
    {
      if id in s.unrelated then plan.stamp(server[id]) == s.unrelated[id]
      else if id in s.stale then plan.digest(server[id].body) == s.stale[id]
      else if id in s.newIds then plan.digest(server[id].body) == s.newIds[id]
      else s.pending.Some? && s.pending.value.kind == Adding && plan.digest(server[id].body) == s.pending.value.sha
    }

    function Unlisted(s: State): set<Id>
      reads this`server
    {
      server.Keys - s.unrelated.Keys - s.stale.Keys - s.newIds.Keys
    }

    predicate BaselineMatches(s: State)
      reads this`server
    {
      (forall id :: id in server ==> Listed(s, id)) && |Unlisted(s)| <= 1
    }

    lemma UndisturbedIsListed(s: State, id: Id)
      requires plan.Premise() && plan.ServerSafe(server) && plan.JournalSafe(s, server) && Undisturbed() && id in server
      ensures Listed(s, id)
    {
      if id in plan.baseline && id !in plan.stale {
        assert server[id] == plan.baseline[id];
      }
    }

    lemma ListedIsBaseline(s: State, id: Id)
      requires plan.Distinguishes() && s.unrelated == plan.UnrelatedStamps()
      requires id in plan.baseline && id !in plan.stale && id in server && Listed(s, id)
      ensures server[id] == plan.baseline[id]
    {
      assert plan.stamp(server[id]) == plan.stamp(plan.baseline[id]);
    }

    /** A journal matches the server only when no unrelated filter has been touched. */
    lemma MatchesUndisturbed(s: State)
      requires plan.Distinguishes() && plan.JournalSafe(s, server) && BaselineMatches(s)
      ensures Undisturbed()
    {
      hide Plan.Distinguishes, Listed, Validated, Plan.Named, Plan.UnnamedIsPending, Plan.UnrelatedStamps,
           Plan.StaleDigests, Plan.WantedDigests;
      forall id | id in plan.baseline && id !in plan.stale && id in server ensures server[id] == plan.baseline[id] {
        ListedIsBaseline(s, id);
      }
    }

    lemma UnlistedIsOne(s: State, u: Id, v: Id)
      requires plan.Distinguishes() && plan.Premise() && plan.ServerSafe(server) && plan.JournalSafe(s, server)
      requires u in Unlisted(s) && v in Unlisted(s)
      ensures u == v
    {
      hide Plan.Distinguishes, Plan.ServerSafe, Validated;
      plan.OneUnknown(s, server, u, v);
    }

    lemma UndisturbedMatches(s: State)
      requires plan.Distinguishes() && plan.Premise() && plan.ServerSafe(server) && plan.JournalSafe(s, server)
      requires Undisturbed()
      ensures BaselineMatches(s)
    {
      hide Plan.Distinguishes, Plan.ServerSafe, Plan.Premise, Plan.JournalSafe, Undisturbed, Listed;
      forall id | id in server ensures Listed(s, id) {
        UndisturbedIsListed(s, id);
      }
      if Unlisted(s) != {} {
        var u :| u in Unlisted(s);
        forall v | v in Unlisted(s) ensures v == u {
          UnlistedIsOne(s, u, v);
        }
        assert Unlisted(s) == {u};
      }
    }

    /** The desired bodies that have a digest. */
    function Matches(sha: string): set<string> {
      set body | body in plan.desired && plan.digest(body) == sha
    }

    lemma OneMatch(s: State, id: Id)
      requires plan.Distinguishes() && plan.ServerSafe(server) && plan.JournalSafe(s, server) && id in s.newIds
      ensures id in server && Matches(s.newIds[id]) == {server[id].body}
    {
      assert server[id].body in plan.desired;
      forall body | body in Matches(s.newIds[id]) ensures body == server[id].body {
      }
    }

    /** The bodies of the filters the journal says were added. */
    method BodiesOf(s: State) returns (out: Outcome<map<Id, string>>)
      requires plan.Distinguishes() && plan.ServerSafe(server) && plan.JournalSafe(s, server)
      ensures out.Done? && out.value.Keys == s.newIds.Keys
      ensures forall id :: id in out.value ==> id in server && out.value[id] == server[id].body
      ensures DigestsOf(out.value) == s.newIds
    {
      hide Plan.ServerSafe, Plan.Distinguishes, Validated, Plan.StaleDigests, Plan.WantedDigests, Plan.UnrelatedStamps,
           Plan.UnnamedIsPending, Matches;
      var bodies: map<Id, string> := map[];
      var rest := s.newIds.Keys;
      while rest != {}
        invariant rest <= s.newIds.Keys && bodies.Keys == s.newIds.Keys - rest
        invariant forall id :: id in bodies ==> id in server && bodies[id] == server[id].body
      {
        var id :| id in rest;
        OneMatch(s, id);
        if |Matches(s.newIds[id])| != 1 {
          return Refused;
        }
        var body :| body in Matches(s.newIds[id]);
        bodies := bodies[id := body];
        rest := rest - {id};
      }
      assert DigestsOf(bodies) == s.newIds;
      return Done(bodies);
    }

    function IntentOf(p: Option<Pending>): Option<Intent> {
      match p
      case None => None
      case Some(Pending(Adding, _, sha)) => Some(ToAdd(sha))
      case Some(Pending(Deleting, id, _)) => Some(ToDelete(id))
    }

    lemma FreshIsInStep()
      requires plan.Premise() && Validated(plan.Fresh()) && Safe() && durable.None?
      ensures plan.JournalSafe(plan.Fresh(), server)
    {
      plan.FreshIsSafe();
    }

    /** `prepare_v2`: the journal of a new migration. */
    method Prepare() returns (out: Outcome<()>)
      requires Safe() && durable.None?
      modifies this`durable, this`fuel
      ensures Safe() && (out.Done? ==> durable == Some(plan.Fresh()) && config == before)
      ensures old(fuel).None? && Validated(plan.Fresh()) ==> out.Done? && fuel.None?
    {
      hide Plan.JournalSafe, Plan.ServerSafe, Plan.Premise, Plan.Converged, ScopeValid, PendingValid;
      if Validated(plan.Fresh()) {
        FreshIsInStep();
      }
      out := Write(plan.Fresh());
    }

    /** Taking a migration up from its journal. */
    method Resume() returns (out: Outcome<()>)
      requires plan.Distinguishes() && Safe() && durable.Some?
      modifies this`active, this`retired, this`newById, this`confirmed, this`pending, this`pendingDelete,
               this`priorities
      ensures Safe() && (out.Done? ==> InStep() && pendingDelete.None? && BaselineMatches(durable.value))
      ensures out.Done? <==> Undisturbed()
      ensures !out.Crashed?
    {
      hide Plan.ServerSafe, Plan.Premise, Plan.Distinguishes, Plan.JournalSafe, Plan.Converged, BaselineMatches,
           Undisturbed, DigestsOf, InStep,
           ConfigSafe;
      var s := durable.value;
      if Undisturbed() {
        UndisturbedMatches(s);
      }
      if !BaselineMatches(s) {
        return Refused;
      }
      MatchesUndisturbed(s);
      var bodies :- BodiesOf(s);
      Remember(bodies);
      return Done(());
    }

    method Remember(bodies: map<Id, string>)
      requires Safe() && durable.Some? && DigestsOf(bodies) == durable.value.newIds
      requires forall id :: id in bodies ==> id in server && bodies[id] == server[id].body
      modifies this`active, this`retired, this`newById, this`confirmed, this`pending, this`pendingDelete,
               this`priorities
      ensures InStep() && pendingDelete.None?
      ensures priorities.Keys == plan.baseline.Keys
      ensures forall id :: id in plan.baseline ==>
                priorities[id] == if id in server then Some(server[id].priority) else None
    {
      hide Plan.ServerSafe, Plan.Premise, Plan.JournalSafe, Plan.Converged, DigestsOf, PendingOf, ConfigSafe,
           KnownPriorities;
      var s := durable.value;
      PendingIsRecalled(s);
      KnownTells();
      active, retired, newById := plan.stale - s.retired, s.retired, bodies;
      confirmed, pending, pendingDelete, priorities := newById.Keys, IntentOf(s.pending), None, KnownPriorities();
    }

    /** The baseline a run works with: filters that are gone have no priority in it. */
    function KnownPriorities(): map<Id, Option<nat>>
      reads this`server
    {
      map id | id in plan.baseline :: if id in server then Some(server[id].priority) else None
    }

    lemma KnownTells()
      ensures KnownPriorities().Keys == plan.baseline.Keys
      ensures forall id :: id in plan.baseline ==>
                KnownPriorities()[id] == if id in server then Some(server[id].priority) else None
    {
    }

    lemma PendingIsRecalled(s: State)
      requires plan.JournalSafe(s, server)
      ensures s.pending == PendingOf(IntentOf(s.pending), s.stale + s.newIds)
    {
    }

    /** `prepare_v2`, or the journal of the run before. */
    method Start() returns (out: Outcome<bool>)
      requires plan.Distinguishes() && Safe()
      modifies this`durable, this`fuel, this`active, this`retired, this`newById, this`confirmed, this`pending,
               this`pendingDelete, this`priorities
      ensures Safe() && (out.Done? ==> InStep() && pendingDelete.None? && (out.value || config == before))
      ensures out.Done? ==> Undisturbed()
      ensures old(fuel).None? && Undisturbed() && (old(durable).None? ==> Validated(plan.Fresh())) ==>
                out.Done? && fuel.None?
    {
      hide Plan.JournalSafe, Plan.ServerSafe, Plan.Premise, Plan.Distinguishes, Plan.Converged, Plan.Fresh, Validated,
           InStep, Undisturbed, Safe;
      var resuming := durable.Some?;
      if !resuming {
        var _ :- Prepare();
      }
      var _ :- Resume();
      return Done(resuming);
    }

    /** Every desired body the server lacks is added, one announced call at a time. */
    method AddMissing(there: set<string>) returns (out: Outcome<()>)
      requires plan.Distinguishes() && InStep() && pendingDelete.None? && Distinct(plan.desired)
      requires forall body :: body in plan.desired ==> (body in there <==> Present(server, body))
      modifies this`server, this`durable, this`fuel, this`active, this`retired, this`newById, this`confirmed,
               this`pending
      ensures Safe()
      ensures out.Done? ==> InStep() && plan.AllPresent(server)
      ensures old(fuel).None? && calm && old(Undisturbed()) ==> out.Done? && fuel.None? && Undisturbed()
    {
      hide Plan.JournalSafe, Plan.ServerSafe, Plan.Premise, Plan.Distinguishes, Plan.Converged, Undisturbed, Present,
           Recalls, Sound, ConfigSafe;
      var i := 0;
      while i < |plan.desired|
        invariant 0 <= i <= |plan.desired| && InStep()
        invariant forall j :: 0 <= j < |plan.desired| ==>
                    (plan.desired[j] in there || j < i <==> Present(server, plan.desired[j]))
        invariant old(fuel).None? && calm && old(Undisturbed()) ==> fuel.None? && Undisturbed()
      {
        var body := plan.desired[i];
        if body !in there {
          var domain: string, priority: nat := *, *;
          var _ :- AddFilter(Rule(domain, body, priority));
        }
        i := i + 1;
      }
      return Done(());
    }

    /** Every old filter the server still has is deleted, one announced call at a time. */
    method DeleteStale() returns (out: Outcome<()>)
      requires plan.Distinguishes() && InStep() && pendingDelete.None? && plan.AllPresent(server)
      modifies this`server, this`durable, this`fuel, this`active, this`retired, this`newById, this`confirmed,
               this`pending, this`pendingDelete
      ensures Safe() && pendingDelete.None?
      ensures out.Done? ==> InStep() && plan.Converged(server)
      ensures old(fuel).None? && calm && old(Undisturbed()) ==> out.Done? && fuel.None? && Undisturbed()
    {
      hide Plan.JournalSafe, Plan.ServerSafe, Plan.Premise, Plan.Distinguishes, Plan.AllPresent, Undisturbed, Recalls,
           Sound, ConfigSafe;
      var there := server.Keys;
      var rest := plan.stale;
      while rest != {}
        invariant rest <= plan.stale && InStep() && plan.AllPresent(server) && pendingDelete.None?
        invariant server.Keys == there - (plan.stale - rest)
        invariant old(fuel).None? && calm && old(Undisturbed()) ==> fuel.None? && Undisturbed()
      {
        var id :| id in rest;
        rest := rest - {id};
        if id in there {
          var _ :- DeleteFilter(id);
        }
      }
      return Done(());
    }

    lemma AppliedIsJournalled(s: State)
      requires plan.JournalSafe(s, server)
      ensures plan.JournalSafe(s.(phase := Active, applied := true), server)
    {
    }

    /** The journal records that the configuration names the new targets. */
    method RecordApplied() returns (out: Outcome<()>)
      requires InStep() && plan.Converged(server) && config == after
      modifies this`durable, this`fuel
      ensures Safe() && (out.Done? ==> InStep() && durable.value.applied)
      ensures old(fuel).None? ==> out.Done? && fuel.None?
    {
      hide Plan.JournalSafe, Plan.ServerSafe, Plan.Premise, Plan.Converged, ScopeValid, PendingValid, DigestsOf, Sound;
      var s := durable.value.(phase := Active, applied := true);
      AppliedIsJournalled(durable.value);
      assert Validated(s) by {
        JournalIsValid(s);
      }
      out := Write(s);
    }

    lemma JournalIsValid(s: State)
      requires plan.JournalSafe(s, server)
      ensures Validated(s)
    {
    }

    /** The compare-and-swap of the private configuration, and its record. */
    method ApplyConfig(resuming: bool) returns (out: Outcome<()>)
      requires InStep() && plan.Converged(server) && (resuming || config == before)
      modifies this`durable, this`fuel, this`config
      ensures Safe() && (out.Done? ==> InStep() && durable.value.applied && config == after)
      ensures old(fuel) == Some(0) ==> config == old(config)
      ensures old(fuel).None? ==> out.Done? && fuel.None?
    {
      hide Plan.JournalSafe, Plan.ServerSafe, Plan.Premise, Plan.Converged, DigestsOf, Sound, Recalls;
      if durable.value.applied {
        if config != after {
          return Refused;
        }
        return Done(());
      }
      if !(config == after && resuming) {
        if config != before {
          return Refused;
        }
        var alive := Tick();
        if !alive {
          return Crashed;
        }
        config := after;
      }
      out := RecordApplied();
    }

    /** `_verify_committable_scope` */
    predicate Committable(s: State)
      reads this`server
    {
      && server.Keys == s.unrelated.Keys + s.newIds.Keys
      && s.stale.Keys == s.retired && SameDigests(s.newIds, s.wanted)
      && (forall id :: id in s.unrelated && id in server ==> plan.stamp(server[id]) == s.unrelated[id])
      && (forall id :: id in s.newIds && id in server ==> plan.digest(server[id].body) == s.newIds[id])
    }

    lemma {:induction false} InjectiveValues(m: map<Id, string>)
      requires forall a, b :: a in m && b in m && m[a] == m[b] ==> a == b
      ensures |m.Values| == |m|
      decreases |m|
    {
      if m != map[] {
        var a :| a in m;
        var rest := m - {a};
        InjectiveValues(rest);
        assert m.Keys == rest.Keys + {a};
        assert m.Values == rest.Values + {m[a]} by {
          forall v | v in m.Values ensures v in rest.Values + {m[a]} {
            var k :| k in m && m[k] == v;
            assert k == a || (k in rest && rest[k] == v);
          }
        }
        assert m[a] !in rest.Values;
      }
    }

    lemma {:induction false} DistinctSize(s: seq<string>)
      requires Distinct(s)
      ensures |set d | d in s| == |s|
    {
      if s != [] {
        var rest := s[..|s| - 1];
        DistinctSize(rest);
        assert (set d | d in s) == (set d | d in rest) + {s[|s| - 1]};
      }
    }

    lemma NewIdOf(f: Filters, s: State, d: string) returns (id: Id)
      requires plan.Premise() && plan.ServerSafe(f) && plan.JournalSafe(s, f) && plan.AllPresent(f)
      requires f.Keys <= plan.baseline.Keys + s.newIds.Keys && d in s.wanted
      ensures id in s.newIds && s.newIds[id] == d
    {
      var i :| 0 <= i < |s.wanted| && s.wanted[i] == d;
      var body := plan.desired[i];
      assert body in plan.desired && d == plan.digest(body);
      assert Present(f, body);
      id :| id in f && f[id].body == body;
    }

    lemma NamesAreInjective(f: Filters, s: State, a: Id, b: Id)
      requires plan.Distinguishes() && plan.ServerSafe(f) && plan.JournalSafe(s, f)
      requires a in s.newIds && b in s.newIds && s.newIds[a] == s.newIds[b]
      ensures a == b
    {
      assert f[a].body in plan.desired;
    }

    lemma NamesCount(newIds: map<Id, string>, wanted: seq<string>)
      requires Distinct(wanted)
      requires forall a, b :: a in newIds && b in newIds && newIds[a] == newIds[b] ==> a == b
      requires newIds.Values == set d | d in wanted
      ensures SameDigests(newIds, wanted)
    {
      InjectiveValues(newIds);
      DistinctSize(wanted);
    }

    /** Once everything desired is there, the journal names it all, each once. */
    lemma ConvergedIsNamed(f: Filters, s: State)
      requires plan.Distinguishes() && plan.Premise() && plan.ServerSafe(f) && plan.JournalSafe(s, f)
      requires plan.AllPresent(f)
      requires f.Keys <= plan.baseline.Keys + s.newIds.Keys
      ensures SameDigests(s.newIds, s.wanted)
    {
      hide Plan.Distinguishes, Plan.Premise, Plan.ServerSafe, Plan.AllPresent, Plan.Named, Plan.UnnamedIsPending,
           SameDigests;
      forall a, b | a in s.newIds && b in s.newIds && s.newIds[a] == s.newIds[b] ensures a == b {
        NamesAreInjective(f, s, a, b);
      }
      forall d | d in s.wanted ensures d in s.newIds.Values {
        var id := NewIdOf(f, s, d);
      }
      assert s.newIds.Values == set d | d in s.wanted;
      NamesCount(s.newIds, s.wanted);
    }

    lemma ConvergedKeys(f: Filters, s: State)
      requires plan.Premise() && plan.ServerSafe(f) && plan.JournalSafe(s, f) && plan.stale !! f.Keys
      requires f.Keys <= plan.baseline.Keys + s.newIds.Keys && s.retired == plan.stale - f.Keys
      ensures f.Keys == s.unrelated.Keys + s.newIds.Keys && s.stale.Keys == s.retired
    {
      assert s.stale.Keys == plan.stale && s.unrelated.Keys == plan.baseline.Keys - plan.stale;
    }

    lemma StampsAgree(f: Filters, s: State, id: Id)
      requires plan.JournalSafe(s, f) && id in f
      ensures id in s.unrelated && f[id] == plan.baseline[id] ==> plan.stamp(f[id]) == s.unrelated[id]
      ensures id in s.newIds ==> plan.digest(f[id].body) == s.newIds[id]
    {
    }

    lemma Facts()
      requires InStep() && Settled()
      ensures server.Keys <= plan.baseline.Keys + durable.value.newIds.Keys
      ensures durable.value.retired == plan.stale - server.Keys && plan.JournalSafe(durable.value, server)
    {
    }

    lemma ConvergedIsCommittable()
      requires plan.Distinguishes() && InStep() && Settled() && plan.Converged(server) && Undisturbed()
      ensures Committable(durable.value)
    {
      hide Plan.Distinguishes, Plan.Premise, Plan.JournalSafe, Plan.ServerSafe, Plan.AllPresent, ConfigSafe, Recalls,
           Sound, Settled, SameDigests;
      var s := durable.value;
      Facts();
      ConvergedIsNamed(server, s);
      ConvergedKeys(server, s);
      forall id | id in server
        ensures id in s.unrelated ==> plan.stamp(server[id]) == s.unrelated[id]
        ensures id in s.newIds ==> plan.digest(server[id].body) == s.newIds[id]
      {
        StampsAgree(server, s, id);
        UnrelatedAreBaseline(s, id);
      }
    }

    lemma UnrelatedAreBaseline(s: State, id: Id)
      requires plan.JournalSafe(s, server) && Undisturbed() && id in server
      ensures id in s.unrelated ==> id in plan.baseline && server[id] == plan.baseline[id]
    {
    }

    lemma CommitIsValid(f: Filters, s: State)
      requires plan.JournalSafe(s, f) && s.applied && SameDigests(s.newIds, s.wanted) && s.stale.Keys <= s.retired
      ensures Validated(s.(phase := Committed, pending := None))
    {
    }

    /** The unrelated filters exactly, every desired body once, and nothing else. */
    ghost predicate ServerMigrated()
      reads this`server
    {
      && (forall id :: id in plan.baseline ==> (id in server <==> id !in plan.stale))
      && (forall id :: id in plan.baseline && id in server ==> server[id] == plan.baseline[id])
      && (forall id :: id in server && id !in plan.baseline ==> server[id].body in plan.desired)
      && (forall body :: body in plan.desired ==> Present(server, body))
      && (forall a, b ::
            a in server && b in server && server[a].body == server[b].body && server[a].body in plan.desired ==> a == b)
    }

    /** What a committed migration leaves. */
    ghost predicate Migrated()
      reads this`server, this`durable, this`config
    {
      durable.Some? && Validated(durable.value) && durable.value.phase == Committed && config == after
        && ServerMigrated()
    }

    lemma UnrelatedAreExact(s: State, id: Id)
      requires plan.Distinguishes() && plan.JournalSafe(s, server) && Committable(s) && id in plan.baseline
      requires id in server
      requires plan.stale !! server.Keys
      ensures server[id] == plan.baseline[id]
    {
      assert id in s.unrelated && plan.stamp(server[id]) == plan.stamp(plan.baseline[id]);
    }

    lemma CommittableIsMigrated(s: State)
      requires plan.Distinguishes() && plan.Premise() && plan.ServerSafe(server) && plan.JournalSafe(s, server)
      requires Committable(s) && plan.Converged(server)
      ensures ServerMigrated()
    {
      hide Plan.Distinguishes, Committable, Plan.JournalSafe;
      forall id | id in plan.baseline && id in server ensures server[id] == plan.baseline[id] {
        UnrelatedAreExact(s, id);
      }
      forall body | body in plan.desired ensures Present(server, body) {
      }
    }

    lemma CommittableIsSettled(s: State)
      requires Committable(s)
      ensures s.stale.Keys <= s.retired && SameDigests(s.newIds, s.wanted)
    {
    }

    /** The last checks, and the commit. */
    method Commit() returns (out: Outcome<()>)
      requires plan.Distinguishes() && InStep() && Settled() && plan.Converged(server) && durable.value.applied
      requires config == after
      modifies this`durable, this`fuel
      ensures if out.Done? then Migrated() else Safe()
      ensures old(fuel).None? && Undisturbed() ==> out.Done?
    {
      hide Plan.JournalSafe, Plan.ServerSafe, Plan.Premise, Plan.Distinguishes, Plan.Converged, Committable, Validated,
           Undisturbed,
           ServerMigrated, Settled, Sound, Recalls;
      if Undisturbed() {
        ConvergedIsCommittable();
      }
      if !Committable(durable.value) {
        return Refused;
      }
      CommittableIsSettled(durable.value);
      CommitIsValid(server, durable.value);
      CommittableIsMigrated(durable.value);
      out := Write(durable.value.(phase := Committed, pending := None));
    }

    lemma DesiredAreDistinct()
      requires Safe() && durable.Some?
      ensures Distinct(plan.desired)
    {
      forall i, j | 0 <= i < j < |plan.desired| ensures plan.desired[i] != plan.desired[j] {
        assert plan.WantedDigests()[i] != plan.WantedDigests()[j];
      }
    }

    /** The bodies of some filters. */
    function BodiesAmong(ids: set<Id>): set<string>
      reads this`server
    {
      set id | id in ids && id in server :: server[id].body
    }

    lemma ManagedBodies(ids: set<Id>, body: string)
      requires Safe() && Settled() && ids == server.Keys * (plan.stale + newById.Keys) && body in plan.desired
      ensures body in BodiesAmong(ids) <==> Present(server, body)
    {
    }

    /** The part of `sync_targets` that changes the server. */
    method SyncFilters() returns (out: Outcome<bool>)
      requires plan.Distinguishes() && Safe()
      modifies this
      ensures Safe() && calm == old(calm) && config == old(config)
      ensures out.Done? ==> InStep() && Settled() && plan.Converged(server) && (out.value || config == before)
      ensures out.Done? ==> old(Undisturbed())
      ensures old(fuel).None? && calm && old(Undisturbed()) && (old(durable).None? ==> Validated(plan.Fresh())) ==>
                out.Done? && fuel.None? && Undisturbed()
    {
      hide Plan.JournalSafe, Plan.ServerSafe, Plan.Premise, Plan.Distinguishes, Plan.Converged, Plan.AllPresent,
           Undisturbed, Present, Recalls,
           Sound, ConfigSafe, Validated, Migrated, MovedUpAtMost, BodiesAmong, Safe, Settled;
      var resuming :- Start();
      var recovered :- SnapshotFilters();
      DesiredAreDistinct();
      forall body | body in plan.desired ensures body in BodiesAmong(recovered) <==> Present(server, body) {
        ManagedBodies(recovered, body);
      }
      var _ :- AddMissing(BodiesAmong(recovered));
      recovered :- SnapshotFilters();
      var _ :- DeleteStale();
      recovered :- SnapshotFilters();
      return Done(resuming);
    }

    /** `sync_targets`, from its journal on: one attempt, which may be cut short anywhere. */
    method Sync() returns (out: Outcome<()>)
      requires plan.Distinguishes() && Safe()
      modifies this
      ensures calm == old(calm) && if out.Done? then Migrated() else Safe()
      ensures out.Done? ==> old(Undisturbed())
      ensures old(fuel).None? && calm && old(Undisturbed()) && (old(durable).None? ==> Validated(plan.Fresh())) ==>
                out.Done?
    {
      hide Plan.JournalSafe, Plan.ServerSafe, Plan.Premise, Plan.Distinguishes, Plan.Converged, Undisturbed, Recalls,
           Sound, ConfigSafe, Validated,
           Migrated, Settled;
      var resuming :- SyncFilters();
      var _ :- ApplyConfig(resuming);
      out := Commit();
    }

    /**
     Any number of attempts, each cut short anywhere and each against a server that may fail, not answer or
     renumber: what must not break never does, and an attempt that comes to its end has migrated everything.
     One more attempt that nothing disturbs comes to its end exactly when the unrelated filters it finds have the
     priorities they had at first; those of the old filters do not matter.
     */
    method Run(power: seq<Option<nat>>, calms: seq<bool>) returns (migrated: bool, ghost found: Filters)
      requires plan.Distinguishes() && Safe() && durable.None? && Validated(plan.Fresh()) && |calms| == |power|
      modifies this
      ensures if migrated then Migrated() else Safe()
      ensures migrated <==>
                forall id :: id in plan.baseline && id !in plan.stale && id in found ==> found[id] == plan.baseline[id]
    {
      hide Plan.JournalSafe, Plan.ServerSafe, Plan.Premise, Plan.Distinguishes, Plan.Converged, Validated, ConfigSafe;
      migrated := false;
      for i := 0 to |power|
        invariant if migrated then Migrated() else Safe()
      {
        if !migrated {
          fuel, calm := power[i], calms[i];
          var attempt := Sync();
          migrated := attempt.Done?;
        }
      }
      found := server;
      if !migrated {
        fuel, calm := None, true;
        var attempt := Sync();
        migrated := attempt.Done?;
      }
    }
  }
}
