/**
 The private outbox: a message is recorded before it is handed to the webhook, and only one whose every
 earlier send was definitely rejected as a whole may be handed over again.  Deliveries and retries run
 side by side and may stop between any two of their calls.
 */
module DeliveryOutbox {
  import opened Text

  type Id = string
  type Token = string

  // ---------------------------------------------------------------- what the provider answered

  datatype Code = Number(n: int) | Words(s: string)

  /** One HTTP attempt as far as it was diagnosed. */
  datatype Attempt = Attempt(json: bool, status: int, code: Option<Code>, description: string)

  datatype WebhookResult = WebhookResult(success: bool, attempts: seq<Attempt>)

  /** The provider refused this attempt for a reason that rules out any effect. */
  predicate DefiniteRejection(a: Attempt) {
    && a.json
    && ((&& a.status == 400 && (a.code == Some(Number(400)) || a.code == Some(Words("400")))
         && (a.description == "invalid parameter" || a.description == "missing parameter" ||
             a.description == "invalid webhook URL" ||
             a.description == "limit exceeded (body.text length exceeds 2000)")) ||
        (&& a.status == 429 && (a.code == Some(Number(429)) || a.code == Some(Words("429")))
         && a.description == "too many request"))
  }

  /** Something was attempted, and every attempt was refused. */
  predicate TotalRejection(r: WebhookResult) {
    !r.success && r.attempts != [] && forall i :: 0 <= i < |r.attempts| ==> DefiniteRejection(r.attempts[i])
  }

  /** `isDefiniteTotalRejection` */
  method IsDefiniteTotalRejection(r: WebhookResult) returns (definite: bool)
    ensures !r.success && definite <==> TotalRejection(r)
  {
    if r.attempts == [] {
      return false;
    }
    for i := 0 to |r.attempts|
      invariant forall k :: 0 <= k < i ==> DefiniteRejection(r.attempts[k])
    {
      var a := r.attempts[i];
      if !a.json {
        return false;
      }
      if a.status == 400 && (a.code == Some(Number(400)) || a.code == Some(Words("400"))) {
        if a.description in ["invalid parameter", "missing parameter", "invalid webhook URL",
          "limit exceeded (body.text length exceeds 2000)"] {
          continue;
        }
      }
      if a.status == 429 && (a.code == Some(Number(429)) || a.code == Some(Words("429")))
        && a.description == "too many request" {
        continue;
      }
      return false;
    }
    return true;
  }

  // ---------------------------------------------------------------- what is stored

  datatype Payload = Payload(recipients: seq<string>, title: string, text: string)

  datatype State = InFlight | Pending | ReviewOnly | Delivered

  datatype Item = Item(
    revision: string, state: State, createdAt: nat, expiresAt: nat, digest: string, token: Option<Token>,
    payload: Option<Payload>)

  type Items = map<Id, Item>

  const RETENTION := 604800
  const MAX_ITEMS := 100

  function Expired(items: Items, now: nat): set<Id> {
    set id | id in items && items[id].expiresAt <= now
  }

  function Live(items: Items, now: nat): Items {
    items - Expired(items, now)
  }

  /** A row lives for seven days from when it was made, and no longer. */
  lemma LivesForAWeek(items: Items, id: Id, now: nat, digest: Payload -> string)
    requires id in items && RowValid(items[id], digest)
    ensures id in Live(items, now) <==> now < items[id].createdAt + 7 * 24 * 60 * 60
    ensures id in Live(items, now) ==> Live(items, now)[id] == items[id]
  {
  }

  /** The checks `read` makes of one stored row. */
  predicate RowValid(item: Item, digest: Payload -> string) {
    && item.expiresAt == item.createdAt + RETENTION
    && (item.token.Some? <==> item.state == InFlight)
    && (item.payload.None? <==> item.state == Delivered)
    && (item.payload.Some? ==> item.payload.value.text != "" && item.digest == digest(item.payload.value))
  }

  // ---------------------------------------------------------------- what has happened

  datatype Event =
    | Claimed(id: Id, token: Token)
    | Sent(id: Id, token: Token, result: WebhookResult)
    | Finished(id: Id, token: Token, result: WebhookResult)
    | Dropped(ids: set<Id>)
    | SentUnrecorded(id: Id)
    | StoreFailed(id: Id)

  datatype Send = Send(token: Token, fate: Option<WebhookResult>)

  /** The sends of a message since it was last unknown, as the events tell. */
  function Sends(log: seq<Event>, id: Id): seq<Send> {
    if log == [] then [] else
      var earlier := Sends(log[..|log| - 1], id);
      match log[|log| - 1]
      case Claimed(i, t) => if i == id then earlier + [Send(t, None)] else earlier
      case Finished(i, t, r) => if i == id && earlier != [] then earlier[|earlier| - 1 := Send(t, Some(r))] else earlier
      case Dropped(ids) => if id in ids then [] else earlier
      case _ => earlier
  }

  predicate AllRejected(sends: seq<Send>) {
    forall k :: 0 <= k < |sends| ==> sends[k].fate.Some? && TotalRejection(sends[k].fate.value)
  }

  /** What the stored row says of the sends so far. */
  predicate Tells(item: Item, sends: seq<Send>) {
    && sends != [] && AllRejected(sends[..|sends| - 1])
    && var last := sends[|sends| - 1];
       match item.state
       case InFlight => last.fate.None? && item.token == Some(last.token)
       case Pending => last.fate.Some? && TotalRejection(last.fate.value)
       case ReviewOnly => last.fate.Some? && !last.fate.value.success && !TotalRejection(last.fate.value)
       case Delivered => last.fate.Some? && last.fate.value.success
  }

  /** A token is given out only once everything sent before was rejected; the last one alone can be finished. */
  predicate Lawful(log: seq<Event>, j: nat)
    requires j < |log|
  {
    match log[j]
    case Claimed(id, t) => AllRejected(Sends(log[..j], id))
    case Finished(id, t, r) =>
      var sends := Sends(log[..j], id);
      sends != [] && sends[|sends| - 1] == Send(t, None)
    case _ => true
  }

  /** What every run keeps. */
  ghost predicate History(log: seq<Event>) {
    && (forall j :: 0 <= j < |log| ==> Lawful(log, j))
    && (forall i, j :: 0 <= i < j < |log| && log[i].Claimed? && log[j].Claimed? ==> log[i].token != log[j].token)
    && (forall i, j :: 0 <= i < j < |log| && log[i].Sent? && log[j].Sent? ==> log[i].token != log[j].token)
    && (forall j :: 0 <= j < |log| && log[j].Sent? ==> Claimed(log[j].id, log[j].token) in log[..j])
    && (forall j :: 0 <= j < |log| && log[j].Finished? ==> Sent(log[j].id, log[j].token, log[j].result) in log[..j])
    && (forall j :: 0 <= j < |log| && log[j].SentUnrecorded? ==> StoreFailed(log[j].id) in log[..j])
  }

  /** The message is known throughout. */
  predicate Kept(log: seq<Event>, id: Id, i: nat, j: nat)
    requires i <= j <= |log|
  {
    forall k :: i <= k < j && log[k].Dropped? ==> id !in log[k].ids
  }

  /** One event leaves the earlier sends alone, or finishes the last of them. */
  lemma OneEvent(log: seq<Event>, id: Id, p: nat)
    requires log != [] && Lawful(log, |log| - 1) && p < |Sends(log[..|log| - 1], id)|
    requires log[|log| - 1].Dropped? ==> id !in log[|log| - 1].ids
    ensures var before, after, e := Sends(log[..|log| - 1], id), Sends(log, id), log[|log| - 1];
            && p < |after| && after[p].token == before[p].token
            && (after[p] == before[p]
              || (after[p].fate.Some? && e == Finished(id, before[p].token, after[p].fate.value)))
  {
  }

  /** Where the send of a token is among the sends, and how it may have been finished. */
  lemma {:induction false} SendStays(log: seq<Event>, i: nat, m: nat)
    requires forall j :: 0 <= j < |log| ==> Lawful(log, j)
    requires i < m <= |log| && log[i].Claimed? && Kept(log, log[i].id, i, m)
    ensures var p, sends := |Sends(log[..i], log[i].id)|, Sends(log[..m], log[i].id);
            && p < |sends| && sends[p].token == log[i].token
            && (sends[p].fate.Some? ==> Finished(log[i].id, log[i].token, sends[p].fate.value) in log[i + 1..m])
  {
    var id := log[i].id;
    assert log[..m][..m - 1] == log[..m - 1];
    if m > i + 1 {
      SendStays(log, i, m - 1);
      assert log[i + 1..m] == log[i + 1..m - 1] + [log[m - 1]];
      assert Lawful(log, m - 1) && log[..m - 1] == log[..m][..m - 1];
      assert Lawful(log[..m], m - 1);
      OneEvent(log[..m], id, |Sends(log[..i], id)|);
    }
  }

  /**
   While a message is known, a further token is given out only after every earlier send was finished as a
   definite total rejection; so one left in flight is never sent again.
   */
  lemma SecondTokenOnlyAfterRejection(log: seq<Event>, i: nat, j: nat)
    requires History(log) && i < j < |log| && log[i].Claimed? && log[j].Claimed? && log[i].id == log[j].id
    requires Kept(log, log[i].id, i, j)
    ensures exists k :: i < k < j && log[k].Finished? && log[k].id == log[i].id && log[k].token == log[i].token
              && TotalRejection(log[k].result)
  {
    SendStays(log, i, j);
    assert Lawful(log, j);
    var sends := Sends(log[..j], log[i].id);
    var send := sends[|Sends(log[..i], log[i].id)|];
    var end := Finished(log[i].id, log[i].token, send.fate.value);
    var k :| 0 <= k < |log[i + 1..j]| && log[i + 1..j][k] == end;
    assert log[i + 1 + k] == end;
  }

  // ---------------------------------------------------------------- how the rows mirror the events

  ghost predicate Mirrors(items: Items, log: seq<Event>) {
    && (forall id :: id in items ==> Tells(items[id], Sends(log, id)))
    && (forall id :: id !in items ==> Sends(log, id) == [])
  }

  lemma DropMirrors(items: Items, log: seq<Event>, ids: set<Id>)
    requires Mirrors(items, log)
    ensures Mirrors(items - ids, log + [Dropped(ids)])
  {
    assert (log + [Dropped(ids)])[..|log|] == log;
  }

  lemma ClaimTells(sends: seq<Send>, item: Item)
    requires item.state == InFlight && item.token.Some? && AllRejected(sends)
    ensures Tells(item, sends + [Send(item.token.value, None)])
  {
    hide TotalRejection;
    assert (sends + [Send(item.token.value, None)])[..|sends|] == sends;
  }

  lemma PendingIsRejected(item: Item, sends: seq<Send>)
    requires Tells(item, sends) && item.state == Pending
    ensures AllRejected(sends)
  {
    hide TotalRejection;
    assert sends == sends[..|sends| - 1] + [sends[|sends| - 1]];
  }

  /** A message that is unknown or pending may be claimed. */
  lemma ClaimMirrors(items: Items, log: seq<Event>, id: Id, item: Item)
    requires Mirrors(items, log) && item.state == InFlight && item.token.Some?
    requires id in items ==> items[id].state == Pending
    ensures AllRejected(Sends(log, id))
    ensures Mirrors(items[id := item], log + [Claimed(id, item.token.value)])
  {
    hide Tells, TotalRejection, AllRejected;
    if id in items {
      PendingIsRejected(items[id], Sends(log, id));
    } else {
      assert AllRejected([]) by { NothingIsRejected(); }
    }
    ClaimTells(Sends(log, id), item);
    assert (log + [Claimed(id, item.token.value)])[..|log|] == log;
  }

  lemma NothingIsRejected()
    ensures AllRejected([])
  {
  }

  /** What a finished send leaves in the row. */
  predicate Records(item: Item, r: WebhookResult) {
    item.state == (if r.success then Delivered else if TotalRejection(r) then Pending else ReviewOnly)
  }

  lemma FinishTells(sends: seq<Send>, before: Item, after: Item, r: WebhookResult)
    requires Tells(before, sends) && before.state == InFlight && before.token.Some? && Records(after, r)
    ensures sends != [] && sends[|sends| - 1] == Send(before.token.value, None)
    ensures Tells(after, sends[|sends| - 1 := Send(before.token.value, Some(r))])
  {
    hide TotalRejection;
    var finished := sends[|sends| - 1 := Send(before.token.value, Some(r))];
    assert finished[..|sends| - 1] == sends[..|sends| - 1];
  }

  lemma FinishMirrors(items: Items, log: seq<Event>, id: Id, item: Item, r: WebhookResult)
    requires Mirrors(items, log) && id in items && items[id].state == InFlight && items[id].token.Some?
    requires Records(item, r)
    ensures var sends := Sends(log, id); sends != [] && sends[|sends| - 1] == Send(items[id].token.value, None)
    ensures Mirrors(items[id := item], log + [Finished(id, items[id].token.value, r)])
  {
    hide Tells, TotalRejection, AllRejected, Records;
    FinishTells(Sends(log, id), items[id], item, r);
    assert (log + [Finished(id, items[id].token.value, r)])[..|log|] == log;
  }

  lemma OtherEventMirrors(items: Items, log: seq<Event>, e: Event)
    requires Mirrors(items, log) && (e.Sent? || e.SentUnrecorded? || e.StoreFailed?)
    ensures Mirrors(items, log + [e])
  {
    assert (log + [e])[..|log|] == log;
  }

  /** An event that keeps the history. */
  predicate MayHappen(log: seq<Event>, e: Event) {
    match e
    case Claimed(id, t) =>
      AllRejected(Sends(log, id)) && (forall k :: 0 <= k < |log| && log[k].Claimed? ==> log[k].token != t)
    case Sent(id, t, r) => Claimed(id, t) in log && (forall k :: 0 <= k < |log| && log[k].Sent? ==> log[k].token != t)
    case Finished(id, t, r) =>
      Sent(id, t, r) in log && (var sends := Sends(log, id); sends != [] && sends[|sends| - 1] == Send(t, None))
    case SentUnrecorded(id) => StoreFailed(id) in log
    case _ => true
  }

  lemma HistoryGrows(log: seq<Event>, e: Event)
    requires History(log) && MayHappen(log, e)
    ensures History(log + [e])
  {
    hide TotalRejection, AllRejected;
    var next := log + [e];
    forall j | 0 <= j < |next| ensures Lawful(next, j) {
      assert next[..j] == log[..j];
      assert j < |log| ==> Lawful(log, j);
      assert log[..|log|] == log;
    }
    CausesPrecede(log, e);
  }

  lemma CausesPrecede(log: seq<Event>, e: Event)
    requires History(log) && MayHappen(log, e)
    ensures var next := log + [e];
            forall j :: 0 <= j < |next| ==>
              && (next[j].Sent? ==> Claimed(next[j].id, next[j].token) in next[..j])
              && (next[j].Finished? ==> Sent(next[j].id, next[j].token, next[j].result) in next[..j])
              && (next[j].SentUnrecorded? ==> StoreFailed(next[j].id) in next[..j])
  {
    hide TotalRejection, AllRejected, Sends;
    var next := log + [e];
    forall j | 0 <= j < |next|
      ensures next[j].Sent? ==> Claimed(next[j].id, next[j].token) in next[..j]
      ensures next[j].Finished? ==> Sent(next[j].id, next[j].token, next[j].result) in next[..j]
      ensures next[j].SentUnrecorded? ==> StoreFailed(next[j].id) in next[..j]
    {
      assert next[..j] == log[..j];
      assert log[..|log|] == log;
    }
  }

  // ---------------------------------------------------------------- the store

  datatype Begun = Token(token: Token) | Known | Conflict | Unavailable

  datatype Claim = Claim(token: Token, title: string, text: string)

  /** A row the store may give up to make room: delivered, and no delivered one is older. */
  predicate Oldest(items: Items, victim: Id) {
    && victim in items && items[victim].state == Delivered
    && (forall id :: id in items && items[id].state == Delivered ==> items[victim].createdAt <= items[id].createdAt)
  }

  method FindOldest(items: Items) returns (victim: Option<Id>)
    ensures victim.Some? ==> Oldest(items, victim.value)
    ensures victim.Some? ==>
              victim.value in items && forall id :: id in items && items[id].state == Delivered ==>
                items[victim.value].createdAt <= items[id].createdAt
    ensures victim.None? ==> forall id :: id in items ==> items[id].state != Delivered
  {
    victim := None;
    var rest := items.Keys;
    while rest != {}
      invariant rest <= items.Keys
      invariant victim.Some? ==> victim.value in items && items[victim.value].state == Delivered
      invariant forall id :: id in items && id !in rest && items[id].state == Delivered ==>
                  victim.Some? && items[victim.value].createdAt <= items[id].createdAt
    {
      var id :| id in rest;
      rest := rest - {id};
      if items[id].state == Delivered && (victim.None? || items[id].createdAt < items[victim.value].createdAt) {
        victim := Some(id);
      }
    }
  }

  class Outbox {
    const digest: Payload -> string
    /** Whether a payload, and a whole store, keep to their sizes. */
    const small: Payload -> bool
    const fits: Items -> bool
    const lower: string -> string
    /** The successive values of `random_bytes`. */
    const supply: nat -> string

    var items: Items
    var drawn: nat
    ghost var log: seq<Event>

    /** Random values do not repeat. */
    ghost predicate Fresh() {
      forall i, j {:trigger supply(i), supply(j)} :: supply(i) == supply(j) ==> i == j
    }

    /** What is stored can be read back. */
    ghost predicate Readable()
      reads this`items
    {
      |items| <= MAX_ITEMS && forall id :: id in items ==> RowValid(items[id], digest)
    }

    ghost predicate Drawn(token: Token, n: nat) {
      exists i :: 0 <= i < n && token == supply(i)
    }

    ghost predicate TokensDrawn()
      reads this`drawn, this`log
    {
      forall k :: 0 <= k < |log| && log[k].Claimed? ==> Drawn(log[k].token, drawn)
    }

    ghost predicate Valid()
      reads this
    {
      Fresh() && Readable() && Mirrors(items, log) && History(log) && TokensDrawn()
    }

    constructor (digest: Payload -> string, small: Payload -> bool, fits: Items -> bool, lower: string -> string,
      supply: nat -> string)
      requires forall i, j {:trigger supply(i), supply(j)} :: supply(i) == supply(j) ==> i == j
      ensures Valid() && items == map[] && log == []
    {
      this.digest, this.small, this.fits, this.lower, this.supply := digest, small, fits, lower, supply;
      items, drawn, log := map[], 0, [];
    }

    /** A fresh token and a fresh revision. */
    method Draw() returns (token: Token, revision: string)
      requires Valid()
      modifies this`drawn
      ensures Valid() && Drawn(token, drawn)
      ensures token == supply(old(drawn)) && revision == supply(old(drawn) + 1)
      ensures forall k :: 0 <= k < |log| && log[k].Claimed? ==> log[k].token != token
    {
      hide History, Mirrors, RowValid;
      token, revision := supply(drawn), supply(drawn + 1);
      assert !Drawn(token, drawn);
      drawn := drawn + 2;
    }

    /** The rows the store forgets: expired ones, and one to make room. */
    ghost method Forget(ids: set<Id>)
      requires Valid()
      modifies this`log
      ensures Mirrors(items - ids, log) && History(log) && TokensDrawn() && log == old(log) + [Dropped(ids)]
    {
      hide Tells, Lawful, Sends, RowValid, History, Mirrors;
      DropMirrors(items, log, ids);
      HistoryGrows(log, Dropped(ids));
      log := log + [Dropped(ids)];
    }

    /** Rows that are gone once a message is begun: the expired, and one more only when there is no room. */
    ghost predicate Forgets(items: Items, now: nat, gone: set<Id>) {
      var live, expired := Live(items, now), Expired(items, now);
      if |live| < MAX_ITEMS then gone == expired
      else exists victim :: Oldest(live, victim) && gone == expired + {victim}
    }

    /** The events of a claim. */
    ghost method EnterClaim(id: Id, item: Item, gone: set<Id>)
      requires Valid() && item.state == InFlight && item.token.Some? && Drawn(item.token.value, drawn)
      requires id in items - gone ==> items[id].state == Pending
      requires forall k :: 0 <= k < |log| && log[k].Claimed? ==> log[k].token != item.token.value
      modifies this`log
      ensures Mirrors((items - gone)[id := item], log) && History(log) && TokensDrawn()
      ensures log == old(log) + [Dropped(gone), Claimed(id, item.token.value)]
    {
      hide Tells, Lawful, Sends, RowValid, History, Mirrors, AllRejected, Fresh, Drawn, Readable;
      Forget(gone);
      ClaimMirrors(items - gone, log, id, item);
      HistoryGrows(log, Claimed(id, item.token.value));
      log := log + [Claimed(id, item.token.value)];
    }

    /** Storing a claimed row in place of rows that are forgotten. */
    method StoreClaim(id: Id, item: Item, kept: Items, ghost gone: set<Id>) returns (ok: bool)
      requires Valid() && kept == items - gone
      requires RowValid(item, digest) && item.state == InFlight && item.token.Some? && |kept[id := item]| <= MAX_ITEMS
      requires id in kept ==> kept[id].state == Pending
      requires Drawn(item.token.value, drawn)
      requires forall k :: 0 <= k < |log| && log[k].Claimed? ==> log[k].token != item.token.value
      modifies this`items, this`log
      ensures Valid()
      ensures ok ==> items == kept[id := item] && log == old(log) + [Dropped(gone), Claimed(id, item.token.value)]
      ensures !ok ==> items == old(items) && log == old(log)
      ensures ok == fits(kept[id := item])
    {
      hide RowValid, History, Mirrors, Fresh, Drawn, TokensDrawn;
      if !fits(kept[id := item]) {
        return false;
      }
      EnterClaim(id, item, gone);
      items := kept[id := item];
      return true;
    }

    /** Storing what is left when the expired rows are forgotten. */
    method StoreLive(now: nat) returns (ok: bool)
      requires Valid()
      modifies this`items, this`log
      ensures Valid()
      ensures ok ==> items == Live(old(items), now) && log == old(log) + [Dropped(Expired(old(items), now))]
      ensures !ok ==> items == old(items) && log == old(log)
      ensures ok == fits(Live(old(items), now))
    {
      hide Tells, Lawful, Sends, RowValid, History, Mirrors;
      var live := Live(items, now);
      if !fits(live) {
        return false;
      }
      SubsetSize(live.Keys, items.Keys);
      Forget(Expired(items, now));
      items := live;
      return true;
    }

    /** The store is full, and nothing in it is delivered. */
    predicate NoRoom(now: nat)
      reads this`items
    {
      var live := Live(items, now);
      |live| >= MAX_ITEMS && forall id :: id in live ==> live[id].state != Delivered
    }

    /** The rows to keep once there is to be room for one more, or None. */
    method MakeRoom(now: nat) returns (kept: Option<Items>, ghost gone: set<Id>)
      requires |items| <= MAX_ITEMS
      ensures kept.Some? ==> Forgets(items, now, gone) && kept.value == items - gone && |kept.value| < MAX_ITEMS
      ensures kept.Some? ==> kept.value.Keys <= Live(items, now).Keys
      ensures kept.None? <==> NoRoom(now)
    {
      var live := Live(items, now);
      gone := Expired(items, now);
      if |live| < MAX_ITEMS {
        return Some(live), gone;
      }
      var victim := FindOldest(live);
      if victim.None? {
        return None, gone;
      }
      gone := gone + {victim.value};
      var fewer := live - {victim.value};
      assert fewer == items - gone;
      SubsetSize(live.Keys, items.Keys);
      assert fewer.Keys == live.Keys - {victim.value};
      return Some(fewer), gone;
    }

    lemma LiveRow(id: Id, now: nat)
      requires Valid()
      ensures |items| <= MAX_ITEMS
      ensures id in Live(items, now) ==> id in items && Live(items, now)[id] == items[id]
    {
    }

    /** The new row of `begin`. */
    function NewItem(payload: Payload, now: nat): Item
      reads this`drawn
    {
      Item(supply(drawn + 1), InFlight, now, now + RETENTION, digest(payload), Some(supply(drawn)), Some(payload))
    }

    predicate Sendable(payload: Payload) {
      payload.text != "" && small(payload)
    }

    /** The row of a message the store does not have can be stored, whichever rows make room for it. */
    ghost predicate CanStore(id: Id, payload: Payload, now: nat)
      reads this`items, this`drawn
    {
      && Sendable(payload) && id !in Live(items, now) && !NoRoom(now)
      && forall gone :: Forgets(items, now, gone) ==> fits((items - gone)[id := NewItem(payload, now)])
    }

    /** The message is known, with this payload in a store that keeps to its size, or with another one. */
    predicate Suppresses(id: Id, payload: Payload, now: nat)
      reads this`items
    {
      && Sendable(payload) && id in Live(items, now)
      && (Live(items, now)[id].digest == digest(payload) ==> fits(Live(items, now)))
    }

    /** The row of a message the store does not have can not be stored, for some rows that make room for it. */
    ghost predicate CanFail(id: Id, payload: Payload, now: nat)
      reads this`items, this`drawn
    {
      || !Sendable(payload)
      || (if id in Live(items, now) then !Suppresses(id, payload, now)
          else NoRoom(now) ||
               exists gone :: Forgets(items, now, gone) && !fits((items - gone)[id := NewItem(payload, now)]))
    }

    /** `begin`: a row is added, in flight, unless the message is known. */
    method Begin(id: Id, payload: Payload, now: nat) returns (r: Begun, ghost gone: set<Id>)
      requires Valid()
      modifies this
      ensures Valid()
      ensures r.Token? ==>
                && id !in Live(old(items), now) && Forgets(old(items), now, gone)
                && id in items && items[id].state == InFlight && items[id].token == Some(r.token)
                && items[id].createdAt == now && items[id].payload == Some(payload)
                && items == (old(items) - gone)[id := old(NewItem(payload, now))]
                && log == old(log) + [Dropped(gone), Claimed(id, r.token)]
      ensures r.Known? ==>
                && id in Live(old(items), now) && old(items)[id].digest == digest(payload)
                && items == Live(old(items), now) && log == old(log) + [Dropped(Expired(old(items), now))]
      ensures r.Conflict? || r.Unavailable? ==> items == old(items) && log == old(log)
      ensures payload.text == "" || !small(payload) ==> r.Unavailable?
      ensures old(CanStore(id, payload, now)) ==> r.Token?
      ensures r.Known? || r.Conflict? <==> old(Suppresses(id, payload, now))
      ensures r.Unavailable? ==> old(CanFail(id, payload, now))
      ensures r.Conflict? <==>
                Sendable(payload) && id in Live(old(items), now) && old(items)[id].digest != digest(payload)
      ensures Sendable(payload) && id in Live(old(items), now) && old(items)[id].digest == digest(payload) ==>
                r == if fits(Live(old(items), now)) then Known else Unavailable
      ensures Sendable(payload) && id !in Live(old(items), now) && old(NoRoom(now)) ==> r.Unavailable?
      ensures Sendable(payload) && id !in Live(old(items), now) && !old(NoRoom(now)) ==>
                Forgets(old(items), now, gone)
                  && (r.Token? <==> fits((old(items) - gone)[id := old(NewItem(payload, now))]))
    {
      hide Outbox.Valid, Live, Expired, Forgets, NoRoom;
      LiveRow(id, now);
      gone := {};
      if !Sendable(payload) {
        return Unavailable, gone;
      }
      var live := Live(items, now);
      if id in live {
        if live[id].digest != digest(payload) {
          return Conflict, gone;
        }
        var ok := StoreLive(now);
        return if ok then Known else Unavailable, gone;
      }
      var kept;
      kept, gone := MakeRoom(now);
      if kept.None? {
        return Unavailable, gone;
      }
      var token;
      r, token := BeginIn(id, payload, now, kept.value, gone);
    }

    lemma NewRowIsValid(payload: Payload, now: nat)
      requires payload.text != ""
      ensures RowValid(NewItem(payload, now), digest)
      ensures NewItem(payload, now).state == InFlight && NewItem(payload, now).token == Some(supply(drawn))
    {
    }

    lemma OneMore(kept: Items, id: Id, item: Item)
      requires id !in kept
      ensures |kept[id := item]| == |kept| + 1
    {
      assert kept[id := item].Keys == kept.Keys + {id};
    }

    /** The new row of `begin`, among the rows that are kept. */
    method BeginIn(id: Id, payload: Payload, now: nat, kept: Items, ghost gone: set<Id>)
      returns (r: Begun, token: Token)
      requires Valid() && kept == items - gone && |kept| < MAX_ITEMS && id !in kept && payload.text != ""
      modifies this
      ensures Valid() && (r == Unavailable || r == Token(token))
      ensures r.Token? ==>
                && token == supply(old(drawn)) && items == kept[id := old(NewItem(payload, now))]
                && log == old(log) + [Dropped(gone), Claimed(id, token)]
      ensures r.Unavailable? ==> items == old(items) && log == old(log)
      ensures r.Token? <==> fits(kept[id := old(NewItem(payload, now))])
    {
      hide Valid, RowValid, Drawn, NewItem;
      NewRowIsValid(payload, now);
      var item := NewItem(payload, now);
      var revision;
      token, revision := Draw();
      OneMore(kept, id, item);
      var ok := StoreClaim(id, item, kept, gone);
      return if ok then Token(token) else Unavailable, token;
    }

    /** An event outside the store. */
    ghost method Note(e: Event)
      requires Valid() && (e.Sent? || e.SentUnrecorded? || e.StoreFailed?) && MayHappen(log, e)
      modifies this`log
      ensures Valid() && log == old(log) + [e]
    {
      hide Tells, Lawful, Sends, RowValid, History, Mirrors, AllRejected, Fresh, Drawn;
      OtherEventMirrors(items, log, e);
      HistoryGrows(log, e);
      log := log + [e];
    }

    /** The row of a send that is over. */
    function FinishedItem(item: Item, result: WebhookResult): Item
      reads this`drawn
    {
      item.(
        state := if result.success then Delivered else if TotalRejection(result) then Pending else ReviewOnly,
        revision := supply(drawn + 1), token := None, payload := if result.success then None else item.payload)
    }

    /** The row waits for the outcome of this very send. */
    predicate Awaits(id: Id, token: Token, now: nat)
      reads this`items
    {
      var live := Live(items, now);
      id in live && live[id].state == InFlight && live[id].token == Some(token)
    }

    /** `finish`: the row of the send that is under way takes its outcome. */
    method Finish(id: Id, token: Token, result: WebhookResult, now: nat) returns (ok: bool)
      requires Valid() && Sent(id, token, result) in log
      modifies this
      ensures Valid()
      ensures ok ==>
                && var live := Live(old(items), now);
                && id in live && live[id].state == InFlight && live[id].token == Some(token)
                && id in items && items == live[id := items[id]] && Records(items[id], result)
                && items[id].createdAt == live[id].createdAt && items[id].digest == live[id].digest
                && items[id].payload == (if result.success then None else live[id].payload)
                && log == old(log) + [Dropped(Expired(old(items), now)), Finished(id, token, result)]
      ensures !ok ==> items == old(items) && log == old(log)
      ensures ok <==>
                && old(Awaits(id, token, now))
                && fits(Live(old(items), now)[id := old(FinishedItem(Live(items, now)[id], result))])
    {
      hide Tells, Lawful, Sends, History, Mirrors, Fresh, TokensDrawn, TotalRejection;
      var safe := IsDefiniteTotalRejection(result);
      var live := Live(items, now);
      if id !in live || live[id].state != InFlight || live[id].token != Some(token) {
        return false;
      }
      var item := live[id];
      var unused, revision := Draw();
      item := item.(
        state := if result.success then Delivered else if safe then Pending else ReviewOnly,
        revision := revision, token := None, payload := if result.success then None else item.payload);
      ok := StoreFinished(id, item, result, now);
    }

    /** The events of a send that is over. */
    ghost method EnterFinish(id: Id, item: Item, result: WebhookResult, gone: set<Id>)
      requires Valid() && id in items - gone && items[id].state == InFlight && items[id].token.Some?
      requires Sent(id, items[id].token.value, result) in log && Records(item, result)
      modifies this`log
      ensures Mirrors((items - gone)[id := item], log) && History(log) && TokensDrawn()
      ensures log == old(log) + [Dropped(gone), Finished(id, items[id].token.value, result)]
    {
      hide Tells, Lawful, Sends, RowValid, History, Mirrors, AllRejected, Fresh, Drawn, Records, Readable;
      ghost var e := Finished(id, items[id].token.value, result);
      Forget(gone);
      FinishMirrors(items - gone, log, id, item, result);
      HistoryGrows(log, e);
      log := log + [e];
    }

    /** Storing a row whose send is over. */
    method StoreFinished(id: Id, item: Item, result: WebhookResult, now: nat) returns (ok: bool)
      requires Valid() && id in Live(items, now) && items[id].state == InFlight && items[id].token.Some?
      requires Sent(id, items[id].token.value, result) in log && RowValid(item, digest) && Records(item, result)
      modifies this`items, this`log
      ensures Valid()
      ensures ok ==>
                && items == Live(old(items), now)[id := item]
                && log == old(log) + [Dropped(Expired(old(items), now)),
                  Finished(id, old(items)[id].token.value, result)]
      ensures !ok ==> items == old(items) && log == old(log)
      ensures ok == fits(Live(old(items), now)[id := item])
    {
      hide RowValid, History, Mirrors, Fresh, TokensDrawn, Records;
      var live := Live(items, now);
      if !fits(live[id := item]) {
        return false;
      }
      EnterFinish(id, item, result, Expired(items, now));
      SubsetSize(live.Keys, items.Keys);
      assert live[id := item].Keys == live.Keys;
      items := live[id := item];
      return true;
    }

    /** The row that goes in flight again. */
    function ClaimedItem(item: Item): Item
      reads this`drawn
    {
      item.(state := InFlight, token := Some(supply(drawn)), revision := supply(drawn + 1))
    }

    /** The pending row of that revision, one of whose recipients is still a target. */
    predicate Selectable(id: Id, revision: string, targets: set<string>, now: nat)
      reads this`items
    {
      var live := Live(items, now);
      && id in live && live[id].state == Pending && live[id].revision == revision && live[id].payload.Some?
      && var recipients := live[id].payload.value.recipients;
         exists k :: 0 <= k < |recipients| && lower(recipients[k]) in (set t | t in targets :: lower(t))
    }

    /** `claimSelected`: a pending row whose revision and recipients are still right goes in flight again. */
    method ClaimSelected(id: Id, revision: string, targets: set<string>, now: nat) returns (claim: Option<Claim>)
      requires Valid()
      modifies this
      ensures Valid()
      ensures claim.Some? <==>
                && old(Selectable(id, revision, targets, now))
                && fits(Live(old(items), now)[id := old(ClaimedItem(Live(items, now)[id]))])
      ensures claim.Some? ==>
                && var live := Live(old(items), now);
                && var payload := live[id].payload.value;
                && (exists k :: 0 <= k < |payload.recipients| &&
                      lower(payload.recipients[k]) in (set t | t in targets :: lower(t)))
                && id in items && items == live[id := old(ClaimedItem(Live(items, now)[id]))]
                && items[id].token == Some(claim.value.token)
                && claim.value == Claim(claim.value.token, payload.title, payload.text)
                && log == old(log) + [Dropped(Expired(old(items), now)), Claimed(id, claim.value.token)]
      ensures claim.None? ==> items == old(items) && log == old(log)
    {
      hide Tells, Lawful, Sends, History, Mirrors, Fresh, TokensDrawn, Drawn;
      if !Selectable(id, revision, targets, now) {
        return None;
      }
      var live := Live(items, now);
      var item, payload := live[id], live[id].payload.value;
      var token, next := Draw();
      item := item.(state := InFlight, token := Some(token), revision := next);
      SubsetSize(live.Keys, items.Keys);
      assert live[id := item].Keys == live.Keys;
      var ok := StoreClaim(id, item, live, Expired(items, now));
      return if ok then Some(Claim(token, payload.title, payload.text)) else None;
    }
  }

  // ---------------------------------------------------------------- deliveries and retries side by side

  /** A delivery or a retry between two of its calls; one that stopped is no longer there. */
  datatype Actor =
    | Holding(id: Id, token: Token)
    | Answered(id: Id, token: Token, result: WebhookResult)
    | WithoutRecord(id: Id)

  /** The next call of one of them. */
  datatype Step =
    | Deliver(id: Id, payload: Payload, now: nat)
    | RetrySelected(id: Id, revision: string, targets: set<string>, now: nat)
    | HandOver(k: nat, result: WebhookResult)
    | Settle(k: nat, now: nat)
    | Stop(k: nat)

  ghost predicate ActorFits(a: Actor, log: seq<Event>) {
    match a
    case Holding(id, t) => Claimed(id, t) in log && forall k :: 0 <= k < |log| && log[k].Sent? ==> log[k].token != t
    case Answered(id, t, r) => Sent(id, t, r) in log
    case WithoutRecord(id) => StoreFailed(id) in log
  }

  ghost predicate ActorsFit(actors: seq<Actor>, log: seq<Event>) {
    && (forall k :: 0 <= k < |actors| ==> ActorFits(actors[k], log))
    && (forall k, l :: 0 <= k < l < |actors| && actors[k].Holding? && actors[l].Holding? ==>
      actors[k].token != actors[l].token)
  }

  lemma ActorsStayFit(actors: seq<Actor>, log: seq<Event>, e: Event)
    requires ActorsFit(actors, log)
    requires e.Sent? ==> forall k :: 0 <= k < |actors| && actors[k].Holding? ==> actors[k].token != e.token
    ensures ActorsFit(actors, log + [e])
  {
  }

  /** A new claim's token is held by nobody else and was never sent. */
  lemma NewClaimFits(actors: seq<Actor>, log: seq<Event>, id: Id, token: Token)
    requires ActorsFit(actors, log) && History(log + [Claimed(id, token)])
    ensures ActorsFit(actors + [Holding(id, token)], log + [Claimed(id, token)])
  {
    hide Lawful, AllRejected, Sends;
    var next := log + [Claimed(id, token)];
    assert next[|log|] == Claimed(id, token);
    forall k | 0 <= k < |log| && log[k].Sent? ensures log[k].token != token {
      assert next[k] == log[k] && next[..k] == log[..k];
      var i :| 0 <= i < |log[..k]| && log[..k][i] == Claimed(log[k].id, log[k].token);
      assert next[i].token == log[k].token;
    }
    forall k | 0 <= k < |actors| && actors[k].Holding? ensures actors[k].token != token {
      var i :| 0 <= i < |log| && log[i] == Claimed(actors[k].id, actors[k].token);
      assert next[i] == log[i];
    }
    ActorsStayFit(actors, log, Claimed(id, token));
  }

  /** A claim, and the rows that were forgotten for it. */
  lemma HoldingFits(actors: seq<Actor>, log: seq<Event>, gone: set<Id>, id: Id, token: Token)
    requires ActorsFit(actors, log) && History(log + [Dropped(gone), Claimed(id, token)])
    ensures ActorsFit(actors + [Holding(id, token)], log + [Dropped(gone), Claimed(id, token)])
  {
    hide ActorsFit, History;
    assert log + [Dropped(gone), Claimed(id, token)] == log + [Dropped(gone)] + [Claimed(id, token)];
    ActorsStayFit(actors, log, Dropped(gone));
    NewClaimFits(actors, log + [Dropped(gone)], id, token);
  }

  /** An end, and the rows that were forgotten with it. */
  lemma FinishedFits(actors: seq<Actor>, log: seq<Event>, gone: set<Id>, id: Id, token: Token, result: WebhookResult)
    requires ActorsFit(actors, log)
    ensures ActorsFit(actors, log + [Dropped(gone), Finished(id, token, result)])
  {
    hide ActorsFit;
    var e := Finished(id, token, result);
    assert log + [Dropped(gone), e] == log + [Dropped(gone)] + [e];
    ActorsStayFit(actors, log, Dropped(gone));
    ActorsStayFit(actors, log + [Dropped(gone)], e);
  }

  function Without(actors: seq<Actor>, k: nat): seq<Actor>
    requires k < |actors|
  {
    actors[..k] + actors[k + 1..]
  }

  lemma FewerFit(actors: seq<Actor>, log: seq<Event>, k: nat)
    requires ActorsFit(actors, log) && k < |actors|
    ensures ActorsFit(Without(actors, k), log)
    ensures forall a :: a in Without(actors, k) && a.Holding? && actors[k].Holding? ==> a.token != actors[k].token
  {
    forall l | 0 <= l < |Without(actors, k)| ensures Without(actors, k)[l] == actors[if l < k then l else l + 1] {
    }
  }

  /** The deliveries and retries that are under way on one store. */
  class Service {
    const outbox: Outbox
    var actors: seq<Actor>

    ghost predicate Valid()
      reads this, outbox
    {
      outbox.Valid() && ActorsFit(actors, outbox.log)
    }

    constructor (outbox: Outbox)
      requires outbox.Valid()
      ensures Valid() && this.outbox == outbox && actors == []
    {
      this.outbox, actors := outbox, [];
    }

    /** `deliver` up to the webhook: a message whose row cannot be stored is sent without one. */
    method Deliver(id: Id, payload: Payload, now: nat)
      requires Valid()
      modifies this, outbox
      ensures Valid() && (old(outbox.log) <= outbox.log)
      ensures actors == old(actors) <==> old(outbox.Suppresses(id, payload, now))
      ensures old(outbox.CanStore(id, payload, now)) ==> |actors| == |old(actors)| + 1 && actors[|old(actors)|].Holding?
      ensures actors != old(actors) ==>
                |actors| > 0 && actors[..|actors| - 1] == old(actors) && outbox.log != [] &&
                match actors[|actors| - 1]
                case Holding(i, t) =>
                  && i == id && id !in Live(old(outbox.items), now) && outbox.log[|outbox.log| - 1] == Claimed(id, t)
                  && id in outbox.items && outbox.items[id].token == Some(t)
                  && outbox.items[id] == old(outbox.NewItem(payload, now))
                case WithoutRecord(i) =>
                  && i == id && outbox.log == old(outbox.log) + [StoreFailed(id)]
                  && outbox.items == old(outbox.items) && old(outbox.CanFail(id, payload, now))
                case Answered(_, _, _) => false
    {
      hide ActorsFit, History, Outbox.Valid, Outbox.Forgets, Outbox.CanStore, Outbox.CanFail, Outbox.Suppresses,
           Outbox.NewItem, Outbox.NoRoom, Live, Expired;
      ghost var log := outbox.log;
      var begun;
      ghost var gone;
      begun, gone := outbox.Begin(id, payload, now);
      match begun
      case Token(t) =>
        HistoryHolds();
        HoldingFits(actors, log, gone, id, t);
        actors := actors + [Holding(id, t)];
      case Known =>
        ActorsStayFit(actors, log, Dropped(Expired(old(outbox.items), now)));
      case Conflict =>
      case Unavailable =>
        GoWithout(id);
    }

    lemma HistoryHolds()
      requires outbox.Valid()
      ensures History(outbox.log)
    {
    }

    /** A message whose row could not be stored. */
    method GoWithout(id: Id)
      requires Valid()
      modifies this, outbox`log
      ensures Valid() && actors == old(actors) + [WithoutRecord(id)]
      ensures outbox.log == old(outbox.log) + [StoreFailed(id)]
    {
      hide Mirrors, Lawful, History, Tells, Sends, ActorFits, RowValid, Outbox.TokensDrawn, Outbox.Fresh;
      ghost var log := outbox.log;
      outbox.Note(StoreFailed(id));
      ActorsStayFit(actors, log, StoreFailed(id));
      FailureFits(id, log);
      actors := actors + [WithoutRecord(id)];
    }

    lemma FailureFits(id: Id, log: seq<Event>)
      ensures ActorFits(WithoutRecord(id), log + [StoreFailed(id)])
    {
    }

    /** `retrySelected` up to the webhook. */
    method Retry(id: Id, revision: string, targets: set<string>, now: nat)
      requires Valid()
      modifies this, outbox
      ensures Valid() && (old(outbox.log) <= outbox.log)
      ensures actors == old(actors) ==> outbox.log == old(outbox.log) && outbox.items == old(outbox.items)
      ensures actors != old(actors) <==>
                && old(outbox.Selectable(id, revision, targets, now))
                && var live := Live(old(outbox.items), now);
                   outbox.fits(live[id := old(outbox.ClaimedItem(Live(outbox.items, now)[id]))])
      ensures actors != old(actors) ==>
                && |actors| > 0 && actors[..|actors| - 1] == old(actors) && actors[|actors| - 1].Holding?
                && outbox.log != []
                && outbox.log[|outbox.log| - 1] == Claimed(id, actors[|actors| - 1].token)
                && id in Live(old(outbox.items), now) && old(outbox.items)[id].state == Pending
                && old(outbox.items)[id].revision == revision
    {
      hide Mirrors, Lawful, History, Tells, Sends, ActorFits, RowValid, Outbox.TokensDrawn, Outbox.Fresh;
      ghost var log, expired := outbox.log, Expired(outbox.items, now);
      var claim := outbox.ClaimSelected(id, revision, targets, now);
      if claim.Some? {
        HistoryHolds();
        HoldingFits(actors, log, expired, id, claim.value.token);
        actors := actors + [Holding(id, claim.value.token)];
      }
    }

    lemma HoldingMaySend(k: nat, result: WebhookResult)
      requires Valid() && k < |actors| && actors[k].Holding?
      ensures MayHappen(outbox.log, Sent(actors[k].id, actors[k].token, result))
    {
    }

    lemma AnsweredFits(id: Id, token: Token, result: WebhookResult, log: seq<Event>)
      ensures ActorFits(Answered(id, token, result), log + [Sent(id, token, result)])
    {
    }

    /** The webhook is called, once per token, and answers. */
    method HandOver(k: nat, result: WebhookResult)
      requires Valid() && k < |actors|
      modifies this, outbox
      ensures Valid() && (old(outbox.log) <= outbox.log)
      ensures match old(actors)[k]
              case Holding(id, t) =>
                && actors == Without(old(actors), k) + [Answered(id, t, result)]
                && outbox.log == old(outbox.log) + [Sent(id, t, result)]
              case WithoutRecord(id) =>
                actors == Without(old(actors), k) && outbox.log == old(outbox.log) + [SentUnrecorded(id)]
              case Answered(_, _, _) => actors == old(actors) && outbox.log == old(outbox.log)
    {
      hide Mirrors, Lawful, History, Tells, Sends, ActorFits, RowValid, Outbox.TokensDrawn, Outbox.Fresh, MayHappen;
      ghost var log := outbox.log;
      var actor := actors[k];
      FewerFit(actors, log, k);
      match actor
      case Holding(id, t) =>
        HoldingMaySend(k, result);
        outbox.Note(Sent(id, t, result));
        ActorsStayFit(Without(actors, k), log, Sent(id, t, result));
        AnsweredFits(id, t, result, log);
        actors := Without(actors, k) + [Answered(id, t, result)];
      case WithoutRecord(id) =>
        UnrecordedMaySend(k);
        outbox.Note(SentUnrecorded(id));
        ActorsStayFit(Without(actors, k), log, SentUnrecorded(id));
        actors := Without(actors, k);
      case Answered(_, _, _) =>
    }

    lemma UnrecordedMaySend(k: nat)
      requires Valid() && k < |actors| && actors[k].WithoutRecord?
      ensures MayHappen(outbox.log, SentUnrecorded(actors[k].id))
    {
    }

    lemma AnsweredWasSent(k: nat)
      requires Valid() && k < |actors| && actors[k].Answered?
      ensures Sent(actors[k].id, actors[k].token, actors[k].result) in outbox.log
    {
    }

    /** The outcome is stored; a row that cannot take it stays as it is. */
    method Settle(k: nat, now: nat)
      requires Valid() && k < |actors|
      modifies this, outbox
      ensures Valid() && (old(outbox.log) <= outbox.log)
      ensures actors == if old(actors)[k].Answered? then Without(old(actors), k) else old(actors)
      ensures outbox.log == old(outbox.log) ||
              (old(actors)[k].Answered? && outbox.log[|outbox.log| - 1] ==
                 Finished(old(actors)[k].id, old(actors)[k].token, old(actors)[k].result))
      ensures old(actors)[k].Answered? ==>
                var a, live := old(actors)[k], Live(old(outbox.items), now);
                if old(outbox.Awaits(actors[k].id, actors[k].token, now)) &&
                   outbox.fits(live[a.id := old(outbox.FinishedItem(Live(outbox.items, now)[actors[k].id],
                     actors[k].result))])
                then outbox.log != old(outbox.log) && a.id in outbox.items && Records(outbox.items[a.id], a.result)
                     && outbox.items == live[a.id := outbox.items[a.id]]
                else outbox.items == old(outbox.items) && outbox.log == old(outbox.log)
    {
      hide ActorsFit, History, Outbox.Valid, Records, Live, Expired, Outbox.FinishedItem, Outbox.Awaits, Without;
      ghost var log, expired := outbox.log, Expired(outbox.items, now);
      var actor := actors[k];
      FewerFit(actors, log, k);
      if actor.Answered? {
        AnsweredWasSent(k);
        var ok := outbox.Finish(actor.id, actor.token, actor.result, now);
        actors := Without(actors, k);
        if ok {
          FinishedFits(actors, log, expired, actor.id, actor.token, actor.result);
        }
      }
    }

    /** One of them stops for good between two calls. */
    method Stop(k: nat)
      requires Valid() && k < |actors|
      modifies this
      ensures Valid() && actors == Without(old(actors), k)
    {
      hide Mirrors, Lawful, History, Tells, Sends, ActorFits, RowValid, Outbox.TokensDrawn, Outbox.Fresh, MayHappen;
      FewerFit(actors, outbox.log, k);
      actors := Without(actors, k);
    }

    /**
     Any interleaving of deliveries and retries, their calls and their ends.  Every run is such that a token is
     given out only after all earlier sends of the message were definitely rejected, each token is sent at most
     once, and nothing is sent without a token unless the store had failed.
     */
    method Run(steps: seq<Step>)
      requires Valid()
      modifies this, outbox
      ensures Valid() && History(outbox.log) && (old(outbox.log) <= outbox.log)
      ensures steps != [] && steps[0].Deliver? && old(outbox.CanStore(steps[0].id, steps[0].payload, steps[0].now)) ==>
                exists t :: Claimed(steps[0].id, t) in outbox.log
    {
      hide Mirrors, Lawful, History, Tells, Sends, ActorFits, RowValid, Outbox.TokensDrawn, Outbox.Fresh, MayHappen;
      for i := 0 to |steps|
        invariant Valid() && (old(outbox.log) <= outbox.log)
        invariant i == 0 ==> outbox.items == old(outbox.items) && outbox.drawn == old(outbox.drawn)
        invariant i > 0 && steps[0].Deliver? &&
                  old(outbox.CanStore(steps[0].id, steps[0].payload, steps[0].now)) ==>
                    exists t :: Claimed(steps[0].id, t) in outbox.log
      {
        match steps[i]
        case Deliver(id, payload, now) => Deliver(id, payload, now);
        case RetrySelected(id, revision, targets, now) => Retry(id, revision, targets, now);
        case HandOver(k, result) => if k < |actors| { HandOver(k, result); }
        case Settle(k, now) => if k < |actors| { Settle(k, now); }
        case Stop(k) => if k < |actors| { Stop(k); }
      }
    }
  }

  /** Whatever is stored after any run makes sense by itself. */
  lemma RowsMakeSense(outbox: Outbox, id: Id)
    requires outbox.Valid() && id in outbox.items
    ensures var item := outbox.items[id];
            && |outbox.items| <= 100 && item.expiresAt == item.createdAt + 7 * 24 * 60 * 60
            && (item.state == InFlight <==> item.token.Some?) && (item.state == Delivered <==> item.payload.None?)
            && (item.payload.Some? ==>
              item.payload.value.text != "" && item.digest == outbox.digest(item.payload.value))
  {
  }

  /** And a row tells how the last send of its message ended, or that it has not. */
  lemma RowsTell(outbox: Outbox, id: Id)
    requires outbox.Valid() && id in outbox.items
    ensures var sends := Sends(outbox.log, id);
            && sends != []
            && var last := sends[|sends| - 1];
               match outbox.items[id].state
               case InFlight => last.fate.None? && outbox.items[id].token == Some(last.token)
               case Pending => last.fate.Some? && TotalRejection(last.fate.value)
               case ReviewOnly => last.fate.Some? && !last.fate.value.success && !TotalRejection(last.fate.value)
               case Delivered => last.fate.Some? && last.fate.value.success
  {
  }

  /** With a store that works a message is handed to the webhook once, however often it is delivered in a week. */
  method DeliverTwice(service: Service, id: Id, payload: Payload, now: nat, later: nat)
    requires service.Valid() && service.outbox.Sendable(payload) && (forall items :: service.outbox.fits(items))
    requires id !in Live(service.outbox.items, now) && !service.outbox.NoRoom(now)
    requires now <= later < now + 7 * 24 * 60 * 60
    modifies service, service.outbox
    ensures service.Valid() && |service.actors| == |old(service.actors)| + 1
    ensures service.actors[|old(service.actors)|].Holding? && service.actors[|old(service.actors)|].id == id
  {
    hide ActorsFit, Outbox.Valid, Outbox.Forgets, Outbox.NoRoom;
    service.Deliver(id, payload, now);
    ghost var outbox := service.outbox;
    KnownForAWeek(outbox, id, payload, later);
    service.Deliver(id, payload, later);
  }

  /** A message is known for a week from when its row was made. */
  lemma KnownForAWeek(outbox: Outbox, id: Id, payload: Payload, later: nat)
    requires outbox.Valid() && outbox.Sendable(payload) && outbox.fits(Live(outbox.items, later))
    requires id in outbox.items && outbox.items[id].digest == outbox.digest(payload)
    requires later < outbox.items[id].createdAt + 7 * 24 * 60 * 60
    ensures outbox.Suppresses(id, payload, later)
  {
    LivesForAWeek(outbox.items, id, later, outbox.digest);
  }
}
