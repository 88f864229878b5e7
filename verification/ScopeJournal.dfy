/**
 The two-slot scope journal.  Four files (slot 0, slot 1, completion mark, target) are only ever
 truncated and refilled, so that losing power leaves a prefix of the bytes being written.  A store
 carries the number of durable steps left before the power fails (`fuel`; None: it never fails), and
 every method is proved against the atomic register its files stand for.
 */
module ScopeJournal {
  import opened Outcomes
  import opened Text
  import opened ScopeJournalCodec

  // ---------------------------------------------------------------- the record format

  /** The record format as the store uses it; `Concrete` below supplies the real one. */
  datatype Format = Format(
    hash: string -> Hex,
    encode: Record -> string,
    decode: (string, nat) -> Option<Record>,
    mark: nat -> string,
    markOf: string -> Option<nat>)
  {
    ghost predicate Lawful() {
      && RecordsDecode() && OnlyRecordsDecode() && TornRecordsDoNot() && RecordsPrefixFree()
      && MarksDecode() && OnlyMarksDecode() && MarksPrefixFree()
    }

    ghost predicate RecordsDecode() {
      forall r: Record {:trigger encode(r)} | Valid(r) ::
        encode(r) != "" && decode(encode(r), r.generation % 2) == Some(r)
    }

    ghost predicate OnlyRecordsDecode() {
      forall bytes: string, slot: nat {:trigger decode(bytes, slot)} | decode(bytes, slot).Some? ::
        var r := decode(bytes, slot).value;
        Valid(r) && r.generation % 2 == slot && encode(r) == bytes
    }

    ghost predicate TornRecordsDoNot() {
      forall r: Record, p: string, slot: nat {:trigger encode(r), decode(p, slot)} | Valid(r) && p < encode(r) ::
        decode(p, slot) == None
    }

    ghost predicate RecordsPrefixFree() {
      forall a: Record, b: Record {:trigger encode(a), encode(b)}
        | Valid(a) && Valid(b) && encode(a) <= encode(b) :: a == b
    }

    ghost predicate MarksDecode() {
      forall g: nat {:trigger mark(g)} | 2 <= g <= INT_MAX :: mark(g) != "" && markOf(mark(g)) == Some(g)
    }

    ghost predicate OnlyMarksDecode() {
      forall bytes: string {:trigger markOf(bytes)} | markOf(bytes).Some? ::
        2 <= markOf(bytes).value <= INT_MAX && bytes == mark(markOf(bytes).value)
    }

    ghost predicate MarksPrefixFree() {
      forall a: nat, b: nat {:trigger mark(a), mark(b)}
        | 2 <= a <= INT_MAX && 2 <= b <= INT_MAX && mark(a) <= mark(b) :: a == b
    }
  }

  function Concrete(c: Codec): Format {
    Format(c.hash,
           (r: Record) => if IsBytes(r.intended) then c.Encode(r) else "",
           (bytes: string, slot: nat) => c.Decode(bytes, slot),
           (g: nat) => c.Mark(g),
           (bytes: string) => c.MarkOf(bytes))
  }

  /** The JSON records have every property the store relies on, whatever the digest function. */
  lemma ConcreteIsLawful(c: Codec)
    ensures Concrete(c).Lawful()
  {
    var f := Concrete(c);
    forall r: Record | Valid(r) ensures f.encode(r) != "" && f.decode(f.encode(r), r.generation % 2) == Some(r) {
      c.DecodeIffEncoding(c.Encode(r), r.generation % 2, r);
    }
    forall r: Record, p: string, slot: nat | Valid(r) && p < f.encode(r) ensures f.decode(p, slot) == None {
      c.NoPrefixDecodes(p, r, slot);
    }
    forall a: Record, b: Record | Valid(a) && Valid(b) && f.encode(a) <= f.encode(b) ensures a == b {
      c.PrefixFree(a, b);
    }
    forall g: nat | 2 <= g <= INT_MAX ensures f.mark(g) != "" && f.markOf(f.mark(g)) == Some(g) {
      c.MarkOfMark(g);
    }
    forall a: nat, b: nat | 2 <= a <= INT_MAX && 2 <= b <= INT_MAX && f.mark(a) <= f.mark(b) ensures a == b {
      c.MarksPrefixFree(a, b);
    }
  }

  // ---------------------------------------------------------------- what the files show

  datatype Name = Slot0 | Slot1 | Lock | Target

  type Files = map<Name, string>

  /** How far the journal got.  `r` is always the odd-generation bootstrap record of slot 1. */
  datatype Stage =
    | Fresh                               // no byte in any slot
    | Anchoring(r: Record)                // slot 0 holds part of the first anchor
    | Anchored(r: Record)                 // slot 0 holds the anchor, slot 1 part of `r`
    | Applying(r: Record)                 // slot 1 holds `r`, the target is being rewritten
    | Completing(r: Record)               // slot 0 holds part of the completion of `r`
    | Settled(r: Record)                  // slot 0 holds the completion of `r`
    | Tearing(before: Record, r: Record)  // `before` was settled, slot 1 holds part of `r`

  /** Slot 0's copy of the first record. */
  function AnchorOf(r: Record): Record { r.(generation := 0) }

  function CompletionOf(r: Record): Record { r.(generation := r.generation + 1, phase := Complete) }

  function TargetOf(files: Files): string { if Target in files then files[Target] else "" }

  function BodyOrNone(bytes: string): (body: Option<string>)
    ensures body.None? <==> bytes == ""
    ensures body.Some? ==> body.value == bytes
  {
    if bytes == "" then None else Some(bytes)
  }

  function PriorOf(f: Format, bytes: string): (prior: Option<Hex>)
    ensures prior.None? <==> bytes == ""
    ensures prior.Some? ==> prior.value == f.hash(bytes)
  {
    if bytes == "" then None else Some(f.hash(bytes))
  }

  /** A bootstrap record whose completion still has a generation number. */
  predicate Odd(r: Record) {
    Valid(r) && r.phase.Bootstrap? && r.generation % 2 == 1 && r.generation < INT_MAX
  }

  /** The mark of the last completed generation before `r`. */
  predicate MarkBefore(f: Format, r: Record, lock: string)
    requires r.generation >= 1
  {
    lock == if r.generation == 1 then "" else f.mark(r.generation - 1)
  }

  predicate PrefixAuthorized(r: Record) { r.phase.Bootstrap? || r.generation == 2 }

  /** The target contents that applying `r` accepts. */
  predicate Applicable(f: Format, r: Record, target: string) {
    || f.hash(target) == f.hash(r.intended)
    || (r.prior.Some? && f.hash(target) == r.prior.value)
    || (PrefixAuthorized(r) && target < r.intended)
  }

  ghost predicate Shows(f: Format, stage: Stage, files: Files)
    requires Slot0 in files && Slot1 in files && Lock in files
  {
    match stage
    case Fresh => files[Slot0] == "" && files[Slot1] == "" && files[Lock] == ""
    case Anchoring(r) =>
      && Odd(r) && r.generation == 1 && Target in files && r.prior == PriorOf(f, files[Target])
      && files[Slot0] != "" && files[Slot0] < f.encode(AnchorOf(r)) && files[Slot1] == "" && files[Lock] == ""
    case Anchored(r) =>
      && Odd(r) && r.generation == 1 && Target in files && r.prior == PriorOf(f, files[Target])
      && files[Slot0] == f.encode(AnchorOf(r)) && files[Slot1] < f.encode(r) && files[Lock] == ""
    case Applying(r) =>
      && Odd(r) && Target in files && Applicable(f, r, files[Target])
      && f.decode(files[Slot0], 0).Some? && f.decode(files[Slot0], 0).value.generation == r.generation - 1
      && files[Slot1] == f.encode(r) && MarkBefore(f, r, files[Lock])
    case Completing(r) =>
      && Odd(r) && Target in files && f.hash(files[Target]) == f.hash(r.intended)
      && files[Slot0] < f.encode(CompletionOf(r)) && files[Slot1] == f.encode(r) && MarkBefore(f, r, files[Lock])
    case Settled(r) =>
      && Odd(r) && Target in files && f.hash(files[Target]) == f.hash(r.intended)
      && files[Slot0] == f.encode(CompletionOf(r)) && files[Slot1] == f.encode(r)
      && (MarkBefore(f, r, files[Lock]) || files[Lock] <= f.mark(r.generation + 1))
    case Tearing(before, r) =>
      && Odd(before) && Odd(r) && r.generation == before.generation + 2
      && Target in files && f.hash(files[Target]) == f.hash(before.intended)
      && files[Slot0] == f.encode(CompletionOf(before)) && files[Slot1] < f.encode(r)
      && files[Lock] == f.mark(before.generation + 1)
  }

  /** The register the files stand for. */
  function Value(stage: Stage, files: Files): Option<string> {
    match stage
    case Fresh => BodyOrNone(TargetOf(files))
    case Anchoring(_) => BodyOrNone(TargetOf(files))
    case Tearing(before, _) => Some(before.intended)
    case _ => Some(stage.r.intended)
  }

  /** A torn slot that nothing but the same first write may repair: every read refuses. */
  predicate Stuck(stage: Stage) {
    || stage.Anchoring?
    || stage.Tearing?
    || (stage.Completing? && stage.r.generation != 1)
  }

  /** Not even the same write may repair it. */
  predicate TornForGood(stage: Stage) { Stuck(stage) && !stage.Anchoring? }

  /** The first write, of `desired` over `expected`, was cut short at some byte. */
  predicate FirstWrite(stage: Stage, files: Files, expected: Option<string>, desired: string) {
    if stage.Fresh? then BodyOrNone(TargetOf(files)) == expected
    else if stage.Anchoring? then stage.r.intended == desired && BodyOrNone(TargetOf(files)) == expected
    else !stage.Tearing? && stage.r.generation == 1 && stage.r.intended == desired
  }

  /** Two valid slots of consecutive generations: the higher one rules. */
  function Select(f: Format, slot0: string, slot1: string): (selected: Option<Record>)
    ensures selected.Some? ==>
              && slot0 != "" && slot1 != "" && f.decode(slot0, 0).Some? && f.decode(slot1, 1).Some?
              && var a, b := f.decode(slot0, 0).value, f.decode(slot1, 1).value;
                 || (a.generation == b.generation + 1 && selected.value == a)
                 || (b.generation == a.generation + 1 && selected.value == b)
  {
    if slot0 == "" || slot1 == "" then None
    else
      var a, b := f.decode(slot0, 0), f.decode(slot1, 1);
      if a.None? || b.None? then None
      else if a.value.generation == b.value.generation + 1 then a
      else if b.value.generation == a.value.generation + 1 then b
      else None
  }

  datatype Swap = Changed | AlreadyApplied | Conflict

  class Store {
    const format: Format
    var files: Files
    var fuel: Option<nat>
    ghost var stage: Stage

    ghost predicate Valid()
      reads this`files, this`stage
    {
      && format.Lawful()
      && Slot0 in files && Slot1 in files && Lock in files
      && Shows(format, stage, files)
    }

    /** Both slots valid at consecutive generations, the mark naming the higher one. */
    ghost predicate Converged()
      reads this`files, this`stage
    {
      Lock in files && stage.Settled? && files[Lock] == format.mark(stage.r.generation + 1)
    }

    constructor (format: Format, target: Option<string>)
      requires format.Lawful()
      ensures Valid() && stage == Fresh && fuel == None && this.format == format
      ensures TargetOf(files) == if target.Some? then target.value else ""
    {
      this.format := format;
      files := map[Slot0 := "", Slot1 := "", Lock := ""];
      fuel := None;
      stage := Fresh;
      new;
      if target.Some? {
        files := files[Target := target.value];
      }
    }

    /** The power is limited, and is enough for some durable steps. */
    predicate Lasts(power: Option<nat>, steps: nat) { power.Some? && power.value >= steps }

    /** The durable steps of a rewrite, which is left out when the bytes are there already. */
    function RewriteSteps(now: string, bytes: string): nat {
      if now == bytes then 0 else 1 + |bytes|
    }

    /** The durable steps of bringing a target to the body of a record. */
    function ApplySteps(r: Record, target: string): nat {
      if format.hash(target) == format.hash(r.intended) then 0 else 1 + |r.intended|
    }

    /** The durable steps of filling both slots for the first write. */
    function SlotSteps(r: Record): nat { 1 + |format.encode(AnchorOf(r))| + 1 + |format.encode(r)| }

    /** The durable steps of the first completion and its mark. */
    function CompleteSteps(r: Record): nat { 1 + |format.encode(CompletionOf(r))| + 1 + |format.mark(2)| }

    /** The durable steps of a first write over half an anchor, from slot 0 to the mark. */
    function FirstSteps(r: Record, target: string): nat {
      SlotSteps(r) + ApplySteps(r, target) + CompleteSteps(r)
    }

    /** One durable step; false when the power fails before it. */
    method Tick() returns (alive: bool)
      modifies this`fuel
      ensures alive <==> old(fuel) != Some(0)
      ensures fuel == if alive && old(fuel).Some? then Some(old(fuel).value - 1) else old(fuel)
    {
      if fuel.Some? && fuel.value == 0 {
        return false;
      }
      fuel := if fuel.Some? then Some(fuel.value - 1) else None;
      return true;
    }

    /** `rewriteScopeJournalDescriptor`: truncate, then append byte after byte. */
    method Rewrite(name: Name, bytes: string) returns (alive: bool)
      requires name in files
      modifies this`files, this`fuel
      ensures name in files && files == old(files)[name := files[name]]
      ensures if alive then files[name] == bytes else files[name] == old(files[name]) || files[name] <= bytes
      ensures old(fuel).Some? && 0 < old(fuel).value <= |bytes| ==>
                !alive && files[name] == bytes[..old(fuel).value - 1]
      ensures Lasts(old(fuel), 1 + |bytes|) ==> alive && fuel == Some(old(fuel).value - (1 + |bytes|))
      ensures old(fuel).None? ==> alive && fuel.None?
    {
      alive := Tick();
      if !alive {
        return;
      }
      files := files[name := ""];
      var offset := 0;
      while offset < |bytes|
        invariant 0 <= offset <= |bytes| && alive
        invariant name in files && files == old(files)[name := files[name]]
        invariant files[name] == bytes[..offset]
        invariant old(fuel).Some? ==> fuel.Some? && fuel.value + offset + 1 == old(fuel).value
        invariant old(fuel).None? ==> fuel.None?
      {
        alive := Tick();
        if !alive {
          return;
        }
        files := files[name := files[name] + [bytes[offset]]];
        offset := offset + 1;
      }
    }

    /** `persistentJournalApply` */
    method Apply(r: Record) returns (out: Outcome<string>)
      requires Target in files
      modifies this`files, this`fuel
      ensures Target in files && files == old(files)[Target := files[Target]]
      ensures Applicable(format, r, old(files[Target])) ==> !out.Refused?
      ensures out.Refused? ==> files == old(files) && !Applicable(format, r, old(files[Target]))
      ensures out.Refused? ==>
                && format.hash(old(files[Target])) != format.hash(r.intended)
                && (r.prior.Some? ==> format.hash(old(files[Target])) != r.prior.value)
                && (r.phase == Bootstrap || r.generation == 2 ==> !(old(files[Target]) < r.intended))
      ensures out.Done? ==> out.value == files[Target] && format.hash(files[Target]) == format.hash(r.intended)
      ensures out.Crashed? && PrefixAuthorized(r) ==> Applicable(format, r, files[Target])
      ensures format.hash(old(files[Target])) == format.hash(r.intended) ==>
                out.Done? && files == old(files) && fuel == old(fuel)
      ensures !out.Refused? && Lasts(old(fuel), ApplySteps(r, old(files[Target]))) ==>
                out.Done? && fuel == Some(old(fuel).value - ApplySteps(r, old(files[Target])))
      ensures old(fuel).None? ==> !out.Crashed? && fuel.None?
    {
      var current := format.hash(files[Target]);
      var isIntended := current == format.hash(r.intended);
      var isPrior := r.prior.Some? && current == r.prior.value;
      var isPrefix := PrefixAuthorized(r) && files[Target] < r.intended;
      if !isIntended && !isPrior && !isPrefix {
        return Refused;
      }
      if !isIntended {
        var alive := Rewrite(Target, r.intended);
        if !alive {
          assert files[Target] <= r.intended && !(files[Target] < r.intended) ==> files[Target] == r.intended;
          return Crashed;
        }
      }
      return Done(files[Target]);
    }

    /** `persistentJournalCompletionGeneration`: a torn mark is repaired only for the given generation. */
    method CompletionGeneration(recoverable: Option<nat>) returns (out: Outcome<Option<nat>>)
      requires format.Lawful() && Lock in files
      requires recoverable.Some? ==> 2 <= recoverable.value <= INT_MAX
      modifies this`files, this`fuel
      ensures Lock in files && files == old(files)[Lock := files[Lock]]
      ensures if old(files[Lock]) != "" && recoverable.Some? && old(files[Lock]) < format.mark(recoverable.value) then
                && !out.Refused?
                && (out.Done? ==> files[Lock] == format.mark(recoverable.value) && out.value == recoverable)
                && (out.Crashed? ==> files == old(files) || files[Lock] <= format.mark(recoverable.value))
              else
                && files == old(files) && fuel == old(fuel)
                && out == if files[Lock] == "" then Done(None)
                          else if format.markOf(files[Lock]).None? then Refused
                          else Done(format.markOf(files[Lock]))
      ensures old(fuel).None? ==> !out.Crashed? && fuel.None?
    {
      if files[Lock] == "" {
        return Done(None);
      }
      if recoverable.Some? {
        var canonical := format.mark(recoverable.value);
        if files[Lock] < canonical {
          var alive := Rewrite(Lock, canonical);
          if !alive {
            return Crashed;
          }
        }
      }
      var g := format.markOf(files[Lock]);
      if g.None? {
        return Refused;
      }
      return Done(g);
    }

    /** `persistJournalCompletionGeneration` */
    method PersistCompletion(g: nat) returns (out: Outcome<()>)
      requires format.Lawful() && Lock in files && 2 <= g <= INT_MAX
      requires files[Lock] == "" || (format.markOf(files[Lock]).Some? && format.markOf(files[Lock]).value <= g)
      modifies this`files, this`fuel
      ensures Lock in files && files == old(files)[Lock := files[Lock]]
      ensures !out.Refused?
      ensures out.Done? ==> files[Lock] == format.mark(g)
      ensures out.Crashed? ==> files == old(files) || files[Lock] <= format.mark(g)
      ensures old(files[Lock]) == format.mark(g) ==> files == old(files) && fuel == old(fuel) && out.Done?
      ensures Lasts(old(fuel), RewriteSteps(old(files[Lock]), format.mark(g))) ==>
                out.Done? && fuel == Some(old(fuel).value - RewriteSteps(old(files[Lock]), format.mark(g)))
      ensures old(fuel).None? ==> !out.Crashed? && fuel.None?
    {
      var current :- CompletionGeneration(None);
      if current.Some? && current.value > g {
        return Refused;
      }
      if current == Some(g) {
        return Done(());
      }
      var alive := Rewrite(Lock, format.mark(g));
      if !alive {
        return Crashed;
      }
      var stored :- CompletionGeneration(None);
      if stored != Some(g) {
        return Refused;
      }
      return Done(());
    }

    /** `repairScopeJournalSlot` */
    method RepairSlot(slot: Name, canonical: string, requirePrefix: bool) returns (out: Outcome<()>)
      requires slot in files
      modifies this`files, this`fuel
      ensures slot in files && files == old(files)[slot := files[slot]]
      ensures out.Refused? <==> requirePrefix && !(old(files[slot]) <= canonical)
      ensures out.Done? ==> files[slot] == canonical
      ensures out.Refused? ==> files == old(files)
      ensures out.Crashed? ==> files == old(files) || files[slot] <= canonical
      ensures old(files[slot]) == canonical ==> files == old(files) && fuel == old(fuel) && out.Done?
      ensures old(files[slot]) != canonical && old(fuel).Some? && 0 < old(fuel).value <= |canonical|
                && !out.Refused? ==>
                out.Crashed? && files[slot] == canonical[..old(fuel).value - 1]
      ensures !out.Refused? && Lasts(old(fuel), RewriteSteps(old(files[slot]), canonical)) ==>
                out.Done? && fuel == Some(old(fuel).value - RewriteSteps(old(files[slot]), canonical))
      ensures old(fuel).None? ==> !out.Crashed? && fuel.None?
    {
      if files[slot] == canonical {
        return Done(());
      }
      if requirePrefix && files[slot] != "" && !(files[slot] < canonical) {
        return Refused;
      }
      var alive := Rewrite(slot, canonical);
      return if alive then Done(()) else Crashed;
    }

    /** Fills slot 0 with the anchor of the first write, whose remnant it may already hold. */
    method FillAnchor(first: Record) returns (out: Outcome<()>)
      requires Valid() && Odd(first) && first.generation == 1
      requires Target in files && first.prior == PriorOf(format, files[Target])
      requires stage.Fresh? || stage.Anchoring? || stage == Anchored(first)
      requires files[Slot0] <= format.encode(AnchorOf(first))
      modifies this
      ensures Valid() && Target in files && files[Target] == old(files[Target])
      ensures !out.Refused?
      ensures out.Done? ==> stage == Anchored(first) && files[Slot1] == old(files[Slot1])
      ensures out.Crashed? ==>
                (files == old(files) && stage == old(stage)) || stage in {Fresh, Anchoring(first), Anchored(first)}
      ensures old(stage) == Anchored(first) ==> out.Done?
      ensures old(stage.Fresh?) && old(fuel) == Some(2) && |format.encode(AnchorOf(first))| > 1 ==>
                out.Crashed? && stage == Anchoring(first)
      ensures Lasts(old(fuel), RewriteSteps(old(files[Slot0]), format.encode(AnchorOf(first)))) ==>
                out.Done?
                  && fuel == Some(old(fuel).value - RewriteSteps(old(files[Slot0]), format.encode(AnchorOf(first))))
      ensures old(fuel).None? ==> !out.Crashed? && fuel.None?
    {
      var canonical := format.encode(AnchorOf(first));
      assert canonical != "" && format.encode(first) != "";
      out := RepairSlot(Slot0, canonical, true);
      if files[Slot0] != old(files[Slot0]) || out.Done? {
        stage := if files[Slot0] == canonical then Anchored(first)
                 else if files[Slot0] == "" then Fresh else Anchoring(first);
      }
    }

    /** Fills slot 1 with the first record; from then on the write has taken effect. */
    method FillFirst(first: Record) returns (out: Outcome<Record>)
      requires Valid() && stage == Anchored(first)
      modifies this
      ensures Valid() && Target in files && files[Target] == old(files[Target])
      ensures out.Done? ==> stage == Applying(first) && out.value == first && Lock in files && files[Lock] == ""
      ensures !out.Refused?
      ensures out.Crashed? ==> stage in {Anchored(first), Applying(first)}
      ensures Lasts(old(fuel), 1 + |format.encode(first)|) ==>
                out.Done? && fuel == Some(old(fuel).value - (1 + |format.encode(first)|))
      ensures old(fuel).None? ==> !out.Crashed? && fuel.None?
    {
      assert format.decode(files[Slot0], 0) == Some(AnchorOf(first));
      var repaired := RepairSlot(Slot1, format.encode(first), true);
      if files[Slot1] == format.encode(first) {
        stage := Applying(first);
      }
      if !repaired.Done? {
        return repaired.PropagateFailure();
      }
      var selected := Select(format, files[Slot0], files[Slot1]);
      return if selected.Some? then Done(selected.value) else Refused;
    }

    /** A remnant is part of this first write only if it belongs to the same record. */
    lemma RemnantMatches(first: Record)
      requires Valid() && Odd(first) && first.generation == 1
      requires files[Slot0] <= format.encode(AnchorOf(first))
      requires Target in files && first.prior == PriorOf(format, files[Target])
      ensures !stage.Tearing?
      ensures stage.Anchored? ==> stage.r == first
    {
      assert format.encode(AnchorOf(first)) != "";
      if stage.Anchored? {
        assert AnchorOf(stage.r) == AnchorOf(first) by {
          assert format.encode(AnchorOf(stage.r)) != "";
        }
      }
    }

    /**
     `initializeScopeJournalBootstrapRemnant`: both slots must be empty or part of the two records of
     this very write; then they are filled, the anchor first.
     */
    method InitializeBootstrap(prior: Option<Hex>, intended: string) returns (out: Outcome<Record>)
      requires Valid() && IsBody(intended) && Target in files && prior == PriorOf(format, files[Target])
      requires stage.Fresh? || stage.Anchoring? || stage.Anchored? || stage.Tearing?
      modifies this
      ensures Valid() && Target in files && files[Target] == old(files[Target])
      ensures out.Done? ==> stage == Applying(out.value) && out.value == Record(1, intended, prior, Bootstrap)
      ensures out.Done? ==> Lock in files && files[Lock] == ""
      ensures out.Refused? ==> files == old(files) && stage == old(stage)
      ensures out.Crashed? ==>
                || (files == old(files) && stage == old(stage))
                || (var first := Record(1, intended, prior, Bootstrap);
                    stage in {Fresh, Anchoring(first), Anchored(first), Applying(first)})
      ensures out.Crashed? && old(stage.Anchored?) ==> !stage.Fresh? && !stage.Anchoring?
      ensures !old(stage.Tearing?) && (!old(stage.Fresh?) ==> old(stage).r.intended == intended) ==> !out.Refused?
      ensures old(stage.Tearing?) || (old(stage.Anchored?) && old(stage).r.intended != intended) ==> out.Refused?
      ensures !out.Refused? && old(stage.Anchoring?) ==>
                var steps := SlotSteps(Record(1, intended, prior, Bootstrap));
                Lasts(old(fuel), steps) ==> out.Done? && fuel == Some(old(fuel).value - steps)
      ensures !out.Refused? && old(stage.Fresh?) && old(fuel) == Some(2) ==>
                var first := Record(1, intended, prior, Bootstrap);
                |format.encode(AnchorOf(first))| > 1 ==> out.Crashed? && stage == Anchoring(first)
      ensures out.Refused? <==>
                var first := Record(1, intended, prior, Bootstrap);
                !(old(files[Slot0]) <= format.encode(AnchorOf(first))) || !(old(files[Slot1]) <= format.encode(first))
      ensures old(fuel).None? ==> !out.Crashed? && fuel.None?
    {
      hide MarkBefore, Applicable;
      var first := Record(1, intended, prior, Bootstrap);
      if !(files[Slot0] <= format.encode(AnchorOf(first))) || !(files[Slot1] <= format.encode(first)) {
        return Refused;
      }
      RemnantMatches(first);
      var _ :- FillAnchor(first);
      out := FillFirst(first);
    }

    /** `adoptScopeJournalBootstrapRemnant`: only a whole anchor authorises finishing the first write. */
    method AdoptBootstrap() returns (out: Outcome<Option<Record>>)
      requires Valid()
      requires stage.Anchoring? || stage.Anchored? || stage.Completing? || stage.Tearing?
      modifies this
      ensures Valid() && !out.Refused?
      ensures !old(stage.Anchored?) ==>
                out == Done(None) && files == old(files) && stage == old(stage) && fuel == old(fuel)
      ensures old(stage.Anchored?) ==> out != Done(None) && stage in {Anchored(old(stage).r), Applying(old(stage).r)}
      ensures old(stage.Anchored?) && out.Done? ==> stage.Applying? && out.value.value == stage.r
      ensures old(fuel).None? ==> !out.Crashed? && fuel.None?
    {
      var decoded0 := if files[Slot0] == "" then None else format.decode(files[Slot0], 0);
      var decoded1 := if files[Slot1] == "" then None else format.decode(files[Slot1], 1);
      if decoded0.None? || decoded0.value.generation != 0 || decoded0.value.phase != Bootstrap || decoded1.Some? {
        return Done(None);
      }
      var anchor := decoded0.value;
      if anchor.prior.Some? && anchor.prior.value != format.hash(files[Target]) {
        return Refused;
      }
      var first := anchor.(generation := 1);
      if !(files[Slot0] <= format.encode(anchor)) || !(files[Slot1] <= format.encode(first)) {
        return Done(None);
      }
      var selected :- InitializeBootstrap(anchor.prior, anchor.intended);
      return Done(Some(selected));
    }

    /** `adoptScopeJournalCompletionRemnant`: the first completion may have been cut short. */
    method AdoptCompletion() returns (out: Outcome<Option<Record>>)
      requires Valid()
      requires stage.Anchoring? || stage.Completing? || stage.Tearing?
      modifies this
      ensures Valid() && !out.Refused?
      ensures Stuck(old(stage)) ==> out == Done(None) && files == old(files) && stage == old(stage) && fuel == old(fuel)
      ensures !Stuck(old(stage)) ==> out != Done(None) && stage in {Completing(old(stage).r), Settled(old(stage).r)}
      ensures !Stuck(old(stage)) && out.Done? ==> stage.Settled? && out.value.value == CompletionOf(stage.r)
      ensures old(fuel).None? ==> !out.Crashed? && fuel.None?
    {
      var bootstrap := format.decode(files[Slot1], 1);
      if bootstrap.None? || bootstrap.value.generation != 1 || bootstrap.value.phase != Bootstrap {
        return Done(None);
      }
      var completed :- CompletionGeneration(None);
      if completed.Some? {
        return Done(None);
      }
      var canonical := format.encode(CompletionOf(bootstrap.value));
      if !(files[Slot0] <= canonical) {
        return Done(None);
      }
      var repaired := RepairSlot(Slot0, canonical, true);
      if files[Slot0] == canonical {
        stage := Settled(stage.r);
      }
      if !repaired.Done? {
        return repaired.PropagateFailure();
      }
      return Done(Select(format, files[Slot0], files[Slot1]));
    }

    /** The completion mark is whole, or was never begun. */
    ghost predicate MarkReadable()
      reads this`files, this`stage
    {
      Lock in files && (files[Lock] == "" || format.markOf(files[Lock]).Some?)
    }

    /** The selected record rules, and the target is what it says. */
    ghost predicate Rules(selected: Record)
      reads this`files, this`stage
    {
      Valid() && ((stage.Settled? && selected == CompletionOf(stage.r)) || stage == Applying(selected))
    }

    /** Slot 0 receives the completion of an applied bootstrap record. */
    method PublishRecord(selected: Record) returns (out: Outcome<Record>)
      requires Rules(selected) && format.hash(files[Target]) == format.hash(selected.intended)
      modifies this
      ensures Valid() && !out.Refused?
      ensures !stage.Fresh? && stage.r == old(stage).r && (stage.Applying? || stage.Completing? || stage.Settled?)
      ensures out.Done? ==> stage.Settled? && out.value == CompletionOf(stage.r)
      ensures old(stage.Settled?) ==> files == old(files) && fuel == old(fuel) && out.Done?
      ensures files == old(files)[Slot0 := files[Slot0]]
      ensures old(stage.Applying?) && Lasts(old(fuel), 1 + |format.encode(CompletionOf(selected))|) ==>
                out.Done? && fuel == Some(old(fuel).value - (1 + |format.encode(CompletionOf(selected))|))
      ensures old(fuel).None? ==> !out.Crashed? && fuel.None?
    {
      if selected.phase.Complete? {
        return Done(selected);
      }
      if selected.generation == INT_MAX {
        return Refused;
      }
      var complete := CompletionOf(selected);
      var canonical := format.encode(complete);
      var repaired := RepairSlot(Slot0, canonical, false);
      if files[Slot0] == canonical {
        stage := Settled(selected);
      } else if files[Slot0] != old(files[Slot0]) {
        stage := Completing(selected);
      }
      return if repaired.Done? then Done(complete) else repaired.PropagateFailure();
    }

    /** `publishScopeJournalComplete`: the completion record, then the mark. */
    method PublishComplete(selected: Record) returns (out: Outcome<Record>)
      requires Rules(selected) && MarkReadable() && format.hash(files[Target]) == format.hash(selected.intended)
      modifies this
      ensures Valid() && !out.Refused?
      ensures !stage.Fresh? && stage.r == old(stage).r && (stage.Applying? || stage.Completing? || stage.Settled?)
      ensures out.Done? ==> Converged() && out.value == CompletionOf(stage.r)
      ensures old(Converged()) ==> files == old(files) && out.Done?
      ensures Target in files && files[Target] == old(files[Target])
      ensures old(stage.Applying? && files[Lock] == "") && selected.generation == 1 ==>
                Lasts(old(fuel), CompleteSteps(selected)) ==>
                  out.Done? && fuel == Some(old(fuel).value - CompleteSteps(selected))
      ensures old(fuel).None? ==> !out.Crashed? && fuel.None?
    {
      hide Format.Lawful;
      MarkFits(selected);
      var published :- PublishRecord(selected);
      var _ :- PersistCompletion(published.generation);
      return Done(published);
    }

    /** While a record rules, the mark is unwritten, earlier, its own, or a cut of its own. */
    lemma MarksOf(selected: Record)
      requires Rules(selected)
      ensures || files[Lock] == ""
              || (selected.phase.Complete? && files[Lock] < format.mark(selected.generation))
              || (format.markOf(files[Lock]).Some? && format.markOf(files[Lock]).value <= selected.generation)
      ensures selected.phase.Complete? && files[Lock] == format.mark(selected.generation) ==>
                !(files[Lock] < format.mark(selected.generation)) && files[Lock] != ""
    {
      var r := stage.r;
      if !MarkBefore(format, r, files[Lock]) && !(files[Lock] < format.mark(r.generation + 1)) {
        assert files[Lock] == format.mark(r.generation + 1);
      }
    }

    /** A mark that can be read names no later generation. */
    lemma MarkFits(selected: Record)
      requires Rules(selected) && MarkReadable()
      ensures format.mark(2) != ""
      ensures files[Lock] == ""
                || (format.markOf(files[Lock]).Some? && format.markOf(files[Lock]).value <= selected.generation)
    {
      MarksOf(selected);
      if selected.phase.Complete? && format.markOf(files[Lock]).Some? {
        assert files[Lock] == format.mark(format.markOf(files[Lock]).value);
      }
    }

    /** Reading the mark before applying: it never names a later generation than the selected record. */
    method CheckMark(selected: Record) returns (out: Outcome<()>)
      requires Rules(selected)
      modifies this
      ensures Rules(selected) && !out.Refused? && stage == old(stage)
      ensures out.Done? ==> MarkReadable()
      ensures files == old(files)[Lock := files[Lock]]
      ensures old(Converged()) ==> files == old(files) && out.Done?
      ensures old(fuel).None? ==> !out.Crashed? && fuel.None?
    {
      MarksOf(selected);
      var completed :- CompletionGeneration(if selected.phase.Complete? then Some(selected.generation) else None);
      if completed.Some? && completed.value > selected.generation {
        return Refused;
      }
      return Done(());
    }

    /** Both slots select a record exactly when the journal is settled or applying one. */
    lemma SelectionOf()
      requires Valid() && !stage.Fresh?
      ensures var selected := Select(format, files[Slot0], files[Slot1]);
              if stage.Settled? then selected == Some(CompletionOf(stage.r))
              else if stage.Applying? then selected == Some(stage.r)
              else selected == None
    {
      if stage.Tearing? {
        assert format.decode(files[Slot1], 1) == None;
      } else {
        assert format.encode(stage.r) != "";
      }
      if stage.Completing? || stage.Settled? {
        assert format.encode(CompletionOf(stage.r)) != "";
      }
    }

    /** Selecting the ruling record, adopting a remnant of the first write when no two slots do. */
    method SelectOrAdopt() returns (out: Outcome<Record>)
      requires Valid() && !stage.Fresh?
      modifies this
      ensures Valid() && Value(stage, files) == old(Value(stage, files)) && !stage.Fresh?
      ensures out.Refused? <==> Stuck(old(stage))
      ensures out.Refused? ==> files == old(files) && stage == old(stage)
      ensures !out.Refused? ==> stage.r == old(stage).r && !Stuck(stage)
      ensures out.Done? ==> (stage.Settled? && out.value == CompletionOf(stage.r)) || stage == Applying(out.value)
      ensures old(stage.Settled? || stage.Applying?) ==> files == old(files) && stage == old(stage) && out.Done?
      ensures out.Refused? ==> fuel == old(fuel)
      ensures old(fuel).None? ==> !out.Crashed? && fuel.None?
    {
      SelectionOf();
      var selected := Select(format, files[Slot0], files[Slot1]);
      if selected.Some? {
        return Done(selected.value);
      }
      var adopted :- AdoptBootstrap();
      if adopted.None? {
        adopted :- AdoptCompletion();
      }
      return if adopted.Some? then Done(adopted.value) else Refused;
    }

    /** Applying the ruling record to the target, then publishing its completion. */
    method ApplyAndComplete(selected: Record) returns (out: Outcome<Record>)
      requires Rules(selected) && MarkReadable()
      modifies this
      ensures Valid() && !out.Refused?
      ensures !stage.Fresh? && stage.r == old(stage).r && (stage.Applying? || stage.Completing? || stage.Settled?)
      ensures out.Done? ==> Converged() && out.value == CompletionOf(stage.r)
      ensures old(Converged()) ==> files == old(files) && out.Done?
      ensures old(stage.Applying? && files[Lock] == "") && selected.generation == 1 ==>
                var steps := ApplySteps(selected, old(files[Target])) + CompleteSteps(selected);
                Lasts(old(fuel), steps) ==> out.Done? && fuel == Some(old(fuel).value - steps)
      ensures old(fuel).None? ==> !out.Crashed? && fuel.None?
    {
      hide Store.CompleteSteps;
      var _ :- Apply(selected);
      out := PublishComplete(selected);
    }

    /** The rest of a recovery once a record rules: check the mark, apply the record, complete it. */
    method Finish(selected: Record) returns (out: Outcome<Record>)
      requires Rules(selected)
      modifies this
      ensures Valid() && !out.Refused?
      ensures !stage.Fresh? && stage.r == old(stage).r && (stage.Applying? || stage.Completing? || stage.Settled?)
      ensures out.Done? ==> Converged() && out.value == CompletionOf(stage.r)
      ensures old(Converged()) ==> files == old(files) && out.Done?
      ensures old(fuel).None? ==> !out.Crashed? && fuel.None?
    {
      var _ :- CheckMark(selected);
      out := ApplyAndComplete(selected);
    }

    /** The slots hold no byte only before the first write, and slot 1 none only before it took effect. */
    lemma EmptySlots()
      requires Valid()
      ensures files[Slot0] == "" && files[Slot1] == "" <==> stage.Fresh?
      ensures files[Slot1] == "" ==> stage.Fresh? || stage.Anchoring? || stage.Anchored? || stage.Tearing?
    {
      if !stage.Fresh? {
        assert format.encode(stage.r) != "" && format.encode(AnchorOf(stage.r)) != "";
      }
    }

    /** Slot 0 holds bytes but no record, and slot 1 no bytes: only part of the first anchor was written. */
    predicate HalfAnchored()
      reads this`files
    {
      Slot0 in files && Slot1 in files && files[Slot0] != "" && format.decode(files[Slot0], 0).None?
        && files[Slot1] == ""
    }

    lemma HalfAnchoredIffAnchoring()
      requires Valid()
      ensures HalfAnchored() <==> stage.Anchoring?
    {
      if !stage.Fresh? {
        assert format.encode(stage.r) != "" && format.encode(AnchorOf(stage.r)) != ""
          && format.encode(CompletionOf(stage.r)) != "";
      }
    }

    /**
     Some slot holds bytes, the two do not select a record, slot 0 holds no first anchor and slot 1 no first record.
     That is when a reader has to give up.
     */
    predicate Unselectable()
      requires Slot0 in files && Slot1 in files
      reads this`files
    {
      && (files[Slot0] != "" || files[Slot1] != "") && Select(format, files[Slot0], files[Slot1]).None?
      && (format.decode(files[Slot0], 0).Some? ==> format.decode(files[Slot0], 0).value.generation != 0)
      && (format.decode(files[Slot1], 1).Some? ==> format.decode(files[Slot1], 1).value.generation != 1)
    }

    /** Both kinds of tears can be told from the slots. */
    lemma StuckIffUnselectable()
      requires Valid()
      ensures Slot0 in files && Slot1 in files
      ensures Stuck(stage) <==> Unselectable()
      ensures TornForGood(stage) <==> Unselectable() && !HalfAnchored()
    {
      EmptySlots();
      HalfAnchoredIffAnchoring();
      if !stage.Fresh? {
        SelectionOf();
        assert format.encode(stage.r) != "" && format.encode(AnchorOf(stage.r)) != ""
          && format.encode(CompletionOf(stage.r)) != "";
      }
    }

    /** `persistentJournalRecover`: the register keeps its value; unless stuck, the journal settles. */
    method Recover() returns (out: Outcome<Option<Record>>)
      requires Valid()
      modifies this
      ensures Valid() && Value(stage, files) == old(Value(stage, files))
      ensures out.Refused? <==> old(Unselectable())
      ensures out.Refused? <==> Stuck(old(stage))
      ensures out.Refused? || old(stage.Fresh?) ==> files == old(files) && stage == old(stage)
      ensures old(stage.Fresh?) <==> out == Done(None)
      ensures !out.Refused? && !old(stage.Fresh?) ==> !stage.Fresh? && stage.r == old(stage).r
      ensures !Stuck(old(stage)) && !old(stage.Fresh?) && stage.r.generation == 1 ==> !Stuck(stage)
      ensures out.Done? && out.value.Some? ==> Converged() && out.value.value == CompletionOf(stage.r)
      ensures old(Converged()) ==> files == old(files) && out.Done?
      ensures out.Refused? || old(stage.Fresh?) ==> fuel == old(fuel)
      ensures old(fuel).None? ==> !out.Crashed? && fuel.None?
    {
      hide Shows, Format.Lawful, Store.Unselectable;
      StuckIffUnselectable();
      EmptySlots();
      if files[Slot0] == "" && files[Slot1] == "" {
        return Done(None);
      }
      var selected :- SelectOrAdopt();
      var complete :- Finish(selected);
      return Done(Some(complete));
    }

    /** `readScopeJournal`: a read that returns gives the register's value; a stuck journal refuses. */
    method Read() returns (out: Outcome<Option<string>>)
      requires Valid()
      modifies this
      ensures Valid() && Value(stage, files) == old(Value(stage, files))
      ensures out.Done? ==> out.value == Value(stage, files)
      ensures old(stage.Fresh?) ==> out.Done?
      ensures out.Refused? <==> old(Unselectable())
      ensures out.Refused? <==> Stuck(old(stage))
      ensures out.Refused? || old(stage.Fresh?) ==> files == old(files) && stage == old(stage)
      ensures out.Done? && !old(stage.Fresh?) ==> Converged()
      ensures !old(stage.Fresh?) && !out.Refused? ==> !stage.Fresh? && stage.r == old(stage).r
      ensures !Stuck(old(stage)) && !old(stage.Fresh?) && stage.r.generation == 1 ==> !Stuck(stage)
      ensures old(Converged()) ==> files == old(files) && out.Done?
      ensures out.Refused? || old(stage.Fresh?) ==> fuel == old(fuel)
      ensures old(fuel).None? ==> !out.Crashed? && fuel.None?
    {
      var selected :- Recover();
      if selected.Some? {
        return Done(Some(selected.value.intended));
      }
      return Done(BodyOrNone(if Target in files then files[Target] else ""));
    }

    /** `persistentJournalOpenTarget`, which creates a target that is missing. */
    method OpenTarget() returns (out: Outcome<string>)
      requires Valid()
      modifies this`files, this`fuel
      ensures Valid() && !out.Refused?
      ensures out.Done? ==> Target in files && out.value == files[Target]
      ensures old(Target in files) ==> out.Done? && files == old(files) && fuel == old(fuel)
      ensures !old(Target in files) ==>
                stage.Fresh? && files == if out.Done? then old(files)[Target := ""] else old(files)
      ensures old(Target !in files) && old(fuel) == Some(0) ==> out.Crashed?
      ensures old(fuel).None? ==> !out.Crashed? && fuel.None?
    {
      if Target !in files {
        var alive := Tick();
        if !alive {
          return Crashed;
        }
        files := files[Target := ""];
      }
      return Done(files[Target]);
    }

    /** Slot 0 holds no more than part of the anchor this very write begins with. */
    predicate TakesRemnant(body: string)
      requires Slot0 in files
      reads this`files
    {
      files[Slot0] <= format.encode(Record(0, body, PriorOf(format, TargetOf(files)), Bootstrap))
    }

    /** The power with which a first write over an existing target ends in the middle of slot 0. */
    ghost predicate HalvesAnchor(body: string)
      reads this`files, this`stage, this`fuel
    {
      && stage.Fresh? && Target in files && fuel == Some(2)
      && |format.encode(Record(0, body, PriorOf(format, files[Target]), Bootstrap))| > 1
    }

    /** The power with which a write over half an anchor ends in the record after the first one. */
    ghost predicate TearsNext(body: string)
      reads this`files, this`stage, this`fuel
    {
      stage.Anchoring? && stage.r.intended == body && fuel == Some(FirstSteps(stage.r, TargetOf(files)) + 1)
    }

    /** Half an anchor belongs to the first write of its body over the target that is there. */
    lemma HalfAnchorIs(body: string)
      requires Valid() && stage.Anchoring? && stage.r.intended == body
      ensures Target in files && stage.r == Record(1, body, PriorOf(format, files[Target]), Bootstrap)
    {
    }

    lemma PowerTells(body: string)
      ensures HalvesAnchor(body) ==> stage.Fresh?
      ensures TearsNext(body) ==> stage.Anchoring? && stage.r.intended == body
    {
    }

    /** The very first write of a journal, or its repetition over its own remnant. */
    method WriteFirst(body: string, retained: Option<string>) returns (out: Outcome<Record>)
      requires Valid() && IsBody(body)
      requires stage.Fresh? || stage.Anchoring? || stage.Anchored? || stage.Tearing?
      requires retained.Some? ==> Target in files && files[Target] == retained.value
      modifies this
      ensures Valid()
      ensures out.Done? ==> Converged() && out.value == CompletionOf(stage.r) && stage.r.intended == body
      ensures out.Done? ==> stage.r.generation == 1
      ensures out.Refused? ==> files == old(files) && stage == old(stage)
      ensures out.Crashed? ==> Value(stage, files) == old(Value(stage, files)) || Value(stage, files) == Some(body)
      ensures old(FirstWrite(stage, files, Value(stage, files), body)) ==> !out.Refused?
      ensures out.Crashed? && old(FirstWrite(stage, files, Value(stage, files), body)) ==>
                FirstWrite(stage, files, old(Value(stage, files)), body)
      ensures old(stage.Tearing?) ==> out.Refused?
      ensures old(stage.Anchoring? && stage.r.intended == body) ==>
                var steps := FirstSteps(old(stage).r, old(TargetOf(files)));
                Lasts(old(fuel), steps) ==> out.Done? && fuel == Some(old(fuel).value - steps)
      ensures old(HalvesAnchor(body)) ==> out.Crashed? && stage.Anchoring? && stage.r.intended == body
      ensures old(files[Slot1]) == "" && !out.Crashed? ==> (out.Done? <==> old(TakesRemnant(body)))
      ensures old(fuel).None? ==> !out.Crashed? && fuel.None?
    {
      hide Store.Valid, Store.SlotSteps, Store.ApplySteps, Store.CompleteSteps;
      if stage.Anchoring? && stage.r.intended == body {
        HalfAnchorIs(body);
      }
      var current :- OpenTarget();
      var before := if retained.Some? then retained.value else current;
      var selected :- InitializeBootstrap(PriorOf(format, before), body);
      out := ApplyAndComplete(selected);
    }

    /** Slot 1 receives the next bootstrap record; a cut leaves the old value, and a stuck journal. */
    method BeginNext(r: Record) returns (out: Outcome<()>)
      requires Valid() && Odd(r) && Converged() && r.generation == stage.r.generation + 2
      requires r.prior == Some(format.hash(files[Target]))
      modifies this
      ensures Valid() && !out.Refused?
      ensures out.Done? ==> Rules(r) && stage == Applying(r) && MarkReadable()
      ensures out.Crashed? ==> stage in {old(stage), Tearing(old(stage).r, r), Applying(r)}
      ensures old(fuel) == Some(1) ==> out.Crashed? && stage == Tearing(old(stage).r, r)
      ensures old(fuel).None? ==> !out.Crashed? && fuel.None?
    {
      ghost var before := stage.r;
      var canonical := format.encode(r);
      out := RepairSlot(Slot1, canonical, false);
      assert format.decode(files[Slot0], 0) == Some(CompletionOf(before));
      if files[Slot1] == canonical {
        stage := Applying(r);
      } else if files[Slot1] != old(files[Slot1]) {
        stage := Tearing(before, r);
      }
    }

    /** A further write: the next bootstrap record in slot 1, the target, then the completion. */
    method WriteNext(selected: Record, body: string) returns (out: Outcome<Record>)
      requires Valid() && IsBody(body) && Converged() && selected == CompletionOf(stage.r)
      modifies this
      ensures Valid()
      ensures out.Done? ==> Converged() && out.value == CompletionOf(stage.r) && stage.r.intended == body
      ensures out.Refused? ==> files == old(files) && stage == old(stage)
      ensures out.Done? ==> stage.r.generation == old(stage).r.generation + 2
      ensures out.Refused? <==> selected.generation > INT_MAX - 2
      ensures !out.Refused? && old(fuel) == Some(1) ==> out.Crashed? && stage.Tearing? && stage.before == old(stage).r
      ensures out.Crashed? ==> Value(stage, files) == old(Value(stage, files)) || Value(stage, files) == Some(body)
      ensures old(fuel).None? ==> !out.Crashed? && fuel.None?
    {
      if selected.generation > INT_MAX - 2 {
        return Refused;
      }
      var r := Record(selected.generation + 1, body, Some(format.hash(files[Target])), Bootstrap);
      var _ :- BeginNext(r);
      out := ApplyAndComplete(r);
    }

    /** The target a compare-and-swap opened before reading is still there when nothing has been recovered. */
    ghost predicate Retains(retained: Option<string>)
      reads this`files, this`stage
    {
      retained.Some? && (stage.Fresh? || stage.Anchoring? || stage.Anchored? || stage.Tearing?) ==>
        Target in files && files[Target] == retained.value
    }

    /**
     A write is taken: nothing is torn for good, the first write is under way in slot 1, and there are numbers left.
     */
    ghost predicate Open()
      reads this`files, this`stage
    {
      !stage.Fresh? && !Stuck(stage) && Slot1 in files && files[Slot1] != "" && stage.r.generation < INT_MAX - 2
    }

    /** The generation of the bootstrap record that counts. */
    ghost function Generation(): nat
      reads this`stage
    {
      if stage.Fresh? then 0 else stage.r.generation
    }

    /** When a write of a proper body is carried out. */
    ghost predicate Takes(body: string)
      requires Slot0 in files && Slot1 in files
      reads this`files, this`stage
    {
      if files[Slot1] == "" then TakesRemnant(body)
      else !Unselectable() && !stage.Fresh? && stage.r.generation < INT_MAX - 2
    }

    /** A write to a journal that has begun: finish or repeat the first write if need be, then write on. */
    method WriteOn(body: string, retained: Option<string>) returns (out: Outcome<Record>)
      requires Valid() && IsBody(body) && Retains(retained) && !stage.Fresh?
      modifies this
      ensures Valid()
      ensures out.Done? ==> Converged() && out.value == CompletionOf(stage.r) && stage.r.intended == body
      ensures out.Refused? ==> Value(stage, files) == old(Value(stage, files))
      ensures out.Crashed? ==> Value(stage, files) == old(Value(stage, files)) || Value(stage, files) == Some(body)
      ensures old(stage.Anchoring? && stage.r.intended == body) ==> !out.Refused?
      ensures old(Unselectable() && !HalfAnchored()) ==> out.Refused? && files == old(files) && stage == old(stage)
      ensures old(Open()) ==> !out.Refused?
      ensures old(TearsNext(body)) ==> out.Crashed? && stage.Tearing? && stage.before.intended == body
      ensures !out.Crashed? ==> (out.Done? <==> old(Takes(body)))
      ensures out.Done? ==> Generation() <= old(Generation()) + 2
      ensures old(fuel).None? ==> !out.Crashed? && fuel.None?
    {
      hide Store.Unselectable, Store.HalfAnchored;
      StuckIffUnselectable();
      EmptySlots();
      var selected;
      if files[Slot1] == "" {
        selected :- WriteFirst(body, retained);
      } else {
        var recovered :- Recover();
        if recovered.None? {
          return Refused;
        }
        selected := recovered.value;
      }
      out := WriteNext(selected, body);
    }

    /** `writeScopeJournalInContext`; `retained` is the target a compare-and-swap has opened before. */
    method Write(body: string, retained: Option<string>) returns (out: Outcome<()>)
      requires Valid() && IsBytes(body) && Retains(retained)
      modifies this
      ensures Valid()
      ensures out.Done? ==> Converged() && Value(stage, files) == Some(body)
      ensures out.Refused? ==> Value(stage, files) == old(Value(stage, files))
      ensures out.Crashed? ==> Value(stage, files) == old(Value(stage, files)) || Value(stage, files) == Some(body)
      ensures old(Unselectable() && !HalfAnchored()) ==> out.Refused? && files == old(files) && stage == old(stage)
      ensures IsBody(body) && old(stage.Fresh? || (stage.Anchoring? && stage.r.intended == body) || Open()) ==>
                !out.Refused?
      ensures old(stage.Fresh?) && out.Crashed? ==> FirstWrite(stage, files, old(Value(stage, files)), body)
      ensures IsBody(body) && old(HalvesAnchor(body)) ==> out.Crashed? && stage.Anchoring? && stage.r.intended == body
      ensures IsBody(body) && old(TearsNext(body)) ==> out.Crashed? && stage.Tearing? && stage.before.intended == body
      ensures !out.Crashed? ==> (out.Done? <==> IsBody(body) && old(Takes(body)))
      ensures out.Done? ==> Generation() <= old(Generation()) + 2
      ensures old(fuel).None? ==> !out.Crashed? && fuel.None?
    {
      hide Store.Unselectable, Store.HalfAnchored, Store.TakesRemnant, Format.Lawful, MarkBefore;
      if body == "" || |body| > BODY_LIMIT {
        return Refused;
      }
      StuckIffUnselectable();
      EmptySlots();
      var selected;
      if files[Slot0] == "" && files[Slot1] == "" {
        selected :- WriteFirst(body, retained);
      } else {
        selected :- WriteOn(body, retained);
      }
      var _ :- Apply(selected);
      return Done(());
    }

    /** The comparison of a swap: Some answer ends it, None lets it write. */
    method Compare(expected: Option<string>, desired: string, retained: Option<string>)
      returns (out: Outcome<Option<Swap>>)
      requires Valid() && retained == if Target in files then Some(files[Target]) else None
      modifies this
      ensures Valid() && Value(stage, files) == old(Value(stage, files)) && (out.Crashed? || Retains(retained))
      ensures out == Done(Some(AlreadyApplied)) ==> Value(stage, files) == Some(desired)
      ensures out == Done(Some(Conflict)) ==> Value(stage, files) != expected && Value(stage, files) != Some(desired)
      ensures out == Done(None) ==> Value(stage, files) == expected || TornForGood(stage)
      ensures old(TornForGood(stage)) ==>
                (out.Refused? || out == Done(None)) && files == old(files) && stage == old(stage)
      ensures out != Done(Some(Changed))
      ensures old(stage.Fresh?) ==> files == old(files) && stage == old(stage)
      ensures old(FirstWrite(stage, files, expected, desired)) && expected != Some(desired) ==>
                !out.Refused? && FirstWrite(stage, files, expected, desired)
      ensures old(FirstWrite(stage, files, expected, desired)) && expected != Some(desired) && out.Done? ==>
                if out.value.Some? then out.value == Some(AlreadyApplied) && Converged()
                else stage == old(stage) && (stage.Fresh? || stage.Anchoring?)
      ensures old((stage.Fresh? || stage.Anchoring?) && FirstWrite(stage, files, expected, desired))
                && expected != Some(desired) ==>
                out == Done(None) && files == old(files) && stage == old(stage) && fuel == old(fuel)
      ensures old(Unselectable()) ==>
                && files == old(files) && stage == old(stage)
                && out == if retained.None? || expected != BodyOrNone(retained.value) then Refused else Done(None)
      ensures !old(Unselectable()) && !out.Crashed? ==>
                && (if old(stage.Fresh?) then stage.Fresh?
                    else Converged() && stage.r.generation == old(stage).r.generation)
                && out == if old(Value(stage, files)) == Some(desired) then Done(Some(AlreadyApplied))
                          else if old(Value(stage, files)) != expected then Done(Some(Conflict))
                          else Done(None)
      ensures old(fuel).None? ==> !out.Crashed? && fuel.None?
    {
      var current := Read();
      if current.Crashed? {
        return Crashed;
      }
      if current.Refused? {
        return if retained.None? || expected != BodyOrNone(retained.value) then Refused else Done(None);
      }
      return if current.value == Some(desired) then Done(Some(AlreadyApplied))
             else if expected != current.value then Done(Some(Conflict))
             else Done(None);
    }

    /** The answer to a swap of proper bodies. */
    ghost function Answer(expected: Option<string>, desired: string): Outcome<Swap>
      requires Slot0 in files && Slot1 in files
      reads this`files, this`stage
    {
      if Unselectable() then
        if Target in files && expected == BodyOrNone(files[Target]) && Takes(desired) then Done(Changed) else Refused
      else if Value(stage, files) == Some(desired) then Done(AlreadyApplied)
      else if Value(stage, files) != expected then Done(Conflict)
      else if stage.Fresh? || stage.r.generation < INT_MAX - 2 then Done(Changed)
      else Refused
    }

    /** `compareAndSwapScopeJournal` */
    method CompareAndSwap(expected: Option<string>, desired: string) returns (out: Outcome<Swap>)
      requires Valid() && IsBytes(desired)
      modifies this
      ensures Valid()
      ensures out == Done(Changed) ==>
                old(Value(stage, files)) == expected && Converged() && Value(stage, files) == Some(desired)
      ensures out == Done(AlreadyApplied) ==> old(Value(stage, files)) == Some(desired)
      ensures out == Done(Conflict) ==>
                old(Value(stage, files)) != expected && old(Value(stage, files)) != Some(desired)
      ensures out.Refused? || out in {Done(AlreadyApplied), Done(Conflict)} ==>
                Value(stage, files) == old(Value(stage, files))
      ensures out.Crashed? ==> Value(stage, files) == old(Value(stage, files)) || Value(stage, files) == Some(desired)
      ensures old(FirstWrite(stage, files, expected, desired) && !HalfAnchored()) && Sensible(expected, desired)
                && out.Crashed? ==>
                FirstWrite(stage, files, expected, desired)
      ensures old(Unselectable() && !HalfAnchored()) && Sensible(expected, desired) ==>
                out.Refused? && files == old(files) && stage == old(stage)
      ensures old(FirstWrite(stage, files, expected, desired)) && Sensible(expected, desired) && !out.Crashed? ==>
                out.Done? && out.value != Conflict && Converged() && Value(stage, files) == Some(desired)
      ensures old(FirstWrite(stage, files, expected, desired) && HalvesAnchor(desired))
                && Sensible(expected, desired) ==>
                out.Crashed? && stage.Anchoring? && stage.r.intended == desired
      ensures old(FirstWrite(stage, files, expected, desired) && TearsNext(desired)) && Sensible(expected, desired) ==>
                out.Crashed? && stage.Tearing? && stage.before.intended == desired
      ensures desired == "" || |desired| > 65536 || (expected.Some? && !(0 < |expected.value| <= 65536)) ==>
                out.Refused?
      ensures Comparable(expected, desired) && !out.Crashed? ==> out == old(Answer(expected, desired))
      ensures out.Done? ==> (stage.Fresh? || stage.Settled?) && Generation() <= old(Generation()) + 2
      ensures old(fuel).None? ==> !out.Crashed? && fuel.None?
    {
      hide Store.Valid, Store.HalfAnchored, Store.Unselectable, Store.TakesRemnant, Store.FirstSteps, PriorOf, Value,
           Store.HalvesAnchor, Store.TearsNext, Store.Retains, Sensible, Comparable, IsBody;
      BodiesFit(expected, desired);
      PowerTells(desired);
      StuckIffUnselectable();
      HalfAnchoredIffAnchoring();
      if !Comparable(expected, desired) {
        return Refused;
      }
      var retained := if Target in files then Some(files[Target]) else None;
      var compared :- Compare(expected, desired, retained);
      if compared.Some? {
        return Done(compared.value);
      }
      StuckIffUnselectable();
      EmptySlots();
      var _ :- Write(desired, retained);
      return Done(Changed);
    }

    /**
     The very first compare-and-swap of a journal is repeated until it returns.  It may lose its power at any byte
     at first, and again in every repetition that does not begin with half an anchor.  It ends with the desired
     body, two valid slots of consecutive generations and the mark of the higher one, and a further read changes
     no byte.
     */
    method RepeatFirstSwap(expected: Option<string>, desired: string, power: seq<nat>)
      returns (losses: nat, settled: Files)
      requires Valid() && stage.Fresh? && Value(stage, files) == expected && Sensible(expected, desired)
      modifies this
      ensures Valid() && Converged() && Value(stage, files) == Some(desired) && files == settled
      ensures Select(format, files[Slot0], files[Slot1]) == Some(CompletionOf(stage.r)) && stage.r.intended == desired
      ensures losses <= |power|
    {
      hide Store.Valid, Store.HalfAnchored;
      losses := 0;
      var returned := false;
      while !returned && losses < |power| && !HalfAnchored()
        invariant Valid() && losses <= |power|
        invariant if returned then Converged() && Value(stage, files) == Some(desired)
                    else FirstWrite(stage, files, expected, desired)
        decreases !returned, |power| - losses
      {
        fuel := Some(power[losses]);
        var swapped := CompareAndSwap(expected, desired);
        if swapped.Crashed? {
          losses := losses + 1;
        } else {
          returned := true;
        }
      }
      fuel := None;
      if !returned {
        var _ := CompareAndSwap(expected, desired);
      }
      settled := files;
      var read := Read();
      SelectionOf();
    }

    /**
     From half an anchor the repetition finishes the first write and goes on to a further one.  If it loses its
     power there the journal is torn for good, although the body is the desired one.
     */
    method TornByRepetition(expected: Option<string>, desired: string) returns (power: nat)
      requires Valid() && stage.Anchoring? && FirstWrite(stage, files, expected, desired) && Sensible(expected, desired)
      modifies this
      ensures Valid() && TornForGood(stage) && Value(stage, files) == Some(desired)
      ensures Unselectable() && !HalfAnchored()
    {
      hide Store.Valid, Store.Unselectable, Store.HalfAnchored, Store.FirstSteps;
      HalfAnchorIs(desired);
      var first := Record(1, desired, PriorOf(format, files[Target]), Bootstrap);
      power := FirstSteps(first, files[Target]) + 1;
      fuel := Some(power);
      var swapped := CompareAndSwap(expected, desired);
      StuckIffUnselectable();
    }

    /** A request throws, unless it loses its power before. */
    ghost predicate Throws(request: Request)
      requires Slot0 in files && Slot1 in files
      reads this`files, this`stage
    {
      match request
      case ReadBody => Unselectable()
      case WriteBody(body) => !IsBody(body) || !Takes(body)
      case SwapBody(expected, desired) => !Comparable(expected, desired) || Answer(expected, desired).Refused?
    }

    /** Nothing is torn, no first write is half done, and there are numbers for some more writes. */
    ghost predicate Ready(writes: nat)
      reads this`files, this`stage
    {
      && Slot0 in files && Slot1 in files
      && (stage.Fresh? || (files[Slot1] != "" && !Unselectable())) && Generation() + 2 * writes < INT_MAX
    }

    /** A journal that is ready refuses no acceptable request. */
    lemma ReadyServes(request: Request)
      requires Valid() && Ready(1) && Acceptable(request)
      ensures Slot0 in files && Slot1 in files && !Throws(request)
    {
      EmptySlots();
      StuckIffUnselectable();
    }

    lemma AtRestServes()
      requires Valid()
      ensures Slot0 in files && Slot1 in files
      ensures stage.Settled? ==> files[Slot1] != "" && !Unselectable()
    {
      EmptySlots();
      StuckIffUnselectable();
    }

    /** A request was carried out. */
    ghost predicate Served(before: nat)
      reads this`files, this`stage
    {
      && Slot0 in files && Slot1 in files
      && (stage.Fresh? || (files[Slot1] != "" && !Unselectable())) && Generation() <= before + 2
    }

    /** One process: the request it makes and the power it has. */
    method Serve(request: Request, power: Option<nat>) returns (reply: Reply)
      requires Valid() && Proper(request)
      modifies this
      ensures Valid() && Explains(old(Value(stage, files)), request, reply, Value(stage, files))
      ensures reply.PowerLost? ==> power.Some?
      ensures !reply.PowerLost? ==> (reply.Threw? <==> old(Throws(request)))
      ensures !reply.PowerLost? && !reply.Threw? && old(Ready(0)) ==> Served(old(Generation()))
    {
      hide Store.Valid, Value;
      EmptySlots();
      StuckIffUnselectable();
      fuel := power;
      if request.ReadBody? {
        var read := Read();
        AtRestServes();
        return if read.Done? then GotBody(read.value) else Failed(read.Refused?);
      } else if request.WriteBody? {
        var written := Write(request.body, None);
        AtRestServes();
        return if written.Done? then Wrote else Failed(written.Refused?);
      } else {
        var swapped := CompareAndSwap(request.expected, request.desired);
        AtRestServes();
        return if swapped.Done? then Swapped(swapped.value) else Failed(swapped.Refused?);
      }
    }

    /** Every run of reads, writes and swaps, each losing power wherever it does, is a run of one register. */
    method Run(requests: seq<Request>, power: seq<Option<nat>>)
      returns (replies: seq<Reply>, ghost values: seq<Option<string>>)
      requires Valid() && |power| == |requests|
      requires forall i :: 0 <= i < |requests| ==> Proper(requests[i])
      modifies this
      ensures Valid() && |replies| == |requests|
      ensures History(requests, replies, values)
      ensures values[0] == old(Value(stage, files)) && values[|requests|] == Value(stage, files)
      ensures forall i :: 0 <= i < |requests| && replies[i].PowerLost? ==> power[i].Some?
      ensures old(Ready(|requests|))
                && (forall i :: 0 <= i < |requests| ==> power[i].None? && Acceptable(requests[i])) ==>
                forall i :: 0 <= i < |requests| ==> !replies[i].Threw? && !replies[i].PowerLost?
    {
      hide Store.Valid, Value, Explains;
      replies := [];
      values := [Value(stage, files)];
      for i := 0 to |requests|
        invariant Valid() && |replies| == i && |values| == i + 1
        invariant values[0] == old(Value(stage, files)) && values[i] == Value(stage, files)
        invariant forall j :: 0 <= j < i && replies[j].PowerLost? ==> power[j].Some?
        invariant old(Ready(|requests|))
                    && (forall j :: 0 <= j < |requests| ==> power[j].None? && Acceptable(requests[j])) ==>
                    Ready(|requests| - i) && forall j :: 0 <= j < i ==> !replies[j].Threw? && !replies[j].PowerLost?
        invariant forall j :: 0 <= j < i ==> Explains(values[j], requests[j], replies[j], values[j + 1])
      {
        if Ready(|requests| - i) && Acceptable(requests[i]) {
          ReadyServes(requests[i]);
        }
        var reply := Serve(requests[i], power[i]);
        replies := replies + [reply];
        values := values + [Value(stage, files)];
      }
    }
  }

  /** Two losses of power in the very first swap, the second in its repetition, can tear the journal for good. */
  method TornByTwoLosses(c: Codec, before: string, desired: string) returns (store: Store, power: nat)
    requires IsBody(before) && IsBody(desired) && before != desired
    ensures store.Valid() && TornForGood(store.stage) && Value(store.stage, store.files) == Some(desired)
  {
    hide Shows, Store.TearsNext, Store.Unselectable, Store.HalfAnchored, Codec.Encode, Codec.Decode, Codec.Mark,
         Codec.MarkOf;
    ConcreteIsLawful(c);
    store := new Store(Concrete(c), Some(before));
    c.NotEmpty(Record(0, desired, Some(c.hash(before)), Bootstrap));
    store.HalfAnchoredIffAnchoring();
    store.fuel := Some(2);
    var first := store.CompareAndSwap(Some(before), desired);
    power := store.TornByRepetition(Some(before), desired);
  }

  // ---------------------------------------------------------------- the register

  /** A first swap as its caller makes it: a proper body over a different proper body or none. */
  predicate Sensible(expected: Option<string>, desired: string) {
    IsBody(desired) && expected != Some(desired) && (expected.Some? ==> IsBody(expected.value))
  }

  lemma BodiesFit(expected: Option<string>, desired: string)
    ensures Sensible(expected, desired) ==> Comparable(expected, desired) && expected != Some(desired)
    ensures IsBytes(desired) && Comparable(expected, desired) ==> IsBody(desired)
    ensures Comparable(expected, desired) ==>
              0 < |desired| <= 65536 && (expected.Some? ==> 0 < |expected.value| <= 65536)
  {
  }

  /** The lengths a swap allows. */
  predicate Comparable(expected: Option<string>, desired: string) {
    0 < |desired| <= BODY_LIMIT && (expected.Some? ==> 0 < |expected.value| <= BODY_LIMIT)
  }

  datatype Request = ReadBody | WriteBody(body: string) | SwapBody(expected: Option<string>, desired: string)

  datatype Reply = GotBody(body: Option<string>) | Wrote | Swapped(swap: Swap) | Threw | PowerLost

  function Failed(threw: bool): Reply { if threw then Threw else PowerLost }

  /** The lengths of its bodies are allowed. */
  predicate Acceptable(request: Request) {
    match request
    case ReadBody => true
    case WriteBody(body) => IsBody(body)
    case SwapBody(expected, desired) => Comparable(expected, desired)
  }

  /** A body is a byte string. */
  predicate Proper(request: Request) {
    match request
    case ReadBody => true
    case WriteBody(body) => IsBytes(body)
    case SwapBody(_, desired) => IsBytes(desired)
  }

  function Written(request: Request): Option<string> {
    match request
    case ReadBody => None
    case WriteBody(body) => Some(body)
    case SwapBody(_, desired) => Some(desired)
  }

  /** The atomic register: a request that lost power took effect altogether or not at all. */
  predicate Explains(before: Option<string>, request: Request, reply: Reply, after: Option<string>) {
    match reply
    case GotBody(body) => request.ReadBody? && body == before && after == before
    case Wrote => request.WriteBody? && after == Written(request)
    case Swapped(Changed) => request.SwapBody? && before == request.expected && after == Written(request)
    case Swapped(AlreadyApplied) => request.SwapBody? && before == Written(request) && after == before
    case Swapped(Conflict) =>
      request.SwapBody? && before != request.expected && before != Written(request) && after == before
    case Threw => after == before
    case PowerLost => after == before || (!request.ReadBody? && after == Written(request))
  }

  ghost predicate History(requests: seq<Request>, replies: seq<Reply>, values: seq<Option<string>>) {
    && |replies| == |requests| && |values| == |requests| + 1
    && forall i :: 0 <= i < |requests| ==> Explains(values[i], requests[i], replies[i], values[i + 1])
  }

  /** The request may have changed the register to its body. */
  predicate MayWrite(request: Request, reply: Reply) {
    !request.ReadBody? && (reply.Wrote? || reply.PowerLost? || reply == Swapped(Changed))
  }

  /**
   After a write that returned, a read that returns gives that body, or the body of some later write
   that returned or lost power: never a torn body, and never an earlier one.
   */
  lemma {:induction false} ReadsAfterWrite(requests: seq<Request>, replies: seq<Reply>, values: seq<Option<string>>,
      i: nat, j: nat)
    requires History(requests, replies, values) && i < j < |requests|
    requires replies[i] in {Wrote, Swapped(Changed)} && replies[j].GotBody?
    ensures || replies[j].body == Written(requests[i])
            || exists k :: i < k < j && MayWrite(requests[k], replies[k]) && replies[j].body == Written(requests[k])
  {
    assert Explains(values[j], requests[j], replies[j], values[j + 1]);
    var m := j;
    while m > i + 1
      invariant i < m <= j && values[m] == replies[j].body
      invariant forall k :: m <= k < j ==> values[k + 1] == values[k]
    {
      if values[m - 1] != values[m] {
        assert MayWrite(requests[m - 1], replies[m - 1]);
        return;
      }
      m := m - 1;
    }
    assert Explains(values[i], requests[i], replies[i], values[i + 1]);
  }
}
