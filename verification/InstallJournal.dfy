/**
 The installer's append-only journal: numbered states and a pointer for each, every file written
 under a temporary name first and then renamed.  There is no mutable head.
 */
module InstallJournal {
  import opened Outcomes
  import opened Text

  datatype File = State(n: nat) | Current(n: nat) | StateTemp(n: nat) | CurrentTemp(n: nat)

  /** A file being written is Cut until its last byte is there. */
  datatype Content<+Entry> = Payload(generation: nat, entry: Entry) | Pointer(generation: nat, checksum: string) | Cut

  class Journal<Entry(==)> {
    /** The checksum of a state's payload. */
    const seal: (nat, Entry) -> string
    var files: map<File, Content<Entry>>
    /** Durable steps left before the power fails; None: it never fails. */
    var fuel: Option<nat>
    /** The states that reached their final names, in order. */
    ghost var log: seq<Entry>

    /** States 1..n hold the log; pointers are right and lack at most the last; a cut step leaves one temporary file. */
    ghost predicate Valid()
      reads this`files, this`log
    {
      && (forall n: nat {:trigger State(n)} :: State(n) in files <==> 1 <= n <= |log|)
      && (forall n: nat {:trigger Current(n)} :: Current(n) in files ==> 1 <= n <= |log|)
      && (forall n: nat {:trigger Current(n)} :: 1 <= n < |log| ==> Current(n) in files)
      && (forall n: nat {:trigger StateTemp(n)} :: StateTemp(n) in files ==> n == |log| + 1 && Pointed())
      && (forall n: nat {:trigger CurrentTemp(n)} :: CurrentTemp(n) in files ==> n == |log| && !Pointed())
      && (forall n: nat {:trigger files[State(n)]} :: 1 <= n <= |log| ==> files[State(n)] == Payload(n, log[n - 1]))
      && (forall n: nat {:trigger files[Current(n)]} :: Current(n) in files ==>
        files[Current(n)] == Pointer(n, seal(n, log[n - 1])))
    }

    /** Every state has its pointer. */
    ghost predicate Pointed()
      reads this`files, this`log
    {
      log == [] || Current(|log|) in files
    }

    /** A temporary file was left behind. */
    ghost predicate Littered()
      reads this`files, this`log
    {
      StateTemp(|log| + 1) in files || CurrentTemp(|log|) in files
    }

    ghost predicate Whole()
      reads this`files, this`log
    {
      Valid() && Pointed() && !Littered()
    }

    constructor (seal: (nat, Entry) -> string)
      ensures Whole() && log == [] && fuel == None && this.seal == seal
    {
      this.seal := seal;
      files := map[];
      fuel := None;
      log := [];
    }

    method Tick() returns (alive: bool)
      modifies this`fuel
      ensures alive <==> old(fuel) != Some(0)
      ensures fuel == if alive && old(fuel).Some? then Some(old(fuel).value - 1) else old(fuel)
    {
      if fuel.Some? && fuel.value == 0 {
        return false;
      }
      fuel := if fuel.Some? then Some(fuel.value - 1) else None;
      return true;
    }

    /** `_write_exclusive` */
    method WriteExclusive(f: File, body: Content<Entry>) returns (out: Outcome<()>)
      modifies this`files, this`fuel
      ensures out.Refused? <==> f in old(files)
      ensures out.Refused? ==> files == old(files)
      ensures out.Done? ==> files == old(files)[f := body]
      ensures out.Crashed? ==> files == old(files) || files == old(files)[f := Cut]
      ensures !out.Refused? && old(fuel).Some? && old(fuel).value >= 2 ==>
                out.Done? && fuel == Some(old(fuel).value - 2)
      ensures !out.Refused? && old(fuel) == Some(0) ==> out.Crashed? && files == old(files)
      ensures !out.Refused? && old(fuel) == Some(1) ==> out.Crashed? && files == old(files)[f := Cut]
      ensures old(fuel).None? ==> !out.Crashed? && fuel.None?
    {
      if f in files {
        return Refused;
      }
      var alive := Tick();
      if !alive {
        return Crashed;
      }
      files := files[f := Cut];
      alive := Tick();
      if !alive {
        return Crashed;
      }
      files := files[f := body];
      return Done(());
    }

    /** `rename_exclusive` */
    method RenameExclusive(source: File, target: File) returns (out: Outcome<()>)
      requires source in files && source != target
      modifies this`files, this`fuel
      ensures out.Refused? <==> target in old(files)
      ensures !out.Done? ==> files == old(files)
      ensures out.Done? ==> files == (old(files) - {source})[target := old(files)[source]]
      ensures !out.Refused? && old(fuel).Some? && old(fuel).value >= 1 ==>
                out.Done? && fuel == Some(old(fuel).value - 1)
      ensures !out.Refused? && old(fuel) == Some(0) ==> out.Crashed?
      ensures old(fuel).None? ==> !out.Crashed? && fuel.None?
    {
      if target in files {
        return Refused;
      }
      var alive := Tick();
      if !alive {
        return Crashed;
      }
      files := (files - {source})[target := files[source]];
      return Done(());
    }

    /** The state names are consecutive from 1. */
    lemma StateNumbers()
      requires Valid()
      ensures Numbers() == Upto(|log|) && |Numbers()| == |log|
    {
      forall n: nat ensures n in Numbers() <==> n in Upto(|log|) {
        assert State(n) in files <==> n in Numbers();
      }
    }

    function Numbers(): set<nat>
      reads this`files
    {
      set f | f in files && f.State? :: f.n
    }

    function Pointers(): set<nat>
      reads this`files
    {
      set f | f in files && f.Current? :: f.n
    }

    /** A pointer for every state, but for the last one perhaps. */
    lemma PointerNumbers()
      requires Valid()
      ensures Pointers() == if Pointed() then Upto(|log|) else Upto(|log|) - {|log|}
    {
      forall n: nat ensures n in Pointers() <==> Current(n) in files {
      }
    }

    /** `_next_generation` */
    method NextGeneration() returns (g: nat)
      requires Valid()
      ensures g == |log| + 1
    {
      StateNumbers();
      g := |Numbers()| + 1;
    }

    /** The temporary state gets its final name, and with it the entry is in the log. */
    method PublishState(g: nat, entry: Entry) returns (out: Outcome<()>)
      requires Valid() && g == |log| + 1 && StateTemp(g) in files && files[StateTemp(g)] == Payload(g, entry)
      modifies this
      ensures Valid() && !out.Refused?
      ensures out.Done? ==> log == old(log) + [entry] && !Littered() && !Pointed()
      ensures out.Crashed? ==> log == old(log) && files == old(files)
      ensures old(fuel).Some? && old(fuel).value >= 1 ==> out.Done? && fuel == Some(old(fuel).value - 1)
      ensures old(fuel).None? ==> !out.Crashed? && fuel.None?
    {
      assert State(g) !in files && CurrentTemp(g) !in files && CurrentTemp(g - 1) !in files;
      out := RenameExclusive(StateTemp(g), State(g));
      if out.Done? {
        log := log + [entry];
      }
    }

    /** `write_state_only` */
    method WriteStateOnly(entry: Entry) returns (out: Outcome<nat>)
      requires Whole()
      modifies this
      ensures Valid() && !out.Refused?
      ensures out.Done? ==> log == old(log) + [entry] && out.value == |log| && !Littered() && !Pointed()
      ensures out.Crashed? ==> log == old(log) && (files == old(files) || Littered())
      ensures old(fuel).Some? && old(fuel).value >= 3 ==> out.Done? && fuel == Some(old(fuel).value - 3)
      ensures old(fuel) == Some(0) ==> out.Crashed?
      ensures old(fuel).None? ==> !out.Crashed? && fuel.None?
    {
      var g := NextGeneration();
      var _ :- WriteExclusive(StateTemp(g), Payload(g, entry));
      var _ :- PublishState(g, entry);
      return Done(g);
    }

    /** `_write_pointer` */
    method WritePointer(g: nat, entry: Entry) returns (out: Outcome<()>)
      requires Valid() && !Littered() && !Pointed() && g == |log| > 0 && entry == log[g - 1]
      modifies this`files, this`fuel
      ensures Valid() && !out.Refused?
      ensures out.Done? ==> Whole()
      ensures out.Crashed? ==> files == old(files) || Littered()
      ensures old(fuel).Some? && old(fuel).value >= 3 ==> out.Done? && fuel == Some(old(fuel).value - 3)
      ensures old(fuel).None? ==> !out.Crashed? && fuel.None?
    {
      var pointer := Pointer(g, seal(g, entry));
      var _ :- WriteExclusive(CurrentTemp(g), pointer);
      var _ :- RenameExclusive(CurrentTemp(g), Current(g));
      return if files[Current(g)] == pointer then Done(()) else Refused;
    }

    /** `append`: the entry counts from the moment its state has its final name. */
    method Append(entry: Entry) returns (out: Outcome<()>)
      requires Whole()
      modifies this
      ensures Valid() && !out.Refused?
      ensures out.Done? ==> Whole() && log == old(log) + [entry]
      ensures out.Crashed? ==> log == old(log) || log == old(log) + [entry]
      ensures out.Crashed? ==> Littered() || log != [] || Whole()
      ensures old(fuel).Some? && old(fuel).value >= 6 ==> out.Done? && fuel == Some(old(fuel).value - 6)
      ensures old(fuel) == Some(0) ==> out.Crashed?
      ensures old(fuel).None? ==> !out.Crashed? && fuel.None?
    {
      var written :- WriteStateOnly(entry);
      out := WritePointer(written, entry);
    }

    /** The state of number k is one of this journal's. */
    predicate Decodes(k: nat)
      reads this`files
    {
      State(k) in files && files[State(k)].Payload? && files[State(k)].generation == k
    }

    predicate PointsTo(k: nat)
      reads this`files
    {
      Decodes(k) && Current(k) in files && files[Current(k)] == Pointer(k, seal(k, files[State(k)].entry))
    }

    /** The checks of `recover_head`: the highest state and whether its pointer is missing. */
    method Inspect() returns (out: Outcome<(nat, bool)>)
      requires Valid()
      ensures !out.Crashed?
      ensures out.Refused? <==> Littered() || log == []
      ensures out.Done? ==> out.value == (|log|, !Pointed())
    {
      if exists f :: f in files && (f.StateTemp? || f.CurrentTemp?) {
        return Refused;
      }
      var states, pointers := Numbers(), Pointers();
      StateNumbers();
      PointerNumbers();
      var n := |states|;
      if n == 0 || states != Upto(n) || (pointers != states && pointers != states - {n}) {
        return Refused;
      }
      if (exists k :: k in states && !Decodes(k)) || (exists k :: k in pointers && !PointsTo(k)) {
        return Refused;
      }
      return Done((n, n !in pointers));
    }

    /**
     `recover_head`: it refuses exactly when the journal is empty or a temporary file was left; otherwise
     it returns the last state that reached its final name, with a pointer for every state.
     */
    method RecoverHead() returns (out: Outcome<Entry>)
      requires Valid()
      modifies this`files, this`fuel
      ensures Valid()
      ensures out.Refused? <==> old(Littered()) || log == []
      ensures out.Refused? ==> files == old(files)
      ensures out.Done? ==> Whole() && log != [] && out.value == log[|log| - 1]
      ensures out.Crashed? ==> files == old(files) || Littered()
      ensures old(Whole()) ==> files == old(files) && !out.Crashed?
      ensures old(fuel).None? ==> !out.Crashed? && fuel.None?
    {
      var inspected :- Inspect();
      var (n, missing) := inspected;
      var highest := files[State(n)].entry;
      if missing {
        var _ :- WritePointer(n, highest);
      }
      return Done(highest);
    }

    /** Any number of appends, the last of them cut at any file step. */
    method AppendAll(entries: seq<Entry>) returns (out: Outcome<()>)
      requires Whole()
      modifies this
      ensures Valid() && !out.Refused?
      ensures out.Done? ==> Whole() && log == old(log) + entries
      ensures out.Crashed? ==> exists k :: 0 <= k <= |entries| && log == old(log) + entries[..k]
    {
      var i := 0;
      while i < |entries|
        invariant 0 <= i <= |entries| && Whole() && log == old(log) + entries[..i]
      {
        assert old(log) + entries[..i] + [entries[i]] == old(log) + entries[..i + 1];
        var _ :- Append(entries[i]);
        i := i + 1;
      }
      return Done(());
    }
  }
}
