/**
 The installer's transaction: the application is exchanged atomically, the configuration moves through
 four files, and the journal says how far both got.  Recovery reads the journal's head, the digests of
 the two application trees and the configuration files, and either refuses or leaves both halves old
 or both halves new.
 */
module InstallTransaction {
  import opened InstallJournal
  import opened Outcomes
  import opened Text

  type Digest = string

  // ---------------------------------------------------------------- the configuration files

  datatype Role = Config | Backup | Temp | Trash

  type Directory = map<Role, Digest>

  datatype Presence = Absent | Old | New

  /** What the marker binds: the old configuration, if any, and the new one. */
  datatype Marker = Marker(oldSha: Option<Digest>, newSha: Digest)

  datatype Action = OldToBackup | PublishTemp | NewToTrash | RestoreBackup | DropTemp | DropBackup | DropTrash

  datatype Cell = A | B | C | D | E

  datatype Layout = Layout(config: Presence, backup: Presence, temp: Presence, trash: Presence)

  datatype Plan = Plan(actions: seq<Action>, config: Presence)

  /** `_PLANS`; the second component is what becomes of the configuration. */
  function Plans(cell: Cell, app: Presence): Plan {
    match (cell, app)
    case (A, Absent) => Plan([DropTemp], Old)
    case (A, Old) => Plan([DropTemp], Old)
    case (A, New) => Plan([OldToBackup, PublishTemp, DropBackup], New)
    case (B, Absent) => Plan([RestoreBackup, DropTemp], Old)
    case (B, Old) => Plan([RestoreBackup, DropTemp], Old)
    case (B, New) => Plan([PublishTemp, DropBackup], New)
    case (C, Absent) => Plan([NewToTrash, RestoreBackup, DropTrash], Old)
    case (C, Old) => Plan([NewToTrash, RestoreBackup, DropTrash], Old)
    case (C, New) => Plan([DropBackup], New)
    case (D, Absent) => Plan([DropTemp], Absent)
    case (D, Old) => Plan([DropTemp], Absent)
    case (D, New) => Plan([PublishTemp], New)
    case (E, Absent) => Plan([NewToTrash, DropTrash], Absent)
    case (E, Old) => Plan([NewToTrash, DropTrash], Absent)
    case (E, New) => Plan([], New)
  }

  /** The source and target of a move, or the file that is dropped. */
  function Moves(action: Action): (Role, Option<Role>) {
    match action
    case OldToBackup => (Config, Some(Backup))
    case PublishTemp => (Temp, Some(Config))
    case NewToTrash => (Config, Some(Trash))
    case RestoreBackup => (Backup, Some(Config))
    case DropTemp => (Temp, None)
    case DropBackup => (Backup, None)
    case DropTrash => (Trash, None)
  }

  datatype Step = Act(action: Action) | Stop | Quarantine

  /** The cell of a layout, by whether there was a configuration before. */
  function CellOf(hadConfig: bool, s: Layout): Option<Cell> {
    if hadConfig then
      if s == Layout(Old, Absent, New, Absent) then Some(A)
      else if s == Layout(Absent, Old, New, Absent) then Some(B)
      else if s == Layout(New, Old, Absent, Absent) then Some(C)
      else None
    else
      if s == Layout(Absent, Absent, New, Absent) then Some(D)
      else if s == Layout(New, Absent, Absent, Absent) then Some(E)
      else None
  }

  /** One round of the recovery loop: what the four files say must be done next. */
  function Next(hadConfig: bool, s: Layout, app: Presence): Step {
    if s == Layout(Absent, Old, Absent, New) then Act(RestoreBackup)
    else if s == Layout(Old, Absent, Absent, New) then Act(DropTrash)
    else if s == Layout(Absent, Absent, Absent, New) then Act(DropTrash)
    else
      var cell := CellOf(hadConfig, s);
      if cell.Some? then
        var actions := Plans(cell.value, app).actions;
        if actions == [] then Stop else Act(actions[0])
      else if hadConfig && s == Layout(Old, Absent, Absent, Absent) then Stop
      else if hadConfig && s == Layout(New, Absent, Absent, Absent) then Stop
      else if !hadConfig && s == Layout(Absent, Absent, Absent, Absent) then Stop
      else Quarantine
  }

  function Get(s: Layout, role: Role): Presence {
    match role
    case Config => s.config
    case Backup => s.backup
    case Temp => s.temp
    case Trash => s.trash
  }

  function Put(s: Layout, role: Role, p: Presence): Layout {
    match role
    case Config => s.(config := p)
    case Backup => s.(backup := p)
    case Temp => s.(temp := p)
    case Trash => s.(trash := p)
  }

  /** The layout after an action whose source is there and whose target is not. */
  function Perform(s: Layout, action: Action): Layout {
    var (source, target) := Moves(action);
    var moved := Put(s, source, Absent);
    if target.Some? then Put(moved, target.value, Get(s, source)) else moved
  }

  predicate Performable(s: Layout, action: Action) {
    var (source, target) := Moves(action);
    Get(s, source) != Absent && (target.Some? ==> Get(s, target.value) == Absent)
  }

  predicate PerformableAll(s: Layout, actions: seq<Action>)
    decreases |actions|
  {
    actions == [] || (Performable(s, actions[0]) && PerformableAll(Perform(s, actions[0]), actions[1..]))
  }

  function PerformAll(s: Layout, actions: seq<Action>): Layout
    decreases |actions|
  {
    if actions == [] then s else PerformAll(Perform(s, actions[0]), actions[1..])
  }

  /** Every plan of the table can be carried out from its cell, and leaves only what it promises. */
  lemma PlansKeepTheirPromise(hadConfig: bool, s: Layout, cell: Cell, app: Presence)
    requires CellOf(hadConfig, s) == Some(cell)
    ensures var plan := Plans(cell, app);
            && PerformableAll(s, plan.actions)
            && PerformAll(s, plan.actions) == Layout(plan.config, Absent, Absent, Absent)
            && plan.config == if app == New then New else if hadConfig then Old else Absent
  {
    var plan := Plans(cell, app).actions;
    if |plan| > 0 {
      var s1 := Perform(s, plan[0]);
      if |plan| > 1 {
        var s2 := Perform(s1, plan[1]);
        assert plan[1..][1..] == plan[2..];
        if |plan| > 2 {
          var s3 := Perform(s2, plan[2]);
          assert plan[2..][1..] == [];
          assert PerformAll(s2, plan[2..]) == s3;
        }
        assert PerformAll(s1, plan[1..]) == PerformAll(s2, plan[2..]);
      }
    }
  }

  /** The rounds until the loop stops; None when it would quarantine. */
  function Rounds(hadConfig: bool, s: Layout, app: Presence, budget: nat): Option<Layout>
    decreases budget
  {
    if budget == 0 then None
    else
      match Next(hadConfig, s, app)
      case Stop => Some(s)
      case Quarantine => None
      case Act(action) =>
        if Performable(s, action) then Rounds(hadConfig, Perform(s, action), app, budget - 1) else None
  }

  /** Taking only the first action of each plan, and reading the files anew, ends where the plan ends. */
  lemma LoopFollowsThePlan(hadConfig: bool, s: Layout, cell: Cell, app: Presence, budget: nat)
    requires CellOf(hadConfig, s) == Some(cell) && budget >= 4
    ensures Rounds(hadConfig, s, app, budget) == Some(PerformAll(s, Plans(cell, app).actions))
  {
    PlansKeepTheirPromise(hadConfig, s, cell, app);
    var plan := Plans(cell, app).actions;
    if |plan| > 0 {
      var s1 := Perform(s, plan[0]);
      assert Rounds(hadConfig, s, app, budget) == Rounds(hadConfig, s1, app, budget - 1);
      if |plan| > 1 {
        var s2 := Perform(s1, plan[1]);
        assert Rounds(hadConfig, s1, app, budget - 1) == Rounds(hadConfig, s2, app, budget - 2);
        if |plan| > 2 {
          var s3 := Perform(s2, plan[2]);
          assert Rounds(hadConfig, s2, app, budget - 2) == Rounds(hadConfig, s3, app, budget - 3);
        }
      }
    }
  }

  /** The layouts a rollback passes through, whatever was published when it began. */
  predicate Backward(hadConfig: bool, s: Layout) {
    || CellOf(hadConfig, s).Some?
    || s == RolledBack(hadConfig)
    || s == Layout(Absent, if hadConfig then Old else Absent, Absent, New)
    || s == Layout(if hadConfig then Old else Absent, Absent, Absent, New)
  }

  /** The layouts between publishing the new configuration and forgetting the old one. */
  predicate Forward(hadConfig: bool, s: Layout) {
    s == Layout(New, if hadConfig then Old else Absent, Absent, Absent) || s == Published()
  }

  function RolledBack(hadConfig: bool): Layout {
    Layout(if hadConfig then Old else Absent, Absent, Absent, Absent)
  }

  function Published(): Layout { Layout(New, Absent, Absent, Absent) }

  /** The direction recovery takes, by the application's state, and where it ends. */
  predicate OnCourse(hadConfig: bool, s: Layout, app: Presence) {
    if app == New then Forward(hadConfig, s) else Backward(hadConfig, s)
  }

  function Goal(hadConfig: bool, app: Presence): Layout {
    if app == New then Published() else RolledBack(hadConfig)
  }

  /** The mutations still to come on course. */
  function Left(hadConfig: bool, s: Layout, app: Presence): nat {
    if s == Goal(hadConfig, app) then 0
    else if app == New || s.temp == New then if s.backup == Old && app != New then 2 else 1
    else if s.config == New then if hadConfig then 3 else 2
    else if s.backup == Old then 2
    else 1
  }

  /** A round keeps the course, gets closer, and stops only at the goal. */
  lemma RoundKeepsCourse(hadConfig: bool, s: Layout, app: Presence)
    requires OnCourse(hadConfig, s, app)
    ensures match Next(hadConfig, s, app)
            case Stop => s == Goal(hadConfig, app)
            case Quarantine => false
            case Act(action) =>
              && Performable(s, action) && OnCourse(hadConfig, Perform(s, action), app)
              && var (source, target) := Moves(action);
              && Get(s, source) != Absent && (target.Some? ==> Get(s, target.value) == Absent)
              && Left(hadConfig, Perform(s, action), app) < Left(hadConfig, s, app) <= 3
  {
  }

  /** A layout that no publication and no rollback passes through is left for inspection. */
  lemma OthersAreQuarantined(hadConfig: bool, s: Layout, app: Presence)
    requires !Backward(true, s) && !Backward(false, s) && !Forward(true, s) && !Forward(false, s)
    ensures Next(hadConfig, s, app) == Quarantine
  {
  }

  /** Nor does the loop mistake an installation over a configuration for one without. */
  lemma CourseOfItsOwn(hadConfig: bool, s: Layout, app: Presence)
    requires s.trash == Absent && !Backward(hadConfig, s) && !Forward(hadConfig, s)
    ensures Next(hadConfig, s, app) == Quarantine
  {
  }

  /** From every layout on course the loop reaches the goal, in at most four of its eight rounds. */
  lemma {:induction false} LoopReachesTheGoal(hadConfig: bool, s: Layout, app: Presence, budget: nat)
    requires OnCourse(hadConfig, s, app) && budget > Left(hadConfig, s, app)
    ensures Left(hadConfig, s, app) <= 3 && Rounds(hadConfig, s, app, budget) == Some(Goal(hadConfig, app))
    decreases budget
  {
    RoundKeepsCourse(hadConfig, s, app);
    var next := Next(hadConfig, s, app);
    if next.Act? {
      LoopReachesTheGoal(hadConfig, Perform(s, next.action), app, budget - 1);
    }
  }

  // ---------------------------------------------------------------- the files themselves

  /** What a file is, by its digest; None for a digest the marker does not name. */
  function RoleOf(dir: Directory, role: Role, m: Marker): Option<Presence> {
    if role !in dir then Some(Absent)
    else if dir[role] == m.newSha then Some(New)
    else if Some(dir[role]) == m.oldSha then Some(Old)
    else None
  }

  function LayoutOf(dir: Directory, m: Marker): Option<Layout> {
    var config, backup := RoleOf(dir, Config, m), RoleOf(dir, Backup, m);
    var temp, trash := RoleOf(dir, Temp, m), RoleOf(dir, Trash, m);
    if config.None? || backup.None? || temp.None? || trash.None? then None
    else Some(Layout(config.value, backup.value, temp.value, trash.value))
  }

  function Apply(dir: Directory, action: Action): Directory
    requires Moves(action).0 in dir
  {
    var (source, target) := Moves(action);
    if target.Some? then (dir - {source})[target.value := dir[source]] else dir - {source}
  }

  lemma ApplyPerforms(dir: Directory, action: Action, m: Marker)
    requires LayoutOf(dir, m).Some? && Performable(LayoutOf(dir, m).value, action)
    ensures Moves(action).0 in dir
    ensures LayoutOf(Apply(dir, action), m) == Some(Perform(LayoutOf(dir, m).value, action))
  {
  }

  // ---------------------------------------------------------------- the transaction

  datatype Phase = TxnPrepared | ConfigPrepared | Prepared | PreparedNew | Verified | Committing | Cleaned

  /** A journal entry: the phase, the digests of the two application trees, the configuration marker. */
  datatype Entry = Entry(phase: Phase, tree: Digest, oldTree: Option<Digest>, config: Option<Marker>)

  datatype MarkerFile = NoMarker | TornMarker | WholeMarker(m: Marker)

  datatype Receipt = NoReceipt | TornReceipt | WholeReceipt

  class Installer {
    const journal: Journal<Entry>
    const oldApp: Option<Digest>
    const newApp: Digest
    const oldConfig: Option<Digest>
    const newConfig: Digest
    /** Whether the configuration directory holds a file of an earlier transaction. */
    const litter: bool

    /** The installed application and the tree staged in the transaction directory. */
    var dest: Option<Digest>
    var staged: Option<Digest>
    var transaction: bool
    var receipt: Receipt
    var dir: Directory
    var marker: MarkerFile
    /** The completion receipt. */
    var completed: bool

    function Bound(): Marker { Marker(oldConfig, newConfig) }

    function ConfigNow(): Option<Digest>
      reads this`dir
    {
      if Config in dir then Some(dir[Config]) else None
    }

    predicate BothOld()
      reads this`dir, this`dest
    {
      dest == oldApp && ConfigNow() == oldConfig
    }

    predicate BothNew()
      reads this`dir, this`dest
    {
      dest == Some(newApp) && ConfigNow() == Some(newConfig)
    }

    /** The new digests differ from the old ones. */
    predicate Differs() {
      oldApp != Some(newApp) && oldConfig != Some(newConfig)
    }

    predicate Describes(e: Entry) {
      && e.tree == newApp && e.oldTree == oldApp
      && e.config == (if e.phase == TxnPrepared then None else Some(Bound()))
      && (e.phase == Prepared ==> oldApp.Some?) && (e.phase == PreparedNew ==> oldApp.None?)
    }

    ghost predicate Valid()
      reads this, journal`files, journal`log
    {
      && Differs() && journal.Valid()
      && (completed ==> BothNew())
      && (BothNew() && (!transaction || receipt != NoReceipt) ==> completed)
      && (if !transaction then receipt != TornReceipt && (BothOld() || BothNew())
          else if receipt != NoReceipt then BothOld() || BothNew()
          else if journal.log == [] then BothOld()
          else Describes(Head()) && Agrees(Head().phase))
    }

    ghost function Head(): Entry
      requires journal.log != []
      reads journal`log
    {
      journal.log[|journal.log| - 1]
    }

    /** What the two halves look like under a journal head of the given phase. */
    ghost predicate Agrees(phase: Phase)
      reads this`dest, this`staged, this`dir, this`marker
    {
      var layout := LayoutOf(dir, Bound());
      if phase == TxnPrepared then
        && dest == oldApp && staged == Some(newApp) && ConfigNow() == oldConfig && Backup !in dir && Trash !in dir
        && (marker.WholeMarker? ==> marker.m == Bound() && (Temp in dir ==> dir[Temp] == newConfig))
      else if dest == oldApp then
        && phase in {ConfigPrepared, Prepared, PreparedNew} && staged == Some(newApp)
        && marker in {NoMarker, WholeMarker(Bound())}
        && layout.Some? && Backward(oldConfig.Some?, layout.value)
        && (marker == NoMarker ==> layout.value == RolledBack(oldConfig.Some?))
      else
        && phase != ConfigPrepared && dest == Some(newApp) && staged == oldApp
        && marker in {NoMarker, WholeMarker(Bound())}
        && layout.Some? && Forward(oldConfig.Some?, layout.value)
        && (phase in {Prepared, PreparedNew} ==> marker != NoMarker)
        && (marker == NoMarker ==> layout.value == Published())
    }

    constructor (seal: (nat, Entry) -> string, oldApp: Option<Digest>, newApp: Digest,
                 oldConfig: Option<Digest>, newConfig: Digest, litter: bool)
      requires oldApp != Some(newApp) && oldConfig != Some(newConfig)
      ensures Valid() && Ready() && fresh(journal)
      ensures this.oldApp == oldApp && this.newApp == newApp && this.oldConfig == oldConfig
      ensures this.newConfig == newConfig && this.litter == litter
      ensures journal.fuel.None?
    {
      journal := new Journal(seal);
      this.oldApp, this.newApp, this.oldConfig, this.newConfig, this.litter :=
        oldApp, newApp, oldConfig, newConfig, litter;
      dest, staged, transaction, receipt := oldApp, None, false, NoReceipt;
      dir := if oldConfig.Some? then map[Config := oldConfig.value] else map[];
      marker, completed := NoMarker, false;
    }

    /** Nothing of a transaction is there yet. */
    ghost predicate Ready()
      reads this, journal`files, journal`log
    {
      && journal.Whole() && journal.log == []
      && dest == oldApp && !transaction && receipt == NoReceipt && marker == NoMarker && !completed
      && dir == (if oldConfig.Some? then map[Config := oldConfig.value] else map[])
    }

    method Tick() returns (alive: bool)
      modifies journal`fuel
      ensures alive <==> old(journal.fuel) != Some(0)
      ensures !alive || old(journal.fuel).None? ==> journal.fuel == old(journal.fuel)
      ensures alive && old(journal.fuel).Some? ==> journal.fuel == Some(old(journal.fuel).value - 1)
    {
      alive := journal.Tick();
    }

    // -------------------------------------------------------------- installing

    /** A transaction under way whose journal ends with the given phase. */
    ghost predicate At(phase: Phase)
      reads this, journal`files, journal`log
    {
      && Valid() && transaction && receipt == NoReceipt && journal.Whole()
      && journal.log != [] && Head().phase == phase
    }

    function EntryOf(phase: Phase): Entry {
      Entry(phase, newApp, oldApp, if phase == TxnPrepared then None else Some(Bound()))
    }

    /** The transaction directory, and the new tree in it. */
    method Stage() returns (out: Outcome<()>)
      requires Valid() && Ready()
      modifies this`transaction, this`staged, journal`fuel
      ensures Valid() && !out.Refused?
      ensures out.Done? ==> transaction && staged == Some(newApp)
      ensures old(journal.fuel).Some? && old(journal.fuel).value >= 2 ==>
                out.Done? && journal.fuel == Some(old(journal.fuel).value - 2)
      ensures old(journal.fuel) == Some(0) ==> out.Crashed? && transaction == old(transaction)
      ensures old(journal.fuel) == Some(1) ==> out.Crashed? && transaction && staged == old(staged)
      ensures old(journal.fuel).None? ==> !out.Crashed? && journal.fuel.None?
    {
      var alive := Tick();
      if !alive {
        return Crashed;
      }
      transaction := true;
      alive := Tick();
      if !alive {
        return Crashed;
      }
      staged := Some(newApp);
      return Done(());
    }

    /** `_prepare_common_transaction`: the new tree is staged, then the intent is journalled. */
    method Prepare() returns (out: Outcome<()>)
      requires Valid() && Ready()
      modifies this`transaction, this`staged, journal
      ensures Valid() && !out.Refused?
      ensures out.Done? ==> At(TxnPrepared) && marker == NoMarker
      ensures old(journal.fuel).Some? && old(journal.fuel).value >= 8 ==>
                out.Done? && journal.fuel == Some(old(journal.fuel).value - 8)
      ensures old(journal.fuel) == Some(0) ==> out.Crashed?
      ensures old(journal.fuel).None? ==> !out.Crashed? && journal.fuel.None?
    {
      var _ :- Stage();
      out := journal.Append(EntryOf(TxnPrepared));
    }

    lemma PreparedIsOld()
      requires At(TxnPrepared)
      ensures BothOld()
    {
    }

    /** Appending a phase that both halves already agree with. */
    method Log(phase: Phase) returns (out: Outcome<()>)
      requires Valid() && transaction && receipt == NoReceipt && journal.Whole() && journal.log != []
      requires Agrees(phase) && Describes(EntryOf(phase))
      modifies journal
      ensures Valid() && !out.Refused?
      ensures out.Done? ==> At(phase) && journal.log == old(journal.log) + [EntryOf(phase)]
      ensures old(journal.fuel) == Some(0) ==> out.Crashed? && journal.log != []
      ensures old(journal.fuel).None? ==> !out.Crashed? && journal.fuel.None?
    {
      out := journal.Append(EntryOf(phase));
    }

    /** A file of the given content under the temporary name, while nothing but the intent is journalled. */
    method WriteTemp(content: Digest) returns (out: Outcome<()>)
      requires At(TxnPrepared) && marker == NoMarker
      modifies this`dir, journal`fuel
      ensures At(TxnPrepared) && !out.Refused?
      ensures dir == if out.Done? then old(dir)[Temp := content] else old(dir)
      ensures old(journal.fuel).Some? && old(journal.fuel).value >= 1 ==>
                out.Done? && journal.fuel == Some(old(journal.fuel).value - 1)
      ensures old(journal.fuel) == Some(0) ==> out.Crashed?
      ensures old(journal.fuel).None? ==> !out.Crashed? && journal.fuel.None?
    {
      var alive := Tick();
      if !alive {
        return Crashed;
      }
      dir := dir[Temp := content];
      return Done(());
    }

    /** The marker, which a crash may tear, binding the old configuration and the new one. */
    method WriteMarker() returns (out: Outcome<()>)
      requires At(TxnPrepared) && marker == NoMarker && Temp in dir && dir[Temp] == newConfig
      modifies this`marker, journal`fuel
      ensures At(TxnPrepared) && !out.Refused?
      ensures out.Done? ==> marker == WholeMarker(Bound())
      ensures old(journal.fuel).Some? && old(journal.fuel).value >= 2 ==>
                out.Done? && journal.fuel == Some(old(journal.fuel).value - 2)
      ensures old(journal.fuel) == Some(0) ==> out.Crashed? && marker == NoMarker
      ensures old(journal.fuel) == Some(1) ==> out.Crashed? && marker == TornMarker
      ensures old(journal.fuel).None? ==> !out.Crashed? && journal.fuel.None?
    {
      var alive := Tick();
      if !alive {
        return Crashed;
      }
      marker := TornMarker;
      alive := Tick();
      if !alive {
        return Crashed;
      }
      marker := WholeMarker(Marker(if Config in dir then Some(dir[Config]) else None, newConfig));
      return Done(());
    }

    /** The application as recovery sees it. */
    function AppNow(): Presence
      reads this`dest
    {
      if dest == Some(newApp) then New else if dest == None then Absent else Old
    }

    function LayoutNow(): Option<Layout>
      reads this`dir
    {
      LayoutOf(dir, Bound())
    }

    /** The configuration files are bound by a whole marker and on the course the application dictates. */
    ghost predicate Moving()
      reads this, journal`files, journal`log
    {
      && Valid() && transaction && receipt == NoReceipt && journal.log != [] && marker == WholeMarker(Bound())
      && LayoutNow().Some? && OnCourse(oldConfig.Some?, LayoutNow().value, AppNow())
    }

    /** One move or removal of a configuration file. */
    method Mutate(action: Action) returns (out: Outcome<()>)
      requires Moving()
      requires Performable(LayoutNow().value, action)
      requires OnCourse(oldConfig.Some?, Perform(LayoutNow().value, action), AppNow())
      requires Head().phase == TxnPrepared ==> action == DropTemp
      requires Head().phase in {Prepared, PreparedNew} ==> AppNow() != New
      modifies this`dir, journal`fuel
      ensures Moving() && !out.Refused?
      ensures LayoutNow().value == if out.Done? then Perform(old(LayoutNow().value), action) else old(LayoutNow().value)
      ensures old(journal.fuel) == Some(0) ==> out.Crashed? && dir == old(dir)
      ensures old(journal.fuel).None? ==> !out.Crashed? && journal.fuel.None?
    {
      hide Backward, CellOf, RolledBack, Perform, Performable;
      var alive := Tick();
      if !alive {
        return Crashed;
      }
      ApplyPerforms(dir, action, Bound());
      dir := Apply(dir, action);
      return Done(());
    }

    /** A directory that holds the old configuration and the new one beside it is in cell A or D. */
    lemma StagedLayout()
      requires Differs() && ConfigNow() == oldConfig && Temp in dir && dir[Temp] == newConfig
      requires Backup !in dir && Trash !in dir
      ensures LayoutNow() == Some(Layout(if oldConfig.Some? then Old else Absent, Absent, New, Absent))
    {
    }

    /** `write_config_atomic` up to the marker. */
    method StageConfig(partial: Digest) returns (out: Outcome<()>)
      requires At(TxnPrepared) && marker == NoMarker
      modifies this`dir, this`marker, journal`fuel
      ensures Valid() && At(TxnPrepared) && !out.Refused?
      ensures out.Done? ==> marker == WholeMarker(Bound()) && Temp in dir
      ensures old(journal.fuel).Some? && old(journal.fuel).value >= 4 ==>
                out.Done? && journal.fuel == Some(old(journal.fuel).value - 4)
      ensures old(journal.fuel) == Some(1) ==> out.Crashed? && marker == NoMarker && Temp in dir
      ensures old(journal.fuel).None? ==> !out.Crashed? && journal.fuel.None?
    {
      var _ :- WriteTemp(partial);
      var _ :- WriteTemp(newConfig);
      out := WriteMarker();
    }

    /** The rest of `write_config_atomic`: journal the intent, set the old configuration aside, publish the new one. */
    method PublishConfig() returns (out: Outcome<()>)
      requires At(TxnPrepared) && marker == WholeMarker(Bound()) && Temp in dir
      modifies this`dir, journal
      ensures Valid() && !out.Refused?
      ensures out.Done? ==>
                At(ConfigPrepared) && Moving() && dest == oldApp && Forward(oldConfig.Some?, LayoutNow().value)
      ensures old(journal.fuel) == Some(0) ==> out.Crashed? && journal.log != []
      ensures old(journal.fuel).None? ==> !out.Crashed? && journal.fuel.None?
    {
      StagedLayout();
      var _ :- Log(ConfigPrepared);
      if Config in dir {
        var _ :- Mutate(OldToBackup);
      }
      out := Mutate(PublishTemp);
    }

    /** The atomic exchange of the trees, or the exclusive rename when there was no application. */
    method Exchange(updated: bool) returns (out: Outcome<()>)
      requires At(Prepared) || At(PreparedNew)
      requires Moving() && dest == oldApp && updated == oldApp.Some? && Forward(oldConfig.Some?, LayoutNow().value)
      modifies this`dest, this`staged, journal`fuel
      ensures Moving() && journal.Whole() && !out.Refused?
      ensures out.Done? ==> AppNow() == New && staged == oldApp
      ensures old(journal.fuel) == Some(0) ==> out.Crashed? && dest == old(dest) && staged == old(staged)
      ensures old(journal.fuel).None? ==> !out.Crashed? && journal.fuel.None?
    {
      var alive := Tick();
      if !alive {
        return Crashed;
      }
      if updated {
        dest, staged := staged, dest;
      } else {
        dest, staged := staged, None;
      }
      return Done(());
    }

    /** `publish`: journal the intent, exchange the trees, journal that the new one was verified. */
    method Publish() returns (out: Outcome<()>)
      requires At(ConfigPrepared) && Moving() && dest == oldApp && Forward(oldConfig.Some?, LayoutNow().value)
      modifies this`dest, this`staged, journal
      ensures Valid() && !out.Refused?
      ensures out.Done? ==> At(Verified) && Moving()
      ensures old(journal.fuel).None? ==> !out.Crashed? && journal.fuel.None?
    {
      var updated := dest.Some?;
      var _ :- Log(if updated then Prepared else PreparedNew);
      var _ :- Exchange(updated);
      if dest != Some(newApp) {
        return Refused;
      }
      out := Log(Verified);
    }

    /** Removing the marker once the files are where they should be. */
    method RemoveMarker() returns (out: Outcome<()>)
      requires Moving() && LayoutNow().value == Goal(oldConfig.Some?, AppNow())
      requires Head().phase in {Prepared, PreparedNew} ==> AppNow() != New
      modifies this`marker, journal`fuel
      ensures Valid() && !out.Refused?
      ensures out.Done? ==> marker == NoMarker && !HasStrangers()
      ensures out.Crashed? ==> marker == old(marker)
      ensures if AppNow() == New then BothNew() else BothOld()
      ensures old(journal.fuel) == Some(0) ==> out.Crashed?
      ensures old(journal.fuel).None? ==> !out.Crashed? && journal.fuel.None?
    {
      var alive := Tick();
      if !alive {
        return Crashed;
      }
      marker := NoMarker;
      return Done(());
    }

    /** `mark_committing` and `ConfigTransaction.commit`: the old configuration is forgotten, then the marker. */
    method Commit() returns (out: Outcome<()>)
      requires At(Verified) && Moving()
      modifies this`dir, this`marker, journal
      ensures Valid() && !out.Refused?
      ensures out.Done? ==> At(Committing) && BothNew() && marker == NoMarker && !HasStrangers()
      ensures old(journal.fuel).None? ==> !out.Crashed? && journal.fuel.None?
    {
      hide Backward, CellOf, RolledBack;
      var _ :- Log(Committing);
      if Backup in dir {
        var _ :- Mutate(DropBackup);
      }
      out := RemoveMarker();
    }

    /** `create_cleanup_receipt` and `resume_cleanup`: the receipt first, the transaction next, the receipt last. */
    method Cleanup() returns (out: Outcome<()>)
      requires Valid() && transaction && receipt == NoReceipt && (BothOld() || (BothNew() && completed))
      modifies this`receipt, this`transaction, this`staged, journal`fuel
      ensures Valid() && !out.Refused?
      ensures out.Done? ==> !transaction && receipt == NoReceipt
      ensures old(journal.fuel) == Some(0) ==> out.Crashed? && receipt == NoReceipt
      ensures old(journal.fuel) == Some(1) ==> out.Crashed? && receipt == TornReceipt
      ensures old(journal.fuel).None? ==> !out.Crashed? && journal.fuel.None?
    {
      var alive := Tick();
      if !alive {
        return Crashed;
      }
      receipt := TornReceipt;
      alive := Tick();
      if !alive {
        return Crashed;
      }
      receipt := WholeReceipt;
      out := ResumeCleanup();
    }

    /** The tree and then the directory of the transaction, whose receipt is there. */
    method RemoveTransaction() returns (out: Outcome<()>)
      requires Valid() && receipt == WholeReceipt
      modifies this`transaction, this`staged, journal`fuel
      ensures Valid() && !out.Refused?
      ensures out.Done? ==> !transaction
      ensures old(journal.fuel) == Some(0) ==>
                out.Crashed? && staged == old(staged) && transaction == old(transaction)
      ensures old(journal.fuel) == Some(1) ==> out.Crashed? && staged == None && transaction == old(transaction)
      ensures old(journal.fuel).None? ==> !out.Crashed? && journal.fuel.None?
    {
      var alive := Tick();
      if !alive {
        return Crashed;
      }
      staged := None;
      alive := Tick();
      if !alive {
        return Crashed;
      }
      transaction := false;
      return Done(());
    }

    method ResumeCleanup() returns (out: Outcome<()>)
      requires Valid() && receipt == WholeReceipt
      modifies this`receipt, this`transaction, this`staged, journal`fuel
      ensures Valid() && !out.Refused?
      ensures out.Done? ==> !transaction && receipt == NoReceipt
      ensures old(journal.fuel) == Some(0) ==> out.Crashed? && receipt == WholeReceipt
      ensures old(journal.fuel).None? ==> !out.Crashed? && journal.fuel.None?
    {
      if transaction {
        var _ :- RemoveTransaction();
      }
      var alive := Tick();
      if !alive {
        return Crashed;
      }
      receipt := NoReceipt;
      return Done(());
    }

    /** `complete`: both halves are checked once more before the completion receipt and the cleanup. */
    method Complete() returns (out: Outcome<()>)
      requires At(Committing) && BothNew()
      modifies this`receipt, this`transaction, this`staged, this`completed, journal
      ensures Valid() && !out.Refused?
      ensures out.Done? ==> !transaction && receipt == NoReceipt && completed
      ensures out.Done? ==> journal.log == old(journal.log) + [EntryOf(Cleaned)]
      ensures old(journal.fuel).None? ==> !out.Crashed? && journal.fuel.None?
    {
      hide LayoutOf, Forward, Backward, CellOf, RolledBack, Published;
      if dest != Some(newApp) || ConfigNow() != Some(newConfig) {
        return Refused;
      }
      var _ :- Log(Cleaned);
      var alive := Tick();
      if !alive {
        return Crashed;
      }
      completed := true;
      out := Cleanup();
    }

    /** What is left to do once both halves are new. */
    method Finish() returns (out: Outcome<()>)
      requires At(Verified) && Moving()
      modifies this`dir, this`marker, this`receipt, this`transaction, this`staged, this`completed, journal
      ensures Valid() && !out.Refused?
      ensures out.Done? ==>
                BothNew() && !transaction && receipt == NoReceipt && completed && (LeavesLitter() <==> litter)
      ensures old(journal.fuel).None? ==> out.Done? && journal.fuel.None?
    {
      hide Installer.Valid, Installer.Moving;
      var _ :- Commit();
      out := Complete();
    }

    /** `install_with_config`, without the exception paths; `partial` is what a torn write leaves. */
    method Install(partial: Digest) returns (out: Outcome<()>)
      requires Valid() && Ready()
      modifies this, journal
      ensures Valid() && !out.Refused?
      ensures out.Done? ==>
                BothNew() && !transaction && receipt == NoReceipt && completed && (LeavesLitter() <==> litter)
      ensures old(journal.fuel) == Some(0) ==> out.Crashed?
      ensures old(journal.fuel) == Some(9) ==> out.Crashed? && At(TxnPrepared) && marker == NoMarker && Temp in dir
      ensures old(journal.fuel) == Some(12) ==>
                out.Crashed? && transaction && receipt == NoReceipt && marker == WholeMarker(Bound())
                  && journal.log != []
      ensures old(journal.fuel).None? ==> out.Done? && journal.fuel.None?
    {
      hide Installer.Valid, Installer.Moving, Installer.Ready, Forward, LayoutOf;
      var _ :- Prepare();
      var _ :- StageConfig(partial);
      var _ :- PublishConfig();
      var _ :- Publish();
      out := Finish();
    }

    // -------------------------------------------------------------- recovery

    /** The recovery loop of `_recover_config_marker`: eight rounds are always enough. */
    method ConvergeConfig(m: Marker, app: Presence) returns (out: Outcome<()>)
      requires Moving() && m == Bound() && app == AppNow()
      requires Head().phase in {Prepared, PreparedNew} ==> AppNow() != New
      modifies this`dir, journal`fuel
      ensures Moving() && !out.Refused?
      ensures out.Done? ==> LayoutNow().value == Goal(oldConfig.Some?, app)
      ensures old(journal.fuel).None? ==> !out.Crashed? && journal.fuel.None?
    {
      var round := 0;
      while round < 8
        invariant Moving() && round + Left(oldConfig.Some?, LayoutNow().value, app) <= 3
        invariant old(journal.fuel).None? ==> journal.fuel.None?
      {
        RoundKeepsCourse(oldConfig.Some?, LayoutNow().value, app);
        var layout := LayoutOf(dir, m);
        if layout.None? {
          return Refused;
        }
        match Next(m.oldSha.Some?, layout.value, app) {
          case Stop =>
            return Done(());
          case Quarantine =>
            return Refused;
          case Act(action) =>
            var _ :- Mutate(action);
        }
        round := round + 1;
      }
      return Refused;
    }

    /** Under way, and past the journalling that follows the exchange of the trees. */
    ghost predicate Recoverable()
      reads this, journal`files, journal`log
    {
      && Valid() && transaction && receipt == NoReceipt && journal.log != []
      && (Head().phase in {Prepared, PreparedNew} ==> AppNow() != New)
    }

    /** A whole marker of a transaction under way lies on course. */
    lemma MarkedIsMoving()
      requires Recoverable() && marker.WholeMarker?
      ensures Moving()
      ensures Head().phase == TxnPrepared ==>
                AppNow() != New && LayoutNow().value.trash == Absent && LayoutNow().value.backup == Absent
    {
      if Head().phase == TxnPrepared && Temp in dir {
        StagedLayout();
      }
    }

    /** `_recover_config_marker` */
    method RecoverConfigMarker(app: Presence, expected: Option<Marker>) returns (out: Outcome<()>)
      requires Recoverable() && app == AppNow() && expected == Head().config
      modifies this`dir, this`marker, journal`fuel
      ensures Recoverable()
      ensures out.Refused? <==>
              match old(marker)
              case NoMarker => expected.Some? && app != New
              case TornMarker => true
              case WholeMarker(_) => litter
      ensures out.Refused? || old(marker).NoMarker? ==> dir == old(dir)
      ensures out.Done? ==> marker == NoMarker && (old(marker).WholeMarker? ==> !HasStrangers())
      ensures out.Refused? ==> marker == old(marker)
      ensures out.Done? ==> if app == New then BothNew() else BothOld()
      ensures old(journal.fuel).None? ==> !out.Crashed? && journal.fuel.None?
    {
      if marker.NoMarker? {
        if expected.Some?
          && (ConfigNow() != Some(expected.value.newSha) || Temp in dir || Backup in dir || Trash in dir) {
          return Refused;
        }
        return Done(());
      }
      if marker.TornMarker? || (expected.Some? && marker.m != expected.value) {
        return Refused;
      }
      if litter {
        return Refused;
      }
      MarkedIsMoving();
      var _ :- ConvergeConfig(marker.m, app);
      out := RemoveMarker();
    }

    /** The application's half of `recover_transactions`: what the head and the two digests make of it. */
    method JudgeApplication(head: Entry) returns (out: Outcome<Presence>)
      requires Valid() && transaction && receipt == NoReceipt && journal.Whole() && journal.log != [] && head == Head()
      modifies journal
      ensures Valid() && !out.Refused?
      ensures out.Done? ==> Recoverable() && out.value == AppNow() && Head().config == head.config
      ensures journal.log == old(journal.log) || AppNow() == New
      ensures old(journal.fuel).None? ==> !out.Crashed? && journal.fuel.None?
    {
      var tree := Some(head.tree);
      match head.phase {
        case Verified | Committing | Cleaned =>
          return Done(New);
        case TxnPrepared | ConfigPrepared =>
          if staged != tree {
            return Refused;
          }
          if head.oldTree.None? && dest.None? {
            return Done(Absent);
          }
          return if head.oldTree.Some? && dest == head.oldTree then Done(Old) else Refused;
        case PreparedNew =>
          if dest.Some? && staged.None? && dest == tree {
            var _ :- journal.Append(head.(phase := Verified));
            return Done(New);
          }
          return if dest.None? && staged == tree then Done(Absent) else Refused;
        case Prepared =>
          if dest.None? || staged.None? {
            return Refused;
          }
          if dest == tree && staged != tree {
            var _ :- journal.Append(head.(phase := Verified));
            return Done(New);
          }
          return if staged == tree && dest != tree then Done(Old) else Refused;
      }
    }

    /**
     What recovery leaves for inspection: a torn file, an unwritten journal, a rollback cut after its marker went, or
     files to be moved beside those of an earlier transaction.
     */
    ghost predicate Quarantined()
      reads this, journal`files, journal`log
    {
      || receipt == TornReceipt
      || (transaction && receipt == NoReceipt
          && (journal.Littered() || journal.log == [] || marker == TornMarker || (marker.WholeMarker? && litter)
              || (marker == NoMarker && Head().config.Some? && AppNow() != New)))
    }

    /** Both halves of a judged transaction, then the completion receipt and the cleanup. */
    method RecoverHalves(app: Presence, expected: Option<Marker>) returns (out: Outcome<()>)
      requires Recoverable() && app == AppNow() && expected == Head().config
      modifies this`dir, this`marker, this`receipt, this`transaction, this`staged, this`completed, journal`fuel
      ensures Valid()
      ensures out.Refused? <==>
              match old(marker)
              case NoMarker => expected.Some? && app != New
              case TornMarker => true
              case WholeMarker(_) => litter
      ensures out.Refused? || old(marker).NoMarker? ==> dir == old(dir)
      ensures out.Done? ==> marker == NoMarker && (old(marker).WholeMarker? ==> !HasStrangers())
      ensures out.Refused? ==> marker == old(marker) && transaction && receipt == NoReceipt
      ensures out.Done? ==>
                !transaction && receipt == NoReceipt && (if app == New then BothNew() && completed else BothOld())
      ensures old(journal.fuel).None? ==> !out.Crashed? && journal.fuel.None?
    {
      var _ :- RecoverConfigMarker(app, expected);
      if app == New {
        if dest != Some(newApp) || ConfigNow() != (if expected.Some? then Some(expected.value.newSha) else None) {
          return Refused;
        }
        var alive := Tick();
        if !alive {
          return Crashed;
        }
        completed := true;
      }
      out := Cleanup();
    }

    /**
     `recover_transactions`: a recovery that returns leaves no transaction and both halves old or both
     halves new, as the installed tree dictates; it refuses exactly in quarantine.
     */
    method Recover() returns (out: Outcome<()>)
      requires Valid()
      modifies this`dir, this`marker, this`receipt, this`transaction, this`staged, this`completed, journal
      ensures Valid()
      ensures out.Refused? ==> old(Quarantined()) && dir == old(dir)
      ensures old(Quarantined()) ==> !out.Done? && Quarantined()
      ensures out.Done? ==> !transaction && receipt == NoReceipt && (BothOld() || BothNew())
      ensures out.Done? ==> (completed <==> BothNew())
      ensures old(!transaction && receipt == NoReceipt) ==> out.Done? && dir == old(dir)
      ensures out.Done? && old(transaction && receipt == NoReceipt) ==> (BothNew() <==> dest == Some(newApp))
      ensures out.Done? && old(marker).NoMarker? ==> dir == old(dir)
      ensures out.Done? && old(transaction && receipt == NoReceipt) ==>
                marker == NoMarker && (LeavesLitter() <==> litter || (old(marker).NoMarker? && old(HasStrangers())))
      ensures old(journal.fuel).None? ==> !out.Crashed? && journal.fuel.None?
    {
      if receipt == TornReceipt {
        return Refused;
      }
      if receipt == WholeReceipt {
        var _ :- ResumeCleanup();
      }
      if !transaction {
        return Done(());
      }
      var head :- journal.RecoverHead();
      var judged :- JudgeApplication(head);
      out := RecoverHalves(judged, head.config);
    }

    /** Some configuration file besides the configuration is there. */
    predicate HasStrangers()
      reads this`dir
    {
      exists role :: role in dir && role != Config
    }

    /** Whether a later installation finds files in the configuration directory that are not its own. */
    predicate LeavesLitter()
      reads this`dir, this`marker
    {
      litter || marker != NoMarker || HasStrangers()
    }

    /** Nothing of a transaction is under way. */
    predicate AtRest()
      reads this`transaction, this`receipt, this`dest, this`dir, this`completed
    {
      !transaction && receipt == NoReceipt && (if completed then BothNew() else BothOld())
    }

    /** The application and the configuration of one moment. */
    predicate AllOrNothing(seen: (Option<Digest>, Option<Digest>)) {
      seen == (oldApp, oldConfig) || seen == (Some(newApp), Some(newConfig))
    }

    /**
     Every run: an installation that loses power anywhere, then any number of recoveries that lose power
     anywhere.  Whenever a recovery returns, application and configuration are both old or both new.
     */
    method Run(partial: Digest, power: Option<nat>, recoveries: seq<Option<nat>>)
      returns (installed: Outcome<()>, outcomes: seq<Outcome<()>>, ghost seen: seq<(Option<Digest>, Option<Digest>)>)
      requires Valid() && Ready()
      modifies this, journal
      ensures Valid() && |outcomes| == |seen| == |recoveries|
      ensures installed.Done? ==> BothNew()
      ensures forall i :: 0 <= i < |outcomes| && outcomes[i].Done? ==> AllOrNothing(seen[i])
      ensures completed ==> BothNew()
      ensures power.None? ==> installed.Done?
      ensures power == Some(0) ==> installed.Crashed?
      ensures forall i :: 0 <= i < |outcomes| && recoveries[i].None? ==> !outcomes[i].Crashed?
      ensures installed.Done? || (outcomes != [] && outcomes[|outcomes| - 1].Done?) ==> AtRest()
    {
      hide Installer.Valid, Installer.Ready, Installer.Quarantined;
      journal.fuel := power;
      installed := Install(partial);
      outcomes, seen := [], [];
      for i := 0 to |recoveries|
        invariant Valid() && |outcomes| == |seen| == i
        invariant installed.Done? ==> BothNew() && !transaction && receipt == NoReceipt && completed
        invariant forall j :: 0 <= j < i && outcomes[j].Done? ==> AllOrNothing(seen[j])
        invariant forall j :: 0 <= j < i && recoveries[j].None? ==> !outcomes[j].Crashed?
        invariant i > 0 && outcomes[i - 1].Done? ==> AtRest()
      {
        journal.fuel := recoveries[i];
        var out := Recover();
        outcomes := outcomes + [out];
        seen := seen + [(dest, ConfigNow())];
      }
      CompletedIsNew();
    }

    lemma CompletedIsNew()
      requires Valid()
      ensures completed ==> BothNew()
    {
    }
  }

  // ---------------------------------------------------------------- one installation after another

  /** What to install, where the power fails, what a torn write leaves, and the recoveries that follow. */
  datatype Attempt = Attempt(
    app: Digest, config: Digest, partial: Digest, power: Option<nat>, recoveries: seq<Option<nat>>)

  /** The halves of the state at first, or those of one of the installations. */
  predicate Matched(now: (Option<Digest>, Option<Digest>), first: (Option<Digest>, Option<Digest>),
      attempts: seq<Attempt>) {
    now == first || exists a :: a in attempts && now == (Some(a.app), Some(a.config))
  }

  /**
   Any number of installations, each cut anywhere and recovered any number of times, as long as everything is at
   rest before the next one begins: the application and the configuration always belong together.
   */
  method RunAll(seal: (nat, Entry) -> string, first: (Option<Digest>, Option<Digest>), attempts: seq<Attempt>)
    returns (now: (Option<Digest>, Option<Digest>), rests: bool)
    ensures rests ==> Matched(now, first, attempts)
    ensures rests && attempts != [] && attempts[|attempts| - 1].power.None? ==>
              var last := attempts[|attempts| - 1];
              now.0 == Some(last.app) || now.1 == Some(last.config)
  {
    hide Installer.Valid, Installer.Ready, Installer.LeavesLitter;
    now, rests := first, true;
    var litter := false;
    for i := 0 to |attempts|
      invariant rests ==> Matched(now, first, attempts[..i])
      invariant rests && i > 0 && attempts[i - 1].power.None? ==>
                  now.0 == Some(attempts[i - 1].app) || now.1 == Some(attempts[i - 1].config)
    {
      var a := attempts[i];
      if rests && now.0 != Some(a.app) && now.1 != Some(a.config) {
        var installer := new Installer(seal, now.0, a.app, now.1, a.config, litter);
        var installed, outcomes, _ := installer.Run(a.partial, a.power, a.recoveries);
        rests := installed.Done? || (outcomes != [] && outcomes[|outcomes| - 1].Done?);
        now, litter := (installer.dest, installer.ConfigNow()), installer.LeavesLitter();
      }
    }
  }

  /** An installation that loses its power before its marker is written leaves its temporary file for good. */
  method LeavesTemp(installer: Installer)
    returns (recovered: Outcome<()>)
    requires installer.Valid() && installer.Ready()
    modifies installer, installer.journal
    ensures recovered.Done? && installer.AtRest() && installer.BothOld() && installer.LeavesLitter()
  {
    hide Installer.Agrees;
    installer.journal.fuel := Some(9);
    var _ := installer.Install(installer.newConfig);
    installer.PreparedIsOld();
    installer.journal.fuel := None;
    recovered := installer.Recover();
  }

  /** Beside such a file an installation that loses its power after its marker is written is never recovered. */
  method BlockedByLitter(installer: Installer)
    returns (recovered: Outcome<()>)
    requires installer.Valid() && installer.Ready() && installer.litter
    modifies installer, installer.journal
    ensures recovered.Refused? && installer.Valid() && installer.Quarantined() && installer.transaction
  {
    hide Installer.Agrees, Installer.Describes;
    installer.journal.fuel := Some(12);
    var _ := installer.Install(installer.newConfig);
    installer.journal.fuel := None;
    recovered := installer.Recover();
  }

  /** One installation after the other: the file the first one leaves keeps the second one from being recovered. */
  method LitterBlocksTheNext(
    seal: (nat, Entry) -> string, before: (Option<Digest>, Option<Digest>), first: (Digest, Digest),
    second: (Digest, Digest))
    returns (recovered: Outcome<()>, refused: Outcome<()>, next: Installer)
    requires before.0 != Some(first.0) && before.1 != Some(first.1)
    requires before.0 != Some(second.0) && before.1 != Some(second.1)
    ensures recovered.Done? && refused.Refused? && next.Valid() && next.Quarantined() && next.transaction
    ensures next.oldApp == before.0 && next.oldConfig == before.1 && next.newApp == second.0
    ensures next.newConfig == second.1
  {
    hide Installer.Valid, Installer.Ready, Installer.Quarantined, Installer.LeavesLitter;
    var installer := new Installer(seal, before.0, first.0, before.1, first.1, false);
    recovered := LeavesTemp(installer);
    next := new Installer(seal, installer.dest, second.0, installer.ConfigNow(), second.1, installer.LeavesLitter());
    refused := BlockedByLitter(next);
  }
}
