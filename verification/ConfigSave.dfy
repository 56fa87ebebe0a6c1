/** Saving the config: write a temporary file, keep one backup, rename into
    place. Renames are atomic; writes are not; every step may fail and the
    process may die between any two. */
module ConfigSave {
  import opened Common

  /** A file is as written, or cut off by an unfinished write. */
  datatype File<C> = Whole(config: C) | Torn

  /** The three names a save touches. */
  datatype Disk<C> = Disk(path: Option<File<C>>, bak: Option<File<C>>, tmp: Option<File<C>>)

  datatype Write = NotOpened | CutOff | Complete

  /** What goes wrong in one save: how far the write gets, which renames
      succeed, and whether the process dies after a given step. */
  datatype Plan = Plan(write: Write, diesAfterWrite: bool, backupOk: bool, diesAfterBackup: bool, publishOk: bool)

  datatype Outcome = Saved | Failed | Died

  function WriteTmp<C>(d: Disk<C>, config: C, write: Write): Disk<C> {
    match write
    case NotOpened => d
    case CutOff => d.(tmp := Some(Torn))
    case Complete => d.(tmp := Some(Whole(config)))
  }

  /** `rename(path, bak)`, attempted only when `path` exists. */
  function Backup<C>(d: Disk<C>, ok: bool): Disk<C> {
    if d.path.Some? && ok then d.(bak := d.path, path := None) else d
  }

  /** `rename(tmp, path)` */
  function Publish<C>(d: Disk<C>, ok: bool): Disk<C> {
    if d.tmp.Some? && ok then d.(path := d.tmp, tmp := None) else d
  }

  /** One save, start to end or to the step that stops it. */
  function Save<C>(d: Disk<C>, config: C, plan: Plan): (Disk<C>, Outcome) {
    var written := WriteTmp(d, config, plan.write);
    if plan.diesAfterWrite then (written, Died)
    else if !plan.write.Complete? then (written, Failed)
    else
      var backed := Backup(written, plan.backupOk);
      if plan.diesAfterBackup then (backed, Died)
      else (Publish(backed, plan.publishOk), if plan.publishOk then Saved else Failed)
  }

  /** The directory, changed in place. */
  class ConfigDir<C(==)> {
    var path: Option<File<C>>
    var bak: Option<File<C>>
    var tmp: Option<File<C>>

    ghost function View(): Disk<C>
      reads this
    {
      Disk(path, bak, tmp)
    }

    method SaveRawConfig(config: C, plan: Plan) returns (outcome: Outcome)
      modifies this
      ensures (View(), outcome) == Save(old(View()), config, plan)
    {
      if plan.write.Complete? {
        tmp := Some(Whole(config));
      } else if plan.write.CutOff? {
        tmp := Some(Torn);
      }
      if plan.diesAfterWrite { return Died; }
      if !plan.write.Complete? { return Failed; }
      if path.Some? {
        if plan.backupOk { bak, path := path, None; }
      }
      if plan.diesAfterBackup { return Died; }
      if !plan.publishOk { return Failed; }
      path, tmp := tmp, None;
      return Saved;
    }
  }

  /** The config last renamed into place is at the path, or is the backup while
      the path is vacant; nothing else is ever at the path. */
  ghost predicate Recoverable<C>(d: Disk<C>, committed: Option<C>) {
    match committed
    case None => d.path.None?
    case Some(c) => d.path == Some(Whole(c)) || (d.path.None? && d.bak == Some(Whole(c)))
  }

  lemma SaveKeepsRecoverable<C>(d: Disk<C>, committed: Option<C>, config: C, plan: Plan)
    requires Recoverable(d, committed)
    ensures var (d', outcome) := Save(d, config, plan);
            Recoverable(d', if outcome.Saved? then Some(config) else committed)
  {
  }

  datatype Attempt<C> = Attempt(config: C, plan: Plan)

  /** The disk after a sequence of saves, one at a time. */
  function SaveAll<C>(d: Disk<C>, attempts: seq<Attempt<C>>): Disk<C> {
    if attempts == [] then d
    else
      var last := attempts[|attempts| - 1];
      Save(SaveAll(d, attempts[..|attempts| - 1]), last.config, last.plan).0
  }

  /** The config of the last save that reported success. */
  function LastCommitted<C>(initial: Option<C>, d: Disk<C>, attempts: seq<Attempt<C>>): Option<C> {
    if attempts == [] then initial
    else
      var last := attempts[|attempts| - 1];
      var earlier := attempts[..|attempts| - 1];
      if Save(SaveAll(d, earlier), last.config, last.plan).1.Saved? then Some(last.config)
      else LastCommitted(initial, d, earlier)
  }

  /** Over any sequence of saves, each cut anywhere or failing anywhere, the
      last committed config can be recovered. */
  lemma {:induction false} CommittedSurvives<C>(initial: Option<C>, d: Disk<C>, attempts: seq<Attempt<C>>)
    requires Recoverable(d, initial)
    ensures Recoverable(SaveAll(d, attempts), LastCommitted(initial, d, attempts))
    decreases |attempts|
  {
    if attempts != [] {
      var earlier, last := attempts[..|attempts| - 1], attempts[|attempts| - 1];
      CommittedSurvives(initial, d, earlier);
      SaveKeepsRecoverable(SaveAll(d, earlier), LastCommitted(initial, d, earlier), last.config, last.plan);
    }
  }

  // ---------------------------------------------------------------------
  // Overlapping saves share the temporary file.
  // ---------------------------------------------------------------------

  type SaveId = nat

  /** A file as the saves that may overlap see it. A save that has it open goes on
      writing into it wherever a rename takes it. What two saves wrote at the same
      time is torn, also when both are done. */
  datatype Shared<C> = Shared(content: File<C>, writers: set<SaveId>, mixed: bool)

  datatype Names<C> = Names(path: Option<Shared<C>>, bak: Option<Shared<C>>, tmp: Option<Shared<C>>)

  /** How far a save has come. */
  datatype Pc = Writing | Written | BackedUp | Ended

  datatype World<C> = World(names: Names<C>, saves: map<SaveId, Pc>)

  /** The steps of saves that may overlap, such as one by the save endpoint, which
      takes no lock, and one by a mutation handler. `ok` tells whether the rename
      succeeds; a backup may also be skipped because there was nothing at the path. */
  datatype Step<C> =
    | Open(id: SaveId)
    | Finish(id: SaveId, config: C)
    | Fail(id: SaveId)
    | TryBackup(id: SaveId, ok: bool)
    | TryPublish(id: SaveId, ok: bool)

  predicate IsAt<C>(w: World<C>, id: SaveId, pc: Pc) { id in w.saves && w.saves[id] == pc }

  predicate Enabled<C>(w: World<C>, s: Step<C>) {
    match s
    case Open(id) => id !in w.saves
    case Finish(id, _) => IsAt(w, id, Writing)
    case Fail(id) => IsAt(w, id, Writing)
    case TryBackup(id, ok) => IsAt(w, id, Written) && (ok ==> w.names.path.Some?)
    case TryPublish(id, ok) => IsAt(w, id, BackedUp) && (ok ==> w.names.tmp.Some?)
  }

  /** Opening truncates the file. */
  function Opened<C>(f: Option<Shared<C>>, id: SaveId): Shared<C> {
    match f
    case None => Shared(Torn, {id}, false)
    case Some(file) => Shared(Torn, file.writers + {id}, file.writers != {})
  }

  /** The writer is done with the file, if it is the one it has open. */
  function Closed<C>(f: Option<Shared<C>>, id: SaveId, content: File<C>): Option<Shared<C>> {
    if f.Some? && id in f.value.writers then
      Some(Shared(if f.value.mixed then Torn else content, f.value.writers - {id}, f.value.mixed))
    else f
  }

  function CloseAll<C>(n: Names<C>, id: SaveId, content: File<C>): Names<C> {
    Names(Closed(n.path, id, content), Closed(n.bak, id, content), Closed(n.tmp, id, content))
  }

  function Take<C>(w: World<C>, s: Step<C>): World<C>
    requires Enabled(w, s)
  {
    var n := w.names;
    match s
    case Open(id) => World(n.(tmp := Some(Opened(n.tmp, id))), w.saves[id := Writing])
    case Finish(id, c) => World(CloseAll(n, id, Whole(c)), w.saves[id := Written])
    case Fail(id) => World(CloseAll(n, id, Torn), w.saves[id := Ended])
    case TryBackup(id, ok) => World(if ok then n.(bak := n.path, path := None) else n, w.saves[id := BackedUp])
    case TryPublish(id, ok) => World(if ok then n.(path := n.tmp, tmp := None) else n, w.saves[id := Ended])
  }

  predicate AtRest<C>(f: Option<Shared<C>>) { f.Some? ==> f.value.writers == {} }

  /** At the start no save is under way. A torn temporary file may be left over. */
  ghost predicate Initial<C>(w: World<C>) {
    && w.saves == map[] && AtRest(w.names.path) && AtRest(w.names.bak) && AtRest(w.names.tmp)
    && !TornAtPath(w)
  }

  ghost predicate IsRun<C>(ws: seq<World<C>>, steps: seq<Step<C>>) {
    && |ws| == |steps| + 1 && Initial(ws[0])
    && forall k :: 0 <= k < |steps| ==> Enabled(ws[k], steps[k]) && ws[k + 1] == Take(ws[k], steps[k])
  }

  predicate TornAtPath<C>(w: World<C>) { w.names.path.Some? && w.names.path.value.content.Torn? }

  ghost predicate NeverTorn<C>(ws: seq<World<C>>) {
    forall k :: 0 <= k < |ws| ==> !TornAtPath(ws[k])
  }

  // ---- The schedule alone ----

  predicate Moves<C>(s: Step<C>) { s.TryPublish? && s.ok }

  predicate Closes<C>(s: Step<C>, id: SaveId) { (s.Finish? || s.Fail?) && s.id == id }

  /** Since step i the temporary file has not been renamed away, by step k. */
  ghost predicate StillThere<C>(steps: seq<Step<C>>, i: nat, k: nat)
    requires k <= |steps|
  {
    forall m :: i < m < k ==> !Moves(steps[m])
  }

  /** At step k the save that opened at step i still writes the temporary file. */
  ghost predicate WritesSince<C>(steps: seq<Step<C>>, i: nat, k: nat)
    requires k <= |steps|
  {
    && i < k && steps[i].Open? && StillThere(steps, i, k)
    && forall m :: i < m < k ==> !Closes(steps[m], steps[i].id)
  }

  /** Step j is the last to open the temporary file that is there at step k. */
  ghost predicate LastOpen<C>(steps: seq<Step<C>>, j: nat, k: nat)
    requires k <= |steps|
  {
    j < k && steps[j].Open? && StillThere(steps, j, k) && forall m :: j < m < k ==> !steps[m].Open?
  }

  ghost predicate OpenedAlone<C>(steps: seq<Step<C>>, j: nat)
    requires j <= |steps|
  {
    forall i: nat :: i < j ==> !WritesSince(steps, i, j)
  }

  ghost predicate FinishedBetween<C>(steps: seq<Step<C>>, j: nat, k: nat)
    requires j < k <= |steps|
  {
    exists m :: j < m < k && steps[m].Finish? && steps[m].id == steps[j].id
  }

  /** The last save to open the temporary file opened it while no other was
      writing it, and has finished. */
  ghost predicate OneWholeWrite<C>(steps: seq<Step<C>>, k: nat)
    requires k <= |steps|
  {
    exists j: nat :: j < k && LastOpen(steps, j, k) && OpenedAlone(steps, j) && FinishedBetween(steps, j, k)
  }

  /** Every rename into place moves one whole write. */
  ghost predicate RenamesWholeWrites<C>(steps: seq<Step<C>>) {
    forall k :: 0 <= k < |steps| && Moves(steps[k]) ==> OneWholeWrite(steps, k)
  }

  // ---- What the schedule says of the temporary file ----

  /** A save is writing exactly while it has opened and not closed. */
  lemma {:induction false} WritingSinceOpen<C>(ws: seq<World<C>>, steps: seq<Step<C>>, k: nat, id: SaveId)
    requires IsRun(ws, steps) && k < |ws|
    ensures id in ws[k].saves <==> exists i :: 0 <= i < k && steps[i] == Open(id)
    ensures IsAt(ws[k], id, Writing) ==> forall m :: 0 <= m < k ==> !Closes(steps[m], id)
    decreases k
  {
    if k > 0 {
      WritingSinceOpen(ws, steps, k - 1, id);
      var s := steps[k - 1];
      assert Enabled(ws[k - 1], s) && ws[k] == Take(ws[k - 1], s);
      if s == Open(id) {
        forall m | 0 <= m < k - 1 && Closes(steps[m], id) ensures false {
          ClosedWasOpened(ws, steps, m, id);
          KeptSaves(ws, steps, m, k - 1, id);
        }
      }
    }
  }

  lemma ClosedWasOpened<C>(ws: seq<World<C>>, steps: seq<Step<C>>, m: nat, id: SaveId)
    requires IsRun(ws, steps) && m < |steps| && Closes(steps[m], id)
    ensures id in ws[m].saves
  {
    assert Enabled(ws[m], steps[m]);
  }

  lemma {:induction false} KeptSaves<C>(ws: seq<World<C>>, steps: seq<Step<C>>, m: nat, k: nat, id: SaveId)
    requires IsRun(ws, steps) && m <= k < |ws| && id in ws[m].saves
    ensures id in ws[k].saves
    decreases k
  {
    if m < k {
      KeptSaves(ws, steps, m, k - 1, id);
      assert ws[k] == Take(ws[k - 1], steps[k - 1]);
    }
  }

  /** Some save that opened the temporary file under this id still writes it. */
  ghost predicate SomeoneWrites<C>(steps: seq<Step<C>>, k: nat, id: SaveId)
    requires k <= |steps|
  {
    exists i: nat :: i < k && WritesSince(steps, i, k) && steps[i].id == id
  }

  ghost predicate HasOpen<C>(w: World<C>, id: SaveId) { w.names.tmp.Some? && id in w.names.tmp.value.writers }

  lemma WritesOneMore<C>(steps: seq<Step<C>>, i: nat, k: nat)
    requires i < k < |steps|
    ensures WritesSince(steps, i, k + 1) <==>
            WritesSince(steps, i, k) && !Moves(steps[k]) && !Closes(steps[k], steps[i].id)
  {}

  lemma SomeoneOneMore<C>(steps: seq<Step<C>>, k: nat, id: SaveId)
    requires k < |steps|
    ensures SomeoneWrites(steps, k + 1, id) <==>
            steps[k] == Open(id) || (SomeoneWrites(steps, k, id) && !Moves(steps[k]) && !Closes(steps[k], id))
  {
    hide WritesSince;
    forall i: nat | i < k
      ensures WritesSince(steps, i, k + 1) <==>
              WritesSince(steps, i, k) && !Moves(steps[k]) && !Closes(steps[k], steps[i].id)
    {
      WritesOneMore(steps, i, k);
    }
    OpenWrites(steps, k);
    if i: nat :| i < k && WritesSince(steps, i, k) && steps[i].id == id && !Moves(steps[k]) && !Closes(steps[k], id) {
      WritesBelow(steps, i, k);
      assert WritesSince(steps, i, k + 1);
    }
    if i: nat :| i < k + 1 && WritesSince(steps, i, k + 1) && steps[i].id == id {
      WritesBelow(steps, i, k + 1);
    }
  }

  lemma WritesBelow<C>(steps: seq<Step<C>>, i: nat, k: nat)
    requires k <= |steps| && WritesSince(steps, i, k)
    ensures i < k && steps[i].Open?
  {}

  lemma OpenWrites<C>(steps: seq<Step<C>>, k: nat)
    requires k < |steps|
    ensures WritesSince(steps, k, k + 1) <==> steps[k].Open?
  {}

  /** The saves that have the temporary file open are those the schedule says. */
  lemma {:induction false} WritersOfSchedule<C>(ws: seq<World<C>>, steps: seq<Step<C>>, k: nat, id: SaveId)
    requires IsRun(ws, steps) && k < |ws|
    ensures HasOpen(ws[k], id) <==> SomeoneWrites(steps, k, id)
    decreases k
  {
    hide SomeoneWrites;
    if k == 0 {
      NobodyYet(steps, id);
    } else {
      WritersOfSchedule(ws, steps, k - 1, id);
      SomeoneOneMore(steps, k - 1, id);
      assert ws[k] == Take(ws[k - 1], steps[k - 1]);
    }
  }

  lemma NobodyYet<C>(steps: seq<Step<C>>, id: SaveId)
    ensures !SomeoneWrites(steps, 0, id)
  {}

  lemma LastOpenOneMore<C>(steps: seq<Step<C>>, j: nat, k: nat)
    requires k < |steps|
    ensures LastOpen(steps, j, k + 1) <==>
            (j == k && steps[k].Open?) || (LastOpen(steps, j, k) && !steps[k].Open? && !Moves(steps[k]))
  {}

  lemma FinishedOneMore<C>(steps: seq<Step<C>>, j: nat, k: nat)
    requires j < k < |steps|
    ensures FinishedBetween(steps, j, k + 1) <==>
            FinishedBetween(steps, j, k) || (steps[k].Finish? && steps[k].id == steps[j].id)
  {}

  /** Another save that still writes the file was writing it when the last opened. */
  lemma OtherWriterWasThere<C>(steps: seq<Step<C>>, j: nat, k: nat, id: SaveId)
    requires k <= |steps| && LastOpen(steps, j, k) && SomeoneWrites(steps, k, id) && id != steps[j].id
    ensures !OpenedAlone(steps, j)
  {
    var i: nat :| i < k && WritesSince(steps, i, k) && steps[i].id == id;
    assert i < j;
    assert WritesSince(steps, i, j);
  }

  lemma AloneMeansNoWriter<C>(ws: seq<World<C>>, steps: seq<Step<C>>, k: nat)
    requires IsRun(ws, steps) && k < |steps|
    ensures OpenedAlone(steps, k) <==> AtRest(ws[k].names.tmp)
  {
    hide WritesSince;
    if i: nat :| i < k && WritesSince(steps, i, k) {
      assert SomeoneWrites(steps, k, steps[i].id);
      WritersOfSchedule(ws, steps, k, steps[i].id);
    }
    if ws[k].names.tmp.Some? && ws[k].names.tmp.value.writers != {} {
      var id :| id in ws[k].names.tmp.value.writers;
      WritersOfSchedule(ws, steps, k, id);
      var i: nat :| i < k && WritesSince(steps, i, k) && steps[i].id == id;
      WritesBelow(steps, i, k);
    }
  }

  /** The temporary file is whole exactly after one whole write. */
  ghost predicate Described<C>(w: World<C>, steps: seq<Step<C>>, j: nat, k: nat)
    requires j < k <= |steps|
  {
    && w.names.tmp.Some?
    && (w.names.tmp.value.mixed <==> !OpenedAlone(steps, j))
    && (w.names.tmp.value.content.Whole? <==> OpenedAlone(steps, j) && FinishedBetween(steps, j, k))
  }

  lemma {:induction false} ContentOfSchedule<C>(ws: seq<World<C>>, steps: seq<Step<C>>, j: nat, k: nat)
    requires IsRun(ws, steps) && k < |ws| && LastOpen(steps, j, k)
    ensures Described(ws[k], steps, j, k)
    decreases k
  {
    hide LastOpen, OpenedAlone, FinishedBetween, SomeoneWrites;
    LastOpenIsOpen(steps, j, k);
    LastOpenOneMore(steps, j, k - 1);
    var s := steps[k - 1];
    assert Enabled(ws[k - 1], s) && ws[k] == Take(ws[k - 1], s);
    if j == k - 1 {
      AloneMeansNoWriter(ws, steps, j);
      NotFinishedAtOnce(steps, j);
    } else {
      LastOpenIsOpen(steps, j, k - 1);
      ContentOfSchedule(ws, steps, j, k - 1);
      FinishedOneMore(steps, j, k - 1);
      if s.Finish? || s.Fail? {
        WritersOfSchedule(ws, steps, k - 1, s.id);
        WritingSinceOpen(ws, steps, k - 1, s.id);
        if s.id == steps[j].id {
          OwnerStillWrites(steps, j, k - 1);
        } else if SomeoneWrites(steps, k - 1, s.id) {
          OtherWriterWasThere(steps, j, k - 1, s.id);
        }
      }
    }
  }

  lemma LastOpenIsOpen<C>(steps: seq<Step<C>>, j: nat, k: nat)
    requires k <= |steps| && LastOpen(steps, j, k)
    ensures j < k && steps[j].Open?
  {}

  lemma NotFinishedAtOnce<C>(steps: seq<Step<C>>, j: nat)
    requires j < |steps|
    ensures !FinishedBetween(steps, j, j + 1)
  {}

  /** A save that has not closed what it opened last still writes it. */
  lemma OwnerStillWrites<C>(steps: seq<Step<C>>, j: nat, k: nat)
    requires k <= |steps| && LastOpen(steps, j, k) && forall m :: 0 <= m < k ==> !Closes(steps[m], steps[j].id)
    ensures SomeoneWrites(steps, k, steps[j].id) && !FinishedBetween(steps, j, k)
  {
    assert WritesSince(steps, j, k);
  }

  // ---- The path ----

  /** A temporary file that is there was left over or has been opened since. */
  lemma {:induction false} ThereMeansOpened<C>(ws: seq<World<C>>, steps: seq<Step<C>>, k: nat)
    requires IsRun(ws, steps) && k < |ws| && ws[k].names.tmp.Some?
    ensures (forall m :: 0 <= m < k ==> !steps[m].Open?) || exists j: nat :: j < k && LastOpen(steps, j, k)
    decreases k
  {
    hide LastOpen;
    if k > 0 {
      var s := steps[k - 1];
      assert Enabled(ws[k - 1], s) && ws[k] == Take(ws[k - 1], s);
      if s.Open? {
        LastOpenOneMore(steps, k - 1, k - 1);
      } else {
        ThereMeansOpened(ws, steps, k - 1);
        var b: nat := k - 1;
        if j: nat :| j < b && LastOpen(steps, j, b) { LastOpenOneMore(steps, j, b); }
      }
    }
  }

  /** A rename into place moves a file its own save, or a later one, has opened. */
  lemma MovedWasOpened<C>(ws: seq<World<C>>, steps: seq<Step<C>>, k: nat) returns (j: nat)
    requires IsRun(ws, steps) && k < |steps| && Moves(steps[k])
    ensures j < k && LastOpen(steps, j, k)
  {
    hide LastOpen, Take;
    assert Enabled(ws[k], steps[k]);
    ThereMeansOpened(ws, steps, k);
    WritingSinceOpen(ws, steps, k, steps[k].id);
    j :| j < k && LastOpen(steps, j, k);
  }

  lemma LastOpenIsOne<C>(steps: seq<Step<C>>, i: nat, j: nat, k: nat)
    requires k <= |steps| && LastOpen(steps, i, k) && LastOpen(steps, j, k)
    ensures i == j
  {}

  /** What a rename into place moves is whole exactly when it is one whole write,
      and then nobody has it open. */
  lemma MovedIsWhole<C>(ws: seq<World<C>>, steps: seq<Step<C>>, k: nat)
    requires IsRun(ws, steps) && k < |steps| && Moves(steps[k])
    ensures ws[k].names.tmp.Some?
    ensures ws[k].names.tmp.value.content.Whole? <==> OneWholeWrite(steps, k)
    ensures OneWholeWrite(steps, k) ==> ws[k].names.tmp.value.writers == {}
  {
    hide LastOpen, OpenedAlone, FinishedBetween, Take, SomeoneWrites;
    var j := MovedWasOpened(ws, steps, k);
    ContentOfSchedule(ws, steps, j, k);
    if OneWholeWrite(steps, k) {
      var i: nat :| i < k && LastOpen(steps, i, k) && OpenedAlone(steps, i) && FinishedBetween(steps, i, k);
      LastOpenIsOne(steps, i, j, k);
      forall id ensures !HasOpen(ws[k], id) {
        WritersOfSchedule(ws, steps, k, id);
        WholeWriteHasNoWriter(steps, j, k, id);
      }
      assert forall id :: id in ws[k].names.tmp.value.writers ==> HasOpen(ws[k], id);
    }
  }

  lemma WholeWriteHasNoWriter<C>(steps: seq<Step<C>>, j: nat, k: nat, id: SaveId)
    requires j < k <= |steps| && LastOpen(steps, j, k) && OpenedAlone(steps, j) && FinishedBetween(steps, j, k)
    ensures !SomeoneWrites(steps, k, id)
  {
    forall i: nat | i < k ensures !WritesSince(steps, i, k) {
      if i < j { assert !WritesSince(steps, i, j); }
    }
  }

  ghost predicate Settled<C>(f: Option<Shared<C>>) { f.Some? ==> f.value.writers == {} && f.value.content.Whole? }

  lemma {:induction false} WholeWritesSettle<C>(ws: seq<World<C>>, steps: seq<Step<C>>, k: nat)
    requires IsRun(ws, steps) && k < |ws| && RenamesWholeWrites(steps)
    ensures Settled(ws[k].names.path)
    decreases k
  {
    hide OneWholeWrite;
    if k > 0 {
      WholeWritesSettle(ws, steps, k - 1);
      assert Enabled(ws[k - 1], steps[k - 1]) && ws[k] == Take(ws[k - 1], steps[k - 1]);
      if Moves(steps[k - 1]) { MovedIsWhole(ws, steps, k - 1); }
    }
  }

  /** The exact condition: over every run of saves that overlap in any way, the
      path never holds a torn file if and only if every rename into place moves one
      whole write: the last save to open the temporary file opened it while no
      other was writing it, and has finished. */
  lemma PathStaysWholeIff<C>(ws: seq<World<C>>, steps: seq<Step<C>>)
    requires IsRun(ws, steps)
    ensures NeverTorn(ws) <==> RenamesWholeWrites(steps)
  {
    hide OneWholeWrite;
    if RenamesWholeWrites(steps) {
      forall k | 0 <= k < |ws| ensures !TornAtPath(ws[k]) {
        WholeWritesSettle(ws, steps, k);
      }
    }
    if NeverTorn(ws) {
      forall k | 0 <= k < |steps| && Moves(steps[k]) ensures OneWholeWrite(steps, k) {
        MovedIsWhole(ws, steps, k);
        assert ws[k + 1] == Take(ws[k], steps[k]);
        assert !TornAtPath(ws[k + 1]);
      }
    }
  }

  // ---- Saves that keep apart, and saves that do not ----

  /** The save has failed to write, or has tried to rename into place. */
  predicate Ends<C>(s: Step<C>, id: SaveId) { (s.Fail? || s.TryPublish?) && s.id == id }

  /** No save opens the temporary file between another's open and its end. */
  ghost predicate KeepApart<C>(steps: seq<Step<C>>) {
    forall i, j :: 0 <= i < j < |steps| && steps[i].Open? && steps[j].Open? ==>
      exists m :: i < m < j && Ends(steps[m], steps[i].id)
  }

  lemma {:induction false} FinishedBefore<C>(ws: seq<World<C>>, steps: seq<Step<C>>, k: nat, id: SaveId)
    requires IsRun(ws, steps) && k < |ws| && (IsAt(ws[k], id, Written) || IsAt(ws[k], id, BackedUp))
    ensures exists m :: 0 <= m < k && steps[m].Finish? && steps[m].id == id
    decreases k
  {
    if k > 0 {
      var s := steps[k - 1];
      assert Enabled(ws[k - 1], s) && ws[k] == Take(ws[k - 1], s);
      if !(s.Finish? && s.id == id) { FinishedBefore(ws, steps, k - 1, id); }
    }
  }

  lemma ClosesAfterOpen<C>(ws: seq<World<C>>, steps: seq<Step<C>>, i: nat, m: nat, id: SaveId)
    requires IsRun(ws, steps) && i < |steps| && m < |steps| && steps[i] == Open(id) && Closes(steps[m], id)
    ensures i < m
  {
    assert Enabled(ws[i], steps[i]);
    ClosedWasOpened(ws, steps, m, id);
    if m <= i { KeptSaves(ws, steps, m, i, id); }
  }

  /** A save that has ended writes no more. */
  lemma EndedWritesNoMore<C>(ws: seq<World<C>>, steps: seq<Step<C>>, i: nat, e: nat, k: nat)
    requires IsRun(ws, steps) && i < e < k <= |steps| && steps[i].Open? && Ends(steps[e], steps[i].id)
    ensures !WritesSince(steps, i, k)
  {
    var id := steps[i].id;
    if steps[e].Fail? {
      assert Closes(steps[e], id);
    } else {
      assert Enabled(ws[e], steps[e]);
      FinishedBefore(ws, steps, e, id);
      var m :| 0 <= m < e && steps[m].Finish? && steps[m].id == id;
      ClosesAfterOpen(ws, steps, i, m, id);
      assert Closes(steps[m], id);
    }
  }

  lemma {:induction false} EndedStaysEnded<C>(ws: seq<World<C>>, steps: seq<Step<C>>, e: nat, k: nat, id: SaveId)
    requires IsRun(ws, steps) && e < k < |ws| && Ends(steps[e], id)
    ensures IsAt(ws[k], id, Ended)
    decreases k
  {
    if e < k - 1 { EndedStaysEnded(ws, steps, e, k - 1, id); }
    assert Enabled(ws[k - 1], steps[k - 1]) && ws[k] == Take(ws[k - 1], steps[k - 1]);
  }

  /** Saves that keep apart rename whole writes of their own. */
  lemma ApartRenamesWholeWrite<C>(ws: seq<World<C>>, steps: seq<Step<C>>, k: nat)
    requires IsRun(ws, steps) && KeepApart(steps) && k < |steps| && Moves(steps[k])
    ensures OneWholeWrite(steps, k)
  {
    hide Take, WritesSince;
    var id := steps[k].id;
    var j := MovedWasOpened(ws, steps, k);
    assert Enabled(ws[k], steps[k]);
    WritingSinceOpen(ws, steps, k, id);
    var i :| 0 <= i < k && steps[i] == Open(id);
    if i < j {
      var e :| i < e < j && Ends(steps[e], id);
      EndedStaysEnded(ws, steps, e, k, id);
    }
    FinishedBefore(ws, steps, k, id);
    var m :| 0 <= m < k && steps[m].Finish? && steps[m].id == id;
    ClosesAfterOpen(ws, steps, j, m, id);
    forall h: nat | h < j ensures !WritesSince(steps, h, j) {
      if steps[h].Open? {
        var e :| h < e < j && Ends(steps[e], steps[h].id);
        EndedWritesNoMore(ws, steps, h, e, j);
      } else if WritesSince(steps, h, j) {
        WritesBelow(steps, h, j);
      }
    }
  }

  /** Saves that keep apart never leave a torn file at the path. */
  lemma ApartSavesStayWhole<C>(ws: seq<World<C>>, steps: seq<Step<C>>)
    requires IsRun(ws, steps) && KeepApart(steps)
    ensures NeverTorn(ws)
  {
    forall k | 0 <= k < |steps| && Moves(steps[k]) ensures OneWholeWrite(steps, k) {
      ApartRenamesWholeWrite(ws, steps, k);
    }
    PathStaysWholeIff(ws, steps);
  }

  function ContentOf<C>(f: Option<Shared<C>>): Option<File<C>> { if f.Some? then Some(f.value.content) else None }

  function Contents<C>(n: Names<C>): Disk<C> { Disk(ContentOf(n.path), ContentOf(n.bak), ContentOf(n.tmp)) }

  /** A save that nothing overlaps leaves behind what a save does. */
  lemma LoneSaveIsASave<C>(w: World<C>, a: C, backupOk: bool, publishOk: bool)
    requires Initial(w) && (backupOk ==> w.names.path.Some?)
    ensures var steps := [Open(0), Finish(0, a), TryBackup(0, backupOk), TryPublish(0, publishOk)];
            exists ws: seq<World<C>> ::
              && IsRun(ws, steps) && ws[0] == w
              && Contents(ws[4].names) ==
                Save(Contents(w.names), a, Plan(Complete, false, backupOk, false, publishOk)).0
  {
    var steps := [Open(0), Finish(0, a), TryBackup(0, backupOk), TryPublish(0, publishOk)];
    var w1 := Take(w, steps[0]);
    var w2 := Take(w1, steps[1]);
    var w3 := Take(w2, steps[2]);
    var w4 := Take(w3, steps[3]);
    var ws := [w, w1, w2, w3, w4];
    assert IsRun(ws, steps);
    assert w1.names.tmp.value.writers == {0};
  }

  /** "Partial writes never reach the path" is false when saves overlap: one save
      renames the file another has just begun to rewrite. */
  lemma OverlappingSavesTearTheConfig<C>(w: World<C>, a: C)
    requires Initial(w)
    ensures var steps := [Open(0), Finish(0, a), Open(1), TryBackup(0, w.names.path.Some?), TryPublish(0, true)];
            exists ws: seq<World<C>> :: IsRun(ws, steps) && TornAtPath(ws[5])
  {
    var steps := [Open(0), Finish(0, a), Open(1), TryBackup(0, w.names.path.Some?), TryPublish(0, true)];
    var w1 := Take(w, steps[0]);
    var w2 := Take(w1, steps[1]);
    var w3 := Take(w2, steps[2]);
    var w4 := Take(w3, steps[3]);
    var w5 := Take(w4, steps[4]);
    assert IsRun([w, w1, w2, w3, w4, w5], steps);
  }

  /** The file is also torn when the other save began first and writes on into the
      file that is now the config. */
  lemma OpenWriterFollowsTheRename<C>(w: World<C>, a: C)
    requires Initial(w)
    ensures var steps := [Open(0), Open(1), Finish(0, a), TryBackup(0, w.names.path.Some?), TryPublish(0, true)];
            exists ws: seq<World<C>> :: IsRun(ws, steps) && TornAtPath(ws[5]) && 1 in ws[5].names.path.value.writers
  {
    var steps := [Open(0), Open(1), Finish(0, a), TryBackup(0, w.names.path.Some?), TryPublish(0, true)];
    var w1 := Take(w, steps[0]);
    var w2 := Take(w1, steps[1]);
    var w3 := Take(w2, steps[2]);
    var w4 := Take(w3, steps[3]);
    var w5 := Take(w4, steps[4]);
    assert IsRun([w, w1, w2, w3, w4, w5], steps);
  }
}
