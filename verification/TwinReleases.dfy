/**
 One change released twice: the heat and allowance change and the honor renaming
 stand on two migration branches, each guarded by a look at the version table.
 */
module TwinReleases {
  import opened Wrappers
  import opened HonorNames

  const DARK := "dept_dark_market"
  const OLD_KINDS: set<string> := {
    "dept_checkin", "dept_event", "dept_game_host", "dept_game_play",
    "dept_submission", "dept_chat", "dept_referral", "dept_fine"}
  const NEW_KINDS: set<string> := {
    "dept_checkin", "dept_event", "dept_dark_market", "dept_game_host", "dept_game_play",
    "dept_submission", "dept_chat", "dept_referral", "dept_fine"}

  datatype Award = Award(titleKey: string, titleName: string)

  /** The allowance rows' kinds and the kinds the check constraint admits. */
  datatype Allowances = Allowances(rows: seq<string>, admitted: set<string>)

  /** The tables the migrations touch; None for a table that does not exist. */
  datatype Database = Database(
    heatBonus: Option<seq<int>>,
    allowances: Option<Allowances>,
    awards: Option<seq<Award>>,
    configs: Option<seq<Snapshot>>,
    periods: Option<seq<Snapshot>>)

  datatype Branch = Main | Archive

  /** How far a branch is: before the change, at the heat revision, or at the renaming. */
  datatype Level = Base | Heat | Rename

  function HeatRevision(b: Branch): string {
    if b.Main? then "20261020_107" else "20261020_123"
  }

  function RenameRevision(b: Branch): string {
    if b.Main? then "20261020_108" else "20261020_124"
  }

  function Other(b: Branch): Branch {
    if b.Main? then Archive else Main
  }

  /** The database with the position of both branches; the merge revision replaces both heads. */
  datatype State = State(db: Database, main: Level, archive: Level, merged: bool) {
    function At(b: Branch): Level {
      if b.Main? then main else archive
    }

    function MovedTo(b: Branch, level: Level): State {
      if b.Main? then this.(main := level) else this.(archive := level)
    }

    /** The rows of the version table that the guards ask about. */
    function VersionTable(): set<string> {
      if merged then {} else HeadRow(Main) + HeadRow(Archive)
    }

    function HeadRow(b: Branch): set<string> {
      match At(b)
      case Base => {}
      case Heat => {HeatRevision(b)}
      case Rename => {RenameRevision(b)}
    }
  }

  /** The guard of the heat revisions. */
  predicate HeatEquivalentApplied(s: State, b: Branch) {
    HeatRevision(Other(b)) in s.VersionTable() || RenameRevision(Other(b)) in s.VersionTable()
  }

  /** The guard of the renaming revisions. */
  predicate RenameEquivalentApplied(s: State, b: Branch) {
    RenameRevision(Other(b)) in s.VersionTable()
  }

  // ---------- The bodies ----------

  function SetAll(rows: seq<int>, value: int): seq<int> {
    seq(|rows|, _ => value)
  }

  function WithoutKind(rows: seq<string>, kind: string): seq<string> {
    if rows == [] then []
    else
      var before, last := WithoutKind(rows[..|rows| - 1], kind), rows[|rows| - 1];
      if last == kind then before else before + [last]
  }

  /** The kind goes, every other row stays, as often as it was there. */
  lemma {:induction false} WithoutKindIs(rows: seq<string>, kind: string)
    ensures multiset(WithoutKind(rows, kind)) == multiset(rows)[kind := 0]
  {
    if rows != [] {
      var front, last := rows[..|rows| - 1], rows[|rows| - 1];
      assert rows == front + [last];
      WithoutKindIs(front, kind);
    }
  }

  /** And the rows that stay keep their order. */
  lemma {:induction false} WithoutKindAppend(a: seq<string>, b: seq<string>, kind: string)
    ensures WithoutKind(a + b, kind) == WithoutKind(a, kind) + WithoutKind(b, kind)
  {
    if b == [] {
      assert a + b == a;
    } else {
      assert (a + b)[..|a + b| - 1] == a + b[..|b| - 1];
      WithoutKindAppend(a, b[..|b| - 1], kind);
    }
  }

  function HeatUp(db: Database): Database {
    db.(
      heatBonus := if db.heatBonus.Some? then Some(SetAll(db.heatBonus.value, 20)) else None,
      allowances := if db.allowances.Some? then Some(Allowances(db.allowances.value.rows, NEW_KINDS)) else None)
  }

  function HeatDown(db: Database): Database {
    db.(
      heatBonus := if db.heatBonus.Some? then Some(SetAll(db.heatBonus.value, 10)) else None,
      allowances := if db.allowances.Some? then Some(Allowances(WithoutKind(db.allowances.value.rows, DARK), OLD_KINDS))
                    else None)
  }

  function RenamedAwards(awards: seq<Award>, names: Names): seq<Award> {
    seq(|awards|, i requires 0 <= i < |awards| =>
      if awards[i].titleKey in names then awards[i].(titleName := names[awards[i].titleKey]) else awards[i])
  }

  /** Every heat bonus has the value, none is lost, and only the allowances may differ besides. */
  predicate HeatSet(db: Database, db': Database, value: int) {
    && (db'.heatBonus.Some? <==> db.heatBonus.Some?) && (db'.allowances.Some? <==> db.allowances.Some?)
    && (db.heatBonus.Some? ==>
         && |db'.heatBonus.value| == |db.heatBonus.value|
         && forall i :: 0 <= i < |db'.heatBonus.value| ==> db'.heatBonus.value[i] == value)
    && db' == db.(heatBonus := db'.heatBonus, allowances := db'.allowances)
  }

  /** The awards of a renaming: those of its titles get its names, the others stay as they are. */
  lemma RenamedAwardsAre(awards: seq<Award>, names: Names)
    ensures var renamed := RenamedAwards(awards, names);
      && |renamed| == |awards|
      && forall i :: 0 <= i < |awards| ==>
           && renamed[i].titleKey == awards[i].titleKey
           && renamed[i].titleName
              == if awards[i].titleKey in names then names[awards[i].titleKey] else awards[i].titleName
  {
  }

  function RenamedSnapshots(rows: seq<Snapshot>, names: Names): seq<Snapshot> {
    seq(|rows|, i requires 0 <= i < |rows| => RenamedSnapshot(rows[i], names))
  }

  function RenameAll(db: Database, names: Names): Database {
    db.(
      awards := if db.awards.Some? then Some(RenamedAwards(db.awards.value, names)) else None,
      configs := if db.configs.Some? then Some(RenamedSnapshots(db.configs.value, names)) else None,
      periods := if db.periods.Some? then Some(RenamedSnapshots(db.periods.value, names)) else None)
  }

  predicate ReadableRows(rows: Option<seq<Snapshot>>) {
    rows.Some? ==> forall i :: 0 <= i < |rows.value| ==> ReadableSnapshot(rows.value[i])
  }

  predicate ReadableDatabase(db: Database) {
    ReadableRows(db.configs) && ReadableRows(db.periods)
  }

  ghost predicate RowsOnlyNames(rows: seq<Snapshot>, rows': seq<Snapshot>, names: Names) {
    |rows'| == |rows| && forall i :: 0 <= i < |rows| ==> OnlyNames(rows[i], rows'[i], names)
  }

  lemma SnapshotsChangeNames(rows: seq<Snapshot>, names: Names)
    ensures RowsOnlyNames(rows, RenamedSnapshots(rows, names), names)
    ensures ReadableRows(Some(rows)) <==> forall i :: 0 <= i < |rows| ==> !Stuck(rows[i])
  {
    forall i | 0 <= i < |rows|
      ensures OnlyNames(rows[i], RenamedSnapshot(rows[i], names), names)
      ensures ReadableSnapshot(rows[i]) <==> !Stuck(rows[i])
    {
      OnlyNamesChange(rows[i], names);
      ReadableIff(rows[i]);
    }
  }

  /** The renaming raises for an entry keyed by a list or an object, in either table. */
  lemma ReadableDatabaseIff(db: Database)
    ensures ReadableDatabase(db) <==>
      && (db.configs.Some? ==> forall i :: 0 <= i < |db.configs.value| ==> !Stuck(db.configs.value[i]))
      && (db.periods.Some? ==> forall i :: 0 <= i < |db.periods.value| ==> !Stuck(db.periods.value[i]))
  {
    if db.configs.Some? {
      SnapshotsChangeNames(db.configs.value, NEW_NAMES);
    }
    if db.periods.Some? {
      SnapshotsChangeNames(db.periods.value, NEW_NAMES);
    }
  }

  // ---------- The migrations as methods ----------

  class Migrations {
    var db: Database
    var main: Level
    var archive: Level
    var merged: bool

    constructor (db: Database)
      ensures Now() == State(db, Base, Base, false)
    {
      this.db, main, archive, merged := db, Base, Base, false;
    }

    function Now(): State
      reads this
    {
      State(db, main, archive, merged)
    }

    method ReplaceAllowanceConstraint(kinds: set<string>)
      modifies this`db
      ensures db == old(db).(allowances := if old(db).allowances.None? then None
                                           else Some(old(db).allowances.value.(admitted := kinds)))
    {
      if db.allowances.None? {
        return;
      }
      db := db.(allowances := Some(db.allowances.value.(admitted := kinds)));
    }

    method DeleteDarkMarketRows()
      modifies this`db
      ensures db == old(db).(allowances := if old(db).allowances.None? then None
        else Some(old(db).allowances.value.(rows := WithoutKind(old(db).allowances.value.rows, DARK))))
      ensures db.allowances.Some? ==>
        && "dept_dark_market" !in db.allowances.value.rows
        && forall kind :: kind != "dept_dark_market" ==>
             multiset(db.allowances.value.rows)[kind] == multiset(old(db).allowances.value.rows)[kind]
    {
      if db.allowances.None? {
        return;
      }
      var rows, kept := db.allowances.value.rows, [];
      for n := 0 to |rows|
        invariant kept == WithoutKind(rows[..n], DARK)
      {
        assert rows[..n + 1][..n] == rows[..n];
        if rows[n] != DARK {
          kept := kept + [rows[n]];
        }
      }
      assert rows[..|rows|] == rows;
      WithoutKindIs(rows, DARK);
      assert multiset(kept)[DARK] == 0;
      db := db.(allowances := Some(db.allowances.value.(rows := kept)));
    }

    method UpgradeHeat(b: Branch)
      modifies this`db
      ensures db == if HeatEquivalentApplied(old(Now()), b) then old(db) else HeatUp(old(db))
      ensures !HeatEquivalentApplied(old(Now()), b) ==> HeatSet(old(db), db, 20)
      ensures !HeatEquivalentApplied(old(Now()), b) && db.allowances.Some? ==>
        db.allowances.value == Allowances(old(db).allowances.value.rows, NEW_KINDS)
    {
      if HeatEquivalentApplied(Now(), b) {
        return;
      }
      if db.heatBonus.Some? {
        db := db.(heatBonus := Some(SetAll(db.heatBonus.value, 20)));
      }
      ReplaceAllowanceConstraint(NEW_KINDS);
    }

    method DowngradeHeat(b: Branch)
      modifies this`db
      ensures db == if HeatEquivalentApplied(old(Now()), b) then old(db) else HeatDown(old(db))
      ensures !HeatEquivalentApplied(old(Now()), b) ==> HeatSet(old(db), db, 10)
      ensures !HeatEquivalentApplied(old(Now()), b) && db.allowances.Some? ==>
        && db.allowances.value.admitted == OLD_KINDS
        && multiset(db.allowances.value.rows) == multiset(old(db).allowances.value.rows)["dept_dark_market" := 0]
    {
      if db.allowances.Some? {
        WithoutKindIs(db.allowances.value.rows, DARK);
      }
      if HeatEquivalentApplied(Now(), b) {
        return;
      }
      DeleteDarkMarketRows();
      ReplaceAllowanceConstraint(OLD_KINDS);
      if db.heatBonus.Some? {
        db := db.(heatBonus := Some(SetAll(db.heatBonus.value, 10)));
      }
    }

    method RenameRows(rows: seq<Snapshot>, names: Names) returns (renamed: Option<seq<Snapshot>>)
      ensures renamed == if ReadableRows(Some(rows)) then Some(RenamedSnapshots(rows, names)) else None
      ensures renamed.Some? ==> RowsOnlyNames(rows, renamed.value, names)
      ensures renamed.None? <==> exists i :: 0 <= i < |rows| && Stuck(rows[i])
    {
      var result := [];
      for n := 0 to |rows|
        invariant |result| == n
        invariant forall i :: 0 <= i < n ==> ReadableSnapshot(rows[i]) && result[i] == RenamedSnapshot(rows[i], names)
      {
        var one := RenameSnapshot(rows[n], names);
        if one.None? {
          SnapshotsChangeNames(rows, names);
          return None;
        }
        result := result + [one.value];
      }
      SnapshotsChangeNames(rows, names);
      assert result == RenamedSnapshots(rows, names);
      return Some(result);
    }

    /** The renaming in either direction; when a snapshot cannot be read nothing is kept. */
    method RenameGuarded(b: Branch, names: Names) returns (ok: bool)
      modifies this`db
      ensures ok <==> RenameEquivalentApplied(old(Now()), b) || ReadableDatabase(old(db))
      ensures db == if ok && !RenameEquivalentApplied(old(Now()), b) then RenameAll(old(db), names) else old(db)
    {
      if RenameEquivalentApplied(Now(), b) {
        return true;
      }
      var next := db;
      if next.awards.Some? {
        next := next.(awards := Some(RenamedAwards(next.awards.value, names)));
      }
      if next.configs.Some? {
        var rows := RenameRows(next.configs.value, names);
        if rows.None? {
          return false;
        }
        next := next.(configs := rows);
      }
      if next.periods.Some? {
        var rows := RenameRows(next.periods.value, names);
        if rows.None? {
          return false;
        }
        next := next.(periods := rows);
      }
      db := next;
      return true;
    }
  }

  // ---------- Runs of steps on the two branches ----------

  datatype Move = Up(b: Branch) | Down(b: Branch) | Merge | Unmerge | Edit(db: Database)

  /** The body a step runs, if its guard lets it. */
  datatype Body = Nothing | HeatUpBody | HeatDownBody | RenameUpBody | RenameDownBody

  predicate Possible(s: State, m: Move) {
    match m
    case Up(b) => !s.merged && !s.At(b).Rename?
    case Down(b) => !s.merged && !s.At(b).Base?
    case Merge => !s.merged && s.main.Rename? && s.archive.Rename?
    case Unmerge => s.merged
    case Edit(db) => Edited(s.db, db)
  }

  /** An edit may change any row that the constraint admits, but not the tables or the constraint. */
  predicate Edited(db: Database, db': Database) {
    && (db'.heatBonus.Some? <==> db.heatBonus.Some?)
    && (db'.allowances.Some? <==> db.allowances.Some?)
    && (db.allowances.Some? ==> db'.allowances.value.admitted == db.allowances.value.admitted && Admitted(db'))
    && (db'.awards.Some? <==> db.awards.Some?)
    && (db'.configs.Some? <==> db.configs.Some?)
    && (db'.periods.Some? <==> db.periods.Some?)
  }

  predicate Admitted(db: Database) {
    db.allowances.Some? ==>
      forall i :: 0 <= i < |db.allowances.value.rows| ==> db.allowances.value.rows[i] in db.allowances.value.admitted
  }

  function BodyOf(s: State, m: Move): Body
    requires Possible(s, m)
  {
    match m
    case Up(b) =>
      if s.At(b).Base? then (if HeatEquivalentApplied(s, b) then Nothing else HeatUpBody)
      else if RenameEquivalentApplied(s, b) then Nothing else RenameUpBody
    case Down(b) =>
      if s.At(b).Heat? then (if HeatEquivalentApplied(s, b) then Nothing else HeatDownBody)
      else if RenameEquivalentApplied(s, b) then Nothing else RenameDownBody
    case _ => Nothing
  }

  function RunBody(db: Database, body: Body): Database {
    match body
    case Nothing => db
    case HeatUpBody => HeatUp(db)
    case HeatDownBody => HeatDown(db)
    case RenameUpBody => RenameAll(db, NEW_NAMES)
    case RenameDownBody => RenameAll(db, OLD_NAMES)
  }

  /** A renaming that raises is rolled back and its step does not happen. */
  predicate Raises(s: State, m: Move)
    requires Possible(s, m)
  {
    (BodyOf(s, m).RenameUpBody? || BodyOf(s, m).RenameDownBody?) && !ReadableDatabase(s.db)
  }

  function After(s: State, m: Move): State
    requires Possible(s, m)
  {
    if Raises(s, m) then s
    else
      var db := RunBody(s.db, BodyOf(s, m));
      match m
      case Up(b) => s.(db := db).MovedTo(b, if s.At(b).Base? then Heat else Rename)
      case Down(b) => s.(db := db).MovedTo(b, if s.At(b).Heat? then Base else Heat)
      case Merge => s.(merged := true)
      case Unmerge => s.(merged := false)
      case Edit(edited) => s.(db := edited)
  }

  ghost predicate IsRun(states: seq<State>, moves: seq<Move>) {
    && |states| == |moves| + 1
    && states[0].main.Base? && states[0].archive.Base? && !states[0].merged
    && InForce(states[0])
    && forall i :: 0 <= i < |moves| ==> StepAt(states, moves, i)
  }

  predicate StepAt(states: seq<State>, moves: seq<Move>, i: nat)
    requires i < |moves| < |states|
  {
    Possible(states[i], moves[i]) && states[i + 1] == After(states[i], moves[i])
  }

  /** The steps of a run are the migrations: what each does to the data, and to the position of its branch. */
  lemma StepsAreMigrations(s: State, b: Branch)
    requires !s.merged
    ensures s.At(b).Base? ==>
      After(s, Up(b)) == s.(db := if HeatEquivalentApplied(s, b) then s.db else HeatUp(s.db)).MovedTo(b, Heat)
    ensures s.At(b).Heat? ==>
      After(s, Down(b)) == s.(db := if HeatEquivalentApplied(s, b) then s.db else HeatDown(s.db)).MovedTo(b, Base)
    ensures s.At(b).Heat? ==>
      After(s, Up(b)) ==
        if RenameEquivalentApplied(s, b) then s.MovedTo(b, Rename)
        else if ReadableDatabase(s.db) then s.(db := RenameAll(s.db, NEW_NAMES)).MovedTo(b, Rename)
        else s
    ensures s.At(b).Rename? ==>
      After(s, Down(b)) ==
        if RenameEquivalentApplied(s, b) then s.MovedTo(b, Heat)
        else if ReadableDatabase(s.db) then s.(db := RenameAll(s.db, OLD_NAMES)).MovedTo(b, Heat)
        else s
  {
  }

  /** The version table holds the heads by the names the guards ask for. */
  lemma HeadsAre(s: State)
    requires !s.merged
    ensures s.main.Heat? <==> "20261020_107" in s.VersionTable()
    ensures s.main.Rename? <==> "20261020_108" in s.VersionTable()
    ensures s.archive.Heat? <==> "20261020_123" in s.VersionTable()
    ensures s.archive.Rename? <==> "20261020_124" in s.VersionTable()
  {
  }

  /** Some branch holds the heat and allowance change. */
  predicate HeatHeld(s: State) {
    !s.main.Base? || !s.archive.Base?
  }

  /** Some branch holds the renaming. */
  predicate RenameHeld(s: State) {
    s.main.Rename? || s.archive.Rename?
  }

  /** The constraint is the new one exactly when some branch holds the change, and all rows satisfy it. */
  predicate InForce(s: State) {
    && (s.merged ==> s.main.Rename? && s.archive.Rename?)
    && (s.db.allowances.Some? ==> s.db.allowances.value.admitted == if HeatHeld(s) then NEW_KINDS else OLD_KINDS)
    && Admitted(s.db)
  }

  /** The guards, asking only the version table, see exactly what the other branch holds. */
  lemma GuardsSeeOtherBranch(s: State, b: Branch)
    requires !s.merged
    ensures HeatEquivalentApplied(s, b) <==> !s.At(Other(b)).Base?
    ensures RenameEquivalentApplied(s, b) <==> s.At(Other(b)).Rename?
  {
  }

  /** A body runs exactly when its step changes what the two branches hold together. */
  lemma {:induction false} BodyRunsIffFlips(s: State, m: Move)
    requires Possible(s, m) && InForce(s) && !Raises(s, m)
    ensures BodyOf(s, m) == HeatUpBody <==> !HeatHeld(s) && HeatHeld(After(s, m))
    ensures BodyOf(s, m) == HeatDownBody <==> HeatHeld(s) && !HeatHeld(After(s, m))
    ensures BodyOf(s, m) == RenameUpBody <==> !RenameHeld(s) && RenameHeld(After(s, m))
    ensures BodyOf(s, m) == RenameDownBody <==> RenameHeld(s) && !RenameHeld(After(s, m))
  {
    if m.Up? || m.Down? {
      GuardsSeeOtherBranch(s, m.b);
    }
  }

  /** A step that flips neither leaves every row as it is: an edit made in between survives it. */
  lemma {:induction false} EditsSurvive(s: State, m: Move)
    requires Possible(s, m) && InForce(s) && !m.Edit?
    requires HeatHeld(After(s, m)) == HeatHeld(s) && RenameHeld(After(s, m)) == RenameHeld(s)
    ensures After(s, m).db == s.db
  {
    if !Raises(s, m) {
      BodyRunsIffFlips(s, m);
    }
  }

  lemma {:induction false} KeptRows(rows: seq<string>, kinds: set<string>, kind: string)
    requires forall i :: 0 <= i < |rows| ==> rows[i] in kinds
    ensures forall i :: 0 <= i < |WithoutKind(rows, kind)| ==> WithoutKind(rows, kind)[i] in kinds - {kind}
  {
    if rows != [] {
      KeptRows(rows[..|rows| - 1], kinds, kind);
    }
  }

  lemma InForceStep(s: State, m: Move)
    requires Possible(s, m) && InForce(s)
    ensures InForce(After(s, m))
  {
    if !Raises(s, m) {
      BodyRunsIffFlips(s, m);
      assert NEW_KINDS - {DARK} == OLD_KINDS;
      if s.db.allowances.Some? {
        KeptRows(s.db.allowances.value.rows, s.db.allowances.value.admitted, DARK);
      }
    }
  }

  /**
   In every run of steps on the two branches, with any edits between, the constraint
   is the one of what the branches hold together and every allowance row satisfies it.
   */
  lemma {:induction false} ChangeInForce(states: seq<State>, moves: seq<Move>, i: nat)
    requires IsRun(states, moves) && i < |states|
    ensures InForce(states[i])
  {
    if i > 0 {
      ChangeInForce(states, moves, i - 1);
      assert StepAt(states, moves, i - 1);
      InForceStep(states[i - 1], moves[i - 1]);
    }
  }

  /** How often a run has run a body. */
  function Times(states: seq<State>, moves: seq<Move>, body: Body, n: nat): nat
    requires n <= |moves| <= |states|
  {
    if n == 0 then 0
    else
      Times(states, moves, body, n - 1)
      + if Possible(states[n - 1], moves[n - 1]) && !Raises(states[n - 1], moves[n - 1])
           && BodyOf(states[n - 1], moves[n - 1]) == body then 1 else 0
  }

  /** Bodies alternate: the up body has run once more than the down body exactly while some branch holds the change. */
  lemma {:induction false} BodiesAlternate(states: seq<State>, moves: seq<Move>, n: nat)
    requires IsRun(states, moves) && n <= |moves|
    ensures Times(states, moves, HeatUpBody, n)
         == Times(states, moves, HeatDownBody, n) + if HeatHeld(states[n]) then 1 else 0
    ensures Times(states, moves, RenameUpBody, n)
         == Times(states, moves, RenameDownBody, n) + if RenameHeld(states[n]) then 1 else 0
    ensures n == 0 ==> Times(states, moves, HeatUpBody, n) == 0 == Times(states, moves, RenameUpBody, n)
  {
    if n > 0 {
      BodiesAlternate(states, moves, n - 1);
      ChangeInForce(states, moves, n - 1);
      assert StepAt(states, moves, n - 1);
      if !Raises(states[n - 1], moves[n - 1]) {
        BodyRunsIffFlips(states[n - 1], moves[n - 1]);
      }
    }
  }

  // ---------- What the rows hold ----------

  /** Every heat bonus has the value of what the branches hold together. */
  predicate HeatCarried(db: Database, held: bool) {
    db.heatBonus.Some? ==>
      forall i :: 0 <= i < |db.heatBonus.value| ==> db.heatBonus.value[i] == if held then 20 else 10
  }

  function NamesHeld(held: bool): Names {
    if held then NEW_NAMES else OLD_NAMES
  }

  predicate AwardNamed(award: Award, names: Names) {
    award.titleKey in names ==> award.titleName == names[award.titleKey]
  }

  predicate RowsNamed(rows: Option<seq<Snapshot>>, names: Names) {
    rows.Some? ==> forall i :: 0 <= i < |rows.value| ==> NamedSnapshot(rows.value[i], names)
  }

  /** Every award, configuration and period has the names of what the branches hold together. */
  predicate NamesCarried(db: Database, held: bool) {
    var names := NamesHeld(held);
    && (db.awards.Some? ==> forall i :: 0 <= i < |db.awards.value| ==> AwardNamed(db.awards.value[i], names))
    && RowsNamed(db.configs, names)
    && RowsNamed(db.periods, names)
  }

  lemma RenamedRowsNamed(rows: seq<Snapshot>, names: Names)
    ensures RowsNamed(Some(RenamedSnapshots(rows, names)), names)
  {
    forall i | 0 <= i < |rows| ensures NamedSnapshot(RenamedSnapshots(rows, names)[i], names) {
      RenamedIsNamed(rows[i], names);
    }
  }

  lemma RenamingCarries(db: Database, held: bool)
    ensures NamesCarried(RenameAll(db, NamesHeld(held)), held)
  {
    if db.configs.Some? {
      RenamedRowsNamed(db.configs.value, NamesHeld(held));
    }
    if db.periods.Some? {
      RenamedRowsNamed(db.periods.value, NamesHeld(held));
    }
  }

  /** A step that is not an edit brings the values of what is held, or keeps them. */
  lemma CarriedStep(s: State, m: Move)
    requires Possible(s, m) && InForce(s) && !m.Edit?
    ensures HeatHeld(After(s, m)) != HeatHeld(s) || HeatCarried(s.db, HeatHeld(s)) ==>
      HeatCarried(After(s, m).db, HeatHeld(After(s, m)))
    ensures RenameHeld(After(s, m)) != RenameHeld(s) || NamesCarried(s.db, RenameHeld(s)) ==>
      NamesCarried(After(s, m).db, RenameHeld(After(s, m)))
  {
    if !Raises(s, m) {
      BodyRunsIffFlips(s, m);
      if RenameHeld(After(s, m)) != RenameHeld(s) {
        RenamingCarries(s.db, RenameHeld(After(s, m)));
      }
    }
  }

  ghost predicate HeatAsHeld(s: State) {
    HeatCarried(s.db, HeatHeld(s))
  }

  ghost predicate NamesAsHeld(s: State) {
    NamesCarried(s.db, RenameHeld(s))
  }

  lemma HeatStep(states: seq<State>, moves: seq<Move>, n: nat)
    requires IsRun(states, moves) && 0 < n <= |moves| && !moves[n - 1].Edit?
    requires HeatHeld(states[n]) != HeatHeld(states[n - 1]) || HeatAsHeld(states[n - 1])
    ensures HeatAsHeld(states[n])
  {
    ChangeInForce(states, moves, n - 1);
    assert StepAt(states, moves, n - 1);
    CarriedStep(states[n - 1], moves[n - 1]);
  }

  lemma NamesStep(states: seq<State>, moves: seq<Move>, n: nat)
    requires IsRun(states, moves) && 0 < n <= |moves| && !moves[n - 1].Edit?
    requires RenameHeld(states[n]) != RenameHeld(states[n - 1]) || NamesAsHeld(states[n - 1])
    ensures NamesAsHeld(states[n])
  {
    ChangeInForce(states, moves, n - 1);
    assert StepAt(states, moves, n - 1);
    CarriedStep(states[n - 1], moves[n - 1]);
  }

  /**
   From a step that changes whether the heat change is held, until the next edit, every heat
   bonus has the value of what is held, through all further steps of both branches.
   */
  lemma {:induction false} HeatInForce(states: seq<State>, moves: seq<Move>, i: nat, n: nat)
    requires IsRun(states, moves) && i < n <= |moves| && forall m :: i <= m < n ==> !moves[m].Edit?
    requires HeatHeld(states[i + 1]) != HeatHeld(states[i])
    ensures HeatAsHeld(states[n])
  {
    if i < n - 1 {
      HeatInForce(states, moves, i, n - 1);
    }
    HeatStep(states, moves, n);
  }

  /** Likewise the names: from a step that changes whether the renaming is held, until the next edit. */
  lemma {:induction false} NamesInForce(states: seq<State>, moves: seq<Move>, i: nat, n: nat)
    requires IsRun(states, moves) && i < n <= |moves| && forall m :: i <= m < n ==> !moves[m].Edit?
    requires RenameHeld(states[i + 1]) != RenameHeld(states[i])
    ensures NamesAsHeld(states[n])
  {
    if i < n - 1 {
      NamesInForce(states, moves, i, n - 1);
    }
    NamesStep(states, moves, n);
  }
}
