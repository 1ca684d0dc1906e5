/**
 * The migration runner (scripts/db-migrate.ts): any number of deployers, one advisory lock,
 * one transaction per migration, and crashes at any moment.
 *
 * Deployers may hold different releases, each a prefix of one migration list, and the table
 * may start with any rows at all, for instance migrations numbered between existing ones.
 */
module Migrations {
  import opened Common

  datatype File = File(name: string, checksum: string)

  /** A row of awcms_schema_migrations; an old row may have no checksum. */
  datatype Row = Row(name: string, checksum: Option<string>)

  // ------------------------------------------------------------- vocabulary

  function Names(files: seq<File>): seq<string> {
    if files == [] then [] else Names(files[..|files| - 1]) + [files[|files| - 1].name]
  }

  function Rows(files: seq<File>): seq<Row> {
    if files == [] then [] else
      var last := files[|files| - 1];
      Rows(files[..|files| - 1]) + [Row(last.name, Some(last.checksum))]
  }

  lemma {:induction false} RowsExactly(files: seq<File>)
    ensures |Rows(files)| == |Names(files)| == |files|
    ensures forall i :: 0 <= i < |files| ==>
              Rows(files)[i] == Row(files[i].name, Some(files[i].checksum)) && Names(files)[i] == files[i].name
    decreases |files|
  {
    if files != [] { RowsExactly(files[..|files| - 1]); }
  }

  function RowNames(rows: seq<Row>): set<string> {
    set row | row in rows :: row.name
  }

  /** The files whose name is known, and the others, in order. */
  function Among(files: seq<File>, known: set<string>): seq<File> {
    if files == [] then [] else
      Among(files[..|files| - 1], known) + if files[|files| - 1].name in known then [files[|files| - 1]] else []
  }

  function Pending(files: seq<File>, known: set<string>): seq<File> {
    if files == [] then [] else
      Pending(files[..|files| - 1], known) + if files[|files| - 1].name in known then [] else [files[|files| - 1]]
  }

  ghost function KnownAt(files: seq<File>, known: set<string>): set<int> {
    set i | 0 <= i < |files| && files[i].name in known
  }

  ghost function UnknownAt(files: seq<File>, known: set<string>): set<int> {
    set i | 0 <= i < |files| && files[i].name !in known
  }

  /** The pending files are those without a known name, in the order of the list ... */
  lemma {:induction false} PendingInOrder(files: seq<File>, known: set<string>) returns (at: seq<int>)
    ensures InOrder(at, UnknownAt(files, known)) && |at| == |Pending(files, known)|
    ensures forall a :: 0 <= a < |at| ==> 0 <= at[a] < |files| && Pending(files, known)[a] == files[at[a]]
    decreases |files|
  {
    at := [];
    if files != [] {
      var n := |files| - 1;
      var front := files[..n];
      at := PendingInOrder(front, known);
      OneMoreInOrder(at, UnknownAt(front, known), n);
      assert UnknownAt(files, known) == UnknownAt(front, known) + if files[n].name in known then {} else {n};
      hide InOrder, UnknownAt;
      if files[n].name !in known { at := at + [n]; }
    }
  }

  /** ... and the others are those with one. */
  lemma {:induction false} AmongInOrder(files: seq<File>, known: set<string>) returns (at: seq<int>)
    ensures InOrder(at, KnownAt(files, known)) && |at| == |Among(files, known)|
    ensures forall a :: 0 <= a < |at| ==> 0 <= at[a] < |files| && Among(files, known)[a] == files[at[a]]
    decreases |files|
  {
    at := [];
    if files != [] {
      var n := |files| - 1;
      var front := files[..n];
      at := AmongInOrder(front, known);
      OneMoreInOrder(at, KnownAt(front, known), n);
      assert KnownAt(files, known) == KnownAt(front, known) + if files[n].name in known then {n} else {};
      hide InOrder, KnownAt;
      if files[n].name in known { at := at + [n]; }
    }
  }

  ghost predicate DistinctNames(files: seq<File>) {
    forall i, j :: 0 <= i < j < |files| ==> files[i].name != files[j].name
  }

  // ------------------------------------------------------- checksum validation

  /** What the code's map holds for a name: the checksum of the last row with it. */
  function ChecksumOf(rows: seq<Row>, name: string): Option<string> {
    if rows == [] then None
    else if rows[|rows| - 1].name == name then rows[|rows| - 1].checksum
    else ChecksumOf(rows[..|rows| - 1], name)
  }

  /** The file was applied under a checksum (a non-empty one) that is not its own. */
  predicate Edited(rows: seq<Row>, file: File) {
    match ChecksumOf(rows, file.name)
    case None => false
    case Some(checksum) => checksum != "" && checksum != file.checksum
  }

  ghost predicate Mismatch(rows: seq<Row>, files: seq<File>) {
    exists i :: 0 <= i < |files| && Edited(rows, files[i])
  }

  /** The last row with the name. */
  ghost predicate LastRowAt(rows: seq<Row>, name: string, k: nat) {
    k < |rows| && rows[k].name == name && forall j :: k < j < |rows| ==> rows[j].name != name
  }

  lemma {:induction false} ChecksumIsOfLastRow(rows: seq<Row>, name: string)
    ensures (forall j :: 0 <= j < |rows| ==> rows[j].name != name) ==> ChecksumOf(rows, name) == None
    ensures forall k: nat :: LastRowAt(rows, name, k) ==> ChecksumOf(rows, name) == rows[k].checksum
    ensures (exists j :: 0 <= j < |rows| && rows[j].name == name) ==> exists k: nat :: LastRowAt(rows, name, k)
    decreases |rows|
  {
    if rows != [] {
      var n := |rows| - 1;
      var front := rows[..n];
      ChecksumIsOfLastRow(front, name);
      if rows[n].name == name {
        assert LastRowAt(rows, name, n);
      } else {
        forall k: nat ensures LastRowAt(rows, name, k) <==> LastRowAt(front, name, k) {}
        if j :| 0 <= j < |rows| && rows[j].name == name { assert front[j].name == name; }
      }
    }
  }

  /** A file was applied under a checksum that is not its own, a row without one or an empty one aside. */
  ghost predicate AppliedAsAnother(rows: seq<Row>, file: File) {
    exists k: nat :: && LastRowAt(rows, file.name, k) && rows[k].checksum.Some?
                     && rows[k].checksum.value != "" && rows[k].checksum.value != file.checksum
  }

  lemma EditedExactly(rows: seq<Row>, file: File)
    ensures Edited(rows, file) <==> AppliedAsAnother(rows, file)
  {
    ChecksumIsOfLastRow(rows, file.name);
    hide ChecksumOf;
  }

  /** A mismatch is a file of the list that was applied as another. */
  lemma MismatchExactly(rows: seq<Row>, files: seq<File>)
    ensures Mismatch(rows, files) <==> exists i :: 0 <= i < |files| && AppliedAsAnother(rows, files[i])
  {
    forall i | 0 <= i < |files| ensures Edited(rows, files[i]) <==> AppliedAsAnother(rows, files[i]) {
      EditedExactly(rows, files[i]);
    }
    hide Edited, AppliedAsAnother;
  }

  /** Fails at the first file that was applied as another, if there is one. */
  method ValidateAppliedChecksums(files: seq<File>, rows: seq<Row>) returns (r: Result<(), string>)
    ensures r.Ok? <==> forall i :: 0 <= i < |files| ==> !AppliedAsAnother(rows, files[i])
    ensures r.Err? ==> exists i :: 0 <= i < |files| && files[i].name == r.error && AppliedAsAnother(rows, files[i])
                                && forall j :: 0 <= j < i ==> !AppliedAsAnother(rows, files[j])
    ensures r.Err? <==> Mismatch(rows, files)
    ensures r.Err? ==> exists i :: 0 <= i < |files| && files[i].name == r.error && Edited(rows, files[i])
                                && forall j :: 0 <= j < i ==> !Edited(rows, files[j])
  {
    forall i | 0 <= i < |files| ensures Edited(rows, files[i]) <==> AppliedAsAnother(rows, files[i]) {
      EditedExactly(rows, files[i]);
    }
    hide AppliedAsAnother;
    var appliedByName: map<string, Option<string>> := map[];
    for i := 0 to |rows|
      invariant forall name ::
                  ChecksumOf(rows[..i], name) == if name in appliedByName then appliedByName[name] else None
    {
      appliedByName := appliedByName[rows[i].name := rows[i].checksum];
      assert rows[..i + 1][..i] == rows[..i];
    }
    assert rows[..|rows|] == rows;
    for i := 0 to |files|
      invariant forall j :: 0 <= j < i ==> !Edited(rows, files[j])
    {
      var applied := if files[i].name in appliedByName then appliedByName[files[i].name] else None;
      if applied.Some? && applied.value != "" && applied.value != files[i].checksum {
        assert Edited(rows, files[i]);
        return Err(files[i].name);
      }
    }
    return Ok(());
  }

  // ------------------------------------------------------------- the protocol

  datatype Outcome = Finished(applied: seq<string>, skipped: seq<string>) | Failed | Crashed

  datatype Pc =
    | Waiting                 // in pg_advisory_lock
    | Reading                 // has the lock, about to read the applied rows
    | Looping(known: set<string>, next: nat, applied: seq<string>, skipped: seq<string>)
    | Leaving(outcome: Outcome)   // in the `finally`, about to unlock
    | Gone(outcome: Outcome)

  datatype Runner = Runner(files: seq<File>, pc: Pc)

  datatype State = State(table: seq<Row>, lock: Option<nat>, runners: seq<Runner>)

  datatype Step =
    | Start(files: seq<File>)
    | Lock(r: nat)
    | Read(r: nat)
    | Turn(r: nat)      // one pass of the loop; its transaction, if any, commits
    | Refuse(r: nat)    // the transaction of this pass fails and is rolled back
    | End(r: nat)
    | Unlock(r: nat)
    | Crash(r: nat)     // the session ends at any moment; the server frees its lock

  predicate Enabled(s: State, step: Step) {
    if step.Start? then true else
    step.r < |s.runners| &&
    var Runner(files, pc) := s.runners[step.r];
    match step
    case Lock(_) => pc.Waiting? && s.lock.None?
    case Read(_) => pc.Reading?
    case Turn(_) => pc.Looping? && pc.next < |files| &&
                    (files[pc.next].name in pc.known || files[pc.next].name !in RowNames(s.table))   // UNIQUE
    case Refuse(_) => pc.Looping? && pc.next < |files| && files[pc.next].name !in pc.known
    case End(_) => pc.Looping? && pc.next >= |files|
    case Unlock(_) => pc.Leaving?
    case Crash(_) => !pc.Gone?
    case Start(_) => true
  }

  function Moved(s: State, r: nat, pc: Pc): State
    requires r < |s.runners|
  {
    s.(runners := s.runners[r := s.runners[r].(pc := pc)])
  }

  ghost function Next(s: State, step: Step): State
    requires Enabled(s, step)
  {
    if step.Start? then s.(runners := s.runners + [Runner(step.files, Waiting)]) else
    var Runner(files, pc) := s.runners[step.r];
    match step
    case Lock(r) => Moved(s, r, Reading).(lock := Some(r))
    case Read(r) =>
      Moved(s, r, if Mismatch(s.table, files) then Leaving(Failed) else Looping(RowNames(s.table), 0, [], []))
    case Turn(r) =>
      var file := files[pc.next];
      if file.name in pc.known
      then Moved(s, r, Looping(pc.known, pc.next + 1, pc.applied, pc.skipped + [file.name]))
      else Moved(s, r, Looping(pc.known, pc.next + 1, pc.applied + [file.name], pc.skipped))
           .(table := s.table + [Row(file.name, Some(file.checksum))])
    case Refuse(r) => Moved(s, r, Leaving(Failed))
    case End(r) => Moved(s, r, Leaving(Finished(pc.applied, pc.skipped)))
    case Unlock(r) => Moved(s, r, Gone(pc.outcome)).(lock := None)
    case Crash(r) => Moved(s, r, Gone(Crashed)).(lock := if s.lock == Some(r) then None else s.lock)
    case Start(_) => s
  }

  ghost predicate Runs(s: State, steps: seq<Step>)
    decreases |steps|
  {
    steps == [] || (Enabled(s, steps[0]) && Runs(Next(s, steps[0]), steps[1..]))
  }

  ghost function After(s: State, steps: seq<Step>): State
    requires Runs(s, steps)
    decreases |steps|
  {
    if steps == [] then s else After(Next(s, steps[0]), steps[1..])
  }

  /** Everybody who starts deploys a release: a prefix of the one list. */
  ghost predicate Releases(all: seq<File>, steps: seq<Step>) {
    forall i :: 0 <= i < |steps| && steps[i].Start? ==> steps[i].files <= all
  }

  // ---------------------------------------------------------------- invariants

  predicate Critical(pc: Pc) {
    pc.Reading? || pc.Looping? || pc.Leaving?
  }

  ghost predicate Exclusive(s: State) {
    && (s.lock.Some? ==> s.lock.value < |s.runners|)
    && forall r :: 0 <= r < |s.runners| ==> (Critical(s.runners[r].pc) <==> s.lock == Some(r))
  }

  lemma StepKeepsExclusive(s: State, step: Step)
    requires Exclusive(s) && Enabled(s, step)
    ensures Exclusive(Next(s, step))
  {}

  /** The table is the initial one followed by the first `n` pending migrations. */
  ghost predicate History(all: seq<File>, base: seq<Row>, table: seq<Row>, n: nat) {
    && n <= |Pending(all, RowNames(base))|
    && table == base + Rows(Pending(all, RowNames(base))[..n])
  }

  /** What a runner in its loop knows and has done, when it found the first `k` pending migrations in the table. */
  ghost predicate InLoop(all: seq<File>, base: seq<Row>, table: seq<Row>, runner: Runner, k: nat)
    requires runner.pc.Looping?
  {
    var Looping(known, next, applied, skipped) := runner.pc;
    && next <= |runner.files|
    && k <= |Pending(all, RowNames(base))|
    && known == RowNames(base + Rows(Pending(all, RowNames(base))[..k]))
    && History(all, base, table, Max(k, |Pending(runner.files[..next], RowNames(base))|))
    && applied == Names(Pending(runner.files[..next], known))
    && skipped == Names(Among(runner.files[..next], known))
  }

  /** A finished run split its list by what it found, and everything in its list is in the table. */
  ghost predicate Split(table: seq<Row>, files: seq<File>, outcome: Outcome)
    requires outcome.Finished?
  {
    && (exists known ::
          outcome.applied == Names(Pending(files, known)) && outcome.skipped == Names(Among(files, known)))
    && forall i :: 0 <= i < |files| ==> files[i].name in RowNames(table)
  }

  ghost predicate Consistent(all: seq<File>, base: seq<Row>, table: seq<Row>, runner: Runner) {
    && runner.files <= all
    && (runner.pc.Looping? ==> exists k: nat :: InLoop(all, base, table, runner, k))
    && (runner.pc.Leaving? && runner.pc.outcome.Finished? ==> Split(table, runner.files, runner.pc.outcome))
    && (runner.pc.Gone? && runner.pc.outcome.Finished? ==> Split(table, runner.files, runner.pc.outcome))
  }

  ghost predicate Valid(all: seq<File>, base: seq<Row>, s: State) {
    && Exclusive(s)
    && (exists n: nat :: History(all, base, s.table, n))
    && forall r :: 0 <= r < |s.runners| ==> Consistent(all, base, s.table, s.runners[r])
  }

  function Max(a: nat, b: nat): nat {
    if a < b then b else a
  }

  // --------------------------------------------------- lists of pending files

  lemma {:induction false} PendingPrefix(files: seq<File>, i: nat, known: set<string>)
    requires i <= |files|
    ensures Pending(files[..i], known) <= Pending(files, known)
    decreases |files|
  {
    if i == |files| {
      assert files[..i] == files;
    } else {
      assert files[..|files| - 1][..i] == files[..i];
      PendingPrefix(files[..|files| - 1], i, known);
    }
  }

  lemma {:induction false} PendingMember(files: seq<File>, known: set<string>)
    ensures forall file :: file in Pending(files, known) <==> file in files && file.name !in known
  {
    if files != [] {
      var rest, last := files[..|files| - 1], files[|files| - 1];
      PendingMember(rest, known);
      assert forall file :: file in files <==> file in rest || file == last;
    }
  }

  lemma {:induction false} PendingDistinct(files: seq<File>, known: set<string>)
    requires DistinctNames(files)
    ensures DistinctNames(Pending(files, known))
  {
    if files != [] {
      var rest, last := files[..|files| - 1], files[|files| - 1];
      PendingDistinct(rest, known);
      PendingMember(rest, known);
      forall i | 0 <= i < |Pending(rest, known)| ensures Pending(rest, known)[i].name != last.name {
        assert Pending(rest, known)[i] in rest;
      }
    }
  }

  lemma {:induction false} RowNamesOf(files: seq<File>)
    ensures |Rows(files)| == |files|
    ensures forall name :: name in RowNames(Rows(files)) <==> exists i :: 0 <= i < |files| && files[i].name == name
  {
    if files != [] {
      var rest, last := files[..|files| - 1], files[|files| - 1];
      RowNamesOf(rest);
      var row := Row(last.name, Some(last.checksum));
      assert Rows(files) == Rows(rest) + [row];
      assert row in Rows(files) && forall r :: r in Rows(files) <==> r in Rows(rest) || r == row;
      assert RowNames(Rows(files)) == RowNames(Rows(rest)) + {last.name};
      forall name ensures name in RowNames(Rows(files)) <==> exists i :: 0 <= i < |files| && files[i].name == name {
        if name == last.name { assert files[|files| - 1].name == name; }
        if i :| 0 <= i < |rest| && rest[i].name == name { assert files[i].name == name; }
      }
    }
  }

  lemma RowNamesConcat(a: seq<Row>, b: seq<Row>)
    ensures RowNames(a + b) == RowNames(a) + RowNames(b)
  {
    assert forall row :: row in a + b <==> row in a || row in b;
  }

  /** Which names the table holds after `n` pending migrations. */
  lemma HistoryNames(all: seq<File>, base: seq<Row>, n: nat, name: string)
    requires n <= |Pending(all, RowNames(base))|
    ensures var pending := Pending(all, RowNames(base));
            name in RowNames(base + Rows(pending[..n])) <==>
              name in RowNames(base) || exists m :: 0 <= m < n && pending[m].name == name
  {
    var pending := Pending(all, RowNames(base));
    RowNamesConcat(base, Rows(pending[..n]));
    RowNamesOf(pending[..n]);
    if m :| 0 <= m < n && pending[m].name == name { assert pending[..n][m].name == name; }
  }

  /** The m-th pending migration is in the table exactly when more than m were committed. */
  lemma PendingInHistory(all: seq<File>, base: seq<Row>, n: nat, m: nat)
    requires DistinctNames(all) && m < |Pending(all, RowNames(base))| && n <= |Pending(all, RowNames(base))|
    ensures var pending := Pending(all, RowNames(base));
            pending[m].name in RowNames(base + Rows(pending[..n])) <==> m < n
  {
    var pending := Pending(all, RowNames(base));
    HistoryNames(all, base, n, pending[m].name);
    PendingMember(all, RowNames(base));
    PendingDistinct(all, RowNames(base));
    assert pending[m] in pending;
  }

  /** The place of the next file of a release among the pending migrations. */
  lemma NextPending(all: seq<File>, files: seq<File>, i: nat, known: set<string>)
    requires files <= all && i < |files|
    ensures files[i].name in known ==> Pending(files[..i + 1], known) == Pending(files[..i], known)
    ensures files[i].name !in known ==>
              && Pending(files[..i + 1], known) == Pending(files[..i], known) + [files[i]]
              && |Pending(files[..i], known)| < |Pending(all, known)|
              && Pending(all, known)[|Pending(files[..i], known)|] == files[i]
    ensures |Pending(files[..i], known)| <= |Pending(all, known)|
  {
    assert files[..i + 1][..i] == files[..i];
    assert all[..i + 1] == files[..i + 1] && all[..i] == files[..i];
    PendingPrefix(all, i + 1, known);
    PendingPrefix(all, i, known);
  }

  lemma AmongNext(files: seq<File>, i: nat, known: set<string>)
    requires i < |files|
    ensures files[i].name in known ==>
              Pending(files[..i + 1], known) == Pending(files[..i], known) &&
              Names(Among(files[..i + 1], known)) == Names(Among(files[..i], known)) + [files[i].name]
    ensures files[i].name !in known ==>
              Among(files[..i + 1], known) == Among(files[..i], known) &&
              Names(Pending(files[..i + 1], known)) == Names(Pending(files[..i], known)) + [files[i].name]
  {
    assert files[..i + 1][..i] == files[..i];
    var a, p := Among(files[..i], known), Pending(files[..i], known);
    assert (a + [files[i]])[..|a|] == a && (p + [files[i]])[..|p|] == p;
  }

  lemma RowsNext(files: seq<File>, n: nat)
    requires n < |files|
    ensures Rows(files[..n + 1]) == Rows(files[..n]) + [Row(files[n].name, Some(files[n].checksum))]
  {
    assert files[..n + 1][..n] == files[..n];
  }

  // ----------------------------------------------------------- one pass at a time

  /** A file the runner knows: from the start, or because its place among the pending ones is below `k`. */
  lemma KnownWhen(all: seq<File>, base: seq<Row>, table: seq<Row>, runner: Runner, k: nat)
    requires DistinctNames(all) && runner.files <= all && runner.pc.Looping? && InLoop(all, base, table, runner, k)
    requires runner.pc.next < |runner.files|
    ensures var i, known := runner.pc.next, RowNames(base);
            runner.files[i].name in runner.pc.known <==>
              runner.files[i].name in known || |Pending(runner.files[..i], known)| < k
  {
    NextPending(all, runner.files, runner.pc.next, RowNames(base));
    HistoryNames(all, base, k, runner.files[runner.pc.next].name);
    if runner.files[runner.pc.next].name !in RowNames(base) {
      PendingInHistory(all, base, k, |Pending(runner.files[..runner.pc.next], RowNames(base))|);
    }
  }

  lemma SkipKeepsLoop(all: seq<File>, base: seq<Row>, table: seq<Row>, runner: Runner, k: nat)
    requires DistinctNames(all) && runner.files <= all && runner.pc.Looping? && InLoop(all, base, table, runner, k)
    requires runner.pc.next < |runner.files| && runner.files[runner.pc.next].name in runner.pc.known
    ensures var Runner(files, Looping(known, i, applied, skipped)) := runner;
            InLoop(all, base, table, Runner(files, Looping(known, i + 1, applied, skipped + [files[i].name])), k)
  {
    SkipKeepsHistory(all, base, table, runner, k);
    AmongNext(runner.files, runner.pc.next, runner.pc.known);
    hide History, RowNames, Pending, Among, Names, Rows, DistinctNames, Max;
  }

  lemma SkipKeepsHistory(all: seq<File>, base: seq<Row>, table: seq<Row>, runner: Runner, k: nat)
    requires DistinctNames(all) && runner.files <= all && runner.pc.Looping? && InLoop(all, base, table, runner, k)
    requires runner.pc.next < |runner.files| && runner.files[runner.pc.next].name in runner.pc.known
    ensures var i, base := runner.pc.next, RowNames(base);
            Max(k, |Pending(runner.files[..i + 1], base)|) == Max(k, |Pending(runner.files[..i], base)|)
  {
    hide InLoop, RowNames, Pending, DistinctNames;
    KnownWhen(all, base, table, runner, k);
    NextPending(all, runner.files, runner.pc.next, RowNames(base));
  }

  lemma HistoryGrows(all: seq<File>, base: seq<Row>, table: seq<Row>, n: nat)
    requires History(all, base, table, n) && n < |Pending(all, RowNames(base))|
    ensures var file := Pending(all, RowNames(base))[n];
            History(all, base, table + [Row(file.name, Some(file.checksum))], n + 1)
  {
    var pending := Pending(all, RowNames(base));
    RowsNext(pending, n);
    var row := Row(pending[n].name, Some(pending[n].checksum));
    assert base + Rows(pending[..n]) + [row] == base + (Rows(pending[..n]) + [row]);
  }

  lemma CommitKeepsLoop(all: seq<File>, base: seq<Row>, table: seq<Row>, runner: Runner, k: nat)
    requires DistinctNames(all) && runner.files <= all && runner.pc.Looping? && InLoop(all, base, table, runner, k)
    requires runner.pc.next < |runner.files| && runner.files[runner.pc.next].name !in runner.pc.known
    ensures var Runner(files, Looping(known, i, applied, skipped)) := runner;
            InLoop(all, base, table + [Row(files[i].name, Some(files[i].checksum))],
                   Runner(files, Looping(known, i + 1, applied + [files[i].name], skipped)), k)
  {
    var i, files, pending := runner.pc.next, runner.files, Pending(all, RowNames(base));
    KnownWhen(all, base, table, runner, k);
    NextPending(all, files, i, RowNames(base));
    AmongNext(files, i, runner.pc.known);
    var p := |Pending(files[..i], RowNames(base))|;
    hide History, RowNames, Pending, Among, Names, Rows;
    assert p >= k && |Pending(files[..i + 1], RowNames(base))| == p + 1;
    HistoryGrows(all, base, table, p);
    assert pending[p] == files[i];
  }

  lemma TurnKeepsLoop(all: seq<File>, base: seq<Row>, s: State, r: nat, k: nat)
    requires DistinctNames(all) && Enabled(s, Turn(r)) && s.runners[r].files <= all
    requires InLoop(all, base, s.table, s.runners[r], k)
    ensures InLoop(all, base, Next(s, Turn(r)).table, Next(s, Turn(r)).runners[r], k)
  {
    hide InLoop;
    if s.runners[r].files[s.runners[r].pc.next].name in s.runners[r].pc.known {
      SkipKeepsLoop(all, base, s.table, s.runners[r], k);
    } else {
      CommitKeepsLoop(all, base, s.table, s.runners[r], k);
    }
  }

  lemma CommitAppends(all: seq<File>, base: seq<Row>, s: State, step: Step)
    requires DistinctNames(all) && Valid(all, base, s) && Enabled(s, step)
    ensures exists n: nat :: History(all, base, Next(s, step).table, n)
    ensures s.table <= Next(s, step).table
  {
    var n: nat :| History(all, base, s.table, n);
    if step.Turn? {
      assert Consistent(all, base, s.table, s.runners[step.r]);
      var k: nat :| InLoop(all, base, s.table, s.runners[step.r], k);
      TurnKeepsLoop(all, base, s, step.r, k);
      var runner := Next(s, step).runners[step.r];
      n := Max(k, |Pending(runner.files[..runner.pc.next], RowNames(base))|);
    }
    hide History;
    assert History(all, base, Next(s, step).table, n);
  }

  lemma EndIsSplit(all: seq<File>, base: seq<Row>, table: seq<Row>, runner: Runner, k: nat)
    requires DistinctNames(all) && runner.files <= all && runner.pc.Looping? && runner.pc.next == |runner.files|
    requires InLoop(all, base, table, runner, k)
    ensures Split(table, runner.files, Finished(runner.pc.applied, runner.pc.skipped))
  {
    var files := runner.files;
    assert files[..|files|] == files;
    var n := Max(k, |Pending(files, RowNames(base))|);
    forall i | 0 <= i < |files| ensures files[i].name in RowNames(table) {
      HistoryNames(all, base, n, files[i].name);
      if files[i].name !in RowNames(base) {
        NextPending(all, files, i, RowNames(base));
        PendingPrefix(files, i + 1, RowNames(base));
      }
    }
  }

  lemma ReadStartsLoop(all: seq<File>, base: seq<Row>, table: seq<Row>, n: nat, files: seq<File>)
    requires History(all, base, table, n)
    ensures InLoop(all, base, table, Runner(files, Looping(RowNames(table), 0, [], [])), n)
  {}

  lemma SplitGrows(table: seq<Row>, table': seq<Row>, files: seq<File>, outcome: Outcome)
    requires outcome.Finished? && Split(table, files, outcome) && table <= table'
    ensures Split(table', files, outcome)
  {
    assert forall row :: row in table ==> row in table';
    assert RowNames(table) <= RowNames(table');
  }

  lemma MoverStaysConsistent(all: seq<File>, base: seq<Row>, s: State, step: Step)
    requires DistinctNames(all) && Valid(all, base, s) && Enabled(s, step) && !step.Start?
    ensures Consistent(all, base, Next(s, step).table, Next(s, step).runners[step.r])
  {
    var runner := s.runners[step.r];
    assert Consistent(all, base, s.table, runner);
    if step.Turn? {
      var k: nat :| InLoop(all, base, s.table, runner, k);
      TurnKeepsLoop(all, base, s, step.r, k);
    } else if step.End? {
      var k: nat :| InLoop(all, base, s.table, runner, k);
      EndIsSplit(all, base, s.table, runner, k);
    } else if step.Read? {
      var n: nat :| History(all, base, s.table, n);
      ReadStartsLoop(all, base, s.table, n, runner.files);
    }
  }

  lemma OthersStayConsistent(all: seq<File>, base: seq<Row>, s: State, step: Step, other: nat)
    requires DistinctNames(all) && Valid(all, base, s) && Enabled(s, step)
    requires other < |s.runners| && (step.Start? || other != step.r)
    ensures Next(s, step).runners[other] == s.runners[other]
    ensures Consistent(all, base, Next(s, step).table, s.runners[other])
  {
    CommitAppends(all, base, s, step);
    var runner, table' := s.runners[other], Next(s, step).table;
    assert Consistent(all, base, s.table, runner);
    if (runner.pc.Leaving? || runner.pc.Gone?) && runner.pc.outcome.Finished? {
      SplitGrows(s.table, table', runner.files, runner.pc.outcome);
    }
    if runner.pc.Looping? {
      assert s.lock == Some(other);
      assert table' == s.table;
    }
  }

  lemma StepKeepsValid(all: seq<File>, base: seq<Row>, s: State, step: Step)
    requires DistinctNames(all) && Valid(all, base, s) && Enabled(s, step) && (step.Start? ==> step.files <= all)
    ensures Valid(all, base, Next(s, step))
  {
    hide Consistent, History;
    StepKeepsExclusive(s, step);
    CommitAppends(all, base, s, step);
    var t := Next(s, step);
    forall r | 0 <= r < |t.runners| ensures Consistent(all, base, t.table, t.runners[r]) {
      if !step.Start? && r == step.r {
        MoverStaysConsistent(all, base, s, step);
      } else if r < |s.runners| {
        OthersStayConsistent(all, base, s, step, r);
      } else {
        NewcomerIsConsistent(all, base, t.table, step.files);
      }
    }
  }

  lemma NewcomerIsConsistent(all: seq<File>, base: seq<Row>, table: seq<Row>, files: seq<File>)
    requires files <= all
    ensures Consistent(all, base, table, Runner(files, Waiting))
  {}

  lemma {:induction false} RunKeepsValid(all: seq<File>, base: seq<Row>, s: State, steps: seq<Step>)
    requires DistinctNames(all) && Valid(all, base, s) && Runs(s, steps) && Releases(all, steps)
    ensures Valid(all, base, After(s, steps))
    decreases |steps|
  {
    if steps != [] {
      StepKeepsValid(all, base, s, steps[0]);
      assert Releases(all, steps[1..]) by {
        assert forall i :: 0 <= i < |steps| - 1 ==> steps[1..][i] == steps[i + 1];
      }
      RunKeepsValid(all, base, Next(s, steps[0]), steps[1..]);
    }
  }

  // -------------------------------------------------------------- the theorems

  /**
   * Whatever the interleaving and the crashes, the table is the initial rows followed by a
   * prefix of the migrations they lacked, in list order, each once and with its checksum; and
   * a run that finished split its list by name, in order, with all of it in the table.
   */
  lemma HistoryIsAPrefix(all: seq<File>, base: seq<Row>, steps: seq<Step>)
    requires DistinctNames(all) && Runs(State(base, None, []), steps) && Releases(all, steps)
    ensures var s := After(State(base, None, []), steps);
            && (exists n: nat :: History(all, base, s.table, n))
            && (forall q, r :: 0 <= q < |s.runners| && 0 <= r < |s.runners| &&
                  Critical(s.runners[q].pc) && Critical(s.runners[r].pc)
                  ==> q == r)
            && (forall r :: 0 <= r < |s.runners| && s.runners[r].pc.Gone? && s.runners[r].pc.outcome.Finished? ==>
                  Split(s.table, s.runners[r].files, s.runners[r].pc.outcome))
  {
    var start := State(base, None, []);
    assert History(all, base, base, 0) by {
      assert Rows([]) == [] && base + [] == base;
    }
    RunKeepsValid(all, base, start, steps);
    var n: nat :| History(all, base, After(start, steps).table, n);
    hide History;
    assert History(all, base, After(start, steps).table, n);
  }

  lemma {:induction false} NothingKnownPendsAll(files: seq<File>)
    ensures Pending(files, {}) == files
  {
    if files != [] {
      NothingKnownPendsAll(files[..|files| - 1]);
    }
  }

  /** On an initially empty table the history is a prefix of the list itself. */
  lemma FreshHistoryIsAPrefix(all: seq<File>, steps: seq<Step>)
    requires DistinctNames(all) && Runs(State([], None, []), steps) && Releases(all, steps)
    ensures var table := After(State([], None, []), steps).table;
            |table| <= |all| && forall i :: 0 <= i < |table| ==> table[i] == Row(all[i].name, Some(all[i].checksum))
  {
    var n := FreshTable(all, steps);
    RowsExactly(all[..n]);
    hide After, Rows, Names;
  }

  lemma FreshTable(all: seq<File>, steps: seq<Step>) returns (n: nat)
    requires DistinctNames(all) && Runs(State([], None, []), steps) && Releases(all, steps)
    ensures n <= |all| && After(State([], None, []), steps).table == Rows(all[..n])
  {
    HistoryIsAPrefix(all, [], steps);
    NothingKnownPendsAll(all);
    var table := After(State([], None, []), steps).table;
    n :| History(all, [], table, n);
    assert RowNames([]) == {};
    assert table == Rows(all[..n]);
  }

  /** A runner that saw an edited migration, from then on. */
  ghost predicate Refusing(s: State, r: nat) {
    r < |s.runners| &&
    match s.runners[r].pc
    case Reading => Mismatch(s.table, s.runners[r].files)
    case Leaving(outcome) => outcome == Failed
    case Gone(outcome) => outcome == Failed || outcome == Crashed
    case _ => false
  }

  lemma RefusingStep(s: State, r: nat, step: Step)
    requires Exclusive(s) && Refusing(s, r) && Enabled(s, step)
    ensures Refusing(Next(s, step), r)
    ensures Next(s, step).table != s.table ==> step.Turn? && step.r != r
  {
    if s.runners[r].pc.Reading? {
      assert s.lock == Some(r);
    }
  }

  /** No step of this runner changes the table. */
  ghost predicate CommitsNothing(s: State, steps: seq<Step>, r: nat)
    requires Runs(s, steps)
    decreases |steps|
  {
    steps == [] || (
      && (!steps[0].Start? && steps[0].r == r ==> Next(s, steps[0]).table == s.table)
      && CommitsNothing(Next(s, steps[0]), steps[1..], r))
  }

  /** A runner about to read a table with an edited migration never commits, nor finishes, whatever the others do. */
  lemma {:induction false} MismatchCommitsNothing(s: State, r: nat, steps: seq<Step>)
    requires Exclusive(s) && Refusing(s, r) && Runs(s, steps)
    ensures CommitsNothing(s, steps, r)
    ensures Refusing(After(s, steps), r)
    decreases |steps|
  {
    if steps != [] {
      RefusingStep(s, r, steps[0]);
      StepKeepsExclusive(s, steps[0]);
      MismatchCommitsNothing(Next(s, steps[0]), r, steps[1..]);
    }
  }

  // ------------------------------------------------------------------ progress

  function PcWork(files: nat, pc: Pc): nat {
    match pc
    case Waiting => files + 4
    case Reading => files + 3
    case Looping(_, i, _, _) => if i <= files then files - i + 2 else 2
    case Leaving(_) => 1
    case Gone(_) => 0
  }

  function Work(s: State, n: nat): nat
    requires n <= |s.runners|
  {
    if n == 0 then 0 else Work(s, n - 1) + PcWork(|s.runners[n - 1].files|, s.runners[n - 1].pc)
  }

  lemma WorkDrops(s: State, t: State, n: nat, r: nat)
    requires n <= |s.runners| == |t.runners| && r < |s.runners|
    requires forall i :: 0 <= i < |s.runners| && i != r ==> s.runners[i] == t.runners[i]
    requires PcWork(|t.runners[r].files|, t.runners[r].pc) < PcWork(|s.runners[r].files|, s.runners[r].pc)
    ensures if r < n then Work(t, n) < Work(s, n) else Work(t, n) == Work(s, n)
  {}

  /** Every step but a new start uses up work, so no run of the deployers present is infinite. */
  lemma StepsRunOut(s: State, step: Step)
    requires Enabled(s, step) && !step.Start?
    ensures |Next(s, step).runners| == |s.runners|
    ensures Work(Next(s, step), |s.runners|) < Work(s, |s.runners|)
  {
    WorkDrops(s, Next(s, step), |s.runners|, step.r);
  }

  /** And while some deployer is present, somebody can move without crashing: the lock cannot be lost. */
  lemma NeverStuck(all: seq<File>, base: seq<Row>, s: State, r: nat) returns (step: Step)
    requires DistinctNames(all) && Valid(all, base, s) && r < |s.runners| && !s.runners[r].pc.Gone?
    ensures Enabled(s, step) && !step.Start? && !step.Crash? && !step.Refuse?
  {
    if s.lock.None? {
      return Lock(r);
    }
    var holder := s.lock.value;
    var runner := s.runners[holder];
    assert Consistent(all, base, s.table, runner);
    match runner.pc
    case Reading => step := Read(holder);
    case Leaving(_) => step := Unlock(holder);
    case Looping(known, i, _, _) =>
      step := if i < |runner.files| then Turn(holder) else End(holder);
      if i < |runner.files| && runner.files[i].name !in known {
        var k: nat :| InLoop(all, base, s.table, runner, k);
        NotYetInTable(all, base, s.table, runner, k);
      }
  }

  /** The unique constraint never fires under the lock. */
  lemma NotYetInTable(all: seq<File>, base: seq<Row>, table: seq<Row>, runner: Runner, k: nat)
    requires DistinctNames(all) && runner.files <= all && runner.pc.Looping? && InLoop(all, base, table, runner, k)
    requires runner.pc.next < |runner.files| && runner.files[runner.pc.next].name !in runner.pc.known
    ensures runner.files[runner.pc.next].name !in RowNames(table)
  {
    var i, files := runner.pc.next, runner.files;
    var p := |Pending(files[..i], RowNames(base))|;
    KnownWhen(all, base, table, runner, k);
    NextPending(all, files, i, RowNames(base));
    PendingInHistory(all, base, Max(k, p), p);
  }

  // --------------------------------------------- one run without interference

  datatype Failure = EditedMigration(name: string) | FailedMigration(name: string)

  datatype MigrationResult = MigrationResult(applied: seq<string>, skipped: seq<string>)

  class Database {
    var table: seq<Row>

    constructor ()
      ensures table == []
    {
      table := [];
    }
  }

  /** The locked section as it is written, with an oracle for which transactions succeed. */
  method RunMigrations(db: Database, files: seq<File>, succeeds: string -> bool)
      returns (r: Result<MigrationResult, Failure>)
    requires DistinctNames(files)
    modifies db
    ensures var known := RowNames(old(db.table));
      match r
      case Ok(result) =>
        && !Mismatch(old(db.table), files)
        && db.table == old(db.table) + Rows(Pending(files, known))
        && result.applied == Names(Pending(files, known)) && result.skipped == Names(Among(files, known))
      case Err(EditedMigration(name)) =>
        Mismatch(old(db.table), files) && db.table == old(db.table)
      case Err(FailedMigration(name)) =>
        && !succeeds(name)
        && exists n: nat :: n < |Pending(files, known)| && Pending(files, known)[n].name == name
             && db.table == old(db.table) + Rows(Pending(files, known)[..n])
  {
    var valid := ValidateAppliedChecksums(files, db.table);
    if valid.Err? {
      return Err(EditedMigration(valid.error));
    }
    var known := RowNames(db.table);
    var applied, skipped := [], [];
    ghost var base := db.table;
    hide Mismatch, Pending, Among, Rows, Names, DistinctNames;
    NothingYet(known);
    for i := 0 to |files|
      invariant db.table == base + Rows(Pending(files[..i], known))
      invariant applied == Names(Pending(files[..i], known)) && skipped == Names(Among(files[..i], known))
    {
      var file := files[i];
      NextPending(files, files, i, known);
      AmongNext(files, i, known);
      if file.name in known {
        skipped := skipped + [file.name];
        continue;
      }
      ghost var p := |Pending(files[..i], known)|;
      if !succeeds(file.name) {
        PendingPrefix(files, i, known);
        assert Pending(files, known)[..p] == Pending(files[..i], known) && Pending(files, known)[p] == file;
        return Err(FailedMigration(file.name));
      }
      var row := Row(file.name, Some(file.checksum));
      RowsPush(base, Pending(files[..i], known), file);
      db.table := db.table + [row];
      applied := applied + [file.name];
    }
    assert files[..|files|] == files;
    return Ok(MigrationResult(applied, skipped));
  }

  lemma NothingYet(known: set<string>)
    ensures Rows(Pending([], known)) == [] && Names(Pending([], known)) == [] && Names(Among([], known)) == []
  {}

  lemma RowsPush(base: seq<Row>, files: seq<File>, file: File)
    ensures base + Rows(files) + [Row(file.name, Some(file.checksum))] == base + Rows(files + [file])
  {
    assert (files + [file])[..|files|] == files;
  }
}
