/** Interrupted runs of migrations, and when it is safe to start them again. */
module MigrationProofs {
  import opened Versions
  import opened Migration

  /** The first n files have positive versions in strictly ascending order. */
  predicate AscendingTo(files: seq<File>, n: nat)
    requires n <= |files|
  {
    (forall i :: 0 <= i < n ==> files[i].version > 0) &&
    (forall i, j :: 0 <= i < j < n ==> files[i].version < files[j].version)
  }

  predicate Ascending(files: seq<File>) {
    AscendingTo(files, |files|)
  }

  function Firsts(files: seq<File>, n: nat): set<int>
    requires n <= |files|
  {
    set i | 0 <= i < n :: files[i].version
  }

  /** The version at which a run resumes when the first n files are recorded */
  function Level(files: seq<File>, n: nat): int
    requires n <= |files|
  {
    if n == 0 then 0 else files[n - 1].version
  }

  /** All calls of files n to m - 1 */
  function AllOps(files: seq<File>, n: nat, m: nat): seq<Op>
    requires n <= m <= |files|
    decreases m - n
  {
    if n == m then [] else FileOps(files, n) + AllOps(files, n + 1, m)
  }

  lemma CurrentIsLevel(files: seq<File>, n: nat)
    requires n <= |files| && AscendingTo(files, n)
    ensures Current(Firsts(files, n)) == Level(files, n)
  {
    if n > 0 {
      assert files[n - 1].version in Firsts(files, n);
      assert IsMax(files[n - 1].version, Firsts(files, n));
    }
  }

  /** Recorded files are skipped. */
  lemma {:induction false} PlanSkips(files: seq<File>, n: nat, i: nat)
    requires i <= n <= |files| && AscendingTo(files, n)
    ensures Plan(files, Level(files, n), i) == Plan(files, Level(files, n), n)
    decreases n - i
  {
    hide FileOps;
    if i < n {
      assert files[i].version <= Level(files, n);
      PlanSkips(files, n, i + 1);
    }
  }

  /** From there on, ascending files are all planned. */
  lemma {:induction false} PlanTakes(files: seq<File>, level: int, n: nat, m: nat)
    requires n <= m <= |files| && forall i :: n <= i < m ==> files[i].version > level
    ensures Plan(files, level, n) == AllOps(files, n, m) + Plan(files, level, m)
    decreases m - n
  {
    hide FileOps, Plan, AllOps;
    PlanUnfold(files, level, n, m);
    if n < m {
      PlanTakes(files, level, n + 1, m);
      assert FileOps(files, n) + (AllOps(files, n + 1, m) + Plan(files, level, m)) ==
             FileOps(files, n) + AllOps(files, n + 1, m) + Plan(files, level, m);
    } else {
      assert [] + Plan(files, level, m) == Plan(files, level, m);
    }
  }

  lemma PlanUnfold(files: seq<File>, level: int, n: nat, m: nat)
    requires n <= m <= |files|
    ensures AllOps(files, n, m) == if n == m then [] else FileOps(files, n) + AllOps(files, n + 1, m)
    ensures n < m && files[n].version > level ==> Plan(files, level, n) == FileOps(files, n) + Plan(files, level, n + 1)
  {
    hide FileOps;
  }

  predicate AllKnown(files: seq<File>, ops: seq<Op>) {
    forall k :: 0 <= k < |ops| ==> Known(files, ops[k])
  }

  lemma {:induction false} AllOpsKnown(files: seq<File>, n: nat, m: nat)
    requires n <= m <= |files|
    ensures AllKnown(files, AllOps(files, n, m))
    ensures forall k :: 0 <= k < |AllOps(files, n, m)| ==> n <= AllOps(files, n, m)[k].file < m
    decreases m - n
  {
    if n < m {
      AllOpsKnown(files, n + 1, m);
    }
  }

  lemma LogShift(log: seq<Op>, ops: seq<Op>, k: nat)
    requires 1 <= k <= |ops|
    ensures log + [ops[0]] + ops[1..][..k - 1] == log + ops[..k]
  {
    assert [ops[0]] + ops[1..][..k - 1] == ops[..k];
  }

  /** Statements never conflict: they take effect one by one, as far as the budget reaches. */
  lemma {:induction false} ExecuteStatements(files: seq<File>, db: Db, ops: seq<Op>, rest: seq<Op>, budget: nat,
      late: bool)
    requires AllKnown(files, ops) && AllKnown(files, rest) && AllKnown(files, ops + rest)
    requires forall k :: 0 <= k < |ops| ==> ops[k].Exec?
    ensures Execute(files, db, ops + rest, budget, late) ==
      if budget < |ops| then db.(log := db.log + ops[..budget + (if late then 1 else 0)])
      else Execute(files, db.(log := db.log + ops), rest, budget - |ops|, late)
    decreases |ops|
  {
    if ops == [] {
      assert ops + rest == rest && db.log + ops == db.log;
    } else {
      var next := db.(log := db.log + [ops[0]]);
      assert (ops + rest)[1..] == ops[1..] + rest;
      if budget == 0 {
        assert ops[..0] == [] && ops[..1] == [ops[0]] && db.log + [] == db.log;
      } else {
        ExecuteStatements(files, next, ops[1..], rest, budget - 1, late);
        LogShift(db.log, ops, |ops|);
        assert ops[..|ops|] == ops && ops[1..][..|ops| - 1] == ops[1..];
        if budget < |ops| {
          LogShift(db.log, ops, budget + (if late then 1 else 0));
        }
      }
    }
  }

  /** The files that the log records, in order */
  function Records(log: seq<Op>): seq<nat> {
    if log == [] then []
    else
      var last := log[|log| - 1];
      Records(log[..|log| - 1]) + (if last.Record? then [last.file] else [])
  }

  function UpTo(n: nat): seq<nat> {
    seq(n, i => i)
  }

  /** Whatever is recorded was preceded by all statements of its file, one after the other, and by nothing else
      in between. */
  predicate Complete(files: seq<File>, log: seq<Op>) {
    forall k :: 0 <= k < |log| && log[k].Record? ==> PrecededBy(files, log, k)
  }

  predicate PrecededBy(files: seq<File>, log: seq<Op>, k: nat)
    requires k < |log|
  {
    var i := log[k].file;
    i < |files| && |files[i].statements| <= k &&
    forall j :: 0 <= j < |files[i].statements| ==> log[k - |files[i].statements| + j] == Exec(i, j)
  }

  /** Exactly the first n files are recorded, each once and in order, each after all its statements. */
  predicate Progress(files: seq<File>, db: Db, n: nat) {
    n <= |files| && db.versions == Firsts(files, n) && Records(db.log) == UpTo(n) && Complete(files, db.log)
  }

  lemma {:induction false} RecordsOfStatements(log: seq<Op>, ops: seq<Op>)
    requires forall k :: 0 <= k < |ops| ==> ops[k].Exec?
    ensures Records(log + ops) == Records(log)
    decreases |ops|
  {
    if ops == [] {
      assert log + ops == log;
    } else {
      var shorter := ops[..|ops| - 1];
      RecordsOfStatements(log, shorter);
      assert (log + ops)[..|log + ops| - 1] == log + shorter;
    }
  }

  lemma CompleteExtends(files: seq<File>, log: seq<Op>, ops: seq<Op>)
    requires Complete(files, log) && forall k :: 0 <= k < |ops| ==> ops[k].Exec?
    ensures Complete(files, log + ops)
  {
    forall k | 0 <= k < |log + ops| && (log + ops)[k].Record?
      ensures PrecededBy(files, log + ops, k)
    {
      assert k < |log| && PrecededBy(files, log, k);
    }
  }

  /** Statements alone change nothing about the progress. */
  lemma StatementsKeepProgress(files: seq<File>, db: Db, n: nat, ops: seq<Op>)
    requires Progress(files, db, n) && forall k :: 0 <= k < |ops| ==> ops[k].Exec?
    ensures Progress(files, db.(log := db.log + ops), n)
  {
    RecordsOfStatements(db.log, ops);
    CompleteExtends(files, db.log, ops);
  }

  /** Recording the next file after all its statements advances it. */
  lemma RecordAdvances(files: seq<File>, db: Db, n: nat)
    requires Progress(files, db, n) && n < |files|
    ensures var execs := Execs(n, |files[n].statements|);
      Progress(files, Do(files, db.(log := db.log + execs), Record(n)), n + 1)
  {
    var execs := Execs(n, |files[n].statements|);
    var log := db.log + execs;
    StatementsKeepProgress(files, db, n, execs);
    hide Execs, Complete;
    CompleteRecorded(files, db.log, n);
    assert (log + [Record(n)])[..|log|] == log;
    assert UpTo(n + 1) == UpTo(n) + [n];
    assert Firsts(files, n + 1) == Firsts(files, n) + {files[n].version};
  }

  lemma CompleteRecorded(files: seq<File>, log: seq<Op>, n: nat)
    requires n < |files| && Complete(files, log + Execs(n, |files[n].statements|))
    ensures Complete(files, log + Execs(n, |files[n].statements|) + [Record(n)])
  {
    var before := log + Execs(n, |files[n].statements|);
    forall k | 0 <= k < |before + [Record(n)]| && (before + [Record(n)])[k].Record?
      ensures PrecededBy(files, before + [Record(n)], k)
    {
      if k < |before| {
        assert PrecededBy(files, before, k);
      }
    }
  }

  // ---------------------------------------------------------------------------------------
  // Interrupted runs

  lemma AllOpsSplit(files: seq<File>, n: nat)
    requires n < |files|
    ensures AllOps(files, n, |files|) == Execs(n, |files[n].statements|) + ([Record(n)] + AllOps(files, n + 1, |files|))
    ensures AllKnown(files, Execs(n, |files[n].statements|)) &&
      AllKnown(files, [Record(n)] + AllOps(files, n + 1, |files|))
    ensures AllKnown(files, AllOps(files, n, |files|))
  {
    AllOpsKnown(files, n, |files|);
    AllOpsKnown(files, n + 1, |files|);
  }

  /** Wherever a run is stopped, it leaves the progress of some number of files. */
  lemma {:induction false} ExecuteProgress(files: seq<File>, db: Db, n: nat, budget: nat, late: bool) returns (m: nat)
    requires n <= |files| && Ascending(files) && Progress(files, db, n) && AllKnown(files, AllOps(files, n, |files|))
    ensures n <= m <= |files| && Progress(files, Execute(files, db, AllOps(files, n, |files|), budget, late), m)
    ensures budget >= |AllOps(files, n, |files|)| ==> m == |files|
    decreases |files| - n
  {
    hide Progress, Execs;
    m := n;
    if n < |files| {
      var execs, rest := Execs(n, |files[n].statements|), [Record(n)] + AllOps(files, n + 1, |files|);
      AllOpsSplit(files, n);
      ExecsAreStatements(n, |files[n].statements|);
      AllOpsKnown(files, n + 1, |files|);
      ExecuteStatements(files, db, execs, rest, budget, late);
      var left := budget - |execs|;
      if left < 0 {
        StatementsKeepProgress(files, db, n, execs[..budget + (if late then 1 else 0)]);
      } else {
        var ready := db.(log := db.log + execs);
        StatementsKeepProgress(files, db, n, execs);
        RecordAdvances(files, db, n);
        NextIsNew(files, db, n);
        assert rest[1..] == AllOps(files, n + 1, |files|);
        if left == 0 {
          m := if late then n + 1 else n;
        } else {
          m := ExecuteProgress(files, Do(files, ready, Record(n)), n + 1, left - 1, late);
        }
      }
    }
  }

  lemma ExecsAreStatements(i: nat, count: nat)
    ensures |Execs(i, count)| == count && forall k :: 0 <= k < count ==> Execs(i, count)[k].Exec?
  {
  }

  lemma NextIsNew(files: seq<File>, db: Db, n: nat)
    requires Ascending(files) && n < |files| && Progress(files, db, n)
    ensures files[n].version !in db.versions
  {
  }

  /** A run resumes at the first file that is not recorded. */
  lemma Resumes(files: seq<File>, db: Db, n: nat)
    requires Ascending(files) && Progress(files, db, n)
    ensures Plan(files, Current(db.versions), 0) == AllOps(files, n, |files|)
  {
    hide FileOps;
    CurrentIsLevel(files, n);
    PlanSkips(files, n, 0);
    PlanTakes(files, Level(files, n), n, |files|);
    assert AllOps(files, n, |files|) + [] == AllOps(files, n, |files|);
  }

  lemma AttemptProgress(files: seq<File>, db: Db, n: nat, budget: nat, late: bool) returns (m: nat)
    requires n <= |files| && Ascending(files) && Progress(files, db, n)
    ensures n <= m <= |files| && Progress(files, Attempt(files, db, budget, late), m)
    ensures budget >= |Plan(files, Current(db.versions), 0)| ==> m == |files|
  {
    hide Progress, Plan, Execute;
    Resumes(files, db, n);
    AllOpsKnown(files, n, |files|);
    m := ExecuteProgress(files, db, n, budget, late);
  }

  /** Once everything is recorded, a run does nothing at all. */
  lemma NothingLeft(files: seq<File>, db: Db, budget: nat, late: bool)
    requires Ascending(files) && Progress(files, db, |files|)
    ensures Attempt(files, db, budget, late) == db
  {
    Resumes(files, db, |files|);
  }

  datatype Interruption = Interruption(budget: nat, late: bool)

  ghost function Attempts(files: seq<File>, db: Db, interruptions: seq<Interruption>): Db
    decreases |interruptions|
  {
    if interruptions == [] then db
    else Attempts(files, Attempt(files, db, interruptions[0].budget, interruptions[0].late), interruptions[1..])
  }

  /** Any number of runs, each stopped anywhere, leave exactly a prefix of the files recorded. */
  lemma {:induction false} AttemptsProgress(files: seq<File>, db: Db, n: nat,
      interruptions: seq<Interruption>) returns (m: nat)
    requires n <= |files| && Ascending(files) && Progress(files, db, n)
    ensures n <= m <= |files| && Progress(files, Attempts(files, db, interruptions), m)
    decreases |interruptions|
  {
    hide Progress, Attempt;
    m := n;
    if interruptions != [] {
      m := AttemptProgress(files, db, n, interruptions[0].budget, interruptions[0].late);
      m := AttemptsProgress(files, Attempt(files, db, interruptions[0].budget, interruptions[0].late), m, interruptions[1..]);
    }
  }

  lemma StartsEmpty(files: seq<File>)
    ensures Progress(files, EMPTY, 0)
  {
  }

  predicate AllRecorded(files: seq<File>, db: Db) {
    forall i :: 0 <= i < |files| ==> i in Records(db.log)
  }

  lemma ProgressRecordsAll(files: seq<File>, db: Db)
    requires Progress(files, db, |files|)
    ensures AllRecorded(files, db)
  {
    forall i | 0 <= i < |files|
      ensures i in Records(db.log)
    {
      assert Records(db.log)[i] == i;
    }
  }

  /** With ascending versions, an uninterrupted run completes what any interrupted ones left, and a further
      run finds nothing to do. */
  lemma RunsRecover(files: seq<File>, interruptions: seq<Interruption>, again: Interruption)
    requires Ascending(files)
    ensures var db := Uninterrupted(files, Attempts(files, EMPTY, interruptions));
      Progress(files, db, |files|) && AllRecorded(files, db) && Attempt(files, db, again.budget, again.late) == db
  {
    hide Progress, Attempt, AllRecorded, Plan;
    StartsEmpty(files);
    var n := AttemptsProgress(files, EMPTY, 0, interruptions);
    var stopped := Attempts(files, EMPTY, interruptions);
    var m := AttemptProgress(files, stopped, n, |Plan(files, Current(stopped.versions), 0)|, false);
    var db := Uninterrupted(files, stopped);
    ProgressRecordsAll(files, db);
    NothingLeft(files, db, again.budget, again.late);
  }

  // ---------------------------------------------------------------------------------------
  // Whatever the versions are

  /** The recorded versions are those of the recorded files, which all differ. */
  ghost predicate Keyed(files: seq<File>, db: Db) {
    AllKnown(files, db.log) &&
    (forall v :: v in db.versions <==> exists k :: RecordsVersion(files, db.log, k, v)) &&
    forall k, l, v :: RecordsVersion(files, db.log, k, v) && RecordsVersion(files, db.log, l, v) ==> k == l
  }

  ghost predicate RecordsVersion(files: seq<File>, log: seq<Op>, k: nat, v: int) {
    k < |log| && log[k].Record? && log[k].file < |files| && files[log[k].file].version == v
  }

  lemma DoKeepsKeyed(files: seq<File>, db: Db, op: Op)
    requires Keyed(files, db) && Known(files, op) && !Conflicts(files, db, op)
    ensures Keyed(files, Do(files, db, op))
  {
    var next := Do(files, db, op);
    forall k, v
      ensures RecordsVersion(files, next.log, k, v) <==>
        RecordsVersion(files, db.log, k, v) || (k == |db.log| && op.Record? && files[op.file].version == v)
    {
    }
    forall v
      ensures v in next.versions <==> exists k :: RecordsVersion(files, next.log, k, v)
    {
      if v in db.versions {
        var k :| RecordsVersion(files, db.log, k, v);
        assert RecordsVersion(files, next.log, k, v);
      } else if v in next.versions {
        assert RecordsVersion(files, next.log, |db.log|, v);
      }
    }
  }

  lemma {:induction false} ExecuteKeepsKeyed(files: seq<File>, db: Db, plan: seq<Op>, budget: nat, late: bool)
    requires AllKnown(files, plan) && Keyed(files, db)
    ensures Keyed(files, Execute(files, db, plan, budget, late))
    decreases |plan|
  {
    hide Keyed, Do, Conflicts;
    if plan != [] && !Conflicts(files, db, plan[0]) {
      DoKeepsKeyed(files, db, plan[0]);
      if budget > 0 {
        ExecuteKeepsKeyed(files, Do(files, db, plan[0]), plan[1..], budget - 1, late);
      }
    }
  }

  /** Even if versions repeat or descend, no version is ever recorded for two files, or twice for one. */
  lemma {:induction false} NeverRecordedTwice(files: seq<File>, db: Db, interruptions: seq<Interruption>)
    requires Keyed(files, db)
    ensures Keyed(files, Attempts(files, db, interruptions))
    decreases |interruptions|
  {
    hide Keyed, Execute, Plan, Current;
    if interruptions != [] {
      var first := interruptions[0];
      PlanKnown(files, Current(db.versions), 0);
      ExecuteKeepsKeyed(files, db, Plan(files, Current(db.versions), 0), first.budget, first.late);
      NeverRecordedTwice(files, Attempt(files, db, first.budget, first.late), interruptions[1..]);
    }
  }

  // ---------------------------------------------------------------------------------------
  // The statements that the database saw

  /** The texts of the executed statements, in order */
  function Executed(files: seq<File>, log: seq<Op>): seq<string> {
    if log == [] then []
    else
      var last := log[|log| - 1];
      Executed(files, log[..|log| - 1]) +
      match last
      case Exec(i, j) => if i < |files| && j < |files[i].statements| then [files[i].statements[j]] else []
      case Record(_) => []
  }

  lemma {:induction false} ExecutedConcat(files: seq<File>, a: seq<Op>, b: seq<Op>)
    ensures Executed(files, a + b) == Executed(files, a) + Executed(files, b)
    decreases |b|
  {
    if b == [] {
      assert a + b == a;
    } else {
      assert (a + b)[..|a + b| - 1] == a + b[..|b| - 1];
      ExecutedConcat(files, a, b[..|b| - 1]);
    }
  }

  lemma {:induction false} ExecutedFile(files: seq<File>, i: nat, ops: seq<Op>)
    requires i < |files| && |ops| <= |files[i].statements| && forall j :: 0 <= j < |ops| ==> ops[j] == Exec(i, j)
    ensures Executed(files, ops) == files[i].statements[..|ops|]
    decreases |ops|
  {
    if ops != [] {
      ExecutedFile(files, i, ops[..|ops| - 1]);
    }
  }

  /** However often runs were stopped, right before a file was recorded the database executed exactly the
      statements of that file, in their order. */
  lemma RecordedRan(files: seq<File>, interruptions: seq<Interruption>, k: nat)
    requires Ascending(files) && k < |Attempts(files, EMPTY, interruptions).log|
    requires Attempts(files, EMPTY, interruptions).log[k].Record?
    ensures var log := Attempts(files, EMPTY, interruptions).log;
      var i := log[k].file;
      i < |files| && |files[i].statements| <= k &&
      Executed(files, log[k - |files[i].statements|..k]) == files[i].statements
  {
    hide Executed, Attempts;
    StartsEmpty(files);
    var n := AttemptsProgress(files, EMPTY, 0, interruptions);
    LastRan(files, Attempts(files, EMPTY, interruptions).log, k);
  }

  lemma LastRan(files: seq<File>, log: seq<Op>, k: nat)
    requires k < |log| && PrecededBy(files, log, k)
    ensures var i := log[k].file;
      i < |files| && |files[i].statements| <= k &&
      Executed(files, log[k - |files[i].statements|..k]) == files[i].statements
  {
    var count := |files[log[k].file].statements|;
    ExecutedFile(files, log[k].file, log[k - count..k]);
  }

  function AllStatements(files: seq<File>, n: nat): seq<string>
    requires n <= |files|
    decreases |files| - n
  {
    if n == |files| then [] else files[n].statements + AllStatements(files, n + 1)
  }

  lemma {:induction false} ExecutedAll(files: seq<File>, n: nat)
    requires n <= |files|
    ensures Executed(files, AllOps(files, n, |files|)) == AllStatements(files, n)
    decreases |files| - n
  {
    hide Executed;
    if n < |files| {
      var statements := files[n].statements;
      ExecutedAll(files, n + 1);
      AllOpsSplit(files, n);
      ExecutedFile(files, n, Execs(n, |statements|));
      RecordExecutesNothing(files, n);
      ExecutedConcat(files, Execs(n, |statements|), [Record(n)] + AllOps(files, n + 1, |files|));
      ExecutedConcat(files, [Record(n)], AllOps(files, n + 1, |files|));
      assert statements[..|statements|] == statements;
    } else {
      NothingExecuted(files);
    }
  }

  lemma RecordExecutesNothing(files: seq<File>, i: nat)
    ensures Executed(files, [Record(i)]) == []
  {
    assert [Record(i)][..0] == [];
  }

  lemma NothingExecuted(files: seq<File>)
    ensures Executed(files, []) == []
  {
  }

  /** A run on an empty database that nothing interrupts executes every statement of every file, once and in
      order, and records every file. */
  lemma FreshRun(files: seq<File>)
    requires Ascending(files)
    ensures var db := Uninterrupted(files, EMPTY);
      Executed(files, db.log) == AllStatements(files, 0) && Progress(files, db, |files|)
  {
    hide Execute, Plan, Current, Progress, AllOps;
    StartsEmpty(files);
    NoneRecorded();
    Resumes(files, EMPTY, 0);
    AllOpsKnown(files, 0, |files|);
    var plan := AllOps(files, 0, |files|);
    assert plan + [] == plan;
    StopAtBoundary(files, EMPTY, 0, |files|, []);
    assert EMPTY.log + plan == plan;
    ExecutedAll(files, 0);
    var m := AttemptProgress(files, EMPTY, 0, |plan|, false);
  }

  // ---------------------------------------------------------------------------------------
  // When versions do not ascend

  /** Stopping at the boundary before file i leaves exactly the calls before it. */
  lemma {:induction false} StopAtBoundary(files: seq<File>, db: Db, n: nat, i: nat, rest: seq<Op>)
    requires n <= i <= |files| && AscendingTo(files, i) && db.versions == Firsts(files, n)
    requires AllKnown(files, rest) && AllKnown(files, AllOps(files, n, i) + rest)
    ensures Execute(files, db, AllOps(files, n, i) + rest, |AllOps(files, n, i)|, false) ==
      Db(Firsts(files, i), db.log + AllOps(files, n, i))
    decreases i - n
  {
    hide Execs, Conflicts;
    if n == i {
      assert [] + rest == rest && db.log + [] == db.log;
    } else {
      hide Execute, AllOps;
      FileFirst(files, n, i, rest);
      assert Firsts(files, n + 1) == Firsts(files, n) + {files[n].version};
      assert files[n].version !in Firsts(files, n);
      PastFile(files, db, n, AllOps(files, n + 1, i) + rest, |AllOps(files, n + 1, i)|);
      var next := Db(Firsts(files, n + 1), db.log + FileOps(files, n));
      StopAtBoundary(files, next, n + 1, i, rest);
      assert next.log + AllOps(files, n + 1, i) == db.log + AllOps(files, n, i);
    }
  }

  lemma FileFirst(files: seq<File>, n: nat, i: nat, rest: seq<Op>)
    requires n < i <= |files| && AllKnown(files, AllOps(files, n, i) + rest)
    ensures AllOps(files, n, i) == FileOps(files, n) + AllOps(files, n + 1, i)
    ensures AllOps(files, n, i) + rest == FileOps(files, n) + (AllOps(files, n + 1, i) + rest)
    ensures AllKnown(files, AllOps(files, n + 1, i) + rest)
  {
    hide FileOps;
    var tail := AllOps(files, n + 1, i) + rest;
    forall k | 0 <= k < |tail|
      ensures Known(files, tail[k])
    {
      assert tail[k] == (AllOps(files, n, i) + rest)[|FileOps(files, n)| + k];
    }
  }

  /** A file that is not recorded yet runs to its end. */
  lemma PastFile(files: seq<File>, db: Db, n: nat, rest: seq<Op>, budget: nat)
    requires n < |files| && files[n].version !in db.versions
    requires AllKnown(files, rest) && AllKnown(files, FileOps(files, n) + rest)
    ensures Execute(files, db, FileOps(files, n) + rest, |FileOps(files, n)| + budget, false) ==
      Execute(files, Db(db.versions + {files[n].version}, db.log + FileOps(files, n)), rest, budget, false)
  {
    hide Execute;
    var execs := Execs(n, |files[n].statements|);
    ExecsAreStatements(n, |files[n].statements|);
    ExecsKnown(files, n);
    assert FileOps(files, n) + rest == execs + ([Record(n)] + rest);
    assert AllKnown(files, [Record(n)] + rest);
    ExecuteStatements(files, db, execs, [Record(n)] + rest, |execs| + 1 + budget, false);
    RecordStep(files, db.(log := db.log + execs), n, rest, 1 + budget, false);
    assert db.log + execs + [Record(n)] == db.log + FileOps(files, n);
  }

  lemma RecordStep(files: seq<File>, db: Db, n: nat, rest: seq<Op>, budget: nat, late: bool)
    requires n < |files| && AllKnown(files, rest) && AllKnown(files, [Record(n)] + rest) && budget > 0
    requires files[n].version !in db.versions
    ensures Execute(files, db, [Record(n)] + rest, budget, late) ==
      Execute(files, Do(files, db, Record(n)), rest, budget - 1, late)
  {
    assert ([Record(n)] + rest)[1..] == rest;
  }

  lemma ExecsKnown(files: seq<File>, n: nat)
    requires n < |files|
    ensures AllKnown(files, Execs(n, |files[n].statements|))
  {
  }

  lemma DoLogs(files: seq<File>, db: Db, op: Op, i: nat)
    requires Known(files, op) && op != Record(i) && i !in Records(db.log)
    ensures i !in Records(Do(files, db, op).log)
  {
    var next := Do(files, db, op);
    assert next.log[..|next.log| - 1] == db.log;
  }

  /** The log only grows by calls of the plan. */
  lemma {:induction false} ExecuteLogs(files: seq<File>, db: Db, plan: seq<Op>, budget: nat, late: bool, i: nat)
    requires AllKnown(files, plan) && Record(i) !in plan && i !in Records(db.log)
    ensures i !in Records(Execute(files, db, plan, budget, late).log)
    decreases |plan|
  {
    hide Records, Do, Conflicts;
    if plan != [] && !Conflicts(files, db, plan[0]) && (budget > 0 || late) {
      assert plan == [plan[0]] + plan[1..];
      DoLogs(files, db, plan[0], i);
      if budget > 0 {
        ExecuteLogs(files, Do(files, db, plan[0]), plan[1..], budget - 1, late, i);
      }
    }
  }

  lemma {:induction false} RecordsAreLogged(log: seq<Op>, i: nat)
    requires i in Records(log)
    ensures Record(i) in log
  {
    var shorter, last := log[..|log| - 1], log[|log| - 1];
    assert log == shorter + [last];
    if i in Records(shorter) {
      RecordsAreLogged(shorter, i);
    }
  }

  /** A file at or below the current version is never planned. */
  lemma {:induction false} PlanOmits(files: seq<File>, level: int, k: nat, i: nat)
    requires k <= |files| && i < |files| && files[i].version <= level
    ensures Record(i) !in Plan(files, level, k)
    decreases |files| - k
  {
    hide Execs;
    if k < |files| {
      ExecsAreStatements(k, |files[k].statements|);
      PlanOmits(files, level, k + 1, i);
    }
  }

  /** The first file that breaks the order, if any does */
  lemma {:induction false} FirstBreak(files: seq<File>, n: nat) returns (i: nat)
    requires n <= |files| && !AscendingTo(files, n)
    ensures i < n && AscendingTo(files, i) && files[i].version <= Level(files, i)
    decreases n
  {
    if AscendingTo(files, n - 1) {
      i := n - 1;
      if files[i].version > Level(files, i) {
        assert AscendingTo(files, n);
      }
    } else {
      i := FirstBreak(files, n - 1);
    }
  }

  /** File i is not recorded, and its version is not above the current one. */
  ghost predicate Lost(files: seq<File>, db: Db, i: nat)
    requires i < |files|
  {
    i !in Records(db.log) && files[i].version <= Current(db.versions)
  }

  lemma CurrentGrows(s: set<int>, v: int)
    ensures Current(s + {v}) == if s == {} || v > Current(s) then v else Current(s)
  {
    MaxExists(s + {v});
    var m :| IsMax(m, s + {v});
    if s == {} {
      assert s + {v} == {v};
    } else {
      MaxExists(s);
      var n :| IsMax(n, s);
      assert n in s + {v};
      assert v in s + {v};
      assert IsMax(Current(s), s) && IsMax(Current(s + {v}), s + {v});
    }
  }

  ghost predicate Above(files: seq<File>, ops: seq<Op>, level: int)
    requires AllKnown(files, ops)
  {
    forall k :: 0 <= k < |ops| && ops[k].Record? ==> files[ops[k].file].version > level
  }

  lemma {:induction false} PlanAbove(files: seq<File>, level: int, k: nat)
    requires k <= |files|
    ensures AllKnown(files, Plan(files, level, k)) && Above(files, Plan(files, level, k), level)
    decreases |files| - k
  {
    hide Execs;
    if k < |files| {
      ExecsAreStatements(k, |files[k].statements|);
      ExecsKnown(files, k);
      PlanAbove(files, level, k + 1);
    }
  }

  /** A run does not fall back behind the version at which it started. */
  lemma {:induction false} ExecuteKeepsCurrent(files: seq<File>, db: Db, plan: seq<Op>, budget: nat, late: bool,
      level: int)
    requires AllKnown(files, plan) && Above(files, plan, level) && Current(db.versions) >= level
    ensures Current(Execute(files, db, plan, budget, late).versions) >= level
    decreases |plan|
  {
    hide Current;
    if plan != [] && !Conflicts(files, db, plan[0]) && (budget > 0 || late) {
      if plan[0].Record? {
        CurrentGrows(db.versions, files[plan[0].file].version);
      }
      if budget > 0 {
        ExecuteKeepsCurrent(files, Do(files, db, plan[0]), plan[1..], budget - 1, late, level);
      }
    }
  }

  /** What is lost stays lost. */
  lemma AttemptLoses(files: seq<File>, db: Db, i: nat, budget: nat, late: bool)
    requires i < |files| && Lost(files, db, i)
    ensures Lost(files, Attempt(files, db, budget, late), i)
  {
    hide Execute, Plan, Current, Records;
    var level := Current(db.versions);
    PlanAbove(files, level, 0);
    PlanOmits(files, level, 0, i);
    ExecuteKeepsCurrent(files, db, Plan(files, level, 0), budget, late, level);
    ExecuteLogs(files, db, Plan(files, level, 0), budget, late, i);
  }

  lemma {:induction false} AttemptsLose(files: seq<File>, db: Db, i: nat, interruptions: seq<Interruption>)
    requires i < |files| && Lost(files, db, i)
    ensures Lost(files, Attempts(files, db, interruptions), i)
    decreases |interruptions|
  {
    hide Lost, Attempt;
    if interruptions != [] {
      var first := interruptions[0];
      AttemptLoses(files, db, i, first.budget, first.late);
      AttemptsLose(files, Attempt(files, db, first.budget, first.late), i, interruptions[1..]);
    }
  }

  /** Stopped right before such a file, no number of further runs, wherever they stop, records it. */
  lemma BreakIsLost(files: seq<File>, i: nat, further: seq<Interruption>)
    requires i < |files| && AscendingTo(files, i) && files[i].version <= Level(files, i)
    ensures i !in Records(Attempts(files, Attempt(files, EMPTY, |AllOps(files, 0, i)|, false), further).log)
  {
    hide Execute, Plan, AllOps, Current;
    var rest := Plan(files, 0, i);
    PlanKnown(files, 0, 0);
    PlanKnown(files, 0, i);
    PlanTakes(files, 0, 0, i);
    StopAtBoundary(files, EMPTY, 0, i, rest);
    NoneRecorded();
    var stopped := Attempt(files, EMPTY, |AllOps(files, 0, i)|, false);
    assert stopped.versions == Firsts(files, i) && stopped.log == AllOps(files, 0, i);
    AllOpsKnown(files, 0, i);
    CurrentIsLevel(files, i);
    if i in Records(stopped.log) {
      RecordsAreLogged(stopped.log, i);
    }
    AttemptsLose(files, stopped, i, further);
  }

  lemma NoneRecorded()
    ensures Current({}) == 0
  {
  }

  lemma LostAfterOne(files: seq<File>, i: nat)
    requires i < |files| && AscendingTo(files, i) && files[i].version <= Level(files, i)
    ensures !AllRecorded(files, Uninterrupted(files, Attempt(files, EMPTY, |AllOps(files, 0, i)|, false)))
  {
    hide Attempt, AllOps, Records, Plan;
    var stopped := Attempt(files, EMPTY, |AllOps(files, 0, i)|, false);
    var all := Interruption(|Plan(files, Current(stopped.versions), 0)|, false);
    BreakIsLost(files, i, [all]);
    assert Attempts(files, stopped, [all]) == Attempts(files, Uninterrupted(files, stopped), []);
  }

  /** Restarting is safe exactly when the versions are positive and strictly ascend in walk order: then, and
      only then, one uninterrupted run after an interrupted one always leaves every file recorded. */
  lemma RestartSafeIff(files: seq<File>)
    ensures Ascending(files) <==>
      forall budget: nat, late: bool :: AllRecorded(files, Uninterrupted(files, Attempt(files, EMPTY, budget, late)))
  {
    hide AllRecorded, Uninterrupted, Attempt;
    if Ascending(files) {
      forall budget: nat, late: bool
        ensures AllRecorded(files, Uninterrupted(files, Attempt(files, EMPTY, budget, late)))
      {
        var stop := Interruption(budget, late);
        RunsRecover(files, [stop], stop);
        assert Attempts(files, EMPTY, [stop]) == Attempts(files, Attempt(files, EMPTY, budget, late), []);
      }
    } else {
      var i := FirstBreak(files, |files|);
      LostAfterOne(files, i);
    }
  }
}
