/** The greatest element of a set of versions. */
module Versions {

  predicate IsMax(m: int, s: set<int>) {
    m in s && forall x :: x in s ==> x <= m
  }

  lemma {:induction false} MaxExists(s: set<int>)
    requires s != {}
    ensures exists m :: IsMax(m, s)
    decreases |s|
  {
    assert (forall x :: x !in s) ==> s == {};
    var x :| x in s;
    var rest := s - {x};
    assert s == rest + {x};
    if rest == {} {
      assert IsMax(x, s);
    } else {
      MaxExists(rest);
      var m :| IsMax(m, rest);
      assert IsMax(if m < x then x else m, s);
    }
  }
}

/** The migration runner (migration/migration.go) as a restartable machine: it can be stopped at any
    database call, and starts over from the recorded versions. */
module Migration {
  import opened Versions

  /** A migration file that parsed: its version and its statements. */
  datatype File = File(version: int, statements: seq<string>)

  /** A database call: a statement of a file, or the insertion of a file's version. */
  datatype Op = Exec(file: nat, statement: nat) | Record(file: nat)

  /** The recorded versions, and every call that took effect, in order. */
  datatype Db = Db(versions: set<int>, log: seq<Op>)

  const EMPTY: Db := Db({}, [])

  /** GetCurrentVersion: the greatest recorded version, or zero. */
  ghost function Current(versions: set<int>): int {
    if versions == {} then 0 else MaxExists(versions); var m :| IsMax(m, versions); m
  }

  function Execs(i: nat, count: nat): seq<Op> {
    seq(count, j requires 0 <= j < count => Exec(i, j))
  }

  function FileOps(files: seq<File>, i: nat): seq<Op>
    requires i < |files|
  {
    Execs(i, |files[i].statements|) + [Record(i)]
  }

  /** The calls of a run from file i on: versions up to the current one are skipped. */
  function Plan(files: seq<File>, current: int, i: nat): seq<Op>
    requires i <= |files|
    decreases |files| - i
  {
    if i == |files| then []
    else (if files[i].version <= current then [] else FileOps(files, i)) + Plan(files, current, i + 1)
  }

  predicate Known(files: seq<File>, op: Op) {
    op.file < |files|
  }

  function Do(files: seq<File>, db: Db, op: Op): Db
    requires Known(files, op)
  {
    match op
    case Exec(_, _) => db.(log := db.log + [op])
    case Record(i) => Db(db.versions + {files[i].version}, db.log + [op])
  }

  /** A version is a primary key: inserting it again fails. */
  predicate Conflicts(files: seq<File>, db: Db, op: Op)
    requires Known(files, op)
  {
    op.Record? && files[op.file].version in db.versions
  }

  /** The calls of a plan, of which `budget` succeed. The next one fails, before or after it took effect. */
  function Execute(files: seq<File>, db: Db, plan: seq<Op>, budget: nat, late: bool): Db
    requires forall k :: 0 <= k < |plan| ==> Known(files, plan[k])
    decreases |plan|
  {
    if plan == [] || Conflicts(files, db, plan[0]) then db
    else if budget == 0 then if late then Do(files, db, plan[0]) else db
    else Execute(files, Do(files, db, plan[0]), plan[1..], budget - 1, late)
  }

  lemma {:induction false} PlanKnown(files: seq<File>, current: int, i: nat)
    requires i <= |files|
    ensures forall k :: 0 <= k < |Plan(files, current, i)| ==> Known(files, Plan(files, current, i)[k])
    decreases |files| - i
  {
    if i < |files| {
      PlanKnown(files, current, i + 1);
    }
  }

  lemma PlanFile(files: seq<File>, current: int, i: nat)
    requires i < |files|
    ensures Plan(files, current, i) ==
      if files[i].version <= current then Plan(files, current, i + 1)
      else Execs(i, |files[i].statements|) + ([Record(i)] + Plan(files, current, i + 1))
  {
  }

  lemma PlanEnd(files: seq<File>, current: int)
    ensures Plan(files, current, |files|) == []
  {
  }

  /** One run of Migrate. */
  ghost function Attempt(files: seq<File>, db: Db, budget: nat, late: bool): Db {
    PlanKnown(files, Current(db.versions), 0);
    Execute(files, db, Plan(files, Current(db.versions), 0), budget, late)
  }

  /** A run that nothing interrupts. */
  ghost function Uninterrupted(files: seq<File>, db: Db): Db {
    Attempt(files, db, |Plan(files, Current(db.versions), 0)|, false)
  }

  /** Executing plan from db comes to executing rest from now. */
  ghost predicate Reaches(files: seq<File>, db: Db, plan: seq<Op>, budget: nat, now: Db, rest: seq<Op>, left: nat,
      late: bool) {
    (forall k :: 0 <= k < |plan| ==> Known(files, plan[k])) && (forall k :: 0 <= k < |rest| ==> Known(files, rest[k])) &&
    Execute(files, db, plan, budget, late) == Execute(files, now, rest, left, late) &&
    |plan| - budget == |rest| - left
  }

  lemma ReachesStart(files: seq<File>, db: Db, plan: seq<Op>, budget: nat, late: bool)
    requires forall k :: 0 <= k < |plan| ==> Known(files, plan[k])
    ensures Reaches(files, db, plan, budget, db, plan, budget, late)
  {
  }

  lemma ReachesNext(files: seq<File>, db: Db, plan: seq<Op>, budget: nat, now: Db, rest: seq<Op>, left: nat, late: bool)
    requires Reaches(files, db, plan, budget, now, rest, left, late)
    requires rest != [] && !Conflicts(files, now, rest[0]) && left > 0
    ensures Reaches(files, db, plan, budget, Do(files, now, rest[0]), rest[1..], left - 1, late)
  {
  }

  lemma ReachesStop(files: seq<File>, db: Db, plan: seq<Op>, budget: nat, now: Db, rest: seq<Op>, left: nat, late: bool)
    requires Reaches(files, db, plan, budget, now, rest, left, late)
    requires rest == [] || Conflicts(files, now, rest[0]) || left == 0
    ensures Execute(files, db, plan, budget, late) ==
      if rest == [] || Conflicts(files, now, rest[0]) || !late then now else Do(files, now, rest[0])
    ensures |plan| - budget == |rest| - left
  {
  }

  /** A plan that runs through does so with any budget that is at least its length. */
  lemma {:induction false} EnoughBudget(files: seq<File>, db: Db, plan: seq<Op>, a: nat, b: nat, late: bool)
    requires (forall k :: 0 <= k < |plan| ==> Known(files, plan[k])) && a >= |plan| && b >= |plan|
    ensures Execute(files, db, plan, a, late) == Execute(files, db, plan, b, false)
    decreases |plan|
  {
    if plan != [] && !Conflicts(files, db, plan[0]) {
      EnoughBudget(files, Do(files, db, plan[0]), plan[1..], a - 1, b - 1, late);
    }
  }

  // ---------------------------------------------------------------------------------------
  // The program

  /** A database client whose calls succeed until the budget is used up. */
  class Client {
    var versions: set<int>
    var log: seq<Op>
    var budget: nat
    var late: bool

    ghost function Value(): Db
      reads this
    {
      Db(versions, log)
    }

    method GetCurrentVersion() returns (version: int)
      ensures version == Current(versions)
    {
      version := 0;
      if versions != {} {
        MaxExists(versions);
        version :| IsMax(version, versions);
      }
    }

    /** One call. */
    method Call(files: seq<File>, op: Op) returns (ok: bool)
      requires Known(files, op)
      modifies this
      ensures late == old(late)
      ensures ok <==> !Conflicts(files, old(Value()), op) && old(budget) > 0
      ensures if Conflicts(files, old(Value()), op) || (old(budget) == 0 && !late) then Value() == old(Value())
              else Value() == Do(files, old(Value()), op)
      ensures ok ==> budget == old(budget) - 1
    {
      if op.Record? && files[op.file].version in versions {
        return false;
      }
      if budget == 0 && !late {
        return false;
      }
      if op.Record? {
        versions := versions + {files[op.file].version};
      }
      log := log + [op];
      ok := budget > 0;
      budget := if ok then budget - 1 else 0;
    }

    /** Calls the statements of every file above the current version, in order, and records each version. */
    method Migrate(files: seq<File>) returns (ok: bool)
      modifies this
      ensures Value() == Attempt(files, old(Value()), old(budget), old(late))
      ensures ok ==> Value() == Uninterrupted(files, old(Value()))
    {
      hide Execute, Do, Conflicts, Reaches, Plan, FileOps;
      ghost var before, allowed := Value(), budget;
      var current := GetCurrentVersion();
      ghost var plan := Plan(files, current, 0);
      PlanKnown(files, current, 0);
      ReachesStart(files, before, plan, allowed, late);
      for i := 0 to |files|
        invariant late == old(late)
        invariant Reaches(files, before, plan, allowed, Value(), Plan(files, current, i), budget, late)
      {
        PlanFile(files, current, i);
        if files[i].version <= current {
          continue;
        }
        ghost var execs, rest := Execs(i, |files[i].statements|), [Record(i)] + Plan(files, current, i + 1);
        assert execs[0..] + rest == Plan(files, current, i);
        for j := 0 to |files[i].statements|
          invariant late == old(late)
          invariant Reaches(files, before, plan, allowed, Value(), execs[j..] + rest, budget, late)
        {
          ghost var now, left := Value(), budget;
          assert (execs[j..] + rest)[0] == Exec(i, j) && (execs[j..] + rest)[1..] == execs[j + 1..] + rest;
          ok := Call(files, Exec(i, j));
          if !ok {
            ReachesStop(files, before, plan, allowed, now, execs[j..] + rest, left, late);
            return false;
          }
          ReachesNext(files, before, plan, allowed, now, execs[j..] + rest, left, late);
        }
        assert execs[|execs|..] + rest == rest;
        ghost var now, left := Value(), budget;
        ok := Call(files, Record(i));
        if !ok {
          ReachesStop(files, before, plan, allowed, now, rest, left, late);
          return false;
        }
        ReachesNext(files, before, plan, allowed, now, rest, left, late);
        assert rest[1..] == Plan(files, current, i + 1);
      }

      PlanEnd(files, current);
      ReachesStop(files, before, plan, allowed, Value(), [], budget, late);
      EnoughBudget(files, before, plan, allowed, |plan|, late);
      ok := true;
    }
  }
}
