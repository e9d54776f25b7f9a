/** The install job ledger: a table of rows with never-reused ids, and what its
    operations keep true over any run. */
module Jobs {
  import opened Basics
  import opened TextLines

  datatype Status = Waiting | Running | Done | Failed | Cancelled {
    predicate IsTerminal() { Done? || Failed? || Cancelled? }
  }

  datatype Job = Job(
    id: nat, instance: string, key: string, kind: string, title: string, plan: string,
    status: Status, stage: Option<string>, progress: int, error: Option<string>,
    stderrTail: Option<string>, exitCode: Option<int>,
    createdAt: nat, startedAt: Option<nat>, finishedAt: Option<nat>)

  /** The table, in id order, and the last id ever given out. */
  datatype Db = Db(rows: seq<Job>, last: nat)

  predicate Valid(db: Db) {
    && InIdOrder(db.rows)
    && (forall i :: 0 <= i < |db.rows| ==> db.rows[i].id <= db.last)
  }

  // ----- single statements -----

  /** The index of a row, or the table's length. */
  function Find(rows: seq<Job>, id: nat): (i: nat)
    ensures i <= |rows|
    ensures i < |rows| ==> rows[i].id == id
    ensures forall j :: 0 <= j < i ==> rows[j].id != id
  {
    if rows == [] || rows[0].id == id then 0 else 1 + Find(rows[1..], id)
  }

  function FindRow(rows: seq<Job>, id: nat): Option<Job> {
    var i := Find(rows, id);
    if i < |rows| then Some(rows[i]) else None
  }

  function Get(db: Db, id: nat): Option<Job> { FindRow(db.rows, id) }

  /** `UPDATE … WHERE id = ?`: nothing happens to a missing row. */
  function Put(db: Db, id: nat, job: Job): Db {
    var i := Find(db.rows, id);
    if i < |db.rows| then db.(rows := db.rows[i := job]) else db
  }

  predicate IsWaiting(j: Job, instance: string) { j.status == Waiting && j.instance == instance }

  /** `created_at ASC, id ASC` */
  predicate Older(a: Job, b: Job) {
    a.createdAt < b.createdAt || (a.createdAt == b.createdAt && a.id < b.id)
  }

  /** The row `SELECT … ORDER BY created_at ASC, id ASC LIMIT 1` picks among the first `n`. */
  function Oldest(rows: seq<Job>, instance: string): (r: Option<Job>)
    ensures r.Some? ==> r.value in rows && IsWaiting(r.value, instance)
    ensures forall j :: j in rows && IsWaiting(j, instance) ==> r.Some? && (j == r.value || !Older(j, r.value))
  {
    if rows == [] then None
    else
      var front, b := rows[..|rows| - 1], rows[|rows| - 1];
      var a := Oldest(front, instance);
      assert forall j :: j in rows <==> j in front || j == b;
      if !IsWaiting(b, instance) then a
      else if a.Some? && !Older(b, a.value) then a
      else Some(b)
  }

  // ----- operations -----

  datatype Op =
    | Create(instance: string, key: string, kind: string, title: string, plan: string, now: nat)
    | ClaimNext(instance: string, now: nat)
    | MarkRunning(id: nat, stage: string, now: nat)
    | UpdateProgress(id: nat, stage: string, progress: int)
    | AppendStderr(id: nat, line: string)
    | MarkDone(id: nat, now: nat)
    | MarkFailed(id: nat, error: string, exitCode: Option<int>, now: nat)
    | InterruptStale(maxAge: nat, now: nat, stamp: nat -> nat)
    | CancelIfWaiting(id: nat, now: nat)
    | Delete(id: nat)
    | ClearFinished

  const LOST_WORKER := "interrupted — the launcher exited or the worker was lost mid-run; retry"

  const TAIL_LINES: nat := 8

  function LastLines(ls: seq<string>): seq<string> {
    if |ls| > TAIL_LINES then ls[|ls| - TAIL_LINES..] else ls
  }

  function AppendTail(tail: Option<string>, line: string): string {
    Join(LastLines((match tail case Some(s) => Split(s) case None => []) + [line]))
  }

  /** A running row that began at or before the bound, or never stamped a start. */
  predicate Stale(j: Job, bound: nat) {
    j.status == Running && (j.startedAt.None? || j.startedAt.value <= bound)
  }

  function SaturatingSub(a: nat, b: nat): nat { if a >= b then a - b else 0 }

  function Interrupted(j: Job, bound: nat, stamp: nat -> nat): Job {
    if Stale(j, bound) then j.(status := Failed, error := Some(LOST_WORKER), finishedAt := Some(stamp(j.id))) else j
  }

  function InterruptRows(rows: seq<Job>, bound: nat, stamp: nat -> nat): (out: seq<Job>)
    ensures |out| == |rows|
    ensures forall i :: 0 <= i < |rows| ==> out[i] == Interrupted(rows[i], bound, stamp)
  {
    if rows == [] then [] else [Interrupted(rows[0], bound, stamp)] + InterruptRows(rows[1..], bound, stamp)
  }

  function Keep(rows: seq<Job>, dropped: Job -> bool): seq<Job> {
    if rows == [] then [] else (if dropped(rows[0]) then [] else [rows[0]]) + Keep(rows[1..], dropped)
  }

  function NewJob(id: nat, op: Op): Job
    requires op.Create?
  {
    Job(id, op.instance, op.key, op.kind, op.title, op.plan, Waiting, None, 0, None, None, None, op.now, None, None)
  }

  /** What an operation makes of the row it names. */
  function Edited(j: Job, op: Op): Job {
    match op
    case MarkRunning(_, stage, now) => j.(status := Running, stage := Some(stage), startedAt := Some(now))
    case UpdateProgress(_, stage, progress) => j.(stage := Some(stage), progress := progress)
    case AppendStderr(_, line) => j.(stderrTail := Some(AppendTail(j.stderrTail, line)))
    case MarkDone(_, now) => j.(status := Done, progress := 100, finishedAt := Some(now))
    case MarkFailed(_, error, code, now) =>
      j.(status := Failed, error := Some(error), exitCode := code, finishedAt := Some(now))
    case CancelIfWaiting(_, now) =>
      if j.status == Waiting then j.(status := Cancelled, finishedAt := Some(now)) else j
    case _ => j
  }

  /** The table after an operation. */
  function Apply(db: Db, op: Op): Db {
    match op
    case Create(_, _, _, _, _, _) => Db(db.rows + [NewJob(db.last + 1, op)], db.last + 1)
    case ClaimNext(instance, now) =>
      (match Oldest(db.rows, instance)
       case None => db
       case Some(j) => Put(db, j.id, j.(status := Running, startedAt := Some(now))))
    case InterruptStale(maxAge, now, stamp) =>
      db.(rows := InterruptRows(db.rows, SaturatingSub(now, maxAge), stamp))
    case Delete(id) => db.(rows := Keep(db.rows, (j: Job) => j.id == id))
    case ClearFinished => db.(rows := Keep(db.rows, (j: Job) => j.status.IsTerminal()))
    case _ =>
      (match Get(db, op.id) case None => db case Some(j) => Put(db, op.id, Edited(j, op)))
  }

  /** The id `claim_next` hands to its caller. */
  function Claimed(db: Db, op: Op): (r: Option<nat>)
    ensures r.Some? ==> op.ClaimNext?
  {
    if op.ClaimNext? then
      (match Oldest(db.rows, op.instance) case None => None case Some(j) => Some(j.id))
    else None
  }

  function Run(db: Db, ops: seq<Op>): Db
    decreases |ops|
  {
    if ops == [] then db else Run(Apply(db, ops[0]), ops[1..])
  }

  /** The ids claimed for an instance along a run, in order; every instance when `None`. */
  function Claims(db: Db, ops: seq<Op>, of_: Option<string>): seq<nat>
    decreases |ops|
  {
    if ops == [] then []
    else
      var c := Claimed(db, ops[0]);
      (if c.Some? && (of_.None? || of_.value == ops[0].instance) then [c.value] else [])
      + Claims(Apply(db, ops[0]), ops[1..], of_)
  }

  // ----- every row of the new table, traced back -----

  lemma {:induction false} KeepMember(rows: seq<Job>, dropped: Job -> bool, j: Job)
    ensures j in Keep(rows, dropped) <==> j in rows && !dropped(j)
  {
    if rows != [] { KeepMember(rows[1..], dropped, j); }
  }

  predicate InIdOrder(rows: seq<Job>) {
    forall i, j :: 0 <= i < j < |rows| ==> rows[i].id < rows[j].id
  }

  lemma {:induction false} KeepSorted(rows: seq<Job>, dropped: Job -> bool)
    requires InIdOrder(rows)
    ensures InIdOrder(Keep(rows, dropped))
  {
    if rows != [] {
      var rest := Keep(rows[1..], dropped);
      assert forall i :: 0 <= i < |rows[1..]| ==> rows[1..][i] == rows[i + 1];
      KeepSorted(rows[1..], dropped);
      forall k | 0 <= k < |rest| ensures rows[0].id < rest[k].id {
        KeepMember(rows[1..], dropped, rest[k]);
        var m :| 0 <= m < |rows[1..]| && rows[1..][m] == rest[k];
        assert rows[m + 1] == rest[k];
      }
    }
  }

  /** A row of the new table is new, or stems from the old row of the same id. */
  ghost predicate StemsFrom(db: Db, op: Op, j: Job) {
    || (op.Create? && j == NewJob(db.last + 1, op))
    || (op.ClaimNext? && exists o :: o in db.rows && Oldest(db.rows, op.instance) == Some(o)
                                   && j == o.(status := Running, startedAt := Some(op.now)))
    || (op.InterruptStale? && exists o :: o in db.rows && Stale(o, SaturatingSub(op.now, op.maxAge))
                                        && j == Interrupted(o, SaturatingSub(op.now, op.maxAge), op.stamp))
    || (!op.Create? && !op.ClaimNext? && !op.InterruptStale? && !op.Delete? && !op.ClearFinished?
        && exists o :: o in db.rows && o.id == op.id && j == Edited(o, op))
    || (j in db.rows)
  }

  lemma {:induction false} PutMember(db: Db, id: nat, job: Job, j: Job)
    requires j in Put(db, id, job).rows
    ensures j == job || j in db.rows
  {
  }

  lemma {:induction false} RowsStem(db: Db, op: Op, j: Job)
    requires j in Apply(db, op).rows
    ensures StemsFrom(db, op, j)
  {
    match op
    case Create(_, _, _, _, _, _) =>
    case ClaimNext(instance, now) =>
      var o := Oldest(db.rows, instance);
      if o.Some? { PutMember(db, o.value.id, o.value.(status := Running, startedAt := Some(now)), j); }
    case InterruptStale(maxAge, now, stamp) =>
      var bound := SaturatingSub(now, maxAge);
      var i :| 0 <= i < |db.rows| && Apply(db, op).rows[i] == j;
      assert db.rows[i] in db.rows;
      assert j == Interrupted(db.rows[i], bound, stamp);
    case Delete(id) => KeepMember(db.rows, (j: Job) => j.id == id, j);
    case ClearFinished => KeepMember(db.rows, (j: Job) => j.status.IsTerminal(), j);
    case _ =>
      var o := Get(db, op.id);
      if o.Some? {
        assert o.value in db.rows;
        PutMember(db, op.id, Edited(o.value, op), j);
      }
  }

  lemma {:induction false} PutValid(db: Db, id: nat, job: Job)
    requires Valid(db) && job.id == id
    ensures Valid(Put(db, id, job)) && Put(db, id, job).last == db.last
  {
  }

  lemma {:induction false} KeepValid(db: Db, dropped: Job -> bool)
    requires Valid(db)
    ensures Valid(db.(rows := Keep(db.rows, dropped)))
  {
    KeepSorted(db.rows, dropped);
    forall i | 0 <= i < |Keep(db.rows, dropped)| ensures Keep(db.rows, dropped)[i].id <= db.last {
      KeepMember(db.rows, dropped, Keep(db.rows, dropped)[i]);
    }
  }

  lemma {:induction false} GrowValid(db: Db, op: Op)
    requires Valid(db) && (op.Create? || op.InterruptStale?)
    ensures Valid(Apply(db, op)) && db.last <= Apply(db, op).last
  {
  }

  /** Ids stay distinct, in order, and below the counter, so no id is ever given out twice. */
  lemma {:induction false} ApplyValid(db: Db, op: Op)
    requires Valid(db)
    ensures Valid(Apply(db, op)) && db.last <= Apply(db, op).last
  {
    hide Put, Valid;
    match op
    case Create(_, _, _, _, _, _) => GrowValid(db, op);
    case ClaimNext(instance, now) =>
      var o := Oldest(db.rows, instance);
      if o.Some? { PutValid(db, o.value.id, o.value.(status := Running, startedAt := Some(now))); }
    case InterruptStale(_, _, _) => GrowValid(db, op);
    case Delete(id) => KeepValid(db, (j: Job) => j.id == id);
    case ClearFinished => KeepValid(db, (j: Job) => j.status.IsTerminal());
    case _ =>
      var o := Get(db, op.id);
      if o.Some? { PutValid(db, op.id, Edited(o.value, op)); }
  }

  // ----- bookkeeping -----

  /** Running rows carry a start, terminal rows an end. */
  predicate Stamped(j: Job) {
    (j.status == Running ==> j.startedAt.Some?) && (j.status.IsTerminal() ==> j.finishedAt.Some?)
  }

  predicate AllStamped(db: Db) {
    forall j :: j in db.rows ==> Stamped(j)
  }

  lemma {:induction false} StampedOverRuns(db: Db, ops: seq<Op>)
    requires AllStamped(db)
    ensures AllStamped(Run(db, ops))
    decreases |ops|
  {
    if ops != [] {
      forall j | j in Apply(db, ops[0]).rows ensures Stamped(j) { RowsStem(db, ops[0], j); }
      StampedOverRuns(Apply(db, ops[0]), ops[1..]);
    }
  }

  // ----- a claimed job never waits again -----

  predicate NotWaiting(db: Db, id: nat) {
    forall j :: j in db.rows && j.id == id ==> j.status != Waiting
  }

  lemma {:induction false} NeverWaitsAgain(db: Db, op: Op, id: nat)
    requires Valid(db) && NotWaiting(db, id) && id <= db.last
    ensures NotWaiting(Apply(db, op), id) && Claimed(db, op) != Some(id)
  {
    forall j | j in Apply(db, op).rows && j.id == id ensures j.status != Waiting {
      RowsStem(db, op, j);
    }
  }

  lemma {:induction false} ClaimLeavesQueue(db: Db, op: Op)
    requires Valid(db) && Claimed(db, op).Some?
    ensures NotWaiting(Apply(db, op), Claimed(db, op).value) && Claimed(db, op).value <= Apply(db, op).last
  {
    var o := Oldest(db.rows, op.instance).value;
    var i := Find(db.rows, o.id);
    assert exists k :: 0 <= k < |db.rows| && db.rows[k] == o;
    var rows := Apply(db, op).rows;
    assert rows == db.rows[i := o.(status := Running, startedAt := Some(op.now))];
    forall j | j in rows && j.id == o.id ensures j.status != Waiting {
      var k :| 0 <= k < |rows| && rows[k] == j;
      assert k == i;
    }
  }

  lemma {:induction false} NotClaimedLater(db: Db, ops: seq<Op>, id: nat)
    requires Valid(db) && NotWaiting(db, id) && id <= db.last
    ensures id !in Claims(db, ops, None)
    decreases |ops|
  {
    if ops != [] {
      NeverWaitsAgain(db, ops[0], id);
      ApplyValid(db, ops[0]);
      NotClaimedLater(Apply(db, ops[0]), ops[1..], id);
    }
  }

  /** Whatever is done to the ledger, no job is handed to an executor twice. */
  lemma {:induction false} ClaimedOnce(db: Db, ops: seq<Op>)
    requires Valid(db)
    ensures var c := Claims(db, ops, None); forall i, j :: 0 <= i < j < |c| ==> c[i] != c[j]
    decreases |ops|
  {
    if ops != [] {
      ApplyValid(db, ops[0]);
      var rest := Claims(Apply(db, ops[0]), ops[1..], None);
      ClaimedOnce(Apply(db, ops[0]), ops[1..]);
      var c := Claimed(db, ops[0]);
      if c.Some? {
        ClaimLeavesQueue(db, ops[0]);
        NotClaimedLater(Apply(db, ops[0]), ops[1..], c.value);
        assert forall k :: 0 <= k < |rest| ==> rest[k] in rest;
      }
    }
  }

  // ----- first in, first out -----

  /** Rows were created in id order, none after `now`. */
  predicate Chronological(db: Db, now: nat) {
    && (forall a, b :: a in db.rows && b in db.rows && a.id < b.id ==> a.createdAt <= b.createdAt)
    && (forall a :: a in db.rows ==> a.createdAt <= now)
  }

  /** The creations of a run happen at non-decreasing times, from `now` on. */
  predicate ClockRuns(ops: seq<Op>, now: nat)
    decreases |ops|
  {
    ops == []
    || (if ops[0].Create? then ops[0].now >= now && ClockRuns(ops[1..], ops[0].now) else ClockRuns(ops[1..], now))
  }

  function ClockAfter(op: Op, now: nat): nat { if op.Create? then op.now else now }

  lemma {:induction false} SameOrigin(db: Db, op: Op, j: Job)
    requires j in Apply(db, op).rows
    ensures (op.Create? && j == NewJob(db.last + 1, op))
         || (exists o :: o in db.rows && o.id == j.id && o.createdAt == j.createdAt && o.instance == j.instance
                         && (j.status == Waiting ==> o.status == Waiting))
  {
    RowsStem(db, op, j);
  }

  lemma {:induction false} StaysChronological(db: Db, op: Op, now: nat)
    requires Valid(db) && Chronological(db, now) && (op.Create? ==> op.now >= now)
    ensures Chronological(Apply(db, op), ClockAfter(op, now))
  {
    var rows := Apply(db, op).rows;
    forall a | a in rows ensures a.createdAt <= ClockAfter(op, now) { SameOrigin(db, op, a); }
    forall a, b | a in rows && b in rows && a.id < b.id ensures a.createdAt <= b.createdAt {
      SameOrigin(db, op, a);
      SameOrigin(db, op, b);
    }
  }

  /** In a chronological table the claim takes the waiting job with the smallest id. */
  lemma {:induction false} ClaimTakesFirst(db: Db, op: Op, now: nat, j: Job)
    requires Valid(db) && Chronological(db, now) && op.ClaimNext? && j in db.rows && IsWaiting(j, op.instance)
    ensures Claimed(db, op).Some? && Claimed(db, op).value <= j.id
  {
    var o := Oldest(db.rows, op.instance).value;
    assert o.id > j.id ==> j.createdAt <= o.createdAt;
  }

  predicate NoneWaitingUpTo(db: Db, instance: string, id: nat) {
    forall j :: j in db.rows && IsWaiting(j, instance) ==> j.id > id
  }

  lemma {:induction false} QueueMovesOn(db: Db, op: Op, now: nat, instance: string, id: nat)
    requires Valid(db) && NoneWaitingUpTo(db, instance, id) && id <= db.last
    ensures NoneWaitingUpTo(Apply(db, op), instance, id)
  {
    forall j | j in Apply(db, op).rows && IsWaiting(j, instance) ensures j.id > id { SameOrigin(db, op, j); }
  }

  lemma {:induction false} ClaimMovesOn(db: Db, op: Op, now: nat)
    requires Valid(db) && Chronological(db, now) && Claimed(db, op).Some?
    ensures NoneWaitingUpTo(Apply(db, op), op.instance, Claimed(db, op).value)
  {
    ClaimLeavesQueue(db, op);
    forall j | j in Apply(db, op).rows && IsWaiting(j, op.instance) ensures j.id > Claimed(db, op).value {
      SameOrigin(db, op, j);
      var o :| o in db.rows && o.id == j.id && o.instance == j.instance && o.status == Waiting;
      ClaimTakesFirst(db, op, now, o);
    }
  }

  lemma {:induction false} ClaimsBeyond(db: Db, ops: seq<Op>, now: nat, instance: string, id: nat)
    requires Valid(db) && Chronological(db, now) && ClockRuns(ops, now)
    requires NoneWaitingUpTo(db, instance, id) && id <= db.last
    ensures forall c :: c in Claims(db, ops, Some(instance)) ==> c > id
    decreases |ops|
  {
    if ops != [] {
      ApplyValid(db, ops[0]);
      StaysChronological(db, ops[0], now);
      QueueMovesOn(db, ops[0], now, instance, id);
      ClaimsBeyond(Apply(db, ops[0]), ops[1..], ClockAfter(ops[0], now), instance, id);
    }
  }

  predicate Increasing(c: seq<nat>) {
    forall i, j :: 0 <= i < j < |c| ==> c[i] < c[j]
  }

  /** With a clock that does not run backwards the jobs of an instance are claimed in the order they were created. */
  lemma {:induction false} ClaimsIncrease(db: Db, ops: seq<Op>, now: nat, instance: string)
    requires Valid(db) && Chronological(db, now) && ClockRuns(ops, now)
    ensures Increasing(Claims(db, ops, Some(instance)))
    decreases |ops|
  {
    hide Apply, Claimed, Valid, Chronological;
    if ops != [] {
      var op := ops[0];
      ApplyValid(db, op);
      StaysChronological(db, op, now);
      ClaimsIncrease(Apply(db, op), ops[1..], ClockAfter(op, now), instance);
      var rest := Claims(Apply(db, op), ops[1..], Some(instance));
      if Claimed(db, op).Some? && op.instance == instance {
        ClaimLeavesQueue(db, op);
        ClaimMovesOn(db, op, now);
        ClaimsBeyond(Apply(db, op), ops[1..], ClockAfter(op, now), instance, Claimed(db, op).value);
        assert forall k :: 0 <= k < |rest| ==> rest[k] in rest;
        assert Claims(db, ops, Some(instance)) == [Claimed(db, op).value] + rest;
      } else {
        assert Claims(db, ops, Some(instance)) == rest;
      }
    }
  }

  /** The jobs of the instance that wait ahead of job `id`. */
  ghost function Ahead(db: Db, instance: string, id: nat): set<nat> {
    set j | j in db.rows && IsWaiting(j, instance) && j.id < id :: j.id
  }

  predicate Waits(db: Db, instance: string, id: nat) {
    exists j :: j in db.rows && j.id == id && IsWaiting(j, instance)
  }

  /** The operation takes job `id` out of the queue by name. */
  predicate Removes(op: Op, id: nat) {
    match op
    case MarkRunning(x, _, _) => x == id
    case MarkDone(x, _) => x == id
    case MarkFailed(x, _, _, _) => x == id
    case CancelIfWaiting(x, _) => x == id
    case Delete(x) => x == id
    case _ => false
  }

  function ClaimCount(ops: seq<Op>, instance: string): nat {
    if ops == [] then 0
    else (if ops[0].ClaimNext? && ops[0].instance == instance then 1 else 0) + ClaimCount(ops[1..], instance)
  }

  lemma PutElsewhere(db: Db, id: nat, job: Job, k: nat)
    requires k < |db.rows| && db.rows[k].id != id
    ensures |Put(db, id, job).rows| == |db.rows| && Put(db, id, job).rows[k] == db.rows[k]
  {
  }

  lemma PutHere(db: Db, k: nat, job: Job)
    requires Valid(db) && k < |db.rows|
    ensures Get(db, db.rows[k].id) == Some(db.rows[k])
    ensures |Put(db, db.rows[k].id, job).rows| == |db.rows| && Put(db, db.rows[k].id, job).rows[k] == job
  {
  }

  lemma {:induction false} RowStays(db: Db, op: Op, j: Job)
    requires Valid(db) && j in db.rows && j.status == Waiting
    requires !Removes(op, j.id) && Claimed(db, op) != Some(j.id)
    ensures exists o :: o in Apply(db, op).rows && o.id == j.id && IsWaiting(o, j.instance)
  {
    hide Put, Get, Valid;
    var rows := Apply(db, op).rows;
    var k :| 0 <= k < |db.rows| && db.rows[k] == j;
    match op
    case Create(_, _, _, _, _, _) => assert rows[k] == j;
    case ClaimNext(instance, now) =>
      var o := Oldest(db.rows, instance);
      if o.Some? {
        PutElsewhere(db, o.value.id, o.value.(status := Running, startedAt := Some(now)), k);
        assert rows[k] == j;
      }
    case InterruptStale(_, _, _) => assert rows[k] == j;
    case Delete(id) => KeepMember(db.rows, (x: Job) => x.id == id, j);
    case ClearFinished => KeepMember(db.rows, (x: Job) => x.status.IsTerminal(), j);
    case UpdateProgress(_, _, _) => EditStays(db, op, j, k);
    case AppendStderr(_, _) => EditStays(db, op, j, k);
    case _ =>
      var o := Get(db, op.id);
      if o.Some? {
        PutElsewhere(db, op.id, Edited(o.value, op), k);
        assert rows[k] == j;
      }
  }

  lemma {:induction false} EditStays(db: Db, op: Op, j: Job, k: nat)
    requires Valid(db) && k < |db.rows| && db.rows[k] == j && j.status == Waiting
    requires op.UpdateProgress? || op.AppendStderr?
    ensures exists o :: o in Apply(db, op).rows && o.id == j.id && IsWaiting(o, j.instance)
  {
    hide Put, Get, Valid, AppendTail;
    var o, rows := Get(db, op.id), Apply(db, op).rows;
    if op.id == j.id {
      PutHere(db, k, Edited(j, op));
      assert rows[k] == Edited(j, op);
    } else {
      if o.Some? { PutElsewhere(db, op.id, Edited(o.value, op), k); }
      assert rows[k] == j;
    }
  }

  lemma {:induction false} StaysWaiting(db: Db, op: Op, instance: string, id: nat)
    requires Valid(db) && Waits(db, instance, id) && !Removes(op, id) && Claimed(db, op) != Some(id)
    ensures Waits(Apply(db, op), instance, id)
  {
    var j :| j in db.rows && j.id == id && IsWaiting(j, instance);
    RowStays(db, op, j);
  }

  /** No step lets anyone in ahead, and a claim of the instance takes one away. */
  lemma {:induction false} AheadShrinks(db: Db, op: Op, now: nat, instance: string, id: nat)
    requires Valid(db) && Chronological(db, now) && id <= db.last
    ensures Ahead(Apply(db, op), instance, id) <= Ahead(db, instance, id)
    ensures Claimed(db, op).Some? && op.instance == instance && Claimed(db, op).value < id ==>
              Claimed(db, op).value in Ahead(db, instance, id) - Ahead(Apply(db, op), instance, id)
  {
    forall x | x in Ahead(Apply(db, op), instance, id) ensures x in Ahead(db, instance, id) {
      var j :| j in Apply(db, op).rows && IsWaiting(j, instance) && j.id < id && j.id == x;
      SameOrigin(db, op, j);
    }
    if Claimed(db, op).Some? { ClaimLeavesQueue(db, op); }
  }

  /** A waiting job with k others ahead of it is handed out by the (k+1)-th claim of its instance at the
      latest, whatever else happens, unless some operation takes it out of the queue by its id. */
  lemma {:induction false} Reached(db: Db, ops: seq<Op>, now: nat, instance: string, id: nat)
    requires Valid(db) && Chronological(db, now) && ClockRuns(ops, now)
    requires Waits(db, instance, id) && id <= db.last
    requires forall i :: 0 <= i < |ops| ==> !Removes(ops[i], id)
    requires ClaimCount(ops, instance) > |Ahead(db, instance, id)|
    ensures id in Claims(db, ops, Some(instance))
    decreases |ops|
  {
    hide Apply, Claimed, Valid, Chronological, Waits, Ahead;
    var op, ahead := ops[0], Ahead(db, instance, id);
    var next := Apply(db, op);
    var claims := op.ClaimNext? && op.instance == instance;
    if claims { SomeClaimed(db, op, now, id); }
    if !(claims && Claimed(db, op) == Some(id)) {
      SomeoneElse(db, op, instance, id);
      StaysWaiting(db, op, instance, id);
      ApplyValid(db, op);
      StaysChronological(db, op, now);
      AheadShrinks(db, op, now, instance, id);
      SubsetSize(Ahead(next, instance, id), ahead);
      Reached(next, ops[1..], ClockAfter(op, now), instance, id);
    }
  }

  lemma {:induction false} SomeClaimed(db: Db, op: Op, now: nat, id: nat)
    requires Valid(db) && Chronological(db, now) && op.ClaimNext? && Waits(db, op.instance, id)
    ensures Claimed(db, op).Some? && Claimed(db, op).value <= id
  {
    var j :| j in db.rows && j.id == id && IsWaiting(j, op.instance);
    ClaimTakesFirst(db, op, now, j);
  }

  /** Only a claim of its own instance can hand the job out. */
  lemma {:induction false} SomeoneElse(db: Db, op: Op, instance: string, id: nat)
    requires Valid(db) && Waits(db, instance, id)
    ensures Claimed(db, op) == Some(id) ==> op.ClaimNext? && op.instance == instance
  {
    var j :| j in db.rows && j.id == id && IsWaiting(j, instance);
    if Claimed(db, op) == Some(id) {
      var o := Oldest(db.rows, op.instance).value;
      var a :| 0 <= a < |db.rows| && db.rows[a] == j;
      var b :| 0 <= b < |db.rows| && db.rows[b] == o;
      assert a == b;
    }
  }

  // ----- recovery after a restart -----

  /** The operation stamps a start. */
  predicate Starts(op: Op) { op.ClaimNext? || op.MarkRunning? }

  predicate StartedBy(db: Db, now: nat) {
    forall j :: j in db.rows && j.startedAt.Some? ==> j.startedAt.value <= now
  }

  lemma {:induction false} StartsOverRuns(db: Db, ops: seq<Op>, now: nat)
    requires StartedBy(db, now) && forall i :: 0 <= i < |ops| && Starts(ops[i]) ==> ops[i].now <= now
    ensures StartedBy(Run(db, ops), now)
    decreases |ops|
  {
    if ops != [] {
      forall j | j in Apply(db, ops[0]).rows && j.startedAt.Some? ensures j.startedAt.value <= now {
        RowsStem(db, ops[0], j);
      }
      assert forall i :: 0 <= i < |ops[1..]| ==> ops[1..][i] == ops[i + 1];
      StartsOverRuns(Apply(db, ops[0]), ops[1..], now);
    }
  }

  predicate NoneRunning(db: Db) {
    forall j :: j in db.rows ==> j.status != Running
  }

  /** Sweeping fails exactly the running rows that began too long ago; it clears the ledger of running
      rows exactly when every start lies at or before the bound. */
  lemma {:induction false} SweepClearsIff(db: Db, maxAge: nat, now: nat, stamp: nat -> nat)
    ensures var swept := Apply(db, InterruptStale(maxAge, now, stamp));
            && |swept.rows| == |db.rows|
            && (forall i :: 0 <= i < |db.rows| && db.rows[i].status != Running ==> swept.rows[i] == db.rows[i])
            && (NoneRunning(swept) <==>
                forall j :: j in db.rows && j.status == Running && j.startedAt.Some? ==>
                  j.startedAt.value <= SaturatingSub(now, maxAge))
  {
    var swept := Apply(db, InterruptStale(maxAge, now, stamp));
    var bound := SaturatingSub(now, maxAge);
    forall j | j in swept.rows && j.status == Running
      ensures j in db.rows && j.startedAt.Some? && j.startedAt.value > bound
    {
      var i :| 0 <= i < |swept.rows| && swept.rows[i] == j;
      assert db.rows[i] in db.rows;
    }
    forall j | j in db.rows && j.status == Running && j.startedAt.Some? && j.startedAt.value > bound
      ensures j in swept.rows
    {
      var i :| 0 <= i < |db.rows| && db.rows[i] == j;
      assert swept.rows[i] == j;
    }
  }

  /** After any run whose clock never passed `now`, the boot sweep leaves no running row and touches only
      the rows that were running. */
  lemma {:induction false} BootRecovery(db: Db, ops: seq<Op>, now: nat, stamp: nat -> nat)
    requires StartedBy(db, now) && forall i :: 0 <= i < |ops| && Starts(ops[i]) ==> ops[i].now <= now
    ensures var before := Run(db, ops);
            var swept := Apply(before, InterruptStale(0, now, stamp));
            && NoneRunning(swept) && |swept.rows| == |before.rows|
            && forall i :: 0 <= i < |before.rows| ==>
                 if before.rows[i].status == Running
                 then swept.rows[i] == before.rows[i].(status := Failed, error := Some(LOST_WORKER),
                                                       finishedAt := Some(stamp(before.rows[i].id)))
                 else swept.rows[i] == before.rows[i]
  {
    var before := Run(db, ops);
    StartsOverRuns(db, ops, now);
    SweepClearsIff(before, 0, now, stamp);
    var swept := Apply(before, InterruptStale(0, now, stamp));
    forall i | 0 <= i < |before.rows| && before.rows[i].status == Running ensures Stale(before.rows[i], now) {
      assert before.rows[i] in before.rows;
    }
  }

  // ----- the tail of the error stream -----

  function Tail(t: Option<string>, lines: seq<string>): Option<string>
    decreases |lines|
  {
    if lines == [] then t else Tail(Some(AppendTail(t, lines[0])), lines[1..])
  }

  function TailLines(t: Option<string>): seq<string> {
    match t case Some(s) => Split(s) case None => []
  }

  /** The cap counts an appended text as one line, so the stored tail keeps to eight lines exactly when
      the appended text fits beside the lines kept. */
  lemma {:induction false} TailCapIff(t: Option<string>, line: string)
    ensures var kept := if |TailLines(t)| >= TAIL_LINES then TAIL_LINES - 1 else |TailLines(t)|;
            && |Split(AppendTail(t, line))| == kept + |Split(line)|
            && (|Split(AppendTail(t, line))| <= TAIL_LINES <==> |Split(line)| <= TAIL_LINES - kept)
  {
    hide Split;
    var all := TailLines(t) + [line];
    var kept := LastLines(all)[..|LastLines(all)| - 1];
    assert LastLines(all) == kept + [line];
    if kept == [] {
      assert LastLines(all) == [line];
    } else {
      assert forall i :: 0 <= i < |kept| ==> kept[i] in TailLines(t);
      JoinConcat(kept, [line]);
      SplitConcat(Join(kept), line);
      SplitJoin(kept);
    }
  }

  /** One appended text of nine lines is such a tail. */
  lemma {:induction false} NineLinesOverflow(t: Option<string>, lines: seq<string>)
    requires |lines| == TAIL_LINES + 1 && NewlineFree(lines)
    ensures |Split(AppendTail(t, Join(lines)))| > TAIL_LINES
  {
    hide AppendTail;
    SplitJoin(lines);
    TailCapIff(t, Join(lines));
  }

  lemma {:induction false} TailStep(done: seq<string>, line: string)
    requires NewlineFree(done) && NoNewline(line)
    ensures AppendTail(if done == [] then None else Some(Join(LastLines(done))), line) == Join(LastLines(done + [line]))
  {
    if done != [] {
      SplitJoin(LastLines(done));
      assert LastLines(LastLines(done) + [line]) == LastLines(done + [line]);
    }
  }

  lemma {:induction false} TailFrom(done: seq<string>, lines: seq<string>)
    requires NewlineFree(done) && NewlineFree(lines) && lines != []
    ensures Tail(if done == [] then None else Some(Join(LastLines(done))), lines) == Some(Join(LastLines(done + lines)))
    decreases |lines|
  {
    hide AppendTail, LastLines, Join;
    TailStep(done, lines[0]);
    var next := done + [lines[0]];
    assert forall i :: 0 <= i < |lines[1..]| ==> lines[1..][i] in lines;
    if |lines| == 1 {
      assert lines == [lines[0]];
    } else {
      TailFrom(next, lines[1..]);
      assert next + lines[1..] == done + lines;
    }
  }

  // ----- the stored tail over runs -----

  /** The texts a run appends to the tail of job `id`. */
  function Appended(ops: seq<Op>, id: nat): seq<string> {
    if ops == [] then []
    else (if ops[0].AppendStderr? && ops[0].id == id then [ops[0].line] else []) + Appended(ops[1..], id)
  }

  lemma {:induction false} TheRow(db: Db, id: nat, j: Job)
    requires Valid(db)
    ensures Get(db, id) == Some(j) <==> j in db.rows && j.id == id
  {
    if j in db.rows && j.id == id {
      var k :| 0 <= k < |db.rows| && db.rows[k] == j;
      assert Find(db.rows, id) == k;
    }
  }

  /** A row that is gone does not come back. */
  lemma {:induction false} GoneStaysGone(db: Db, ops: seq<Op>, id: nat)
    requires Valid(db) && id <= db.last && Get(db, id) == None
    ensures Get(Run(db, ops), id) == None
    decreases |ops|
  {
    hide Get, Apply, StemsFrom;
    if ops != [] {
      var next := Apply(db, ops[0]);
      ApplyValid(db, ops[0]);
      if Get(next, id).Some? {
        var j := Get(next, id).value;
        TheRow(next, id, j);
        NoNewRow(db, ops[0], j);
      }
      GoneStaysGone(next, ops[1..], id);
    }
  }

  lemma {:induction false} NoNewRow(db: Db, op: Op, j: Job)
    requires Valid(db) && j in Apply(db, op).rows && j.id <= db.last
    ensures Get(db, j.id).Some?
  {
    SameOrigin(db, op, j);
    var o :| o in db.rows && o.id == j.id;
    TheRow(db, j.id, o);
  }

  /** An operation changes the tail of a row it keeps only by appending to that row. */
  lemma {:induction false} TailOfStep(db: Db, op: Op, j: Job, next: Job)
    requires Valid(db) && j in db.rows && next in Apply(db, op).rows && next.id == j.id
    ensures next.stderrTail
         == if op.AppendStderr? && op.id == j.id then Some(AppendTail(j.stderrTail, op.line)) else j.stderrTail
  {
    hide AppendTail;
    var k :| 0 <= k < |db.rows| && db.rows[k] == j;
    if op.AppendStderr? && op.id == j.id {
      PutHere(db, k, Edited(j, op));
      ApplyValid(db, op);
      assert Apply(db, op).rows[k] == Edited(j, op);
      TheRow(Apply(db, op), j.id, next);
      TheRow(Apply(db, op), j.id, Edited(j, op));
    } else {
      RowsStem(db, op, next);
      forall o | o in db.rows && o.id == j.id ensures o == j {
        TheRow(db, j.id, o);
        TheRow(db, j.id, j);
      }
    }
  }

  /** Over any run that keeps the row, its tail is what the appends to it make of the tail it had. */
  lemma {:induction false} TailOverRun(db: Db, ops: seq<Op>, id: nat)
    requires Valid(db) && Get(db, id).Some? && Get(Run(db, ops), id).Some?
    ensures Get(Run(db, ops), id).value.stderrTail == Tail(Get(db, id).value.stderrTail, Appended(ops, id))
    decreases |ops|
  {
    hide Apply, Get, AppendTail;
    if ops != [] {
      var op, j := ops[0], Get(db, id).value;
      var next := Apply(db, op);
      ApplyValid(db, op);
      TheRow(db, id, j);
      IdInRange(db, j);
      if Get(next, id) == None { GoneStaysGone(next, ops[1..], id); }
      var j' := Get(next, id).value;
      TheRow(next, id, j');
      TailOfStep(db, op, j, j');
      TailOverRun(next, ops[1..], id);
      AppendedStep(j.stderrTail, ops, id);
    }
  }

  lemma IdInRange(db: Db, j: Job)
    requires Valid(db) && j in db.rows
    ensures j.id <= db.last
  {
  }

  lemma AppendedStep(t: Option<string>, ops: seq<Op>, id: nat)
    requires ops != []
    ensures Tail(t, Appended(ops, id))
         == Tail(if ops[0].AppendStderr? && ops[0].id == id then Some(AppendTail(t, ops[0].line)) else t,
                 Appended(ops[1..], id))
  {
    hide AppendTail;
    var rest := Appended(ops[1..], id);
    if ops[0].AppendStderr? && ops[0].id == id {
      assert ([ops[0].line] + rest)[1..] == rest;
    } else {
      assert [] + rest == rest;
    }
  }

  /** Over any run of the ledger that keeps a job without a tail, whatever else happens in between, the stored
      tail is exactly the last eight of the lines appended to it. */
  lemma {:induction false} TailIsLastEight(db: Db, ops: seq<Op>, id: nat)
    requires Valid(db) && Get(db, id).Some? && Get(db, id).value.stderrTail == None
    requires Get(Run(db, ops), id).Some? && NewlineFree(Appended(ops, id))
    ensures var tail, lines := Get(Run(db, ops), id).value.stderrTail, Appended(ops, id);
            if lines == [] then tail == None
            else tail == Some(Join(LastLines(lines))) && Split(tail.value) == LastLines(lines)
  {
    hide Run, Get, AppendTail;
    var lines := Appended(ops, id);
    TailOverRun(db, ops, id);
    if lines != [] {
      TailFrom([], lines);
      assert [] + lines == lines;
      SplitJoin(LastLines(lines));
    }
  }

  // ----- the queue the drainer sees -----

  function Insert(j: Job, sorted: seq<Job>): seq<Job> {
    if sorted == [] || Older(j, sorted[0]) then [j] + sorted else [sorted[0]] + Insert(j, sorted[1..])
  }

  /** `SELECT … WHERE status = 'waiting' ORDER BY created_at ASC, id ASC` */
  function Queue(rows: seq<Job>, instance: string): seq<Job> {
    if rows == [] then []
    else if IsWaiting(rows[0], instance) then Insert(rows[0], Queue(rows[1..], instance))
    else Queue(rows[1..], instance)
  }

  /** `SELECT COUNT(*) … WHERE status = 'waiting'` */
  function Count(rows: seq<Job>, instance: string): nat {
    if rows == [] then 0 else (if IsWaiting(rows[0], instance) then 1 else 0) + Count(rows[1..], instance)
  }

  predicate Sorted(q: seq<Job>) {
    forall i, j :: 0 <= i < j < |q| ==> Older(q[i], q[j])
  }

  lemma {:induction false} InsertFacts(j: Job, q: seq<Job>)
    requires Sorted(q) && forall o :: o in q ==> o.id != j.id
    ensures Sorted(Insert(j, q)) && |Insert(j, q)| == |q| + 1
    ensures forall o :: o in Insert(j, q) <==> o == j || o in q
  {
    if q != [] && !Older(j, q[0]) {
      var rest := Insert(j, q[1..]);
      InsertFacts(j, q[1..]);
      forall k | 0 <= k < |rest| ensures Older(q[0], rest[k]) { assert rest[k] in rest; }
    } else if q != [] {
      forall k | 0 <= k < |q| ensures Older(j, q[k]) { assert k > 0 ==> Older(q[0], q[k]); }
    }
  }

  predicate DistinctIds(rows: seq<Job>) {
    forall i, j :: 0 <= i < j < |rows| ==> rows[i].id != rows[j].id
  }

  /** The list is sorted, holds exactly the waiting rows, and is as long as their count. */
  lemma {:induction false} QueueFacts(rows: seq<Job>, instance: string)
    requires DistinctIds(rows)
    ensures Sorted(Queue(rows, instance)) && |Queue(rows, instance)| == Count(rows, instance)
    ensures forall o :: o in Queue(rows, instance) <==> o in rows && IsWaiting(o, instance)
  {
    if rows != [] {
      var rest := rows[1..];
      assert rows == [rows[0]] + rest;
      assert forall o :: o in rest ==> o.id != rows[0].id;
      QueueFacts(rest, instance);
      if IsWaiting(rows[0], instance) { InsertFacts(rows[0], Queue(rest, instance)); }
    }
  }

  lemma HeadFirst(q: seq<Job>, j: Job)
    requires Sorted(q) && j in q
    ensures j == q[0] || Older(q[0], j)
  {
    var k :| 0 <= k < |q| && q[k] == j;
    assert k == 0 || Older(q[0], q[k]);
  }

  lemma {:induction false} SortedUnique(a: seq<Job>, b: seq<Job>)
    requires Sorted(a) && Sorted(b) && forall j :: j in a <==> j in b
    ensures a == b
  {
    assert a != [] ==> a[0] in b;
    assert b != [] ==> b[0] in a;
    if a != [] && b != [] {
      HeadFirst(a, b[0]);
      HeadFirst(b, a[0]);
      TailMembers(a);
      TailMembers(b);
      SortedUnique(a[1..], b[1..]);
      assert a == [a[0]] + a[1..] && b == [b[0]] + b[1..];
    }
  }

  lemma TailMembers(a: seq<Job>)
    requires a != [] && Sorted(a)
    ensures Sorted(a[1..]) && forall j :: j in a[1..] <==> j in a && j != a[0]
  {
    forall j | j in a[1..] ensures j in a && j != a[0] {
      var k :| 0 <= k < |a[1..]| && a[1..][k] == j;
      assert a[k + 1] == j && Older(a[0], a[k + 1]);
    }
    assert a == [a[0]] + a[1..];
  }

  /** A claim takes the head of the listed queue and leaves the rest of it; it finds nothing exactly when
      the waiting count is zero, which is what the drainer relies on before it retires. */
  lemma {:induction false} ClaimPopsQueue(db: Db, instance: string, now: nat)
    requires Valid(db)
    ensures var op := ClaimNext(instance, now);
            var q := Queue(db.rows, instance);
            && (Claimed(db, op) == None <==> Count(db.rows, instance) == 0)
            && (q != [] ==> Claimed(db, op) == Some(q[0].id) && Queue(Apply(db, op).rows, instance) == q[1..])
            && (q == [] ==> Apply(db, op) == db)
  {
    var op := ClaimNext(instance, now);
    var q := Queue(db.rows, instance);
    ValidDistinct(db);
    QueueFacts(db.rows, instance);
    if q != [] {
      assert q[0] in q;
      HeadIsOldest(db.rows, instance);
      ApplyValid(db, op);
      ValidDistinct(Apply(db, op));
      QueueFacts(Apply(db, op).rows, instance);
      TailMembers(q);
      forall j ensures j in Queue(Apply(db, op).rows, instance) <==> j in q[1..] { Popped(db, op, j); }
      SortedUnique(Queue(Apply(db, op).rows, instance), q[1..]);
    } else {
      NothingWaits(db.rows, instance);
    }
  }

  lemma NothingWaits(rows: seq<Job>, instance: string)
    requires DistinctIds(rows) && Queue(rows, instance) == []
    ensures Oldest(rows, instance) == None
  {
    QueueFacts(rows, instance);
    assert forall j :: j in rows ==> j !in Queue(rows, instance);
  }

  lemma ValidDistinct(db: Db)
    requires Valid(db)
    ensures DistinctIds(db.rows)
  {
  }

  lemma {:induction false} HeadIsOldest(rows: seq<Job>, instance: string)
    requires DistinctIds(rows) && Queue(rows, instance) != []
    ensures Oldest(rows, instance) == Some(Queue(rows, instance)[0])
  {
    var q := Queue(rows, instance);
    QueueFacts(rows, instance);
    assert q[0] in q;
    var o := Oldest(rows, instance).value;
    var k :| 0 <= k < |q| && q[k] == o;
    assert k > 0 ==> Older(q[0], o);
  }

  lemma {:induction false} Popped(db: Db, op: Op, j: Job)
    requires Valid(db) && Claimed(db, op).Some?
    ensures j in Apply(db, op).rows && IsWaiting(j, op.instance)
        <==> j in db.rows && IsWaiting(j, op.instance) && j != Oldest(db.rows, op.instance).value
  {
    var o := Oldest(db.rows, op.instance).value;
    var i := Find(db.rows, o.id);
    var at :| 0 <= at < |db.rows| && db.rows[at] == o;
    assert at == i;
    var claimed := o.(status := Running, startedAt := Some(op.now));
    assert Apply(db, op).rows == db.rows[i := claimed];
    if j in db.rows && j != o {
      var k :| 0 <= k < |db.rows| && db.rows[k] == j;
      assert Apply(db, op).rows[k] == j;
    }
  }

  // ----- the store -----

  /** The ids the sweep's query selects. */
  function StaleIds(rows: seq<Job>, bound: nat): seq<nat> {
    if rows == [] then [] else (if Stale(rows[0], bound) then [rows[0].id] else []) + StaleIds(rows[1..], bound)
  }

  lemma {:induction false} StaleIdsMembers(rows: seq<Job>, bound: nat, id: nat)
    ensures id in StaleIds(rows, bound) <==> exists j :: j in rows && j.id == id && Stale(j, bound)
  {
    if rows != [] { StaleIdsMembers(rows[1..], bound, id); }
  }

  /** The rows after the sweep has worked off the given ids. */
  predicate SweptSoFar(was: seq<Job>, rows: seq<Job>, done: seq<nat>, bound: nat, stamp: nat -> nat) {
    && |rows| == |was|
    && forall i :: 0 <= i < |was| ==> rows[i] == if was[i].id in done then Interrupted(was[i], bound, stamp) else was[i]
  }

  lemma {:induction false} SweepStep(was: seq<Job>, rows: seq<Job>, done: seq<nat>, bound: nat, stamp: nat -> nat,
                                     id: nat)
    requires DistinctIds(was) && SweptSoFar(was, rows, done, bound, stamp)
    requires id !in done && exists j :: j in was && j.id == id && Stale(j, bound)
    ensures var i := Find(rows, id);
            && i < |rows| && i < |was| && rows[i] == was[i] && Stale(was[i], bound)
            && SweptSoFar(was, rows[i := Interrupted(was[i], bound, stamp)], done + [id], bound, stamp)
  {
    var j :| j in was && j.id == id && Stale(j, bound);
    var k :| 0 <= k < |was| && was[k] == j;
    assert rows[k].id == id;
  }

  lemma {:induction false} SweptRow(was: seq<Job>, bound: nat, stamp: nat -> nat, i: nat)
    requires DistinctIds(was) && i < |was|
    ensures FindRow(InterruptRows(was, bound, stamp), was[i].id) == Some(Interrupted(was[i], bound, stamp))
  {
    var out := InterruptRows(was, bound, stamp);
    assert out[i].id == was[i].id;
    assert Find(out, was[i].id) == i;
  }

  lemma SweepStart(was: seq<Job>, bound: nat, stamp: nat -> nat)
    ensures SweptSoFar(was, was, [], bound, stamp)
  {
  }

  lemma StaleFails(j: Job, bound: nat, stamp: nat -> nat)
    requires Stale(j, bound)
    ensures Interrupted(j, bound, stamp)
         == j.(status := Failed, error := Some(LOST_WORKER), finishedAt := Some(stamp(j.id)))
  {
  }

  lemma {:induction false} SweepIteration(was: seq<Job>, rows: seq<Job>, n: nat, bound: nat, stamp: nat -> nat)
    requires DistinctIds(was) && n < |StaleIds(was, bound)|
    requires SweptSoFar(was, rows, StaleIds(was, bound)[..n], bound, stamp)
    ensures var ids := StaleIds(was, bound);
            var i := Find(rows, ids[n]);
            && i < |rows|
            && var job := rows[i].(status := Failed, error := Some(LOST_WORKER), finishedAt := Some(stamp(ids[n])));
               && SweptSoFar(was, rows[i := job], ids[..n + 1], bound, stamp)
               && FindRow(InterruptRows(was, bound, stamp), ids[n]) == Some(job)
  {
    hide SweptSoFar, Interrupted, Stale, InterruptRows, FindRow, DistinctIds, StaleIds;
    var ids := StaleIds(was, bound);
    StaleIdsDistinct(was, bound);
    StaleIdsMembers(was, bound, ids[n]);
    assert ids[n] in ids && ids[n] !in ids[..n];
    SweepStep(was, rows, ids[..n], bound, stamp, ids[n]);
    assert ids[..n + 1] == ids[..n] + [ids[n]];
    var i := Find(rows, ids[n]);
    SweptRow(was, bound, stamp, i);
    StaleFails(rows[i], bound, stamp);
  }

  lemma {:induction false} SweepEnd(was: seq<Job>, rows: seq<Job>, bound: nat, stamp: nat -> nat)
    requires DistinctIds(was) && SweptSoFar(was, rows, StaleIds(was, bound), bound, stamp)
    ensures rows == InterruptRows(was, bound, stamp)
  {
    forall i | 0 <= i < |was| ensures rows[i] == Interrupted(was[i], bound, stamp) {
      StaleIdsMembers(was, bound, was[i].id);
      assert was[i] in was;
    }
  }

  lemma {:induction false} StaleIdsDistinct(rows: seq<Job>, bound: nat)
    requires DistinctIds(rows)
    ensures var ids := StaleIds(rows, bound); forall i, j :: 0 <= i < j < |ids| ==> ids[i] != ids[j]
  {
    if rows != [] {
      StaleIdsDistinct(rows[1..], bound);
      StaleIdsMembers(rows[1..], bound, rows[0].id);
      var rest := StaleIds(rows[1..], bound);
      assert forall k :: 0 <= k < |rest| ==> rest[k] in rest;
    }
  }

  /** The store over its open connection; a call that finds its row missing returns `None`. */
  /** No row but the one of `id` has changed, come or gone. */
  predicate OthersStay(was: seq<Job>, rows: seq<Job>, id: nat) {
    |rows| == |was| && forall k :: 0 <= k < |was| ==> rows[k].id == was[k].id && (was[k].id != id ==> rows[k] == was[k])
  }

  class JobStore {
    var rows: seq<Job>
    var last: nat

    ghost function Contents(): Db
      reads this
    {
      Db(rows, last)
    }

    constructor ()
      ensures Contents() == Db([], 0) && Valid(Contents())
    {
      rows, last := [], 0;
    }

    /** `create` */
    method Create(instance: string, key: string, kind: string, title: string, plan: string, now: nat)
      returns (job: Job)
      requires Valid(Contents())
      modifies this
      ensures Contents() == Apply(old(Contents()), Op.Create(instance, key, kind, title, plan, now))
      ensures Valid(Contents()) && Get(Contents(), job.id) == Some(job)
      ensures job.id > old(last) && rows == old(rows) + [job]
      ensures job.instance == instance && job.key == key && job.kind == kind && job.title == title && job.plan == plan
      ensures job.status == Waiting && job.progress == 0 && job.createdAt == now
      ensures job.stage == job.error == job.stderrTail == None
      ensures job.exitCode == None && job.startedAt == job.finishedAt == None
    {
      ghost var was := Contents();
      last := last + 1;
      job := Job(last, instance, key, kind, title, plan, Waiting, None, 0, None, None, None, now, None, None);
      rows := rows + [job];
      ApplyValid(was, Op.Create(instance, key, kind, title, plan, now));
      assert rows[|rows| - 1] == job;
    }

    /** `claim_next` */
    method ClaimNext(instance: string, now: nat) returns (job: Option<Job>)
      requires Valid(Contents())
      modifies this
      ensures Contents() == Apply(old(Contents()), Op.ClaimNext(instance, now)) && Valid(Contents())
      ensures match Claimed(old(Contents()), Op.ClaimNext(instance, now))
              case None => job == None
              case Some(id) =>
                && job.Some? && job == Get(Contents(), id)
                && job.value.id == id && job.value.status == Running
      ensures job == None ==> rows == old(rows) && forall o :: o in rows ==> !IsWaiting(o, instance)
      ensures job.Some? ==>
                exists o :: o in old(rows) && IsWaiting(o, instance)
                         && job.value == o.(status := Running, startedAt := Some(now))
                         && OthersStay(old(rows), rows, o.id)
                         && forall p :: p in old(rows) && IsWaiting(p, instance) ==> !Older(p, o)
    {
      ghost var was := Contents();
      ApplyValid(was, Op.ClaimNext(instance, now));
      var oldest := Oldest(rows, instance);
      if oldest.None? { return None; }
      var i := Find(rows, oldest.value.id);
      ClaimLeavesQueue(was, Op.ClaimNext(instance, now));
      rows := rows[i := rows[i].(status := Running, startedAt := Some(now))];
      job := Some(rows[i]);
    }

    /** `list_waiting` */
    method ListWaiting(instance: string) returns (jobs: seq<Job>)
      requires Valid(Contents())
      ensures Sorted(jobs) && forall o :: o in jobs <==> o in rows && IsWaiting(o, instance)
    {
      QueueFacts(rows, instance);
      jobs := Queue(rows, instance);
    }

    /** `waiting_count` */
    method WaitingCount(instance: string) returns (n: nat)
      requires Valid(Contents())
      ensures n == |Queue(rows, instance)|
    {
      QueueFacts(rows, instance);
      n := Count(rows, instance);
    }

    /** `mark_running` */
    method MarkRunning(id: nat, stage: string, now: nat) returns (job: Option<Job>)
      modifies this
      ensures Contents() == Apply(old(Contents()), Op.MarkRunning(id, stage, now)) && job == Get(Contents(), id)
      ensures OthersStay(old(rows), rows, id) && (old(Get(Contents(), id)) == None ==> job == None && rows == old(rows))
      ensures old(Get(Contents(), id)).Some? ==>
                job == Some(old(Get(Contents(), id)).value.(status := Running, stage := Some(stage),
                                                            startedAt := Some(now)))
    {
      var i := Find(rows, id);
      if i < |rows| { rows := rows[i := rows[i].(status := Running, stage := Some(stage), startedAt := Some(now))]; }
      job := Read(id);
    }

    /** `update_progress` */
    method UpdateProgress(id: nat, stage: string, progress: int) returns (job: Option<Job>)
      modifies this
      ensures Contents() == Apply(old(Contents()), Op.UpdateProgress(id, stage, progress)) && job == Get(Contents(), id)
      ensures OthersStay(old(rows), rows, id) && (old(Get(Contents(), id)) == None ==> job == None && rows == old(rows))
      ensures old(Get(Contents(), id)).Some? ==>
                job == Some(old(Get(Contents(), id)).value.(stage := Some(stage), progress := progress))
    {
      var i := Find(rows, id);
      if i < |rows| { rows := rows[i := rows[i].(stage := Some(stage), progress := progress)]; }
      job := Read(id);
    }

    /** `append_stderr` */
    method AppendStderr(id: nat, line: string) returns (job: Option<Job>)
      modifies this
      ensures Contents() == Apply(old(Contents()), Op.AppendStderr(id, line)) && job == Get(Contents(), id)
      ensures OthersStay(old(rows), rows, id) && (old(Get(Contents(), id)) == None ==> job == None && rows == old(rows))
      ensures old(Get(Contents(), id)).Some? ==>
                job.Some? && job == Some(old(Get(Contents(), id)).value.(stderrTail := job.value.stderrTail))
    {
      hide Split, Join;
      var i := Find(rows, id);
      if i == |rows| { return None; }
      var lines := if rows[i].stderrTail.Some? then Split(rows[i].stderrTail.value) else [];
      lines := lines + [line];
      if |lines| > TAIL_LINES { lines := lines[|lines| - TAIL_LINES..]; }
      rows := rows[i := rows[i].(stderrTail := Some(Join(lines)))];
      job := Read(id);
    }

    /** `mark_done` */
    method MarkDone(id: nat, now: nat) returns (job: Option<Job>)
      modifies this
      ensures Contents() == Apply(old(Contents()), Op.MarkDone(id, now)) && job == Get(Contents(), id)
      ensures OthersStay(old(rows), rows, id) && (old(Get(Contents(), id)) == None ==> job == None && rows == old(rows))
      ensures old(Get(Contents(), id)).Some? ==>
                job == Some(old(Get(Contents(), id)).value.(status := Done, progress := 100, finishedAt := Some(now)))
    {
      var i := Find(rows, id);
      if i < |rows| { rows := rows[i := rows[i].(status := Done, progress := 100, finishedAt := Some(now))]; }
      job := Read(id);
    }

    /** `mark_failed` */
    method MarkFailed(id: nat, error: string, exitCode: Option<int>, now: nat) returns (job: Option<Job>)
      modifies this
      ensures Contents() == Apply(old(Contents()), Op.MarkFailed(id, error, exitCode, now))
      ensures job == Get(Contents(), id)
      ensures OthersStay(old(rows), rows, id) && (old(Get(Contents(), id)) == None ==> job == None && rows == old(rows))
      ensures old(Get(Contents(), id)).Some? ==>
                job == Some(old(Get(Contents(), id)).value.(status := Failed, error := Some(error),
                                                            exitCode := exitCode, finishedAt := Some(now)))
    {
      var i := Find(rows, id);
      if i < |rows| {
        rows := rows[i := rows[i].(status := Failed, error := Some(error), exitCode := exitCode,
                                   finishedAt := Some(now))];
      }
      job := Read(id);
    }

    /** The statement the sweep sends for one id. */
    method Interrupt(id: nat, now: nat) returns (job: Job)
      requires Find(rows, id) < |rows|
      modifies this`rows
      ensures var i := Find(old(rows), id);
              && rows == old(rows)[i := job]
              && job == old(rows)[i].(status := Failed, error := Some(LOST_WORKER), finishedAt := Some(now))
    {
      var i := Find(rows, id);
      rows := rows[i := rows[i].(status := Failed, error := Some(LOST_WORKER), finishedAt := Some(now))];
      job := rows[i];
    }

    /** `interrupt_stale_running`: collect the ids first, then fail them one by one. */
    method InterruptStaleRunning(maxAge: nat, now: nat, stamp: nat -> nat) returns (out: seq<Job>)
      requires Valid(Contents())
      modifies this
      ensures Contents() == Apply(old(Contents()), InterruptStale(maxAge, now, stamp))
      ensures |rows| == |old(rows)| && forall k :: 0 <= k < |rows| ==>
                var j := old(rows)[k];
                rows[k] == if j.status == Running && (j.startedAt.None? || j.startedAt.value + maxAge <= now
                                                      || (now < maxAge && j.startedAt.value == 0))
                           then j.(status := Failed, error := Some(LOST_WORKER), finishedAt := Some(stamp(j.id))) else j
      ensures |out| == |StaleIds(old(rows), SaturatingSub(now, maxAge))|
      ensures forall k :: 0 <= k < |out| ==>
                FindRow(rows, StaleIds(old(rows), SaturatingSub(now, maxAge))[k]) == Some(out[k])
    {
      hide SweptSoFar, Interrupted, Stale, InterruptRows, FindRow, DistinctIds, StaleIds, Find, Valid;
      var bound := SaturatingSub(now, maxAge);
      var ids := StaleIds(rows, bound);
      ghost var was, swept := rows, InterruptRows(rows, bound, stamp);
      ValidDistinct(Contents());
      SweepStart(was, bound, stamp);
      out := [];
      var n := 0;
      while n < |ids|
        invariant 0 <= n <= |ids| && last == old(last)
        invariant SweptSoFar(was, rows, ids[..n], bound, stamp)
        invariant |out| == n && forall k :: 0 <= k < n ==> FindRow(swept, ids[k]) == Some(out[k])
      {
        SweepIteration(was, rows, n, bound, stamp);
        var job := Interrupt(ids[n], stamp(ids[n]));
        out := out + [job];
        n := n + 1;
      }
      assert ids[..n] == ids;
      SweepEnd(was, rows, bound, stamp);
      SweptRows(was, maxAge, now, stamp);
    }

    /** `cancel_if_waiting` */
    method CancelIfWaiting(id: nat, now: nat) returns (job: Option<Job>)
      modifies this
      ensures Contents() == Apply(old(Contents()), Op.CancelIfWaiting(id, now)) && job == Get(Contents(), id)
      ensures OthersStay(old(rows), rows, id) && (old(Get(Contents(), id)) == None ==> job == None && rows == old(rows))
      ensures old(Get(Contents(), id)).Some? ==>
                var j := old(Get(Contents(), id)).value;
                job == Some(if j.status == Waiting then j.(status := Cancelled, finishedAt := Some(now)) else j)
    {
      var i := Find(rows, id);
      if i < |rows| && rows[i].status == Waiting {
        rows := rows[i := rows[i].(status := Cancelled, finishedAt := Some(now))];
      }
      job := Read(id);
    }

    /** `delete` */
    method Delete(id: nat)
      modifies this
      ensures Contents() == Apply(old(Contents()), Op.Delete(id))
      ensures forall j :: j in rows <==> j in old(rows) && j.id != id
      ensures old(InIdOrder(rows)) ==> InIdOrder(rows)
    {
      DropFacts(rows, (j: Job) => j.id == id);
      rows := Keep(rows, (j: Job) => j.id == id);
    }

    /** `clear_finished` */
    method ClearFinished() returns (removed: nat)
      modifies this
      ensures Contents() == Apply(old(Contents()), Op.ClearFinished)
      ensures removed == |old(rows)| - |rows|
      ensures forall j :: j in rows <==> j in old(rows) && (j.status == Waiting || j.status == Running)
      ensures old(InIdOrder(rows)) ==> InIdOrder(rows)
    {
      var n := |rows|;
      DropFacts(rows, (j: Job) => j.status.IsTerminal());
      KeepShrinks(rows, (j: Job) => j.status.IsTerminal());
      rows := Keep(rows, (j: Job) => j.status.IsTerminal());
      removed := n - |rows|;
    }

    /** `get_conn` */
    function Read(id: nat): (job: Option<Job>)
      reads this
      ensures job == Get(Contents(), id)
    {
      var i := Find(rows, id);
      if i < |rows| then Some(rows[i]) else None
    }
  }

  lemma SweptRows(was: seq<Job>, maxAge: nat, now: nat, stamp: nat -> nat)
    ensures var swept := InterruptRows(was, SaturatingSub(now, maxAge), stamp);
            |swept| == |was| && forall k :: 0 <= k < |was| ==>
              var j := was[k];
              swept[k] == if j.status == Running && (j.startedAt.None? || j.startedAt.value + maxAge <= now
                                                     || (now < maxAge && j.startedAt.value == 0))
                          then j.(status := Failed, error := Some(LOST_WORKER), finishedAt := Some(stamp(j.id))) else j
  {
  }

  /** What is kept is what is not dropped, in order. */
  lemma {:induction false} DropFacts(rows: seq<Job>, dropped: Job -> bool)
    ensures forall j :: j in Keep(rows, dropped) <==> j in rows && !dropped(j)
    ensures InIdOrder(rows) ==> InIdOrder(Keep(rows, dropped))
  {
    forall j ensures j in Keep(rows, dropped) <==> j in rows && !dropped(j) { KeepMember(rows, dropped, j); }
    if InIdOrder(rows) { KeepSorted(rows, dropped); }
  }

  lemma {:induction false} KeepShrinks(rows: seq<Job>, dropped: Job -> bool)
    ensures |Keep(rows, dropped)| <= |rows|
  {
    if rows != [] { KeepShrinks(rows[1..], dropped); }
  }
}
