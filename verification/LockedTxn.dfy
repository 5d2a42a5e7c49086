/**
 LockedTXN: a scoped guard that opens a database batch when none is open and is inert otherwise.
 The batch operations are those of the LMDB back end: batch_start answers false when a batch is open,
 batch_stop stores and closes, or throws before it starts and leaves the batch open, or fails to commit,
 closes the batch without storing it and throws; batch_abort rolls back and closes, or throws and leaves it open.
 Which of these happens is arbitrary.
 */
module LockedTxn {

  type Contents = map<string, string>

  /** What is on disk, what the open batch sees, and whether a batch is open. */
  datatype DbState = DbState(committed: Contents, working: Contents, open: bool)

  datatype StopFault = Stored | StopRefused | CommitFailed
  datatype AbortFault = RolledBack | AbortRefused

  datatype Guard = Guard(batch: bool, active: bool) {
    predicate Owns() {
      batch && active
    }
  }

  // ----- the batch operations and the guard, as functions of the state before -----

  /** batch_start: the state after it and whether it threw; a throw before the batch is open changes nothing. */
  function Begin(db: DbState, throws: bool): (DbState, bool) {
    if db.open then (db, false) else if throws then (db, true) else (db.(open := true), false)
  }

  /** batch_stop: the state after it and whether it threw. */
  function Stop(db: DbState, fault: StopFault): (DbState, bool) {
    if !db.open then (db, true)
    else match fault
      case Stored => (DbState(db.working, db.working, false), false)
      case StopRefused => (db, true)
      case CommitFailed => (DbState(db.committed, db.committed, false), true)
  }

  /** batch_abort: the state after it and whether it threw. */
  function Rollback(db: DbState, fault: AbortFault): (DbState, bool) {
    if !db.open then (db, true)
    else match fault
      case RolledBack => (DbState(db.committed, db.committed, false), false)
      case AbortRefused => (db, true)
  }

  /** Inside a batch a write stays in it; outside, it is its own transaction. */
  function Put(db: DbState, key: string, value: string): DbState {
    var working := db.working[key := value];
    if db.open then db.(working := working) else DbState(working, working, false)
  }

  function CommitGuard(db: DbState, g: Guard, fault: StopFault): (DbState, Guard) {
    if !g.Owns() then (db, g)
    else
      var (after, threw) := Stop(db, fault);
      (after, if threw then g else g.(active := false))
  }

  function AbortGuard(db: DbState, g: Guard, fault: AbortFault): (DbState, Guard) {
    if !g.Owns() then (db, g)
    else
      var (after, threw) := Rollback(db, fault);
      (after, if threw then g else g.(active := false))
  }

  // ----- the classes -----

  class BlockchainDb {
    var committed: Contents
    var working: Contents
    var open: bool

    ghost function View(): DbState
      reads this
    {
      DbState(committed, working, open)
    }

    constructor (contents: Contents)
      ensures View() == DbState(contents, contents, false)
    {
      committed, working, open := contents, contents, false;
    }

    /** True exactly when this call opened the batch; false when one is open already, or on a throw. */
    method BatchStart(throws: bool) returns (started: bool, threw: bool)
      modifies this
      ensures (View(), threw) == Begin(old(View()), throws)
      ensures started <==> !old(open) && open
    {
      if open { return false, false; }
      if throws { return false, true; }
      open := true;
      return true, false;
    }

    method BatchStop(fault: StopFault) returns (threw: bool)
      modifies this
      ensures (View(), threw) == Stop(old(View()), fault)
    {
      if !open { return true; }
      match fault {
        case Stored =>
          committed, open := working, false;
          threw := false;
        case StopRefused =>
          threw := true;
        case CommitFailed =>
          working, open := committed, false;
          threw := true;
      }
    }

    method BatchAbort(fault: AbortFault) returns (threw: bool)
      modifies this
      ensures (View(), threw) == Rollback(old(View()), fault)
    {
      threw := !open || fault == AbortRefused;
      if !threw {
        working, open := committed, false;
      }
    }

    method Write(key: string, value: string)
      modifies this
      ensures View() == Put(old(View()), key, value)
    {
      working := working[key := value];
      if !open { committed := working; }
    }
  }

  class LockedTXN {
    const db: BlockchainDb
    var batch: bool
    var active: bool

    ghost function View(): Guard
      reads this
    {
      Guard(batch, active)
    }

    /** The members before the body of the source's constructor. */
    constructor (db: BlockchainDb)
      ensures this.db == db && View() == Guard(false, false)
    {
      this.db := db;
      batch, active := false, false;
    }

    /** The source's constructor: there is no object when batch_start throws. */
    static method Construct(db: BlockchainDb, throws: bool) returns (guard: LockedTXN?)
      modifies db
      ensures db.View() == Begin(old(db.View()), throws).0
      ensures guard == null <==> Begin(old(db.View()), throws).1
      ensures guard != null ==> fresh(guard) && guard.db == db && guard.View() == Guard(!old(db.open), true)
    {
      guard := new LockedTXN(db);
      var started, threw := db.BatchStart(throws);
      if threw { return null; }
      guard.batch := started;
      guard.active := true;
    }

    method Commit(fault: StopFault)
      modifies this, db
      ensures (db.View(), View()) == CommitGuard(old(db.View()), old(View()), fault)
    {
      if batch && active {
        var threw := db.BatchStop(fault);
        if !threw { active := false; }
      }
    }

    /** Also the destructor. */
    method Abort(fault: AbortFault)
      modifies this, db
      ensures (db.View(), View()) == AbortGuard(old(db.View()), old(View()), fault)
    {
      if batch && active {
        var threw := db.BatchAbort(fault);
        if !threw { active := false; }
      }
    }
  }

  // ----- runs over a stack of live scopes -----

  datatype State = State(db: DbState, guards: seq<Guard>)

  /** Construct is arbitrary in whether batch_start throws; Destroy ends the innermost scope. */
  datatype Op =
    | Construct(throws: bool)
    | Commit(guard: nat, stop: StopFault)
    | Abort(guard: nat, rollback: AbortFault)
    | Destroy(rollback: AbortFault)
    | Write(key: string, value: string)

  function Step(s: State, op: Op): State {
    match op
    case Construct(throws) =>
      var (db, threw) := Begin(s.db, throws);
      if threw then s else State(db, s.guards + [Guard(!s.db.open, true)])
    case Commit(i, fault) =>
      if i >= |s.guards| then s
      else
        var (db, g) := CommitGuard(s.db, s.guards[i], fault);
        State(db, s.guards[i := g])
    case Abort(i, fault) =>
      if i >= |s.guards| then s
      else
        var (db, g) := AbortGuard(s.db, s.guards[i], fault);
        State(db, s.guards[i := g])
    case Destroy(fault) =>
      if s.guards == [] then s
      else
        var last := |s.guards| - 1;
        State(AbortGuard(s.db, s.guards[last], fault).0, s.guards[..last])
    case Write(key, value) => s.(db := Put(s.db, key, value))
  }

  function Run(s: State, ops: seq<Op>): State
    decreases ops
  {
    if ops == [] then s else Run(Step(s, ops[0]), ops[1..])
  }

  ghost predicate Owner(s: State, i: nat) {
    i < |s.guards| && s.guards[i].Owns()
  }

  /** At most one scope owns a batch, one does exactly when a batch is open, and nothing is unsaved outside a batch. */
  ghost predicate Inv(s: State) {
    && (forall i, j :: Owner(s, i) && Owner(s, j) ==> i == j)
    && (s.db.open <==> exists i :: Owner(s, i))
    && (!s.db.open ==> s.db.committed == s.db.working)
  }

  /** The two ways a step leaves owner and batch out of step: a commit that fails, a destructor that cannot abort. */
  ghost predicate Separates(s: State, op: Op) {
    || (op.Commit? && op.stop == CommitFailed && Owner(s, op.guard))
    || (op.Destroy? && op.rollback == AbortRefused && s.guards != [] && Owner(s, |s.guards| - 1))
  }

  lemma {:induction false} OwnerAt(s: State, i: nat)
    requires Inv(s) && Owner(s, i)
    ensures s.db.open && forall j :: Owner(s, j) <==> j == i
  {
  }

  lemma {:induction false} ConstructKeeps(s: State, throws: bool)
    requires Inv(s)
    ensures Inv(Step(s, Construct(throws)))
  {
    var t := Step(s, Construct(throws));
    assert forall i :: 0 <= i < |s.guards| && |t.guards| > |s.guards| ==> t.guards[i] == s.guards[i];
    if !throws && !s.db.open {
      assert Owner(t, |s.guards|);
      assert forall i :: Owner(t, i) ==> i == |s.guards| || Owner(s, i);
    } else if s.db.open {
      var i :| Owner(s, i);
      assert Owner(t, i);
      assert forall j :: Owner(t, j) ==> Owner(s, j);
    }
  }

  lemma {:induction false} UpdateKeeps(s: State, i: nat, db: DbState, g: Guard)
    requires Inv(s) && i < |s.guards|
    requires !s.guards[i].Owns() ==> db == s.db && g == s.guards[i]
    requires s.guards[i].Owns() ==> (db.open <==> g.Owns()) && (!db.open ==> db.committed == db.working)
    ensures Inv(State(db, s.guards[i := g]))
  {
    var t := State(db, s.guards[i := g]);
    if s.guards[i].Owns() {
      OwnerAt(s, i);
      assert forall j :: Owner(t, j) && j != i ==> Owner(s, j);
      assert g.Owns() ==> Owner(t, i);
    } else {
      assert t == s;
    }
  }

  lemma {:induction false} DestroyKeeps(s: State, fault: AbortFault)
    requires Inv(s) && !Separates(s, Destroy(fault))
    ensures Inv(Step(s, Destroy(fault)))
  {
    var t := Step(s, Destroy(fault));
    if s.guards != [] {
      var last := |s.guards| - 1;
      if Owner(s, last) { OwnerAt(s, last); }
      assert forall j :: Owner(t, j) ==> Owner(s, j);
      assert forall j :: Owner(s, j) && j != last ==> Owner(t, j);
    }
  }

  /** Every step keeps the invariant except exactly the two separating ones. */
  lemma {:induction false} StepKeepsInvariant(s: State, op: Op)
    requires Inv(s)
    ensures Inv(Step(s, op)) <==> !Separates(s, op)
  {
    if Separates(s, op) {
      SeparatingStep(s, op);
    } else {
      match op
      case Construct(throws) => ConstructKeeps(s, throws);
      case Commit(i, fault) =>
        if i < |s.guards| {
          if Owner(s, i) { OwnerAt(s, i); }
          UpdateKeeps(s, i, CommitGuard(s.db, s.guards[i], fault).0, CommitGuard(s.db, s.guards[i], fault).1);
        }
      case Abort(i, fault) =>
        if i < |s.guards| {
          if Owner(s, i) { OwnerAt(s, i); }
          UpdateKeeps(s, i, AbortGuard(s.db, s.guards[i], fault).0, AbortGuard(s.db, s.guards[i], fault).1);
        }
      case Destroy(fault) => DestroyKeeps(s, fault);
      case Write(key, value) =>
        assert forall i :: Owner(Step(s, op), i) <==> Owner(s, i);
    }
  }

  lemma {:induction false} SeparatingStep(s: State, op: Op)
    requires Inv(s) && Separates(s, op)
    ensures !Inv(Step(s, op))
  {
    var t := Step(s, op);
    if op.Commit? {
      OwnerAt(s, op.guard);
      assert Owner(t, op.guard) && !t.db.open;
    } else {
      OwnerAt(s, |s.guards| - 1);
      assert forall i :: Owner(t, i) ==> Owner(s, i);
      assert t.db.open && forall i :: !Owner(t, i);
    }
  }

  ghost predicate NeverSeparates(s: State, ops: seq<Op>)
    decreases ops
  {
    ops == [] || (!Separates(s, ops[0]) && NeverSeparates(Step(s, ops[0]), ops[1..]))
  }

  /** The invariant holds before the run and after each of its steps. */
  ghost predicate InvThroughout(s: State, ops: seq<Op>)
    decreases ops
  {
    Inv(s) && (ops == [] || InvThroughout(Step(s, ops[0]), ops[1..]))
  }

  /** A run keeps the invariant throughout exactly when none of its steps separates owner and batch. */
  lemma {:induction false} RunKeepsInvariant(s: State, ops: seq<Op>)
    requires Inv(s)
    ensures InvThroughout(s, ops) <==> NeverSeparates(s, ops)
    decreases ops
  {
    if ops != [] {
      hide Inv, Separates, Step;
      StepKeepsInvariant(s, ops[0]);
      if !Separates(s, ops[0]) {
        RunKeepsInvariant(Step(s, ops[0]), ops[1..]);
      }
    }
  }

  // ----- a batch is isolated until some owner closes it, and then all or nothing -----

  /** The step closes the open batch: an owning guard, current or stale, stops it, drops it or rolls it back. */
  ghost predicate Closes(s: State, op: Op) {
    match op
    case Commit(i, stop) => Owner(s, i) && stop != StopRefused
    case Abort(i, rollback) => Owner(s, i) && rollback == RolledBack
    case Destroy(rollback) => s.guards != [] && Owner(s, |s.guards| - 1) && rollback == RolledBack
    case _ => false
  }

  ghost predicate StaysOpen(s: State, ops: seq<Op>)
    decreases ops
  {
    ops == [] || (!Closes(s, ops[0]) && StaysOpen(Step(s, ops[0]), ops[1..]))
  }

  function Writes(ops: seq<Op>): seq<(string, string)> {
    if ops == [] then []
    else (if ops[0].Write? then [(ops[0].key, ops[0].value)] else []) + Writes(ops[1..])
  }

  function Apply(c: Contents, writes: seq<(string, string)>): Contents
    decreases writes
  {
    if writes == [] then c else Apply(c[writes[0].0 := writes[0].1], writes[1..])
  }

  /** What a step does to an open batch, whoever owns it; while it stays open no scope becomes an owner. */
  lemma {:induction false} StepInBatch(s: State, op: Op)
    requires s.db.open
    ensures Step(s, op).db.open <==> !Closes(s, op)
    ensures !Closes(s, op) ==>
              Step(s, op).db == if op.Write? then s.db.(working := s.db.working[op.key := op.value]) else s.db
    ensures Closes(s, op) ==>
              var kept := if op.Commit? && op.stop == Stored then s.db.working else s.db.committed;
              Step(s, op).db == DbState(kept, kept, false)
    ensures forall i :: Owner(Step(s, op), i) ==> Owner(s, i)
  {
  }

  /**
   From any state with an open batch, while no owner closes it, the database is a function of the writes alone: the
   disk keeps the contents of the batch start, whatever scopes are opened, committed, aborted or closed and however
   they fail, and no scope becomes an owner.
   */
  lemma {:induction false} BatchIsolated(s: State, ops: seq<Op>)
    requires s.db.open && StaysOpen(s, ops)
    ensures Run(s, ops).db == DbState(s.db.committed, Apply(s.db.working, Writes(ops)), true)
    ensures forall i :: Owner(Run(s, ops), i) ==> Owner(s, i)
    decreases ops
  {
    if ops != [] {
      StepInBatch(s, ops[0]);
      hide Step, Closes, Owner;
      BatchIsolated(Step(s, ops[0]), ops[1..]);
      if ops[0].Write? {
        assert Writes(ops)[1..] == Writes(ops[1..]);
      } else {
        assert Writes(ops) == Writes(ops[1..]);
      }
    }
  }

  /** Two bodies with the same writes leave the same database: what inner scopes do does not matter. */
  lemma {:induction false} InnerScopesInert(s: State, ops: seq<Op>, others: seq<Op>)
    requires s.db.open && StaysOpen(s, ops) && StaysOpen(s, others)
    requires Writes(ops) == Writes(others)
    ensures Run(s, ops).db == Run(s, others).db
  {
    BatchIsolated(s, ops);
    BatchIsolated(s, others);
  }

  /** Outside a batch nothing is unsaved. Every step keeps this, with every fault. */
  ghost predicate Saved(s: State) {
    !s.db.open ==> s.db.committed == s.db.working
  }

  lemma {:induction false} RunKeepsSaved(s: State, ops: seq<Op>)
    requires Saved(s)
    ensures Saved(Run(s, ops))
    decreases ops
  {
    if ops != [] {
      assert Saved(Step(s, ops[0]));
      RunKeepsSaved(Step(s, ops[0]), ops[1..]);
    }
  }

  /** The state after a scope has opened a batch. */
  function Begun(s: State): State {
    Step(s, Construct(false))
  }

  /** The step `last` closes the batch open in s, after the steps ops. */
  ghost predicate ClosedBy(s: State, ops: seq<Op>, last: Op) {
    StaysOpen(s, ops) && Closes(Run(s, ops), last)
  }

  /**
   From any state without an open batch, also one an earlier failed commit has left: a batch stores everything written
   in it if the closing step is a commit that stores, and otherwise leaves the database exactly as it was.
   */
  lemma {:induction false} AllOrNothing(s: State, ops: seq<Op>, last: Op)
    requires Saved(s) && !s.db.open && ClosedBy(Begun(s), ops, last)
    ensures var written := Apply(s.db.committed, Writes(ops));
            Step(Run(Begun(s), ops), last).db ==
            if last.Commit? && last.stop == Stored then DbState(written, written, false) else s.db
  {
    BatchIsolated(Begun(s), ops);
    StepInBatch(Run(Begun(s), ops), last);
  }

  // ----- what reaches the disk over a whole run -----

  /** What a step does while no batch is open: a write is stored at once, a call of a guard changes nothing. */
  lemma {:induction false} StepOutside(s: State, op: Op)
    requires !s.db.open
    ensures op.Write? ==> Step(s, op).db.committed == s.db.working[op.key := op.value]
    ensures op.Write? ==> Step(s, op).db.working == s.db.working[op.key := op.value] && !Step(s, op).db.open
    ensures op.Commit? || op.Abort? ==> Step(s, op) == s
    ensures op.Destroy? ==> Step(s, op).db == s.db
    ensures op.Construct? ==> Step(s, op).db == s.db.(open := !op.throws)
  {
    if op.Commit? && op.guard < |s.guards| { assert s.guards[op.guard := s.guards[op.guard]] == s.guards; }
    if op.Abort? && op.guard < |s.guards| { assert s.guards[op.guard := s.guards[op.guard]] == s.guards; }
  }

  /** The step closes a batch that is open, and whether it stores it. */
  ghost predicate Ends(s: State, op: Op) {
    s.db.open && Closes(s, op)
  }

  ghost predicate Stores(s: State, op: Op) {
    Ends(s, op) && op.Commit? && op.stop == Stored
  }

  /** The writes not on disk yet after a step, when `pending` are those before it. */
  ghost function PendingAfter(s: State, op: Op, pending: seq<(string, string)>): seq<(string, string)> {
    if Ends(s, op) then [] else if op.Write? && s.db.open then pending + [(op.key, op.value)] else pending
  }

  /** The writes a step puts on disk. */
  ghost function StoredBy(s: State, op: Op, pending: seq<(string, string)>): seq<(string, string)> {
    if Stores(s, op) then pending else if op.Write? && !s.db.open then [(op.key, op.value)] else []
  }

  /** The writes a run puts on disk, in order: those outside a batch, and those of each batch that is stored. */
  ghost function StoredWrites(s: State, ops: seq<Op>, pending: seq<(string, string)>): seq<(string, string)>
    decreases ops
  {
    if ops == [] then []
    else
      StoredBy(s, ops[0], pending) + StoredWrites(Step(s, ops[0]), ops[1..], PendingAfter(s, ops[0], pending))
  }

  /** The writes of the batch that is open at the end of a run. */
  ghost function PendingWrites(s: State, ops: seq<Op>, pending: seq<(string, string)>): seq<(string, string)>
    decreases ops
  {
    if ops == [] then pending else PendingWrites(Step(s, ops[0]), ops[1..], PendingAfter(s, ops[0], pending))
  }

  lemma {:induction false} ApplyAppend(c: Contents, a: seq<(string, string)>, b: seq<(string, string)>)
    ensures Apply(c, a + b) == Apply(Apply(c, a), b)
    decreases a
  {
    if a == [] {
      assert a + b == b;
    } else {
      assert (a + b)[1..] == a[1..] + b;
      ApplyAppend(c[a[0].0 := a[0].1], a[1..], b);
    }
  }

  lemma ApplyOne(c: Contents, key: string, value: string)
    ensures Apply(c, [(key, value)]) == c[key := value]
  {
    assert [(key, value)][1..] == [];
  }

  lemma ApplyNone(c: Contents)
    ensures Apply(c, []) == c
  {
  }

  /** The open batch sees the disk and the pending writes; without a batch nothing is pending. */
  ghost predicate Sees(s: State, pending: seq<(string, string)>) {
    s.db.working == Apply(s.db.committed, pending) && (!s.db.open ==> pending == [])
  }

  lemma {:induction false} StepOnDisk(s: State, op: Op, pending: seq<(string, string)>)
    requires Sees(s, pending)
    ensures Sees(Step(s, op), PendingAfter(s, op, pending))
    ensures Step(s, op).db.committed == Apply(s.db.committed, StoredBy(s, op, pending))
  {
    hide Step, Closes, Apply;
    ApplyNone(s.db.committed);
    ApplyNone(Step(s, op).db.committed);
    if op.Write? {
      ApplyAppend(s.db.committed, pending, [(op.key, op.value)]);
      ApplyOne(s.db.working, op.key, op.value);
    }
    if s.db.open {
      StepInBatch(s, op);
      WriteCloses(s, op);
    } else {
      StepOutside(s, op);
    }
  }

  lemma WriteCloses(s: State, op: Op)
    ensures op.Write? ==> !Closes(s, op)
  {
  }

  /**
   Over every run, with every fault, the disk holds what it held and then, in order, the writes made outside batches and
   those of the batches that were stored; an open batch sees in addition exactly its own writes.
   */
  lemma {:induction false} DiskHistory(s: State, ops: seq<Op>, pending: seq<(string, string)>)
    requires Sees(s, pending)
    ensures Run(s, ops).db.committed == Apply(s.db.committed, StoredWrites(s, ops, pending))
    ensures Sees(Run(s, ops), PendingWrites(s, ops, pending))
    decreases ops
  {
    hide Step, Sees, StoredBy, Apply, PendingAfter;
    if ops == [] {
      ApplyNone(s.db.committed);
    } else {
      var op, t := ops[0], Step(s, ops[0]);
      var after := PendingAfter(s, op, pending);
      StepOnDisk(s, op, pending);
      DiskHistory(t, ops[1..], after);
      ApplyAppend(s.db.committed, StoredBy(s, op, pending), StoredWrites(t, ops[1..], after));
    }
  }

  /** Without a scope every write is stored at once. */
  lemma {:induction false} UnscopedWrites(s: State, ops: seq<Op>)
    requires Saved(s) && !s.db.open && forall i :: 0 <= i < |ops| ==> !ops[i].Construct?
    ensures var kept := Apply(s.db.committed, Writes(ops));
            Run(s, ops).db == DbState(kept, kept, false)
    decreases ops
  {
    if ops != [] {
      StepOutside(s, ops[0]);
      hide Step;
      var t := Step(s, ops[0]);
      UnscopedWrites(t, ops[1..]);
      if ops[0].Write? {
        assert Writes(ops)[1..] == Writes(ops[1..]);
      } else {
        assert Writes(ops) == Writes(ops[1..]);
      }
    }
  }

  // ----- whose step closes a batch -----

  /** The scope a step acts for; Destroy acts for the innermost. */
  function Actor(s: State, op: Op): int {
    match op
    case Commit(i, _) => i
    case Abort(i, _) => i
    case Destroy(_) => |s.guards| - 1
    case _ => -1
  }

  /** A batch is closed by the scope that opened it, or by one that counted itself an owner before. */
  lemma {:induction false} ClosedByOpenerOrStale(s: State, ops: seq<Op>, last: Op)
    requires !s.db.open && ClosedBy(Begun(s), ops, last)
    ensures var actor := Actor(Run(Begun(s), ops), last);
            actor == |s.guards| || (0 <= actor < |s.guards| && Owner(s, actor))
  {
    var t := Begun(s);
    BatchIsolated(t, ops);
    var actor := Actor(Run(t, ops), last);
    assert Owner(t, actor);
    assert actor < |s.guards| ==> t.guards[actor] == s.guards[actor];
  }

  /** Whatever the body and however it fails, only the opener closes its batch exactly when no owner was left before. */
  lemma {:induction false} OnlyOpenerCloses(s: State)
    requires !s.db.open
    ensures (forall ops, last :: ClosedBy(Begun(s), ops, last) ==> Actor(Run(Begun(s), ops), last) == |s.guards|)
       <==> forall i :: !Owner(s, i)
  {
    if q: nat :| Owner(s, q) {
      assert Begun(s).guards[q] == s.guards[q];
      assert ClosedBy(Begun(s), [], Abort(q, RolledBack));
      assert Actor(Run(Begun(s), []), Abort(q, RolledBack)) == q;
    } else {
      forall ops, last | ClosedBy(Begun(s), ops, last)
        ensures Actor(Run(Begun(s), ops), last) == |s.guards|
      {
        ClosedByOpenerOrStale(s, ops, last);
      }
    }
  }

  // ----- a retired guard -----

  /** Once committed or aborted, or if it never had a batch, a guard stays so and its calls do nothing. */
  lemma {:induction false} RetiredStaysInert(s: State, ops: seq<Op>, p: nat)
    requires p < |s.guards| && !s.guards[p].Owns()
    ensures !Ended(s, ops, p) ==> p < |Run(s, ops).guards| && Run(s, ops).guards[p] == s.guards[p]
    ensures forall fault :: Step(s, Commit(p, fault)) == s
    ensures forall fault :: Step(s, Abort(p, fault)) == s
    ensures forall fault :: |s.guards| == p + 1 ==> Step(s, Destroy(fault)) == State(s.db, s.guards[..p])
    decreases ops
  {
    if ops != [] && !Ended(s, ops, p) {
      RetiredStaysInert(Step(s, ops[0]), ops[1..], p);
    }
  }

  /** The scope at depth p is closed during the run. */
  ghost predicate Ended(s: State, ops: seq<Op>, p: nat)
    decreases ops
  {
    ops != [] && ((ops[0].Destroy? && |s.guards| == p + 1) || Ended(Step(s, ops[0]), ops[1..], p))
  }

  // ----- the separating steps do harm -----

  /**
   After a failed commit the guard still counts itself the owner. If it is aborted while a later scope's batch is
   open, that batch is rolled back, and the later scope's own commit then stores nothing although storing works.
   */
  lemma {:induction false} FailedCommitEndsLaterBatch(s: State, q: nat, key: string, value: string)
    requires Inv(s) && Owner(s, q)
    ensures var later := Step(Step(s, Commit(q, CommitFailed)), Construct(false));
            var p := |s.guards|;
            && later.db.open && Owner(later, p) && Owner(later, q) && p != q
            && var written := Step(later, Write(key, value));
               Step(Step(written, Abort(q, RolledBack)), Commit(p, Stored)).db
               == DbState(s.db.committed, s.db.committed, false)
  {
    OwnerAt(s, q);
    var p := |s.guards|;
    var failed := Step(s, Commit(q, CommitFailed));
    assert failed == State(DbState(s.db.committed, s.db.committed, false), s.guards);
    var later := Step(failed, Construct(false));
    var written := Step(later, Write(key, value));
    assert written.db == DbState(s.db.committed, s.db.committed[key := value], true);
    var aborted := Step(written, Abort(q, RolledBack));
    assert aborted.db == DbState(s.db.committed, s.db.committed, false);
  }

  // ----- a failed commit that is left alone is an abort -----

  function Retire(s: State, q: nat): State
    requires q < |s.guards|
  {
    s.(guards := s.guards[q := s.guards[q].(active := false)])
  }

  /** The step calls the guard of scope q or ends that scope. */
  ghost predicate Touches(s: State, op: Op, q: nat) {
    || (op.Commit? && op.guard == q)
    || (op.Abort? && op.guard == q)
    || (op.Destroy? && |s.guards| == q + 1)
  }

  ghost predicate LeavesAlone(s: State, ops: seq<Op>, q: nat)
    decreases ops
  {
    ops == [] || (!Touches(s, ops[0], q) && LeavesAlone(Step(s, ops[0]), ops[1..], q))
  }

  lemma {:induction false} StepRetired(s: State, op: Op, q: nat)
    requires q < |s.guards| && !Touches(s, op, q)
    ensures q < |Step(s, op).guards|
    ensures Retire(Step(s, op), q) == Step(Retire(s, q), op)
    ensures forall i :: 0 <= i < q && !s.guards[i].Owns() ==> !Step(s, op).guards[i].Owns()
  {
    var t := Retire(s, q);
    match op
    case Construct(throws) =>
      var (db, threw) := Begin(s.db, throws);
      var g := Guard(!s.db.open, true);
      assert (s.guards + [g])[q := t.guards[q]] == t.guards + [g];
    case Commit(i, fault) =>
      if i < |s.guards| {
        var g := CommitGuard(s.db, s.guards[i], fault).1;
        assert s.guards[i := g][q := t.guards[q]] == t.guards[i := g];
      }
    case Abort(i, fault) =>
      if i < |s.guards| {
        var g := AbortGuard(s.db, s.guards[i], fault).1;
        assert s.guards[i := g][q := t.guards[q]] == t.guards[i := g];
      }
    case Destroy(fault) =>
      var last := |s.guards| - 1;
      assert s.guards[..last][q := t.guards[q]] == t.guards[..last];
    case Write(key, value) =>
  }

  lemma {:induction false} RunRetired(s: State, ops: seq<Op>, q: nat)
    requires q < |s.guards| && LeavesAlone(s, ops, q)
    ensures q < |Run(s, ops).guards| && Retire(Run(s, ops), q) == Run(Retire(s, q), ops)
    ensures (forall i :: 0 <= i < q ==> !s.guards[i].Owns()) ==>
              forall i :: 0 <= i < q ==> !Run(s, ops).guards[i].Owns()
    decreases ops
  {
    if ops != [] {
      StepRetired(s, ops[0], q);
      RunRetired(Step(s, ops[0]), ops[1..], q);
    }
  }

  /** Until its scope ends, a failed commit that is not called again leaves the same database as an abort. */
  lemma {:induction false} FailedCommitIsAbort(s: State, q: nat, ops: seq<Op>)
    requires s.db.open && Owner(s, q) && LeavesAlone(Step(s, Commit(q, CommitFailed)), ops, q)
    ensures var failed, aborted := Run(Step(s, Commit(q, CommitFailed)), ops), Run(Step(s, Abort(q, RolledBack)), ops);
            q < |failed.guards| && Retire(failed, q) == aborted && failed.db == aborted.db
  {
    var failed := Step(s, Commit(q, CommitFailed));
    assert failed.guards == s.guards;
    assert Retire(failed, q) == Step(s, Abort(q, RolledBack));
    RunRetired(failed, ops, q);
  }

  lemma {:induction false} InvAtEnd(s: State, ops: seq<Op>)
    requires Inv(s) && NeverSeparates(s, ops)
    ensures Inv(Run(s, ops))
    decreases ops
  {
    if ops != [] {
      hide Inv, Separates, Step;
      StepKeepsInvariant(s, ops[0]);
      InvAtEnd(Step(s, ops[0]), ops[1..]);
    }
  }

  /**
   The end of that scope restores the invariant, however its destructor fares: if its guard is left alone and no later
   scope separates, the whole state is the one an abort in place of the failed commit would have led to. With no steps
   in between this is the innermost scope being destroyed right after its commit failed.
   */
  lemma {:induction false} ScopeEndRecovers(s: State, q: nat, ops: seq<Op>, fault: AbortFault)
    requires Inv(s) && Owner(s, q) && LeavesAlone(Step(s, Commit(q, CommitFailed)), ops, q)
    requires NeverSeparates(Step(s, Abort(q, RolledBack)), ops)
    requires |Run(Step(s, Commit(q, CommitFailed)), ops).guards| == q + 1
    ensures var end := Step(Run(Step(s, Commit(q, CommitFailed)), ops), Destroy(fault));
            Inv(end) && end == Step(Run(Step(s, Abort(q, RolledBack)), ops), Destroy(fault))
  {
    OwnerAt(s, q);
    StepKeepsInvariant(s, Abort(q, RolledBack));
    InvAtEnd(Step(s, Abort(q, RolledBack)), ops);
    FailedCommitIsAbort(s, q, ops);
    var failed := Run(Step(s, Commit(q, CommitFailed)), ops);
    var aborted := Run(Step(s, Abort(q, RolledBack)), ops);
    forall i | 0 <= i < q
      ensures !s.guards[i].Owns()
    {
      assert !Owner(s, i);
    }
    RunRetired(Step(s, Commit(q, CommitFailed)), ops, q);
    NoOwnerLeft(failed, aborted, q);
    DestroyKeeps(aborted, fault);
  }

  lemma {:induction false} NoOwnerLeft(failed: State, aborted: State, q: nat)
    requires |failed.guards| == q + 1 && Retire(failed, q) == aborted && Inv(aborted)
    requires forall i :: 0 <= i < q ==> !failed.guards[i].Owns()
    ensures !aborted.db.open && forall i :: !Owner(aborted, i)
    ensures forall fault :: Step(failed, Destroy(fault)) == Step(aborted, Destroy(fault))
  {
    assert forall i: nat :: i < q ==> aborted.guards[i] == failed.guards[i];
    assert forall i :: !Owner(aborted, i);
    assert failed.guards[..q] == aborted.guards[..q];
  }

  // ----- a batch without an owner -----

  /** After a destructor that could not abort, no later scope ever stores anything: the batch stays open for good. */
  lemma {:induction false} OrphanedBatchBlocksAll(s: State, ops: seq<Op>)
    requires s.db.open && forall i :: !Owner(s, i)
    ensures StaysOpen(s, ops)
    ensures Run(s, ops).db == DbState(s.db.committed, Apply(s.db.working, Writes(ops)), true)
    ensures forall i :: !Owner(Run(s, ops), i)
    decreases ops
  {
    if ops != [] {
      StepInBatch(s, ops[0]);
      OrphanedBatchBlocksAll(Step(s, ops[0]), ops[1..]);
    }
    BatchIsolated(s, ops);
  }

  /** No run closes an open batch exactly when it has no owner. */
  lemma {:induction false} NeverClosesExactly(s: State)
    requires s.db.open
    ensures (forall ops, last :: !ClosedBy(s, ops, last)) <==> forall i :: !Owner(s, i)
  {
    if q: nat :| Owner(s, q) {
      assert ClosedBy(s, [], Abort(q, RolledBack));
    } else {
      forall ops, last
        ensures !ClosedBy(s, ops, last)
      {
        OrphanedBatchBlocksAll(s, ops);
      }
    }
  }
}
