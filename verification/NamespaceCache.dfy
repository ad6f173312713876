/** The id cache cannot be told from asking SELECT MAX each time. */
module NamespaceCache {
  import opened Bytes
  import opened Namespace
  import opened NamespaceRuns

  // ---------- the cache refines SELECT MAX ----------

  /** The cached id is the one SELECT MAX would give. */
  ghost predicate Exact(s: State) { s.cache.pid != 0 ==> s.cache.next == NextOid(s.obj, s.cache.pid) }

  /** No database or file fault, and not the copy command, which takes ids it does not use. */
  predicate Plain(op: Op) {
    match op
    case OpCreatePartition(_, f) => f == NO_FAULTS
    case OpCreateCollection(_, _, f) => f == NO_FAULTS
    case OpCreate(_, _, _, f) => f == NO_FAULTS
    case OpCopy(_, _, _, _) => false
    case _ => true
  }

  lemma NextIs(obj: ObjTable, pid: u64, m: nat)
    requires m < TWO63 && (m > 0 ==> (pid, m) in obj) && forall k :: k in obj && k.0 == pid && k.1 < TWO63 ==> k.1 <= m
    ensures NextOid(obj, pid) == m + 1
  {
    var x := MaxOf(Ids(obj, pid));
    if m > 0 { assert (pid, m).1 as nat in Ids(obj, pid); }
  }

  /** After a block that ends at e, SELECT MAX gives e, or 2^63 when the block crosses it. */
  lemma NextAfterBlock(s: State, t: State, pid: u64, a: nat, e: nat)
    requires Grown(s, t, pid, a, e) && LB <= a < e < TWO64 && a <= TWO63
    requires forall k :: k in s.obj && k.0 == pid && k.1 < TWO63 ==> k.1 < a
    requires a == TWO63 ==> (pid, a - 1) in s.obj
    ensures NextOid(t.obj, pid) == if e <= TWO63 then e else TWO63
  {
    var top: u64 := if e <= TWO63 then e - 1 else TWO63 - 1;
    if a < TWO63 { assert InBlock((pid, top), pid, a, e); }
    NextIs(t.obj, pid, top);
  }

  lemma ChosenFollows(s: State, pid: u64)
    requires Inv(s) && Exact(s) && pid >= LB
    ensures var id := Choose(s, pid).0;
            && id == Choose(s.(cache := NO_CACHE), pid).0 && id <= TWO63
            && (id == TWO63 ==> (pid, TWO63 - 1) in s.obj)
  {
    IdsBound(s.obj, pid);
  }

  /** After a successful assignment of the block [id, id + n) the cache agrees with the table exactly when the block
      ends at or below 2^63, where SQLite's signed order still counts its ids. */
  lemma WhenCreateStaysExact(s: State, pid: u64, num: u16, f: Faults)
    requires Inv(s) && Exact(s) && Create(s, pid, 0, num, f).1.Done?
    ensures Exact(Create(s, pid, 0, num, f).0) <==> Choose(s, pid).0 + AtLeastOne(num) <= TWO63
  {
    hide Choose, CreateLoop, Grown, NextOid;
    var (id, t) := Choose(s, pid);
    var n := AtLeastOne(num);
    ChosenIsFresh(s, pid);
    ChosenFollows(s, pid);
    EndIsExact(id, n);
    LoopMeaning(s, t, pid, id, id + n, f);
    var (u, ok) := CreateLoop(t, pid, id, id, id + n, f);
    NextAfterBlock(s, u, pid, id, id + n);
  }

  lemma EndIsExact(id: u64, n: u16)
    requires id <= TWO63 && n >= 1
    ensures Add64(id, n) == id + n < TWO64 && Add64(Add64(id, 1), n - 1) == id + n
  {
  }

  /** What an uncached assignment meets behind the limit: the id it computes is taken. */
  lemma BeyondTheLimit(s: State, pid: u64, num: u16, f: Faults)
    requires s.cache == NO_CACHE && pid >= LB && (pid, 0) in s.obj
    requires NextOid(s.obj, pid) == TWO63 && (pid, TWO63) in s.obj
    ensures Create(s, pid, 0, num, f).1 == HardwareError
  {
    assert Choose(s, pid).0 == TWO63;
    EndIsExact(TWO63, AtLeastOne(num));
  }

  lemma CreateExact(s: State, pid: u64, oid: u64, num: u16)
    requires Inv(s) && Exact(s) && InRange(s, OpCreate(pid, oid, num, NO_FAULTS))
    ensures Exact(Create(s, pid, oid, num, NO_FAULTS).0)
  {
    hide Create, NextOid, Grown, Free;
    CreateMeaning(s, pid, oid, num, NO_FAULTS);
    if Create(s, pid, oid, num, NO_FAULTS).1.Done? && oid == 0 { WhenCreateStaysExact(s, pid, num, NO_FAULTS); }
  }

  lemma CreateCollectionExact(s: State, pid: u64, cid: u64)
    requires Inv(s) && Exact(s) && InRange(s, OpCreateCollection(pid, cid, NO_FAULTS))
    ensures Exact(CreateCollection(s, pid, cid, NO_FAULTS).0)
  {
    hide Choose, NextOid;
    if Acceptable(s, pid, cid) {
      AssignedIsFresh(s, pid, cid);
      if cid == 0 {
        var (id, t) := Choose(s, pid);
        BlockEnd(id, 1);
        NextIs(WithRow(t, pid, id, Collection).obj, pid, id);
      }
    }
  }

  lemma CreatePartitionExact(s: State, pid: u64)
    requires Inv(s) && Exact(s)
    ensures Exact(CreatePartition(s, pid, NO_FAULTS).0)
  {
    var t := CreatePartition(s, pid, NO_FAULTS).0;
    assert s.cache.pid != 0 ==> Ids(t.obj, s.cache.pid) == Ids(s.obj, s.cache.pid);
  }

  lemma StepExact(s: State, op: Op)
    requires Inv(s) && Exact(s) && InRange(s, op) && Plain(op)
    ensures Exact(Step(s, op).0)
  {
    hide Create, CreateCollection, CreatePartition, InRange, NextOid, Contained;
    match op
    case OpCreatePartition(pid, f) => CreatePartitionExact(s, pid);
    case OpCreateCollection(pid, cid, f) => CreateCollectionExact(s, pid, cid);
    case OpCreate(pid, oid, num, f) => CreateExact(s, pid, oid, num);
    case _ =>
  }

  // ---------- invisibility over whole runs ----------

  lemma {:induction false} RemoveTmpIgnoresCache(s: State, t: State, pid: u64, a: u64, b: u64)
    requires SameTables(s, t)
    ensures SameTables(RemoveTmp(s, pid, a, b), RemoveTmp(t, pid, a, b))
    decreases b - a
  {
    if a < b { RemoveTmpIgnoresCache(Remove(s, pid, a).0, Remove(t, pid, a).0, pid, a + 1, b); }
  }

  lemma {:induction false} LoopIgnoresCache(s: State, t: State, pid: u64, first: u64, i: u64, end: u64, f: Faults)
    requires SameTables(s, t)
    ensures CreateLoop(s, pid, first, i, end, f).1 == CreateLoop(t, pid, first, i, end, f).1
    ensures SameTables(CreateLoop(s, pid, first, i, end, f).0, CreateLoop(t, pid, first, i, end, f).0)
    decreases end - i
  {
    hide RemoveTmp;
    if i < end {
      RemoveTmpIgnoresCache(s, t, pid, first, i);
      RemoveTmpIgnoresCache(DropObject(WithRow(s, pid, i, UserObject), pid, i),
                            DropObject(WithRow(t, pid, i, UserObject), pid, i), pid, first, i);
      LoopIgnoresCache(WithObject(s, pid, i), WithObject(t, pid, i), pid, first, i + 1, end, f);
    }
  }

  /** The device that forgets its cache before every command. */
  ghost function StepAsking(s: State, op: Op): (State, Outcome) { Step(s.(cache := NO_CACHE), op) }

  lemma AssignAgrees(s: State, t: State, pid: u64, requested: u64)
    requires Inv(s) && Exact(s) && SameTables(s, t) && t.cache == NO_CACHE && pid >= LB
    ensures Assign(s, pid, requested).Some? <==> Assign(t, pid, requested).Some?
    ensures Assign(s, pid, requested).Some? ==>
              && Assign(s, pid, requested).value.0 == Assign(t, pid, requested).value.0
              && SameTables(Assign(s, pid, requested).value.1, Assign(t, pid, requested).value.1)
  {
    ChosenFollows(s, pid);
    assert s.(cache := NO_CACHE) == t;
  }

  lemma StepAgrees(s: State, t: State, op: Op)
    requires Inv(s) && Exact(s) && SameTables(s, t) && Plain(op)
    ensures Step(s, op).1 == StepAsking(t, op).1 && SameTables(Step(s, op).0, StepAsking(t, op).0)
  {
    hide Assign, CreateLoop, Inv, Exact, CreatePartition, Contained, Choose;
    var u := t.(cache := NO_CACHE);
    match op
    case OpCreate(pid, oid, num, f) =>
      if Acceptable(s, pid, oid) {
        AssignAgrees(s, u, pid, oid);
        if Assign(s, pid, oid).Some? {
          var (id, v) := Assign(s, pid, oid).value;
          var (_, w) := Assign(u, pid, oid).value;
          LoopIgnoresCache(v, w, pid, id, id, Add64(id, AtLeastOne(num)), f);
        }
      }
    case OpCreateCollection(pid, cid, f) => if Acceptable(s, pid, cid) { AssignAgrees(s, u, pid, cid); }
    case OpCreatePartition(pid, f) => PartitionAgrees(s, u, pid, f);
    case _ =>
  }

  lemma PartitionAgrees(s: State, t: State, pid: u64, f: Faults)
    requires SameTables(s, t)
    ensures CreatePartition(s, pid, f).1 == CreatePartition(t, pid, f).1
    ensures SameTables(CreatePartition(s, pid, f).0, CreatePartition(t, pid, f).0)
  {
  }

  ghost function Trace(s: State, ops: seq<Op>): seq<Outcome>
    decreases ops
  {
    if ops == [] then [] else [Step(s, ops[0]).1] + Trace(Step(s, ops[0]).0, ops[1..])
  }

  ghost function TraceAsking(s: State, ops: seq<Op>): seq<Outcome>
    decreases ops
  {
    if ops == [] then [] else [StepAsking(s, ops[0]).1] + TraceAsking(StepAsking(s, ops[0]).0, ops[1..])
  }

  ghost function RunAsking(s: State, ops: seq<Op>): State
    decreases ops
  {
    if ops == [] then s else RunAsking(StepAsking(s, ops[0]).0, ops[1..])
  }

  /** Over every run the caching device and the one that always asks the table give the same answers and end with the
      same tables. */
  lemma {:induction false} CacheIsInvisible(s: State, t: State, ops: seq<Op>)
    requires Inv(s) && Exact(s) && SameTables(s, t) && RunInRange(s, ops) && forall op <- ops :: Plain(op)
    ensures Trace(s, ops) == TraceAsking(t, ops) && SameTables(Run(s, ops), RunAsking(t, ops))
    decreases ops
  {
    hide Step, StepAsking, Inv, Exact, InRange, Plain, SameTables;
    if ops != [] {
      assert ops[0] in ops;
      StepAgrees(s, t, ops[0]);
      StepKeeps(s, ops[0]);
      StepExact(s, ops[0]);
      CacheIsInvisible(Step(s, ops[0]).0, StepAsking(t, ops[0]).0, ops[1..]);
    }
  }
}
