/** What CREATE does for every requested id, and what every run of commands keeps: the namespace stays contained,
    assigned ids are fresh, and a failed batch leaves no trace. */
module NamespaceRuns {
  import opened Bytes
  import opened Namespace
  import opened Sql

  // ---------- batch creation ----------

  ghost predicate InBlock(k: (u64, u64), pid: u64, a: nat, b: nat) { k.0 == pid && a <= k.1 < b }

  /** s is base with the user objects a to b - 1 of partition pid, none of which base had. */
  ghost predicate Grown(base: State, s: State, pid: u64, a: nat, b: nat) {
    && (forall k :: k in s.obj <==> k in base.obj || InBlock(k, pid, a, b))
    && (forall k :: k in s.files <==> k in base.files || InBlock(k, pid, a, b))
    && (forall k :: InBlock(k, pid, a, b) ==> k !in base.obj && k !in base.files)
    && (forall k :: k in s.obj ==> s.obj[k] == if k in base.obj then base.obj[k] else UserObject)
    && (forall k :: k in s.files ==> s.files[k] == if k in base.files then base.files[k] else [])
  }

  predicate SameObjects(s: State, t: State) { s.obj == t.obj && s.files == t.files }

  predicate SameRows(s: State, t: State) { s.attr == t.attr && s.coll == t.coll }

  /** attr and coll rows belong to objects that exist. */
  ghost predicate Referenced(s: State) {
    && (forall k :: k in s.attr ==> (k.0, k.1) in s.obj)
    && (forall m :: m in s.coll ==> (m.pid, m.oid) in s.obj)
  }

  predicate SameTables(s: State, t: State) { SameObjects(s, t) && SameRows(s, t) }

  lemma GrownOne(base: State, s: State, pid: u64, a: nat, b: u64)
    requires Grown(base, s, pid, a, b) && a <= b && (pid, b) !in s.obj && (pid, b) !in s.files
    ensures Grown(base, WithObject(s, pid, b), pid, a, b + 1)
  {
    hide InBlock;
    var t := WithObject(s, pid, b);
    assert forall k :: k in t.obj <==> k in s.obj || k == (pid, b);
    assert forall k :: k in t.files <==> k in s.files || k == (pid, b);
    BlockNext(pid, a, b);
  }

  lemma BlockNext(pid: u64, a: nat, b: u64)
    requires a <= b
    ensures forall k: (u64, u64) :: InBlock(k, pid, a, b + 1) <==> InBlock(k, pid, a, b) || k == (pid, b)
  {
  }

  lemma GrownNone(base: State, s: State, pid: u64, a: nat)
    requires SameObjects(base, s)
    ensures Grown(base, s, pid, a, a)
  {
  }

  lemma GrownBeyond(base: State, s: State, pid: u64, a: nat, b: nat, i: u64)
    requires Grown(base, s, pid, a, b) && b <= i
    ensures (pid, i) in s.obj <==> (pid, i) in base.obj
    ensures (pid, i) in s.files <==> (pid, i) in base.files
  {
    assert !InBlock((pid, i), pid, a, b);
  }

  lemma GrownEmpty(base: State, s: State, pid: u64, a: nat, b: nat)
    requires Grown(base, s, pid, a, b) && b <= a
    ensures SameObjects(s, base)
  {
    assert forall k :: !InBlock(k, pid, a, b);
    assert s.obj == base.obj && s.files == base.files;
  }

  lemma RemoveFirst(base: State, s: State, pid: u64, a: u64, b: nat)
    requires Grown(base, s, pid, a, b) && a < b && LB <= pid && LB <= a
    ensures Grown(base, Remove(s, pid, a).0, pid, a + 1, b)
  {
    assert InBlock((pid, a), pid, a, b);
    assert forall k :: InBlock(k, pid, a, b) <==> InBlock(k, pid, a + 1, b) || k == (pid, a);
    var t := Remove(s, pid, a).0;
    assert forall k :: k in t.obj <==> k in s.obj && k != (pid, a);
    assert forall k :: k in t.files <==> k in s.files && k != (pid, a);
  }

  lemma RemoveKeepsRows(base: State, s: State, pid: u64, a: u64)
    requires SameRows(s, base) && Referenced(base) && (pid, a) !in base.obj
    ensures SameRows(Remove(s, pid, a).0, base)
  {
    var t := Remove(s, pid, a).0;
    assert t.attr == base.attr;
    assert t.coll == base.coll;
  }

  /** The clean-up takes back exactly what had been created. */
  lemma {:induction false} RemoveTmpUndoes(base: State, s: State, pid: u64, a: u64, b: u64)
    requires Grown(base, s, pid, a, b) && a <= b && LB <= pid && LB <= a
    ensures SameObjects(RemoveTmp(s, pid, a, b), base)
    ensures Referenced(base) && SameRows(s, base) ==> SameRows(RemoveTmp(s, pid, a, b), base)
    decreases b - a
  {
    hide Grown, Remove, Referenced;
    if a < b {
      RemoveFirst(base, s, pid, a, b);
      GrownFresh(base, s, pid, a, b);
      if Referenced(base) && SameRows(s, base) { RemoveKeepsRows(base, s, pid, a); }
      RemoveTmpUndoes(base, Remove(s, pid, a).0, pid, a + 1, b);
    } else {
      GrownEmpty(base, s, pid, a, b);
    }
  }

  lemma GrownFresh(base: State, s: State, pid: u64, a: u64, b: nat)
    requires Grown(base, s, pid, a, b) && a < b
    ensures (pid, a) !in base.obj
  {
    assert InBlock((pid, a), pid, a, b);
  }

  /** Nothing stands in the way of creating object i. */
  ghost predicate Free(s: State, pid: u64, i: u64, f: Faults) {
    (pid, i) !in s.obj && i !in f.insert && (pid, i) !in s.files && i !in f.file
  }

  /** All or nothing: the loop creates the whole block up to end, or the tables are those it started from. A block whose
      end has wrapped below its start is empty. */
  lemma {:induction false} CreateLoopAllOrNothing(base: State, s: State, pid: u64, first: u64, i: u64, end: u64, f: Faults)
    requires Grown(base, s, pid, first, i) && LB <= pid && LB <= first <= i && SameRows(s, base)
    ensures var (t, ok) := CreateLoop(s, pid, first, i, end, f);
            && (ok ==> Grown(base, t, pid, first, Max(i, end)) && SameRows(t, base) && t.cache == s.cache)
            && (!ok ==> SameObjects(t, base) && (Referenced(base) ==> SameRows(t, base)))
            && (ok <==> forall j: u64 :: i <= j < end ==> Free(base, pid, j, f))
    decreases end - i
  {
    hide Grown, RemoveTmp, Referenced;
    GrownBeyond(base, s, pid, first, i, i);
    if i >= end {
    } else if (pid, i) in s.obj || i in f.insert {
      assert !Free(base, pid, i, f);
      RemoveTmpUndoes(base, s, pid, first, i);
    } else if (pid, i) in s.files || i in f.file {
      assert !Free(base, pid, i, f);
      var u := DropObject(WithRow(s, pid, i, UserObject), pid, i);
      assert u.obj == s.obj;
      assert u == s;
      RemoveTmpUndoes(base, u, pid, first, i);
    } else {
      GrownOne(base, s, pid, first, i);
      CreateLoopAllOrNothing(base, WithObject(s, pid, i), pid, first, i + 1, end, f);
      assert Free(base, pid, i, f);
    }
  }

  lemma LoopMeaning(s: State, t: State, pid: u64, id: u64, end: u64, f: Faults)
    requires SameTables(t, s) && LB <= pid && LB <= id
    ensures var (u, ok) := CreateLoop(t, pid, id, id, end, f);
            && (ok ==> Grown(s, u, pid, id, Max(id, end)) && SameRows(u, s) && u.cache == t.cache)
            && (!ok ==> SameObjects(u, s) && (Referenced(s) ==> SameRows(u, s)))
            && (ok <==> forall j: u64 :: id <= j < end ==> Free(s, pid, j, f))
  {
    hide CreateLoop;
    GrownNone(s, t, pid, id);
    CreateLoopAllOrNothing(s, t, pid, id, id, end, f);
  }

  lemma GrownSame(base: State, s: State, t: State, pid: u64, a: nat, b: nat)
    requires Grown(base, s, pid, a, b) && SameObjects(s, t)
    ensures Grown(base, t, pid, a, b)
  {
  }

  // ---------- containment ----------

  /** The root is there, every object lies in a partition that is there, and ids respect the lower bounds. */
  ghost predicate Contained(obj: ObjTable) {
    && (0, 0) in obj && obj[(0, 0)] == Root
    && (forall k :: k in obj && k.1 != 0 ==> k.0 >= LB && k.1 >= LB && (k.0, 0) in obj)
    && (forall k :: k in obj && k.1 != 0 ==> obj[k] == Collection || obj[k] == UserObject)
    && (forall k :: k in obj && k.1 == 0 && k.0 != 0 ==> k.0 >= LB && obj[k] == Partition)
  }

  /** A valid cache holds an id above the lower bound. */
  predicate Sane(c: Cache) { c.pid != 0 ==> c.pid >= LB && c.next > LB }

  ghost predicate Sound(s: State) { Contained(s.obj) && Sane(s.cache) }

  lemma NextIsLarge(obj: ObjTable, pid: u64)
    requires Contained(obj)
    ensures NextOid(obj, pid) == 1 || NextOid(obj, pid) > LB
  {
    var m := MaxOf(Ids(obj, pid));
    if m != 0 { assert (pid, m) in obj; }
  }

  lemma ChosenIsLarge(s: State, pid: u64)
    requires Sound(s) && pid >= LB
    ensures var (id, t) := Choose(s, pid); id >= LB && SameTables(t, s) && t.cache == Cache(pid, Add64(id, 1))
  {
    hide NextOid, Contained;
    NextIsLarge(s.obj, pid);
  }

  lemma AssignedIsLarge(s: State, pid: u64, requested: u64)
    requires Sound(s) && Acceptable(s, pid, requested)
    ensures var r := Assign(s, pid, requested);
            && (r.None? <==> requested != 0 && (pid, requested) in s.obj)
            && (r.Some? ==> var (id, t) := r.value;
                  && id == BlockStart(s, pid, requested) >= LB && SameTables(t, s)
                  && t.cache == if requested == 0 then Cache(pid, Add64(id, 1)) else NO_CACHE)
  {
    hide Choose, Contained;
    if requested == 0 { ChosenIsLarge(s, pid); }
  }

  /** The first id of the block a CREATE command is about. */
  ghost function BlockStart(s: State, pid: u64, oid: u64): u64 { if oid == 0 then Choose(s, pid).0 else oid }

  /** CREATE for every request: it is refused without a change, or fails and leaves no trace (obj table and files as
      before, attr and coll too when they hold no rows of absent objects, and the cache invalid), or answers GOOD; and
      then it has created its whole block, all of it new, if and only if the end of the block does not wrap past 2^64.
      Otherwise it has created nothing. */
  lemma CreateMeaning(s: State, pid: u64, oid: u64, num: u16, f: Faults)
    requires Sound(s)
    ensures var (t, r) := Create(s, pid, oid, num, f);
            var (id, n) := (BlockStart(s, pid, oid), AtLeastOne(num));
            match r
            case Done(p, last) =>
              && p == pid && last == Add64(id, n - 1) && LB <= id && pid >= LB && (pid, 0) in s.obj && SameRows(t, s)
              && (Grown(s, t, pid, id, id + n) <==> id + n < TWO64)
              && (id + n < TWO64 ==> forall j: u64 :: id <= j < id + n ==> Free(s, pid, j, f))
              && (id + n >= TWO64 ==> SameTables(t, s))
              && t.cache == (if oid == 0 then Cache(pid, Add64(id, n)) else NO_CACHE)
            case HardwareError =>
              && SameObjects(t, s) && (Referenced(s) ==> SameRows(t, s)) && t.cache == NO_CACHE
              && LB <= id && id + n < TWO64 && exists j: u64 :: id <= j < id + n && !Free(s, pid, j, f)
            case _ => t == s && r == IllegalRequest
  {
    hide Grown, CreateLoop, Choose, Contained, Referenced, Free;
    if Acceptable(s, pid, oid) && (num <= 1 || oid == 0) {
      AssignedIsLarge(s, pid, oid);
      if Assign(s, pid, oid).Some? {
        var (id, t) := Assign(s, pid, oid).value;
        var n := AtLeastOne(num);
        BlockEnd(id, num);
        LoopMeaning(s, t, pid, id, Add64(id, n), f);
        var (u, ok) := CreateLoop(t, pid, id, id, Add64(id, n), f);
        if ok {
          var v := Create(s, pid, oid, num, f).0;
          GrownSame(s, u, v, pid, id, Max(id, Add64(id, n)));
          if id + n >= TWO64 {
            GrownEmpty(s, v, pid, id, id);
            NothingGrown(s, v, pid, id, id + n);
          }
        }
      }
    }
  }

  lemma NothingGrown(s: State, t: State, pid: u64, id: u64, end: nat)
    requires SameObjects(s, t) && id < end
    ensures !Grown(s, t, pid, id, end)
  {
    assert InBlock((pid, id), pid, id, end);
  }

  lemma BlockEnd(id: u64, num: u16)
    ensures var n := AtLeastOne(num);
            && (id + n < TWO64 ==> Add64(id, n) == id + n)
            && (id + n >= TWO64 ==> Add64(id, n) == id + n - TWO64 < id && Add64(id, n) < LB)
            && Add64(Add64(id, 1), n - 1) == Add64(id, n)
            && (num <= 1 ==> n == 1) && Add64(0, 0) == 0
  {
    var n := AtLeastOne(num);
    Add64Sum(id, 1, n - 1);
    if id + n >= TWO64 { ModUnique(id + n, TWO64, 1, id + n - TWO64); }
  }

  /** The largest id can be asked for: the command answers GOOD and names the id, but there is no such object. */
  lemma TopIdCreatesNothing(s: State, pid: u64, f: Faults)
    requires Sound(s) && pid >= LB && (pid, 0) in s.obj && (pid, TWO64 - 1) !in s.obj
    ensures var (t, r) := Create(s, pid, TWO64 - 1, 1, f);
            r == Done(pid, TWO64 - 1) && SameTables(t, s) && (pid, TWO64 - 1) !in t.obj
  {
    hide Grown, Contained;
    CreateMeaning(s, pid, TWO64 - 1, 1, f);
  }

  /** No block of assigned ids wraps past 2^64, and no partition is taken for empty because the count of its objects is a
      multiple of 2^32. Requested ids are free. */
  ghost predicate NoOverflow(s: State, op: Op) {
    match op
    case OpCreate(pid, oid, num, _) => Acceptable(s, pid, oid) && oid == 0 ==> Choose(s, pid).0 + AtLeastOne(num) < TWO64
    case OpCreateCollection(pid, cid, _) => Acceptable(s, pid, cid) && cid == 0 ==> Choose(s, pid).0 + 1 < TWO64
    case OpCopy(pid, oid, srcPid, srcOid) => Copies(s, pid, oid, srcPid, srcOid) ==> Choose(s, pid).0 + 1 < TWO64
    case OpRemovePartition(pid) => !Miscounted(|ObjectsIn(s.obj, pid)|)
    case _ => true
  }

  /** The copy command comes to assign an id. */
  predicate Copies(s: State, pid: u64, oid: u64, srcPid: u64, srcOid: u64) {
    Acceptable(s, pid, oid) && oid == 0 && (srcPid, PARTITION_OID) in s.obj && (srcPid, srcOid) in s.obj
  }

  lemma GrownContained(base: State, s: State, pid: u64, a: nat, b: nat)
    requires Grown(base, s, pid, a, b) && Contained(base.obj)
    requires pid >= LB && (pid, 0) in base.obj && LB <= a
    ensures Contained(s.obj)
  {
  }

  lemma CreateContained(s: State, pid: u64, oid: u64, num: u16, f: Faults)
    requires Sound(s)
    ensures Sound(Create(s, pid, oid, num, f).0) <==> NoOverflow(s, OpCreate(pid, oid, num, f))
  {
    hide Grown, Choose, Contained, CreateLoop, Free, Referenced;
    CreateMeaning(s, pid, oid, num, f);
    var (t, r) := Create(s, pid, oid, num, f);
    var id, n := BlockStart(s, pid, oid), AtLeastOne(num);
    BlockEnd(id, num);
    if r.Done? && id + n < TWO64 { GrownContained(s, t, pid, id, id + n); }
    Answered(s, pid, num, f);
  }

  /** An acceptable request for new objects is carried out or fails. */
  lemma Answered(s: State, pid: u64, num: u16, f: Faults)
    ensures Acceptable(s, pid, 0) ==> Create(s, pid, 0, num, f).1 != IllegalRequest
  {
    hide CreateLoop, Choose;
  }

  /** One more row of an object that is not yet there. */
  lemma RowContained(s: State, pid: u64, id: u64, kind: Kind)
    requires Contained(s.obj) && (pid, id) !in s.obj && pid >= LB
    requires id == 0 ==> kind == Partition
    requires id != 0 ==> LB <= id && (pid, 0) in s.obj && (kind == Collection || kind == UserObject)
    ensures Contained(WithRow(s, pid, id, kind).obj)
  {
  }

  lemma CreateCollectionContained(s: State, pid: u64, cid: u64, f: Faults)
    requires Sound(s)
    ensures Sound(CreateCollection(s, pid, cid, f).0) <==> NoOverflow(s, OpCreateCollection(pid, cid, f))
  {
    hide Choose, Contained;
    if Acceptable(s, pid, cid) {
      AssignedIsLarge(s, pid, cid);
      if Assign(s, pid, cid).Some? {
        var (id, t) := Assign(s, pid, cid).value;
        BlockEnd(id, 1);
        if (pid, id) !in t.obj { RowContained(t, pid, id, Collection); }
      }
    }
  }

  lemma CopyContained(s: State, pid: u64, oid: u64, srcPid: u64, srcOid: u64)
    requires Sound(s)
    ensures Sound(CopyUserObjects(s, pid, oid, srcPid, srcOid).0) <==> NoOverflow(s, OpCopy(pid, oid, srcPid, srcOid))
  {
    hide Choose, Contained;
    if Acceptable(s, pid, oid) {
      AssignedIsLarge(s, pid, oid);
      if Assign(s, pid, oid).Some? { BlockEnd(Assign(s, pid, oid).value.0, 1); }
    }
  }

  lemma CreatePartitionContained(s: State, pid: u64, f: Faults)
    requires Sound(s)
    ensures Sound(CreatePartition(s, pid, f).0)
  {
    hide Contained;
    if CreatePartition(s, pid, f).1.Done? {
      NextPidBound(s.obj);
      var id := if pid != 0 then pid else if NextPid(s.obj) == 1 then LB else NextPid(s.obj);
      RowContained(s, id, PARTITION_OID, Partition);
    }
  }

  lemma NextPidBound(obj: ObjTable)
    requires Contained(obj)
    ensures NextPid(obj) == 1 || (NextPid(obj) > LB && (NextPid(obj) - 1, 0) in obj)
    ensures forall k :: k in obj && k.0 < TWO63 ==> k.0 < NextPid(obj)
  {
    var m := MaxOf(Pids(obj));
    if m != 0 {
      var k :| k in obj && k.0 == m;
      if k.1 == 0 { assert k.0 != 0; }
    }
    forall k | k in obj && k.0 < TWO63 ensures k.0 < NextPid(obj) { assert k.0 as nat in Pids(obj); }
  }

  /** An assigned partition id is taken exactly when 2^63 and the id before it both are; otherwise it lies above every
      partition that SQLite's signed order counts, and so above all of them exactly when there is none from 2^63 on. */
  lemma AssignedPartitionIsFresh(s: State)
    requires Contained(s.obj)
    ensures var (t, r) := CreatePartition(s, 0, NO_FAULTS);
            && (r.Done? <==> !((TWO63 - 1, 0) in s.obj && (TWO63, 0) in s.obj)) && (!r.Done? ==> t == s)
            && (r.Done? ==>
                  && r.pid >= LB && t == WithRow(s, r.pid, PARTITION_OID, Partition) && (r.pid, PARTITION_OID) !in s.obj
                  && (forall k :: k in s.obj && k.0 < TWO63 ==> k.0 < r.pid)
                  && ((forall k :: k in s.obj ==> k.0 < r.pid) <==> forall k :: k in s.obj ==> k.0 < TWO63))
  {
    hide Contained, Pids;
    NextPidBound(s.obj);
  }

  /** Dropping an object, or a partition that holds none, keeps what the others need. */
  lemma DropContained(s: State, t: State, pid: u64, oid: u64)
    requires Contained(s.obj) && t.obj == s.obj - {(pid, oid)} && (pid, oid) != (0, 0)
    requires oid == 0 ==> ObjectsIn(s.obj, pid) == {}
    ensures Contained(t.obj)
  {
    if oid == 0 {
      forall k | k in s.obj && k.1 != 0 ensures k.0 != pid { assert k in s.obj && (k.0 == pid ==> k in ObjectsIn(s.obj, pid)); }
    }
  }

  /** Without its objects a partition can go; with a count of objects that reads as 0 it goes all the same, and leaves
      them behind. */
  lemma RemovePartitionContained(s: State, pid: u64)
    requires Sound(s)
    ensures Sound(RemovePartition(s, pid).0) <==> !Miscounted(|ObjectsIn(s.obj, pid)|)
  {
    hide Low32;
    var (t, r) := RemovePartition(s, pid);
    RootHoldsNothing(s.obj);
    ZeroReadsAsZero();
    if r.Done? {
      if Miscounted(|ObjectsIn(s.obj, pid)|) {
        var k :| k in ObjectsIn(s.obj, pid);
        assert k in t.obj && (pid, 0) !in t.obj;
      } else {
        assert ObjectsIn(s.obj, pid) == {};
        DropContained(s, t, pid, 0);
      }
    }
  }

  lemma RootHoldsNothing(obj: ObjTable)
    requires Contained(obj)
    ensures ObjectsIn(obj, 0) == {}
  {
  }

  lemma ZeroReadsAsZero()
    ensures ReadsAsZero(0) && !Miscounted(0)
  {
  }

  /** Containment is kept by every command, whatever id it asks for and whatever faults occur, with two exceptions that
      are exact: a block of assigned ids that wraps past 2^64 leaves a cached id below the lower bound, and a partition
      with a multiple of 2^32 objects is taken for empty. */
  lemma WhenContainmentStays(s: State, op: Op)
    requires Sound(s)
    ensures Sound(Step(s, op).0) <==> NoOverflow(s, op)
  {
    hide Contained, Create, CreateCollection, CreatePartition, CopyUserObjects, RemovePartition, NoOverflow, SlotCid;
    OthersNeverOverflow(s, op);
    match op
    case OpCreatePartition(pid, f) => CreatePartitionContained(s, pid, f);
    case OpCreateCollection(pid, cid, f) => CreateCollectionContained(s, pid, cid, f);
    case OpCreate(pid, oid, num, f) => CreateContained(s, pid, oid, num, f);
    case OpCopy(pid, oid, srcPid, srcOid) => CopyContained(s, pid, oid, srcPid, srcOid);
    case OpRemove(pid, oid) =>
      if Remove(s, pid, oid).1.Done? { DropContained(s, Remove(s, pid, oid).0, pid, oid); }
    case OpRemoveCollection(pid, cid, force) =>
      if RemoveCollection(s, pid, cid, force).1.Done? {
        DropContained(s, RemoveCollection(s, pid, cid, force).0, pid, cid);
      }
    case OpRemovePartition(pid) => RemovePartitionContained(s, pid);
    case OpSetPointer(pid, oid, number, val) =>
    case OpSetAttr(pid, oid, page, number, val) =>
  }

  lemma OthersNeverOverflow(s: State, op: Op)
    ensures !op.OpCreate? && !op.OpCreateCollection? && !op.OpCopy? && !op.OpRemovePartition? ==> NoOverflow(s, op)
    ensures op.OpRemovePartition? ==> (NoOverflow(s, op) <==> !Miscounted(|ObjectsIn(s.obj, op.pid)|))
  {
  }

  /** What the exception leads to: the next object is created below the lower bound. */
  lemma WrappedCacheBreaksBounds(s: State, pid: u64)
    requires Sound(s.(cache := NO_CACHE)) && pid >= LB && (pid, 0) in s.obj
    requires s.cache.pid == pid && 1 < s.cache.next < LB && (pid, s.cache.next) !in s.files
    ensures var t := Create(s, pid, 0, 1, NO_FAULTS).0;
            (pid, s.cache.next) in t.obj && !Contained(t.obj)
  {
    var oid := s.cache.next;
    var t := s.(cache := Cache(pid, oid + 1));
    assert CreateLoop(t, pid, oid, oid, oid + 1, NO_FAULTS) == (WithObject(t, pid, oid), true);
  }

  // ---------- runs ----------

  ghost function Run(s: State, ops: seq<Op>): State
    decreases ops
  {
    if ops == [] then s else Run(Step(s, ops[0]).0, ops[1..])
  }

  /** The command does not meet a partition with a nonzero multiple of 2^32 objects. */
  ghost predicate Counted(s: State, op: Op) { op.OpRemovePartition? ==> !Miscounted(|ObjectsIn(s.obj, op.pid)|) }

  ghost predicate RunCounted(s: State, ops: seq<Op>)
    decreases ops
  {
    ops == [] || (Counted(s, ops[0]) && RunCounted(Step(s, ops[0]).0, ops[1..]))
  }

  lemma StepBounded(s: State, op: Op, b: nat)
    requires Sound(s) && Counted(s, op) && s.cache.next <= b && TWO63 <= b && b + TWO16 <= TWO64 - 1
    ensures NoOverflow(s, op) && Step(s, op).0.cache.next <= b + TWO16
  {
    hide Contained, CreateLoop, CreatePartition, NextOid, ObjectsIn, SlotCid, Grown, Free, Referenced, Miscounted, ReadsAsZero;
    match op
    case OpCreate(pid, oid, num, f) =>
      CreateMeaning(s, pid, oid, num, f);
      BlockEnd(BlockStart(s, pid, oid), num);
    case OpCreatePartition(pid, f) => PartitionKeepsCache(s, pid, f);
    case _ =>
  }

  lemma PartitionKeepsCache(s: State, pid: u64, f: Faults)
    ensures CreatePartition(s, pid, f).0.cache == s.cache
  {
    hide NextPid;
  }

  lemma {:induction false} RunBounded(s: State, ops: seq<Op>, b: nat)
    requires Sound(s) && RunCounted(s, ops) && s.cache.next <= b && TWO63 <= b && b + TWO16 * |ops| <= TWO64 - 1
    ensures Sound(Run(s, ops))
    decreases ops
  {
    hide Step, Sound, NoOverflow, Counted;
    if ops != [] {
      StepBounded(s, ops[0], b);
      WhenContainmentStays(s, ops[0]);
      RunBounded(Step(s, ops[0]).0, ops[1..], b + TWO16);
    }
  }

  lemma InitialHolds()
    ensures Inv(Initial()) && Sound(Initial())
  {
  }

  /** Containment over every run of fewer than 2^47 commands from the fresh device on, whatever ids are asked for, as
      long as no partition is miscounted: no shorter run can take the cache past 2^64. */
  lemma RunContained(ops: seq<Op>)
    requires |ops| < 0x8000_0000_0000 && RunCounted(Initial(), ops)
    ensures Sound(Run(Initial(), ops))
  {
    hide Run, Sound, RunCounted;
    InitialHolds();
    RunBounded(Initial(), ops, TWO63);
  }

  // ---------- counting ----------

  lemma {:induction false} RemoveTmpSize(s: State, pid: u64, a: u64, b: u64)
    ensures RemoveTmp(s, pid, a, b).obj.Keys <= s.obj.Keys
    decreases b - a
  {
    if a < b { RemoveTmpSize(Remove(s, pid, a).0, pid, a + 1, b); }
  }

  lemma {:induction false} LoopSize(s: State, pid: u64, first: u64, i: u64, end: u64, f: Faults)
    ensures |CreateLoop(s, pid, first, i, end, f).0.obj.Keys| <= |s.obj.Keys| + if i < end then end - i else 0
    decreases end - i
  {
    hide RemoveTmp;
    var t := CreateLoop(s, pid, first, i, end, f).0;
    if i >= end {
    } else if (pid, i) in s.obj || i in f.insert {
      RemoveTmpSize(s, pid, first, i);
      Smaller(t.obj.Keys, s.obj.Keys);
    } else if (pid, i) in s.files || i in f.file {
      var u := DropObject(WithRow(s, pid, i, UserObject), pid, i);
      RemoveTmpSize(u, pid, first, i);
      assert u.obj.Keys == s.obj.Keys;
      Smaller(t.obj.Keys, s.obj.Keys);
    } else {
      LoopSize(WithObject(s, pid, i), pid, first, i + 1, end, f);
      OneMore(s, pid, i, UserObject);
    }
  }

  lemma Smaller<T>(a: set<T>, b: set<T>)
    requires a <= b
    ensures |a| <= |b|
  {
    assert b == a + (b - a);
  }

  lemma OneMore(s: State, pid: u64, oid: u64, kind: Kind)
    ensures |WithRow(s, pid, oid, kind).obj.Keys| <= |s.obj.Keys| + 1
  {
    assert WithRow(s, pid, oid, kind).obj.Keys == s.obj.Keys + {(pid, oid)};
  }

  lemma CreateSize(s: State, pid: u64, oid: u64, num: u16, f: Faults)
    ensures |Create(s, pid, oid, num, f).0.obj.Keys| < |s.obj.Keys| + TWO16
  {
    hide CreateLoop, Choose;
    AssignKeepsTables(s, pid, oid);
    if Assign(s, pid, oid).Some? {
      var (id, t) := Assign(s, pid, oid).value;
      BlockEnd(id, num);
      LoopSize(t, pid, id, id, Add64(id, AtLeastOne(num)), f);
    }
  }

  /** A command adds fewer than 2^16 objects. */
  lemma StepSize(s: State, op: Op)
    ensures |Step(s, op).0.obj.Keys| < |s.obj.Keys| + TWO16
  {
    hide Create, CreateCollection, CreatePartition, CopyUserObjects, Remove, RemoveCollection, RemovePartition,
         SetPointer, SetAttr;
    match op
    case OpCreate(pid, oid, num, f) => CreateSize(s, pid, oid, num, f);
    case OpCreateCollection(pid, cid, f) => CollectionSize(s, pid, cid, f);
    case OpCreatePartition(pid, f) => PartitionSize(s, pid, f);
    case OpCopy(pid, oid, srcPid, srcOid) => CopySize(s, pid, oid, srcPid, srcOid);
    case OpSetPointer(pid, oid, number, val) => SettingSize(s, op);
    case OpSetAttr(pid, oid, page, number, val) => SettingSize(s, op);
    case _ => RemovalSize(s, op);
  }

  lemma RemovalSize(s: State, op: Op)
    requires op.OpRemove? || op.OpRemoveCollection? || op.OpRemovePartition?
    ensures |Step(s, op).0.obj.Keys| <= |s.obj.Keys|
  {
    hide ReadsAsZero;
    Smaller(Step(s, op).0.obj.Keys, s.obj.Keys);
  }

  lemma SettingSize(s: State, op: Op)
    requires op.OpSetPointer? || op.OpSetAttr?
    ensures |Step(s, op).0.obj.Keys| == |s.obj.Keys|
  {
    hide SlotCid, MaySet, CollInsert, FromBe;
  }

  lemma CollectionSize(s: State, pid: u64, cid: u64, f: Faults)
    ensures |CreateCollection(s, pid, cid, f).0.obj.Keys| <= |s.obj.Keys| + 1
  {
    hide Assign;
    AssignKeepsTables(s, pid, cid);
    if Assign(s, pid, cid).Some? { OneMore(Assign(s, pid, cid).value.1, pid, Assign(s, pid, cid).value.0, Collection); }
  }

  lemma PartitionSize(s: State, pid: u64, f: Faults)
    ensures |CreatePartition(s, pid, f).0.obj.Keys| <= |s.obj.Keys| + 1
  {
    var id := if pid != 0 then pid else if NextPid(s.obj) == 1 then LB else NextPid(s.obj);
    OneMore(s, id, PARTITION_OID, Partition);
  }

  lemma CopySize(s: State, pid: u64, oid: u64, srcPid: u64, srcOid: u64)
    ensures |CopyUserObjects(s, pid, oid, srcPid, srcOid).0.obj.Keys| <= |s.obj.Keys|
  {
    hide Assign;
    AssignKeepsTables(s, pid, oid);
  }

  lemma FewObjectsCount(s: State, op: Op)
    requires |s.obj.Keys| < TWO32
    ensures Counted(s, op)
  {
    if op.OpRemovePartition? {
      Smaller(ObjectsIn(s.obj, op.pid), s.obj.Keys);
      SmallCount(|ObjectsIn(s.obj, op.pid)|);
    }
  }

  lemma {:induction false} ShortRunCounts(s: State, ops: seq<Op>)
    requires |s.obj.Keys| + (TWO16 - 1) * |ops| < TWO32
    ensures RunCounted(s, ops)
    decreases ops
  {
    hide Step, Counted;
    if ops != [] {
      FewObjectsCount(s, ops[0]);
      StepSize(s, ops[0]);
      ShortRunCounts(Step(s, ops[0]).0, ops[1..]);
    }
  }

  /** Containment over every run of at most 2^16 commands from the fresh device on, without any condition: no such run
      makes 2^32 objects. */
  lemma ShortRunContained(ops: seq<Op>)
    requires |ops| <= TWO16
    ensures Sound(Run(Initial(), ops))
  {
    hide Run, Sound, RunCounted;
    assert Initial().obj.Keys == {(0, 0)};
    ShortRunCounts(Initial(), ops);
    RunContained(ops);
  }

  /** A partition disappears only by a command that counted no object in it, in every state whatever; with fewer than
      2^32 objects that means that there was none. */
  lemma PartitionsStay(s: State, op: Op, pid: u64)
    requires (pid, 0) in s.obj && (pid, 0) !in Step(s, op).0.obj
    ensures op == OpRemovePartition(pid) && pid != 0 && ReadsAsZero(|ObjectsIn(s.obj, pid)|)
    ensures |ObjectsIn(s.obj, pid)| < TWO32 ==> forall k :: k in s.obj && k.0 == pid ==> k.1 == 0
  {
    hide CreateCollection, CreatePartition, CopyUserObjects, Create, SlotCid, Low32;
    match op
    case OpCreate(p, oid, num, f) =>
      CreateKeepsPartitions(s, p, oid, num, f, pid);
      assert false;
    case OpCreateCollection(p, cid, f) => CollectionsAdd(s, p, cid, f);
      assert false;
    case OpCreatePartition(p, f) => PartitionsAdd(s, p, f);
      assert false;
    case OpCopy(p, oid, srcPid, srcOid) => CopyAdds(s, p, oid, srcPid, srcOid);
      assert false;
    case OpRemovePartition(p) => if |ObjectsIn(s.obj, pid)| < TWO32 { CountIsZero(s.obj, pid); }
    case _ =>
  }

  lemma CountIsZero(obj: ObjTable, pid: u64)
    requires ReadsAsZero(|ObjectsIn(obj, pid)|) && |ObjectsIn(obj, pid)| < TWO32
    ensures forall k :: k in obj && k.0 == pid ==> k.1 == 0
  {
    SmallCount(|ObjectsIn(obj, pid)|);
    forall k | k in obj && k.0 == pid ensures k.1 == 0 {
      assert k.1 != 0 ==> k in ObjectsIn(obj, pid);
    }
  }

  /** A partition with a nonzero multiple of 2^32 objects is removed under them. */
  lemma MiscountedPartitionGoes(s: State, pid: u64)
    requires Sound(s) && Miscounted(|ObjectsIn(s.obj, pid)|)
    ensures var (t, r) := RemovePartition(s, pid);
            && r == Done(pid, PARTITION_OID) && (pid, 0) !in t.obj && ObjectsIn(t.obj, pid) == ObjectsIn(s.obj, pid)
            && !Contained(t.obj)
  {
    hide Low32;
    RemovePartitionContained(s, pid);
    RootHoldsNothing(s.obj);
    var t := RemovePartition(s, pid).0;
    assert forall k :: k in ObjectsIn(t.obj, pid) <==> k in ObjectsIn(s.obj, pid);
  }

  lemma CollectionsAdd(s: State, p: u64, cid: u64, f: Faults)
    ensures s.obj.Keys <= CreateCollection(s, p, cid, f).0.obj.Keys
  {
  }

  lemma PartitionsAdd(s: State, p: u64, f: Faults)
    ensures s.obj.Keys <= CreatePartition(s, p, f).0.obj.Keys
  {
  }

  lemma CopyAdds(s: State, p: u64, oid: u64, srcPid: u64, srcOid: u64)
    ensures s.obj.Keys <= CopyUserObjects(s, p, oid, srcPid, srcOid).0.obj.Keys
  {
  }

  lemma {:induction false} RemoveTmpKeepsPartitions(s: State, p: u64, a: u64, b: u64, pid: u64)
    requires (pid, 0) in s.obj
    ensures (pid, 0) in RemoveTmp(s, p, a, b).obj
    decreases b - a
  {
    if a < b { RemoveTmpKeepsPartitions(Remove(s, p, a).0, p, a + 1, b, pid); }
  }

  lemma {:induction false} LoopKeepsPartitions(s: State, p: u64, first: u64, i: u64, end: u64, f: Faults, pid: u64)
    requires (pid, 0) in s.obj
    ensures (pid, 0) in CreateLoop(s, p, first, i, end, f).0.obj
    decreases end - i
  {
    hide RemoveTmp;
    if i < end && (p, i) !in s.obj {
      RemoveTmpKeepsPartitions(s, p, first, i, pid);
      RemoveTmpKeepsPartitions(DropObject(WithRow(s, p, i, UserObject), p, i), p, first, i, pid);
      LoopKeepsPartitions(WithObject(s, p, i), p, first, i + 1, end, f, pid);
    } else {
      RemoveTmpKeepsPartitions(s, p, first, i, pid);
    }
  }

  lemma CreateKeepsPartitions(s: State, p: u64, oid: u64, num: u16, f: Faults, pid: u64)
    requires (pid, 0) in s.obj
    ensures (pid, 0) in Create(s, p, oid, num, f).0.obj
  {
    hide CreateLoop, Choose;
    if Assign(s, p, oid).Some? {
      var (id, t) := Assign(s, p, oid).value;
      assert t.obj == s.obj by { AssignKeepsTables(s, p, oid); }
      LoopKeepsPartitions(t, p, id, id, Add64(id, AtLeastOne(num)), f, pid);
    }
  }

  lemma AssignKeepsTables(s: State, p: u64, oid: u64)
    ensures Assign(s, p, oid).Some? ==> SameTables(Assign(s, p, oid).value.1, s)
  {
    hide NextOid;
  }

  // ---------- freshness ----------

  /** A valid cache names a present partition and an id above all of its ids that SQLite's signed order counts. */
  ghost predicate Fresh(s: State) {
    s.cache.pid != 0 ==>
      && s.cache.pid >= LB && (s.cache.pid, 0) in s.obj && LB < s.cache.next <= TWO63
      && forall k :: k in s.obj && k.0 == s.cache.pid && k.1 < TWO63 ==> k.1 < s.cache.next
  }

  ghost predicate Inv(s: State) { Contained(s.obj) && Fresh(s) }

  lemma InvIsSound(s: State)
    requires Inv(s)
    ensures Sound(s)
  {
  }

  /** The ids the command is given end at or below 2^63, and it miscounts no partition. Requested ids are free. */
  ghost predicate InRange(s: State, op: Op) {
    match op
    case OpCreate(pid, oid, num, _) => Acceptable(s, pid, oid) && oid == 0 ==> Choose(s, pid).0 + AtLeastOne(num) <= TWO63
    case OpCreateCollection(pid, cid, _) => Acceptable(s, pid, cid) && cid == 0 ==> Choose(s, pid).0 + 1 <= TWO63
    case OpCopy(pid, oid, srcPid, srcOid) => Copies(s, pid, oid, srcPid, srcOid) ==> Choose(s, pid).0 + 1 <= TWO63
    case OpRemovePartition(pid) => !Miscounted(|ObjectsIn(s.obj, pid)|)
    case _ => true
  }

  lemma InRangeIsNoOverflow(s: State, op: Op)
    requires InRange(s, op)
    ensures NoOverflow(s, op)
  {
    hide Choose;
  }

  lemma IdsBound(obj: ObjTable, pid: u64)
    ensures forall k :: k in obj && k.0 == pid && k.1 < TWO63 ==> k.1 < NextOid(obj, pid)
    ensures NextOid(obj, pid) == 1 || (pid, NextOid(obj, pid) - 1) in obj
  {
    forall k | k in obj && k.0 == pid && k.1 < TWO63 ensures k.1 < NextOid(obj, pid) {
      assert k.1 as nat in Ids(obj, pid);
    }
  }

  /** Every assigned id is at or above the lower bound and above every id of its partition below 2^63. */
  lemma ChosenIsFresh(s: State, pid: u64)
    requires Inv(s) && pid >= LB && (pid, 0) in s.obj
    ensures var (id, t) := Choose(s, pid);
            && LB <= id <= TWO63 && (forall k :: k in s.obj && k.0 == pid && k.1 < TWO63 ==> k.1 < id)
            && SameTables(t, s) && t.cache == Cache(pid, Add64(id, 1))
  {
    hide NextOid;
    IdsBound(s.obj, pid);
    NextIsLarge(s.obj, pid);
    NextIsLow(s.obj, pid);
  }

  lemma NextIsLow(obj: ObjTable, pid: u64)
    ensures 1 <= NextOid(obj, pid) <= TWO63
  {
  }

  /** An accepted request was unused, and so is an assigned id below 2^63. */
  lemma AssignedIsFresh(s: State, pid: u64, requested: u64)
    requires Inv(s) && Acceptable(s, pid, requested)
    ensures var r := Assign(s, pid, requested);
            && (r.None? <==> requested != 0 && (pid, requested) in s.obj)
            && (r.Some? ==> var (id, t) := r.value;
                  && id >= LB && SameTables(t, s)
                  && ((pid, id) in s.obj ==> requested == 0 && id == TWO63)
                  && (requested != 0 ==> id == requested && t.cache == NO_CACHE)
                  && (requested == 0 ==> id == Choose(s, pid).0 && t.cache == Cache(pid, Add64(id, 1))
                                         && forall k :: k in s.obj && k.0 == pid && k.1 < TWO63 ==> k.1 < id))
  {
    hide Choose, Contained;
    if requested == 0 { ChosenIsFresh(s, pid); }
  }

  lemma GrownFreshCache(base: State, s: State, pid: u64, a: nat, b: nat)
    requires Grown(base, s, pid, a, b) && (pid, 0) in base.obj && pid >= LB && LB <= a < b <= TWO63
    requires s.cache == Cache(pid, b) && forall k :: k in base.obj && k.0 == pid && k.1 < TWO63 ==> k.1 < a
    ensures Fresh(s)
  {
  }

  lemma CreateFresh(s: State, pid: u64, oid: u64, num: u16, f: Faults)
    requires Inv(s) && InRange(s, OpCreate(pid, oid, num, f))
    ensures Fresh(Create(s, pid, oid, num, f).0)
  {
    hide Grown, Choose, Contained, CreateLoop, Free, Referenced;
    CreateMeaning(s, pid, oid, num, f);
    var (t, r) := Create(s, pid, oid, num, f);
    if r.Done? && oid == 0 {
      ChosenIsFresh(s, pid);
      var id, n := BlockStart(s, pid, oid), AtLeastOne(num);
      BlockEnd(id, num);
      GrownFreshCache(s, t, pid, id, id + n);
    }
  }

  lemma CreateCollectionFresh(s: State, pid: u64, cid: u64, f: Faults)
    requires Inv(s) && InRange(s, OpCreateCollection(pid, cid, f))
    ensures Fresh(CreateCollection(s, pid, cid, f).0)
  {
    hide Choose, Contained;
    if Acceptable(s, pid, cid) {
      AssignedIsFresh(s, pid, cid);
      if Assign(s, pid, cid).Some? { BlockEnd(Assign(s, pid, cid).value.0, 1); }
    }
  }

  lemma CopyFresh(s: State, pid: u64, oid: u64, srcPid: u64, srcOid: u64)
    requires Inv(s) && InRange(s, OpCopy(pid, oid, srcPid, srcOid))
    ensures Fresh(CopyUserObjects(s, pid, oid, srcPid, srcOid).0)
  {
    hide Choose, Contained;
    if Acceptable(s, pid, oid) {
      AssignedIsFresh(s, pid, oid);
      if Assign(s, pid, oid).Some? { BlockEnd(Assign(s, pid, oid).value.0, 1); }
    }
  }

  lemma CreatePartitionFresh(s: State, pid: u64, f: Faults)
    requires Inv(s)
    ensures Fresh(CreatePartition(s, pid, f).0)
  {
    hide Contained, NextPid;
  }

  /** Freshness of the cache is kept by every command whose assigned ids end at or below 2^63. */
  lemma StepKeeps(s: State, op: Op)
    requires Inv(s) && InRange(s, op)
    ensures Inv(Step(s, op).0)
  {
    hide Contained, Create, CreateCollection, CreatePartition, CopyUserObjects, InRange, NoOverflow, SlotCid;
    InRangeIsNoOverflow(s, op);
    WhenContainmentStays(s, op);
    match op
    case OpCreatePartition(pid, f) => CreatePartitionFresh(s, pid, f);
    case OpCreateCollection(pid, cid, f) => CreateCollectionFresh(s, pid, cid, f);
    case OpCreate(pid, oid, num, f) => CreateFresh(s, pid, oid, num, f);
    case OpCopy(pid, oid, srcPid, srcOid) => CopyFresh(s, pid, oid, srcPid, srcOid);
    case _ =>
  }

  ghost predicate RunInRange(s: State, ops: seq<Op>)
    decreases ops
  {
    ops == [] || (InRange(s, ops[0]) && RunInRange(Step(s, ops[0]).0, ops[1..]))
  }

  lemma {:induction false} RunKeeps(s: State, ops: seq<Op>)
    requires Inv(s) && RunInRange(s, ops)
    ensures Inv(Run(s, ops))
    decreases ops
  {
    if ops != [] {
      StepKeeps(s, ops[0]);
      RunKeeps(Step(s, ops[0]).0, ops[1..]);
    }
  }
}
