/** The device object itself: commands that update the tables, the files and the id cache step by step. */
module Device {
  import opened Bytes
  import opened Pages
  import opened Namespace
  import opened Sql
  import opened NamespaceRuns
  import NamespaceCache
  import opened NamespaceLinks

  /** struct osd_device: three tables, the data files, and ic.cur_pid with ic.next_id. */
  class OsdDevice {
    var obj: ObjTable
    var attr: map<(u64, u64, u32, u32), seq<byte>>
    var coll: set<Member>
    var files: map<(u64, u64), seq<byte>>
    var curPid: u64
    var nextId: u64

    /** osd_initialize_db, the root attributes apart. */
    constructor ()
      ensures State() == Initial() && Valid()
    {
      obj := map[(0, 0) := Root];
      attr, coll, files := map[], {}, map[];
      curPid, nextId := 0, 0;
    }

    ghost function State(): State
      reads this
    {
      Namespace.State.State(obj, attr, coll, files, Cache(curPid, nextId))
    }

    /** The unique keys of the coll table. */
    ghost predicate Valid()
      reads this
    {
      Keyed(coll)
    }

    // ---------- SELECT MAX ----------

    method GetNextOid(pid: u64) returns (oid: u64)
      ensures oid == NextOid(obj, pid)
    {
      var rest: set<(u64, u64)>, max: u64 := obj.Keys, 0;
      while rest != {}
        invariant rest <= obj.Keys && max < TWO63
        invariant max > 0 ==> (pid, max) in obj
        invariant forall k :: k in obj && k !in rest && k.0 == pid && k.1 < TWO63 ==> k.1 <= max
        decreases |rest|
      {
        var k: (u64, u64) :| k in rest;
        rest := rest - {k};
        if k.0 == pid && k.1 < TWO63 && k.1 > max { max := k.1; }
      }
      NamespaceCache.NextIs(obj, pid, max);
      oid := max + 1;
    }

    method GetNextPid() returns (pid: u64)
      ensures pid == NextPid(obj)
    {
      var rest: set<(u64, u64)>, max: u64 := obj.Keys, 0;
      while rest != {}
        invariant rest <= obj.Keys && max < TWO63
        invariant max > 0 ==> exists k :: k in obj && k.0 == max
        invariant forall k :: k in obj && k !in rest && k.0 < TWO63 ==> k.0 <= max
        decreases |rest|
      {
        var k: (u64, u64) :| k in rest;
        rest := rest - {k};
        if k.0 < TWO63 && k.0 > max { max := k.0; }
      }
      if max > 0 {
        ghost var k :| k in obj && k.0 == max;
        assert k.0 as nat in Pids(obj);
      }
      assert max == MaxOf(Pids(obj));
      pid := max + 1;
    }

    /** The id to assign, from the cache or from the table. */
    method ChooseId(pid: u64) returns (id: u64)
      modifies `curPid, `nextId
      ensures (id, State()) == Choose(old(State()), pid)
    {
      if curPid == pid {
        id := nextId;
        nextId := Add64(nextId, 1);
      } else {
        id := GetNextOid(pid);
        curPid := pid;
        nextId := Add64(id, 1);
      }
      if id == 1 {
        id := LB;
        nextId := id + 1;
      }
    }

    /** Assignment for request 0, otherwise the requested id if it is unused. */
    method AssignId(pid: u64, requested: u64) returns (ok: bool, id: u64)
      modifies `curPid, `nextId
      ensures ok <==> Assign(old(State()), pid, requested).Some?
      ensures ok ==> (id, State()) == Assign(old(State()), pid, requested).value
      ensures !ok ==> State() == old(State())
    {
      ok, id := true, requested;
      if requested == 0 {
        id := ChooseId(pid);
      } else if (pid, requested) in obj {
        ok := false;
      } else {
        curPid, nextId := 0, 0;
      }
    }

    // ---------- rows and files ----------

    method ObjInsert(pid: u64, oid: u64, kind: Kind, f: set<u64>) returns (ok: bool)
      modifies `obj
      ensures ok <==> (pid, oid) !in old(obj) && oid !in f
      ensures State() == if ok then WithRow(old(State()), pid, oid, kind) else old(State())
    {
      ok := (pid, oid) !in obj && oid !in f;
      if ok { obj := obj[(pid, oid) := kind]; }
    }

    method CreateDatafile(pid: u64, oid: u64, f: set<u64>) returns (ok: bool)
      modifies `files
      ensures ok <==> (pid, oid) !in old(files) && oid !in f
      ensures files == if ok then old(files)[(pid, oid) := []] else old(files)
    {
      ok := (pid, oid) !in files && oid !in f;
      if ok { files := files[(pid, oid) := []]; }
    }

    method DeleteAttrs(pid: u64, oid: u64)
      modifies `attr
      ensures State() == DropAttrs(old(State()), pid, oid)
    {
      attr := map k | k in attr && !(k.0 == pid && k.1 == oid) :: attr[k];
    }

    method DeleteObject(pid: u64, oid: u64)
      modifies `obj
      ensures State() == DropObject(old(State()), pid, oid)
    {
      obj := obj - {(pid, oid)};
    }

    // ---------- removal ----------

    method Remove(pid: u64, oid: u64) returns (r: Outcome)
      requires Valid()
      modifies this
      ensures (State(), r) == Namespace.Remove(old(State()), pid, oid) && Valid()
    {
      if !(pid >= LB && oid >= LB) { return IllegalRequest; }
      curPid, nextId := 0, 0;
      files := files - {(pid, oid)};
      DeleteAttrs(pid, oid);
      coll := set m | m in coll && !(m.pid == pid && m.oid == oid);
      DeleteObject(pid, oid);
      SubsetKeyed(old(coll), coll);
      r := Done(pid, oid);
    }

    method RemoveCollection(pid: u64, cid: u64, force: bool) returns (r: Outcome)
      requires Valid()
      modifies this
      ensures (State(), r) == Namespace.RemoveCollection(old(State()), pid, cid, force) && Valid()
    {
      if pid < LB || cid < LB || (pid, cid) !in obj { return IllegalRequest; }
      curPid, nextId := 0, 0;
      var members := Namespace.Members(coll, pid, cid);
      if !ReadsAsZero(|members|) {
        if !force { return NotEmpty; }
        coll := coll - members;
        SubsetKeyed(old(coll), coll);
      }
      DeleteAttrs(pid, cid);
      DeleteObject(pid, cid);
      r := Done(pid, cid);
    }

    method RemovePartition(pid: u64) returns (r: Outcome)
      requires Valid()
      modifies this
      ensures (State(), r) == Namespace.RemovePartition(old(State()), pid) && Valid()
    {
      if pid == 0 { return IllegalRequest; }
      if !ReadsAsZero(|ObjectsIn(obj, pid)|) { return NotEmpty; }
      curPid, nextId := 0, 0;
      DeleteAttrs(pid, PARTITION_OID);
      DeleteObject(pid, PARTITION_OID);
      r := Done(pid, PARTITION_OID);
    }

    method RemoveTmpObjects(pid: u64, start: u64, end: u64)
      requires Valid()
      modifies this
      ensures State() == RemoveTmp(old(State()), pid, start, end) && Valid()
    {
      var j: u64 := start;
      while j < end
        invariant Valid()
        invariant RemoveTmp(State(), pid, j, end) == RemoveTmp(old(State()), pid, start, end)
      {
        var _ := Remove(pid, j);
        j := j + 1;
      }
    }

    // ---------- creation ----------

    /** One pass of the batch: a row, then a file, the row taken back when the file fails. */
    method CreateOne(pid: u64, i: u64, f: Faults) returns (ok: bool)
      modifies `obj, `files
      ensures ok <==> Free(old(State()), pid, i, f)
      ensures ok ==> State() == WithObject(old(State()), pid, i)
      ensures !ok && ((pid, i) in old(obj) || i in f.insert) ==> State() == old(State())
      ensures !ok && !((pid, i) in old(obj) || i in f.insert) ==>
                State() == DropObject(WithRow(old(State()), pid, i, UserObject), pid, i)
    {
      ok := ObjInsert(pid, i, UserObject, f.insert);
      if ok {
        ok := CreateDatafile(pid, i, f.file);
        if !ok { DeleteObject(pid, i); }
      }
    }

    method CreateBatch(pid: u64, oid: u64, end: u64, f: Faults) returns (ok: bool)
      requires Valid()
      modifies this
      ensures (State(), ok) == CreateLoop(old(State()), pid, oid, oid, end, f) && Valid()
    {
      var i: u64 := oid;
      while i < end
        invariant Valid() && oid <= i
        invariant CreateLoop(State(), pid, oid, i, end, f) == CreateLoop(old(State()), pid, oid, oid, end, f)
      {
        ok := CreateOne(pid, i, f);
        if !ok {
          RemoveTmpObjects(pid, oid, i);
          return;
        }
        i := i + 1;
      }
      ok := true;
    }

    method Create(pid: u64, requested: u64, numoid: u16, f: Faults) returns (r: Outcome)
      requires Valid()
      modifies this
      ensures (State(), r) == Namespace.Create(old(State()), pid, requested, numoid, f) && Valid()
    {
      hide CreateLoop, Choose;
      if pid < LB || (requested != 0 && requested < LB) || (pid, PARTITION_OID) !in obj { return IllegalRequest; }
      if numoid > 1 && requested != 0 { return IllegalRequest; }
      var given, oid := AssignId(pid, requested);
      if !given { return IllegalRequest; }
      var num := AtLeastOne(numoid);
      var ok := CreateBatch(pid, oid, Add64(oid, num), f);
      if !ok {
        curPid, nextId := 0, 0;
        return HardwareError;
      }
      nextId := Add64(nextId, num - 1);
      r := Done(pid, Add64(oid, num - 1));
    }

    method CreateCollection(pid: u64, requested: u64, f: Faults) returns (r: Outcome)
      requires Valid()
      modifies this
      ensures (State(), r) == Namespace.CreateCollection(old(State()), pid, requested, f) && Valid()
    {
      hide Choose;
      if pid < LB || (requested != 0 && requested < LB) || (pid, PARTITION_OID) !in obj { return IllegalRequest; }
      var given, cid := AssignId(pid, requested);
      if !given { return IllegalRequest; }
      var ok := ObjInsert(pid, cid, Collection, f.insert);
      if !ok { return IllegalRequest; }
      r := Done(pid, cid);
    }

    method CreatePartition(requested: u64, f: Faults) returns (r: Outcome)
      requires Valid()
      modifies this
      ensures (State(), r) == Namespace.CreatePartition(old(State()), requested, f) && Valid()
    {
      if requested != 0 && requested < LB { return IllegalRequest; }
      var pid := requested;
      if requested == 0 {
        pid := GetNextPid();
        if pid == 1 { pid := LB; }
      }
      var ok := ObjInsert(pid, PARTITION_OID, Partition, f.insert);
      if !ok { return IllegalRequest; }
      r := Done(pid, PARTITION_OID);
    }

    method CopyUserObjects(pid: u64, requested: u64, srcPid: u64, srcOid: u64) returns (r: Outcome)
      requires Valid()
      modifies this
      ensures (State(), r) == Namespace.CopyUserObjects(old(State()), pid, requested, srcPid, srcOid) && Valid()
    {
      hide Choose;
      if pid < LB || (requested != 0 && requested < LB) { return IllegalRequest; }
      if (srcPid, PARTITION_OID) !in obj || (srcPid, srcOid) !in obj || (pid, PARTITION_OID) !in obj {
        return IllegalRequest;
      }
      var given, oid := AssignId(pid, requested);
      if !given { return IllegalRequest; }
      r := Done(pid, oid);
    }

    // ---------- attributes ----------

    /** The collection of a slot; cid stays 0 when there is no row whose stored number is the one looked up. */
    method CollGetCid(pid: u64, oid: u64, number: u32) returns (cid: u64)
      requires Valid()
      ensures cid == SlotCid(coll, pid, oid, number)
    {
      var rest := coll;
      SlotFound(coll, pid, oid, number);
      while rest != {}
        invariant rest <= coll
        invariant forall c: u64 :: number < TWO31 && Member(pid, c, oid, number) in coll ==> Member(pid, c, oid, number) in rest
        decreases |rest|
      {
        var m :| m in rest;
        WhenEquals32(m.number, number);
        if m.pid == pid && m.oid == oid && Equals32(m.number, number) {
          assert m == Member(pid, m.cid, oid, number);
          return m.cid;
        }
        rest := rest - {m};
      }
      cid := 0;
    }

    method SetPointer(pid: u64, oid: u64, number: u32, val: seq<byte>) returns (r: Outcome)
      requires Valid()
      modifies this
      ensures (State(), r) == Namespace.SetPointer(old(State()), pid, oid, number, val) && Valid()
    {
      hide SlotCid, Keyed;
      PointerKeyed(State(), pid, oid, number, val);
      if (pid, oid) !in obj || obj[(pid, oid)] != UserObject { return IllegalRequest; }
      if number < UCAP_COLL_PTR_LB || number > UCAP_COLL_PTR_UB { return IllegalRequest; }
      if |val| == 0 {
        var cid := CollGetCid(pid, oid, number);
        coll := set m | m in coll && !(m.pid == pid && m.cid == cid && m.oid == oid);
        return Done(pid, oid);
      }
      if |val| != 8 { return IllegalRequest; }
      Widths();
      FieldBound(val);
      var cid: u64 := FromBe(val);
      if (pid, cid) !in obj { return IllegalRequest; }
      var inserted := CollInsert(coll, Member(pid, cid, oid, number));
      if inserted.None? { return IllegalRequest; }
      coll := inserted.value;
      r := Done(pid, oid);
    }

    /** The checks of osd_set_attributes, lines 2873 to 2918. */
    method CheckSet(pid: u64, oid: u64, page: u32, number: u32, val: seq<byte>) returns (ok: bool)
      ensures ok == MaySet(State(), pid, oid, page, number, val)
    {
      if (pid, oid) !in obj { return false; }
      var kind := if (pid, oid) == (0, 0) then Root else if oid == PARTITION_OID then Partition else obj[(pid, oid)];
      if (pid, oid) != (0, 0) && (pid < LB || (oid != PARTITION_OID && oid < LB)) { return false; }
      if !Settable(kind, page) { return false; }
      if number == ATTRNUM_UNMODIFIABLE { return false; }
      if number == ATTRNUM_INFO {
        if |val| > ATTR_PAGE_ID_LEN { return false; }
        var i := 0;
        while i < |val| && val[i] != 0
          invariant i <= |val| && forall j :: 0 <= j < i ==> val[j] != 0
        {
          i := i + 1;
        }
        if i == |val| { return false; }
      }
      ok := |val| <= ATTR_LEN_UB;
    }

    method SetAttr(pid: u64, oid: u64, page: TablePage, number: u32, val: seq<byte>) returns (r: Outcome)
      requires Valid()
      modifies `attr
      ensures (State(), r) == Namespace.SetAttr(old(State()), pid, oid, page, number, val) && Valid()
    {
      hide MaySet;
      var ok := CheckSet(pid, oid, page, number, val);
      if !ok { return IllegalRequest; }
      attr := if val == [] then attr - {(pid, oid, page, number)} else attr[(pid, oid, page, number) := val];
      r := Done(pid, oid);
    }

    method SetUserInfo(pid: u64, oid: u64, number: u32, val: seq<byte>) returns (r: Outcome)
      requires Valid() && (number == UIAP_LOGICAL_LEN ==> |val| >= 8)
      modifies `attr, `files
      ensures (State(), r) == Namespace.SetUserInfo(old(State()), pid, oid, number, val) && Valid()
    {
      hide MaySet;
      var ok := CheckSet(pid, oid, USER_INFO_PG, number, val);
      if !ok { return IllegalRequest; }
      if number == UIAP_USERNAME {
        attr := attr[(pid, oid, USER_INFO_PG, number) := val];
      } else if number == UIAP_LOGICAL_LEN {
        if (pid, oid) !in files { return IllegalRequest; }
        var len := FromBe(val[..8]) % TWO16;
        files := files[(pid, oid) := Resized(files[(pid, oid)], len)];
      } else {
        return IllegalRequest;
      }
      r := Done(pid, oid);
    }

    method SetRootInfo(pid: u64, oid: u64, number: u32, val: seq<byte>) returns (r: Outcome)
      requires Valid()
      modifies `attr
      ensures (State(), r) == Namespace.SetRootInfo(old(State()), pid, oid, number, val) && Valid()
    {
      hide MaySet;
      var ok := CheckSet(pid, oid, ROOT_INFO_PG, number, val);
      if !ok { return IllegalRequest; }
      if number == RIAP_OSD_NAME { attr := attr[(pid, oid, ROOT_INFO_PG, number) := val]; }
      r := Done(pid, oid);
    }

    // ---------- dispatch ----------

    /** One command. The device object does exactly the step of the state machine, so it keeps its invariants. */
    method Execute(op: Op) returns (r: Outcome)
      requires Valid()
      modifies this
      ensures (State(), r) == Step(old(State()), op) && Valid()
      ensures Sound(old(State())) ==> (Sound(State()) <==> NoOverflow(old(State()), op))
      ensures Inv(old(State())) && InRange(old(State()), op) ==> Inv(State())
    {
      hide Namespace.Create, Namespace.CreateCollection, Namespace.CreatePartition, Namespace.CopyUserObjects,
        Namespace.Remove, Namespace.RemoveCollection, Namespace.RemovePartition, Namespace.SetPointer, Namespace.SetAttr,
        Inv, InRange, Keyed, Sound, NoOverflow;
      ghost var s := State();
      match op {
        case OpCreatePartition(pid, f) => r := CreatePartition(pid, f);
        case OpCreateCollection(pid, cid, f) => r := CreateCollection(pid, cid, f);
        case OpCreate(pid, oid, num, f) => r := Create(pid, oid, num, f);
        case OpCopy(pid, oid, srcPid, srcOid) => r := CopyUserObjects(pid, oid, srcPid, srcOid);
        case OpRemove(pid, oid) => r := Remove(pid, oid);
        case OpRemoveCollection(pid, cid, force) => r := RemoveCollection(pid, cid, force);
        case OpRemovePartition(pid) => r := RemovePartition(pid);
        case OpSetPointer(pid, oid, number, val) => r := SetPointer(pid, oid, number, val);
        case OpSetAttr(pid, oid, page, number, val) => r := SetAttr(pid, oid, page, number, val);
      }
      if Sound(s) { WhenContainmentStays(s, op); }
      if Inv(s) && InRange(s, op) { StepKeeps(s, op); }
    }
  }
}
