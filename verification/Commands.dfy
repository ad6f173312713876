/** What each command on the namespace answers, and what it changes and leaves alone, in every state. */
module Commands {
  import opened Bytes
  import opened Pages
  import opened Namespace
  import opened Sql
  import opened NamespaceRuns
  import opened NamespaceLinks
  import NamespaceCache

  // ---------- objects and pages ----------

  /** Of present objects get_obj_type gives the type; of absent ones it takes any pid for a partition. */
  lemma TypeOfMeans(s: State, pid: u64, oid: u64)
    requires Contained(s.obj)
    ensures (pid, oid) in s.obj ==> TypeOf(s, pid, oid) == Some(s.obj[(pid, oid)])
    ensures (pid, oid) !in s.obj ==> TypeOf(s, pid, oid) == if pid >= LB && oid == 0 then Some(Partition) else None
  {
  }

  lemma WhenSettable(kind: Kind, page: u32)
    ensures Settable(kind, page) <==>
              || page >= 0xF000_0000
              || (kind.UserObject? && (page <= 0x7F || 0x1_0000 <= page <= 0x1FFF_FFFF))
              || (kind.Partition? && (0x3000_0000 <= page <= 0x3000_007F || 0x3001_0000 <= page <= 0x4FFF_FFFF))
              || (kind.Collection? && (0x6000_0000 <= page <= 0x6000_007F || 0x6001_0000 <= page <= 0x7FFF_FFFF))
              || (kind.Root? && (0x9000_0000 <= page <= 0x9000_007F || 0x9001_0000 <= page <= 0xAFFF_FFFF))
  {
  }

  lemma WhenGettable(kind: Kind, page: u32)
    ensures Gettable(kind, page) <==>
              || page >= 0xF000_0000
              || (kind.UserObject? && (page <= 0x7F || 0x8000 <= page <= 0x2FFF_FFFF))
              || (kind.Partition? && (0x3000_0000 <= page <= 0x3000_007F || 0x3000_8000 <= page <= 0x5FFF_FFFF))
              || (kind.Collection? && (0x6000_0000 <= page <= 0x6000_007F || 0x6000_8000 <= page <= 0x8FFF_FFFF))
              || (kind.Root? && (0x9000_0000 <= page <= 0x9000_007F || 0x9000_8000 <= page <= 0xBFFF_FFFF))
  {
  }

  // ---------- CREATE ----------

  /** The id that is assigned: the cached one for the partition referenced last, otherwise the one behind the largest
      that SQLite's signed order counts, and the lower bound in an empty partition. */
  lemma ChosenIsNext(s: State, pid: u64, max: nat)
    requires max < TWO63 && (max > 0 ==> (pid, max) in s.obj)
    requires forall k :: k in s.obj && k.0 == pid && k.1 < TWO63 ==> k.1 <= max
    ensures var (id, t) := Choose(s, pid);
            var next := if s.cache.pid == pid then s.cache.next else max + 1;
            && id == (if next == 1 then LB else next)
            && t == s.(cache := Cache(pid, if id == TWO64 - 1 then 0 else id + 1))
  {
    hide NextOid;
    NamespaceCache.NextIs(s.obj, pid, max);
  }

  /** CREATE is refused for every request and in every state exactly when an id is out of range or the partition absent,
      or when an id is asked for that is taken or together with a number above one. */
  lemma WhenCreateIsRefused(s: State, pid: u64, oid: u64, num: u16, f: Faults)
    ensures Create(s, pid, oid, num, f).1 == IllegalRequest <==>
              || pid < LB || (pid, 0) !in s.obj
              || (oid != 0 && (oid < LB || num > 1 || (pid, oid) in s.obj))
    ensures Create(s, pid, oid, num, f).1 == IllegalRequest ==> Create(s, pid, oid, num, f).0 == s
  {
    hide Choose, CreateLoop, Add64;
  }

  /** What is not refused fails exactly when something stands in the way of one of its objects. */
  lemma WhenCreateFails(s: State, pid: u64, oid: u64, num: u16, f: Faults)
    requires Sound(s)
    ensures var (id, n) := (BlockStart(s, pid, oid), if num == 0 then 1 else num);
            Create(s, pid, oid, num, f).1 == HardwareError <==>
              && pid >= LB && (pid, 0) in s.obj && (oid != 0 ==> oid >= LB && num <= 1 && (pid, oid) !in s.obj)
              && id + n < TWO64 && exists j: u64 :: id <= j < id + n && !Free(s, pid, j, f)
  {
    hide Create, BlockStart, Contained, Grown, Free, Referenced;
    WhenCreateIsRefused(s, pid, oid, num, f);
    CreateMeaning(s, pid, oid, num, f);
  }

  /** With the links intact and no faults, an unused id in a present partition is created on request, whether the number is
      given as 0 or as 1, and nothing else changes but the cache. */
  lemma RequestedIsCreated(s: State, pid: u64, oid: u64, num: u16)
    requires Sound(s) && Linked(s) && pid >= LB && (pid, 0) in s.obj
    requires num <= 1 && LB <= oid < TWO64 - 1 && (pid, oid) !in s.obj
    ensures Create(s, pid, oid, num, NO_FAULTS)
            == (s.(obj := s.obj[(pid, oid) := UserObject], files := s.files[(pid, oid) := []], cache := NO_CACHE),
                Done(pid, oid))
  {
    hide Contained, Choose;
    BlockEnd(oid, num);
    var t := s.(cache := NO_CACHE);
    assert CreateLoop(WithObject(t, pid, oid), pid, oid, oid + 1, oid + 1, NO_FAULTS) == (WithObject(t, pid, oid), true);
  }

  // ---------- CREATE COLLECTION, CREATE PARTITION, COPY ----------

  lemma WhenCollectionIsRefused(s: State, pid: u64, cid: u64, f: Faults)
    ensures var (t, r) := CreateCollection(s, pid, cid, f);
            var id := if cid != 0 then cid else Choose(s, pid).0;
            && (r == IllegalRequest <==>
                  || pid < LB || (pid, 0) !in s.obj || (cid != 0 && cid < LB)
                  || (pid, id) in s.obj || id in f.insert)
            && (r != IllegalRequest ==> r == Done(pid, id))
  {
    hide Choose;
    if cid == 0 { AssignedTables(s, pid); }
  }

  lemma AssignedTables(s: State, pid: u64)
    ensures var (id, t) := Choose(s, pid); SameTables(t, s) && t.cache.pid == pid
  {
    hide NextOid;
  }

  /** A collection that is created is the only new object; a requested one empties the cache. */
  lemma CollectionIsCreated(s: State, pid: u64, cid: u64, f: Faults)
    requires CreateCollection(s, pid, cid, f).1.Done?
    ensures var (t, r) := CreateCollection(s, pid, cid, f);
            && t == s.(obj := s.obj[(pid, r.id) := Collection], cache := t.cache) && (pid, r.id) !in s.obj
            && (cid != 0 ==> r.id == cid && t.cache == NO_CACHE)
            && (cid == 0 ==> (r.id, t.cache) == (Choose(s, pid).0, Choose(s, pid).1.cache))
  {
    hide Choose;
    AssignedTables(s, pid);
  }

  /** A requested partition is created exactly when its id is in range and unused, and is the only change. */
  lemma WhenPartitionIsCreated(s: State, pid: u64, f: Faults)
    requires pid != 0
    ensures var (t, r) := CreatePartition(s, pid, f);
            if pid >= LB && (pid, 0) !in s.obj && 0 !in f.insert
            then r == Done(pid, 0) && t == s.(obj := s.obj[(pid, 0) := Partition])
            else r == IllegalRequest && t == s
  {
    hide NextPid;
  }

  /** An assigned one has the id behind the largest, and at least the lower bound. */
  lemma AssignedPartitionIsNext(s: State, max: nat)
    requires max < TWO63 && (max > 0 ==> exists k :: k in s.obj && k.0 == max)
    requires forall k :: k in s.obj && k.0 < TWO63 ==> k.0 <= max
    ensures var pid := if max == 0 then LB else max + 1;
            (pid, 0) !in s.obj ==>
              CreatePartition(s, 0, NO_FAULTS) == (s.(obj := s.obj[(pid as u64, 0 as u64) := Partition]), Done(pid, 0))
  {
    var m := MaxOf(Pids(s.obj));
    if max > 0 {
      var k :| k in s.obj && k.0 == max;
      assert k.0 as nat in Pids(s.obj);
    }
    if m > 0 { assert exists k :: k in s.obj && k.0 as nat == m; }
    assert NextPid(s.obj) == max + 1;
  }

  lemma WhenCopyIsRefused(s: State, pid: u64, oid: u64, srcPid: u64, srcOid: u64)
    ensures var (t, r) := CopyUserObjects(s, pid, oid, srcPid, srcOid);
            && SameTables(t, s)
            && (r == IllegalRequest <==>
                  || pid < LB || (pid, 0) !in s.obj || (oid != 0 && (oid < LB || (pid, oid) in s.obj))
                  || (srcPid, 0) !in s.obj || (srcPid, srcOid) !in s.obj)
            && (r == IllegalRequest ==> t == s)
            && (r != IllegalRequest ==> r == Done(pid, if oid != 0 then oid else Choose(s, pid).0))
            && (r != IllegalRequest ==> t.cache == if oid != 0 then NO_CACHE else Choose(s, pid).1.cache)
  {
    hide Choose;
    AssignedTables(s, pid);
  }

  // ---------- the removals ----------

  /** The attribute rows but those of one object. */
  ghost predicate OthersAttrs(s: State, t: State, pid: u64, oid: u64) {
    && (forall k :: k in t.attr <==> k in s.attr && (k.0, k.1) != (pid, oid))
    && (forall k :: k in t.attr ==> t.attr[k] == s.attr[k])
  }

  ghost predicate OthersObjects(s: State, t: State, pid: u64, oid: u64) {
    && (forall k :: k in t.obj <==> k in s.obj && k != (pid, oid))
    && (forall k :: k in t.obj ==> t.obj[k] == s.obj[k])
  }

  /** REMOVE takes out the row, the file, the attributes and the memberships of its object, present or not, and nothing
      else. */
  lemma RemoveMeans(s: State, pid: u64, oid: u64)
    ensures var (t, r) := Remove(s, pid, oid);
            if pid < LB || oid < LB then r == IllegalRequest && t == s
            else
              && r == Done(pid, oid) && OthersObjects(s, t, pid, oid) && OthersAttrs(s, t, pid, oid) && t.cache == NO_CACHE
              && (forall k :: k in t.files <==> k in s.files && k != (pid, oid))
              && (forall k :: k in t.files ==> t.files[k] == s.files[k])
              && (forall m :: m in t.coll <==> m in s.coll && !(m.pid == pid && m.oid == oid))
  {
  }

  /** REMOVE COLLECTION: which requests are refused, when it is not empty, and that it takes out the row, the attributes and
      the memberships of its collection and nothing else; only when it has a positive multiple of 2^32 members do these
      stay. */
  lemma RemoveCollectionMeans(s: State, pid: u64, cid: u64, force: bool)
    ensures var (t, r) := RemoveCollection(s, pid, cid, force);
            var count := |set m | m in s.coll && m.pid == pid && m.cid == cid|;
            && (r == IllegalRequest <==> pid < LB || cid < LB || (pid, cid) !in s.obj)
            && (r == NotEmpty <==> r != IllegalRequest && !force && count % TWO32 != 0)
            && (r == IllegalRequest ==> t == s) && (r == NotEmpty ==> t == s.(cache := NO_CACHE))
            && (r != IllegalRequest && r != NotEmpty ==>
                  && r == Done(pid, cid) && OthersObjects(s, t, pid, cid) && OthersAttrs(s, t, pid, cid)
                  && t.files == s.files && t.cache == NO_CACHE
                  && forall m :: m in t.coll <==>
                       m in s.coll && (m.pid == pid && m.cid == cid ==> count > 0 && count % TWO32 == 0))
  {
    var members := set m | m in s.coll && m.pid == pid && m.cid == cid;
    assert members == Members(s.coll, pid, cid);
    if |members| == 0 { assert forall m :: m in s.coll ==> m !in members; }
  }

  /** REMOVE PARTITION: not for partition 0, not while its objects count as any, and otherwise exactly the row and the
      attributes of the partition itself go; so an empty partition is always removed. */
  lemma RemovePartitionMeans(s: State, pid: u64)
    ensures var (t, r) := RemovePartition(s, pid);
            var count := |set k | k in s.obj && k.0 == pid && k.1 != 0|;
            if pid == 0 then r == IllegalRequest && t == s
            else if count % TWO32 != 0 then r == NotEmpty && t == s
            else
              && r == Done(pid, 0) && OthersObjects(s, t, pid, 0) && OthersAttrs(s, t, pid, 0)
              && t.files == s.files && t.coll == s.coll && t.cache == NO_CACHE
  {
    assert (set k | k in s.obj && k.0 == pid && k.1 != 0) == ObjectsIn(s.obj, pid);
  }

  // ---------- setting ----------

  /** Setting an attribute of the table: what is refused, and that nothing changes but the one attribute, which an empty
      value deletes. */
  lemma SetAttrMeans(s: State, pid: u64, oid: u64, page: TablePage, number: u32, val: seq<byte>)
    requires Contained(s.obj)
    ensures var (t, r) := SetAttr(s, pid, oid, page, number, val);
            && (r.Done? <==>
                  && (pid, oid) in s.obj && Settable(s.obj[(pid, oid)], page) && number != 0xFFFF_FFFF && |val| <= 0xFFFE
                  && (number == 0 ==> |val| <= 40 && 0 in val))
            && (r.Done? ==> r == Done(pid, oid)) && (!r.Done? ==> r == IllegalRequest && t == s)
            && t == s.(attr := t.attr)
            && (r.Done? ==> forall k :: k in t.attr <==> if k == (pid, oid, page, number) then val != [] else k in s.attr)
            && (r.Done? ==> forall k :: k in t.attr ==>
                  t.attr[k] == if k == (pid, oid, page, number) then val else s.attr[k])
  {
    hide Settable, Contained;
    TypeOfMeans(s, pid, oid);
  }

  /** A pointer is set on user objects only, under the numbers for pointers, to a present object that it does not yet point
      to. */
  lemma WhenPointerIsRefused(s: State, pid: u64, oid: u64, number: u32, cid: u64)
    ensures var (t, r) := SetPointer(s, pid, oid, number, Be(cid, 8));
            && (r.Done? <==>
                  && (pid, oid) in s.obj && s.obj[(pid, oid)] == UserObject && 1 <= number <= 0xFFFF_FF00
                  && (pid, cid) in s.obj && forall n: u32 :: Member(pid, cid, oid, n) !in s.coll)
            && (r.Done? ==> r == Done(pid, oid) && t == s.(coll := t.coll)) && (!r.Done? ==> r == IllegalRequest && t == s)
  {
    hide Be, FromBe;
    Widths();
    FieldRoundTrip(cid, 8);
    if exists x <- s.coll :: x.pid == pid && x.cid == cid && x.oid == oid {
      var x :| x in s.coll && x.pid == pid && x.cid == cid && x.oid == oid;
      assert x == Member(pid, cid, oid, x.number);
    }
  }

  /** A value of another length than 0 or 8 is no pointer. */
  lemma OddPointerIsRefused(s: State, pid: u64, oid: u64, number: u32, val: seq<byte>)
    requires |val| != 0 && |val| != 8
    ensures SetPointer(s, pid, oid, number, val) == (s, IllegalRequest)
  {
  }

  /** On the root information page only the name of the device is kept. */
  lemma RootNameIsKept(s: State, number: u32, val: seq<byte>)
    requires (0, 0) in s.obj && 0 < number < 0xFFFF_FFFF && |val| <= 0xFFFE
    ensures SetRootInfo(s, 0, 0, number, val)
            == (if number == 9 then s.(attr := s.attr[(0 as u64, 0 as u64, 0x9000_0001 as u32, 9 as u32) := val]) else s,
                Done(0, 0))
  {
  }

  /** The name of the user is kept under number 9, and no other number of the page can be set but the logical length. */
  lemma WhenUserInfoIsSet(s: State, pid: u64, oid: u64, number: u32, val: seq<byte>)
    requires Contained(s.obj) && HasType(s, pid, oid, UserObject) && |val| <= 0xFFFE && number != 0x82
    ensures SetUserInfo(s, pid, oid, number, val)
            == if number == 9
               then (s.(attr := s.attr[(pid, oid, 1 as u32, 9 as u32) := val]), Done(pid, oid)) else (s, IllegalRequest)
  {
    hide Contained, IsName;
    TypeOfMeans(s, pid, oid);
  }
}
