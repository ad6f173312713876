/** The object namespace of osd.c over the three tables and the data files: what each command does to the state. */
module Namespace {
  import opened Bytes
  import opened Pages
  import opened Sql

  const LB: u64 := 0x10000             // USEROBJECT_PID_LB, USEROBJECT_OID_LB and the other lower bounds
  const PARTITION_OID: u64 := 0
  const UCAP_COLL_PTR_LB := 0x1
  const UCAP_COLL_PTR_UB := 0xFFFF_FF00

  datatype Kind = Root | Partition | Collection | UserObject

  /** A row of the coll table: oid is a member of cid by way of the pointer attribute number. */
  datatype Member = Member(pid: u64, cid: u64, oid: u64, number: u32)

  /** osd->ic: the next free id of the partition referenced last; pid 0 when invalid. */
  datatype Cache = Cache(pid: u64, next: u64)

  const NO_CACHE := Cache(0, 0)

  type ObjTable = map<(u64, u64), Kind>

  datatype State = State(obj: ObjTable, attr: map<(u64, u64, u32, u32), seq<byte>>, coll: set<Member>,
                         files: map<(u64, u64), seq<byte>>, cache: Cache)

  /** Done carries the ids that go into the current command attributes page. */
  datatype Outcome = Done(pid: u64, id: u64) | IllegalRequest | NotEmpty | HardwareError

  function Initial(): State { State(map[(0, 0) := Root], map[], {}, map[], NO_CACHE) }

  // ---------- SELECT MAX ----------

  /** The ids of a partition that SQLite's signed INTEGER orders from 0 up. */
  function Ids(obj: ObjTable, pid: u64): set<nat> { set k | k in obj && k.0 == pid && k.1 < TWO63 :: k.1 as nat }

  function Pids(obj: ObjTable): set<nat> { set k | k in obj && k.0 < TWO63 :: k.0 as nat }

  ghost function MaxOf(ids: set<nat>): (m: nat)
    ensures m == 0 || m in ids
    ensures forall i <- ids :: i <= m
  {
    if ids == {} then 0
    else
      var x :| x in ids;
      var m := MaxOf(ids - {x});
      assert forall i <- ids :: i == x || i in ids - {x};
      if x > m then x else m
  }

  /** obj_get_nextoid, obj_get_nextpid. */
  ghost function NextOid(obj: ObjTable, pid: u64): (n: u64)
    ensures 1 <= n <= TWO63
  {
    var m := MaxOf(Ids(obj, pid));
    assert m < TWO63;
    m + 1
  }

  ghost function NextPid(obj: ObjTable): (n: u64)
    ensures 1 <= n <= TWO63
  {
    var m := MaxOf(Pids(obj));
    assert m < TWO63;
    m + 1
  }

  // ---------- removal ----------

  function DropAttrs(s: State, pid: u64, oid: u64): State {
    s.(attr := map k | k in s.attr && !(k.0 == pid && k.1 == oid) :: s.attr[k])
  }

  function DropObject(s: State, pid: u64, oid: u64): State { s.(obj := s.obj - {(pid, oid)}) }

  /** osd_remove. Neither a missing object nor a missing file is an error. */
  function Remove(s: State, pid: u64, oid: u64): (State, Outcome) {
    if pid < LB || oid < LB then (s, IllegalRequest)
    else
      var t := s.(cache := NO_CACHE, files := s.files - {(pid, oid)},
                  coll := set m | m in s.coll && !(m.pid == pid && m.oid == oid));
      (DropObject(DropAttrs(t, pid, oid), pid, oid), Done(pid, oid))
  }

  function Members(coll: set<Member>, pid: u64, cid: u64): set<Member> {
    set m | m in coll && m.pid == pid && m.cid == cid
  }

  /** osd_remove_collection. The type of the object is not looked at, and the members are counted in 32 bits. */
  function RemoveCollection(s: State, pid: u64, cid: u64, force: bool): (State, Outcome) {
    if pid < LB || cid < LB || (pid, cid) !in s.obj then (s, IllegalRequest)
    else
      var t, members := s.(cache := NO_CACHE), Members(s.coll, pid, cid);
      if !ReadsAsZero(|members|) && !force then (t, NotEmpty)
      else
        var u := if ReadsAsZero(|members|) then t else t.(coll := t.coll - members);
        (DropObject(DropAttrs(u, pid, cid), pid, cid), Done(pid, cid))
  }

  /** The objects that SELECT COUNT(oid) ... AND oid != 0 counts. */
  function ObjectsIn(obj: ObjTable, pid: u64): set<(u64, u64)> { set k | k in obj && k.0 == pid && k.1 != 0 }

  /** osd_remove_partition. The objects are counted in 32 bits. */
  function RemovePartition(s: State, pid: u64): (State, Outcome) {
    if pid == 0 then (s, IllegalRequest)
    else if !ReadsAsZero(|ObjectsIn(s.obj, pid)|) then (s, NotEmpty)
    else
      var t := DropAttrs(s.(cache := NO_CACHE), pid, PARTITION_OID);
      (DropObject(t, pid, PARTITION_OID), Done(pid, PARTITION_OID))
  }

  // ---------- choosing an id ----------

  /** Lines 1211 to 1225, 1291 to 1309, 1422 to 1440: the cached id on a hit, SELECT MAX otherwise. */
  ghost function Choose(s: State, pid: u64): (u64, State) {
    var id := if s.cache.pid == pid then s.cache.next else NextOid(s.obj, pid);
    if id == 1 then (LB, s.(cache := Cache(pid, LB + 1)))
    else (id, s.(cache := Cache(pid, Add64(id, 1))))
  }

  /** The id for a request, where 0 asks for assignment; a requested id must be unused and empties the cache. */
  ghost function Assign(s: State, pid: u64, requested: u64): Option<(u64, State)> {
    if requested == 0 then Some(Choose(s, pid))
    else if (pid, requested) in s.obj then None
    else Some((requested, s.(cache := NO_CACHE)))
  }

  predicate Acceptable(s: State, pid: u64, requested: u64) {
    pid >= LB && (requested == 0 || requested >= LB) && (pid, PARTITION_OID) in s.obj
  }

  // ---------- creation ----------

  /** Which insertions into the obj table and which file creations go wrong. */
  datatype Faults = Faults(insert: set<u64>, file: set<u64>)

  const NO_FAULTS := Faults({}, {})

  /** osd_remove_tmp_objects, results ignored. */
  function RemoveTmp(s: State, pid: u64, start: u64, end: u64): State
    decreases end - start
  {
    if start >= end then s else RemoveTmp(Remove(s, pid, start).0, pid, start + 1, end)
  }

  function WithRow(s: State, pid: u64, oid: u64, kind: Kind): State { s.(obj := s.obj[(pid, oid) := kind]) }

  function WithObject(s: State, pid: u64, oid: u64): State {
    WithRow(s, pid, oid, UserObject).(files := s.files[(pid, oid) := []])
  }

  /** Lines 1323 to 1351: the objects i to end - 1, or the clean-up of those from first on and failure. */
  function CreateLoop(s: State, pid: u64, first: u64, i: u64, end: u64, f: Faults): (State, bool)
    decreases end - i
  {
    if i >= end then (s, true)
    else if (pid, i) in s.obj || i in f.insert then (RemoveTmp(s, pid, first, i), false)
    else if (pid, i) in s.files || i in f.file then
      (RemoveTmp(DropObject(WithRow(s, pid, i, UserObject), pid, i), pid, first, i), false)
    else CreateLoop(WithObject(s, pid, i), pid, first, i + 1, end, f)
  }

  function AtLeastOne(num: u16): u16 { if num == 0 then 1 else num }

  /** osd_create. */
  ghost function Create(s: State, pid: u64, requested: u64, num: u16, f: Faults): (State, Outcome) {
    if !Acceptable(s, pid, requested) || (num > 1 && requested != 0) then (s, IllegalRequest)
    else
      match Assign(s, pid, requested)
      case None => (s, IllegalRequest)
      case Some((oid, t)) =>
        var n := AtLeastOne(num);
        var (u, ok) := CreateLoop(t, pid, oid, oid, Add64(oid, n), f);
        if ok then (u.(cache := u.cache.(next := Add64(u.cache.next, n - 1))), Done(pid, Add64(oid, n - 1)))
        else (u.(cache := NO_CACHE), HardwareError)
  }

  /** osd_create_collection. A failed insertion leaves the cache as it is. */
  ghost function CreateCollection(s: State, pid: u64, requested: u64, f: Faults): (State, Outcome) {
    if !Acceptable(s, pid, requested) then (s, IllegalRequest)
    else
      match Assign(s, pid, requested)
      case None => (s, IllegalRequest)
      case Some((cid, t)) =>
        if (pid, cid) in t.obj || cid in f.insert then (t, IllegalRequest)
        else (WithRow(t, pid, cid, Collection), Done(pid, cid))
  }

  /** osd_create_partition. */
  ghost function CreatePartition(s: State, requested: u64, f: Faults): (State, Outcome) {
    if requested != 0 && requested < LB then (s, IllegalRequest)
    else
      var next := NextPid(s.obj);
      var pid := if requested != 0 then requested else if next == 1 then LB else next;
      if (pid, PARTITION_OID) in s.obj || PARTITION_OID in f.insert then (s, IllegalRequest)
      else (WithRow(s, pid, PARTITION_OID, Partition), Done(pid, PARTITION_OID))
  }

  /** osd_copy_user_objects, which assigns an id and as yet copies nothing. */
  ghost function CopyUserObjects(s: State, pid: u64, requested: u64, srcPid: u64, srcOid: u64): (State, Outcome) {
    if !Acceptable(s, pid, requested) || (srcPid, PARTITION_OID) !in s.obj || (srcPid, srcOid) !in s.obj
    then (s, IllegalRequest)
    else
      match Assign(s, pid, requested)
      case None => (s, IllegalRequest)
      case Some((oid, t)) => (t, Done(pid, oid))
  }

  // ---------- attributes and collection pointers ----------

  /** coll_insert under the keys of the table: a second row for (pid, cid, oid) is refused, a row in the same slot
      (pid, oid, number) is replaced. */
  function CollInsert(coll: set<Member>, m: Member): Option<set<Member>> {
    if exists x <- coll :: x.pid == m.pid && x.cid == m.cid && x.oid == m.oid then None
    else Some((set x | x in coll && !(x.pid == m.pid && x.oid == m.oid && x.number == m.number)) + {m})
  }

  /** The rows that coll_get_cid finds: the number is stored with sqlite3_bind_int, but looked up as an int64. */
  ghost predicate SlotHas(coll: set<Member>, pid: u64, oid: u64, number: u32, cid: u64) {
    exists n: u32 :: Member(pid, cid, oid, n) in coll && Equals32(n, number)
  }

  lemma WhenSlotHas(coll: set<Member>, pid: u64, oid: u64, number: u32, cid: u64)
    ensures SlotHas(coll, pid, oid, number, cid) <==> number < TWO31 && Member(pid, cid, oid, number) in coll
  {
    WhenEquals32(number, number);
    if n: u32 :| Member(pid, cid, oid, n) in coll && Equals32(n, number) { WhenEquals32(n, number); }
  }

  /** coll_get_cid: the collection a slot points to; the caller's variable keeps its 0 when no row is found. */
  ghost function SlotCid(coll: set<Member>, pid: u64, oid: u64, number: u32): u64 {
    if exists cid: u64 :: SlotHas(coll, pid, oid, number, cid) then
      var cid: u64 :| SlotHas(coll, pid, oid, number, cid); cid
    else 0
  }

  function CollDelete(coll: set<Member>, pid: u64, cid: u64, oid: u64): set<Member> {
    set m | m in coll && !(m.pid == pid && m.cid == cid && m.oid == oid)
  }

  /** osd_set_attributes on the collection page of a user object, down to set_cap. An empty value stands for a null
      pointer of length 0, which only a direct caller can pass. */
  ghost function SetPointer(s: State, pid: u64, oid: u64, number: u32, val: seq<byte>): (State, Outcome) {
    if (pid, oid) !in s.obj || s.obj[(pid, oid)] != UserObject
       || number < UCAP_COLL_PTR_LB || number > UCAP_COLL_PTR_UB then (s, IllegalRequest)
    else if val == [] then
      (s.(coll := CollDelete(s.coll, pid, SlotCid(s.coll, pid, oid, number), oid)), Done(pid, oid))
    else if |val| != 8 || (pid, FromBe(val)) !in s.obj then (s, IllegalRequest)
    else
      Widths(); FieldBound(val);
      match CollInsert(s.coll, Member(pid, FromBe(val), oid, number))
      case None => (s, IllegalRequest)
      case Some(c) => (s.(coll := c), Done(pid, oid))
  }

  /** get_obj_type. */
  function TypeOf(s: State, pid: u64, oid: u64): Option<Kind> {
    if (pid, oid) == (0, 0) then Some(Root)
    else if pid >= LB && oid == PARTITION_OID then Some(Partition)
    else if pid >= LB && oid >= LB && (pid, oid) in s.obj then Some(s.obj[(pid, oid)])
    else None
  }

  function FirstPage(kind: Kind): u32 {
    match kind
    case Root => ROOT_PG
    case Partition => PARTITION_PG
    case Collection => COLLECTION_PG
    case UserObject => USEROBJECT_PG
  }

  /** issettable_page: the standard and the user-defined pages of the object's type, and the pages for any type. */
  predicate Settable(kind: Kind, page: u32) {
    var rel := page - FirstPage(kind);
    if 0 <= rel < PARTITION_PG then rel <= STD_PG_UB || LUN_PG_LB <= rel <= LUN_PG_UB else page >= ANY_PG
  }

  /** isgettable_page: all pages of the object's type but the reserved ones, and the pages for any type. */
  predicate Gettable(kind: Kind, page: u32) {
    var rel := page - FirstPage(kind);
    if 0 <= rel < PARTITION_PG then !(RSRV_PG_LB <= rel <= RSRV_PG_UB || rel > VEND_PG_UB) else page >= ANY_PG
  }

  /** Whether osd_set_attributes sets or deletes an attribute of the table. */
  predicate MaySet(s: State, pid: u64, oid: u64, page: u32, number: u32, val: seq<byte>) {
    && (pid, oid) in s.obj && TypeOf(s, pid, oid).Some? && Settable(TypeOf(s, pid, oid).value, page)
    && number != ATTRNUM_UNMODIFIABLE && (number == ATTRNUM_INFO ==> IsName(val)) && |val| <= ATTR_LEN_UB
  }

  /** osd_set_attributes on a page that is kept in the attr table; an empty value, a null pointer, deletes the
      attribute. */
  function SetAttr(s: State, pid: u64, oid: u64, page: TablePage, number: u32, val: seq<byte>): (State, Outcome) {
    if !MaySet(s, pid, oid, page, number, val) then (s, IllegalRequest)
    else if val == [] then (s.(attr := s.attr - {(pid, oid, page, number)}), Done(pid, oid))
    else (s.(attr := s.attr[(pid, oid, page, number) := val]), Done(pid, oid))
  }

  /** truncate(). */
  function Resized(f: seq<byte>, n: nat): (g: seq<byte>)
    ensures |g| == n
  {
    if n <= |f| then f[..n] else f + Zeros(n - |f|)
  }

  /** osd_set_attributes on the user information page, down to set_uiap: the name of the user goes into the table, and
      the logical length, read from eight bytes into a uint16_t, becomes the length of the data file. */
  function SetUserInfo(s: State, pid: u64, oid: u64, number: u32, val: seq<byte>): (State, Outcome)
    requires number == UIAP_LOGICAL_LEN ==> |val| >= 8
  {
    if !MaySet(s, pid, oid, USER_INFO_PG, number, val) then (s, IllegalRequest)
    else if number == UIAP_USERNAME then (s.(attr := s.attr[(pid, oid, USER_INFO_PG, number) := val]), Done(pid, oid))
    else if number == UIAP_LOGICAL_LEN && (pid, oid) in s.files then
      (s.(files := s.files[(pid, oid) := Resized(s.files[(pid, oid)], FromBe(val[..8]) % TWO16)]), Done(pid, oid))
    else (s, IllegalRequest)
  }

  /** The same on the root information page, down to set_riap, the system id apart: the name of the device goes into the
      table, and all other numbers are accepted without effect. */
  function SetRootInfo(s: State, pid: u64, oid: u64, number: u32, val: seq<byte>): (State, Outcome) {
    if !MaySet(s, pid, oid, ROOT_INFO_PG, number, val) then (s, IllegalRequest)
    else if number == RIAP_OSD_NAME then (s.(attr := s.attr[(pid, oid, ROOT_INFO_PG, number) := val]), Done(pid, oid))
    else (s, Done(pid, oid))
  }

  // ---------- runs ----------

  datatype Op =
    | OpCreatePartition(pid: u64, faults: Faults)
    | OpCreateCollection(pid: u64, cid: u64, faults: Faults)
    | OpCreate(pid: u64, oid: u64, num: u16, faults: Faults)
    | OpCopy(pid: u64, oid: u64, srcPid: u64, srcOid: u64)
    | OpRemove(pid: u64, oid: u64)
    | OpRemoveCollection(pid: u64, cid: u64, force: bool)
    | OpRemovePartition(pid: u64)
    | OpSetPointer(pid: u64, oid: u64, number: u32, val: seq<byte>)
    | OpSetAttr(pid: u64, oid: u64, page: TablePage, number: u32, val: seq<byte>)

  ghost function Step(s: State, op: Op): (State, Outcome) {
    match op
    case OpCreatePartition(pid, f) => CreatePartition(s, pid, f)
    case OpCreateCollection(pid, cid, f) => CreateCollection(s, pid, cid, f)
    case OpCreate(pid, oid, num, f) => Create(s, pid, oid, num, f)
    case OpCopy(pid, oid, srcPid, srcOid) => CopyUserObjects(s, pid, oid, srcPid, srcOid)
    case OpRemove(pid, oid) => Remove(s, pid, oid)
    case OpRemoveCollection(pid, cid, force) => RemoveCollection(s, pid, cid, force)
    case OpRemovePartition(pid) => RemovePartition(s, pid)
    case OpSetPointer(pid, oid, number, val) => SetPointer(s, pid, oid, number, val)
    case OpSetAttr(pid, oid, page, number, val) => SetAttr(s, pid, oid, page, number, val)
  }
}
