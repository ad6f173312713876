/** When rows, memberships and files follow their objects, and that the coll table stays a two-way key. */
module NamespaceLinks {
  import opened Bytes
  import opened Pages
  import opened Namespace
  import opened Sql
  import opened NamespaceRuns

  // ---------- links ----------

  /** attr rows belong to present objects, memberships link a present user object to a present collection, and exactly
      the user objects have a data file. */
  ghost predicate Linked(s: State) {
    && (forall k :: k in s.attr ==> (k.0, k.1) in s.obj)
    && (forall m :: m in s.coll ==> HasType(s, m.pid, m.oid, UserObject) && HasType(s, m.pid, m.cid, Collection))
    && (forall k :: k in s.files <==> k in s.obj && s.obj[k] == UserObject)
  }

  predicate HasType(s: State, pid: u64, oid: u64, kind: Kind) { (pid, oid) in s.obj && s.obj[(pid, oid)] == kind }

  /** What a caller can see before the commands that do not check types: REMOVE of a collection that has members,
      REMOVE COLLECTION of a user object or of a collection with a nonzero multiple of 2^32 members, and a pointer set
      to something present that is no collection. */
  predicate Unlinks(s: State, op: Op) {
    match op
    case OpRemove(pid, oid) => pid >= LB && oid >= LB && Members(s.coll, pid, oid) != {}
    case OpRemoveCollection(pid, cid, _) => HasType(s, pid, cid, UserObject) || Miscounted(|Members(s.coll, pid, cid)|)
    case OpSetPointer(pid, oid, number, val) =>
      && HasType(s, pid, oid, UserObject) && UCAP_COLL_PTR_LB <= number <= UCAP_COLL_PTR_UB && |val| == 8
      && (pid, FromBe(val)) in s.obj && s.obj[(pid, FromBe(val))] != Collection
    case _ => false
  }

  lemma GrownLinked(s: State, t: State, pid: u64, a: nat, b: nat)
    requires Linked(s) && Grown(s, t, pid, a, b) && SameRows(t, s)
    ensures Linked(t)
  {
  }

  lemma LinkedReferenced(s: State)
    requires Linked(s)
    ensures Referenced(s)
  {
  }

  lemma LinkedSame(s: State, t: State)
    requires Linked(s) && SameTables(s, t)
    ensures Linked(t)
  {
  }

  lemma CreateLinked(s: State, pid: u64, oid: u64, num: u16, f: Faults)
    requires Sound(s) && Linked(s)
    ensures Linked(Create(s, pid, oid, num, f).0)
  {
    hide Linked, Create, Grown, Free, Sound, Referenced;
    CreateMeaning(s, pid, oid, num, f);
    LinkedReferenced(s);
    var (t, r) := Create(s, pid, oid, num, f);
    var id, n := BlockStart(s, pid, oid), AtLeastOne(num);
    match r
    case Done(_, _) => if id + n < TWO64 { GrownLinked(s, t, pid, id, id + n); } else { LinkedSame(s, t); }
    case HardwareError => LinkedSame(s, t);
    case _ =>
  }

  lemma RowLinked(s: State, pid: u64, id: u64, kind: Kind)
    requires Linked(s) && (pid, id) !in s.obj && kind != UserObject
    ensures Linked(WithRow(s, pid, id, kind))
  {
  }

  lemma CreateCollectionLinked(s: State, pid: u64, cid: u64, f: Faults)
    requires Linked(s)
    ensures Linked(CreateCollection(s, pid, cid, f).0)
  {
    hide Assign, Linked;
    if Acceptable(s, pid, cid) {
      AssignKeepsTables(s, pid, cid);
      if Assign(s, pid, cid).Some? {
        var (id, t) := Assign(s, pid, cid).value;
        LinkedSame(s, t);
        if (pid, id) !in t.obj { RowLinked(t, pid, id, Collection); }
      }
    }
  }

  lemma CopyLinked(s: State, pid: u64, oid: u64, srcPid: u64, srcOid: u64)
    requires Linked(s)
    ensures Linked(CopyUserObjects(s, pid, oid, srcPid, srcOid).0)
  {
    hide Assign, Linked;
    if Acceptable(s, pid, oid) {
      AssignKeepsTables(s, pid, oid);
      if Assign(s, pid, oid).Some? { LinkedSame(s, Assign(s, pid, oid).value.1); }
    }
  }

  lemma CreatePartitionLinked(s: State, pid: u64, f: Faults)
    requires Linked(s)
    ensures Linked(CreatePartition(s, pid, f).0)
  {
    hide Linked;
    var id := if pid != 0 then pid else if NextPid(s.obj) == 1 then LB else NextPid(s.obj);
    if (id, PARTITION_OID) !in s.obj { RowLinked(s, id, PARTITION_OID, Partition); }
  }

  lemma RemoveLinked(s: State, pid: u64, oid: u64)
    requires Linked(s)
    ensures Linked(Remove(s, pid, oid).0) <==> !Unlinks(s, OpRemove(pid, oid))
  {
    var t := Remove(s, pid, oid).0;
    if pid >= LB && oid >= LB {
      if Members(s.coll, pid, oid) != {} {
        var m :| m in Members(s.coll, pid, oid);
        assert HasType(s, pid, m.oid, UserObject) && HasType(s, pid, oid, Collection);
        assert m in t.coll && !HasType(t, pid, oid, Collection);
      } else {
        ObjectGone(s, t, pid, oid);
      }
    }
  }

  lemma ObjectGone(s: State, t: State, pid: u64, oid: u64)
    requires Linked(s) && Members(s.coll, pid, oid) == {}
    requires t.obj == s.obj - {(pid, oid)} && t.files == s.files - {(pid, oid)}
    requires t.coll == set m | m in s.coll && !(m.pid == pid && m.oid == oid)
    requires forall k :: k in t.attr <==> k in s.attr && !(k.0 == pid && k.1 == oid)
    ensures Linked(t)
  {
    forall m | m in s.coll ensures !(m.pid == pid && m.cid == oid) { assert m !in Members(s.coll, pid, oid); }
    assert forall k :: k in t.obj <==> k in s.obj && k != (pid, oid);
    assert forall k :: k in t.files <==> k in s.files && k != (pid, oid);
  }

  /** A user object is no one's collection, so REMOVE COLLECTION does not find members in it and always removes it. A
      collection whose members are counted as 0 is removed without them. */
  lemma RemoveCollectionLinked(s: State, pid: u64, cid: u64, force: bool)
    requires Contained(s.obj) && Linked(s)
    ensures Linked(RemoveCollection(s, pid, cid, force).0) <==> !Unlinks(s, OpRemoveCollection(pid, cid, force))
  {
    hide ReadsAsZero;
    var (t, r) := RemoveCollection(s, pid, cid, force);
    var members := Members(s.coll, pid, cid);
    ZeroReadsAsZero();
    if HasType(s, pid, cid, UserObject) {
      NoMembers(s, pid, cid);
      assert (pid, cid) in t.files && (pid, cid) !in t.obj;
    } else if Miscounted(|members|) {
      var m :| m in members;
      assert HasType(s, pid, cid, Collection) && r.Done?;
      assert m in t.coll && !HasType(t, pid, cid, Collection);
    } else if r.Done? {
      assert members == {} || t.coll == s.coll - members;
      CollectionGone(s, t, pid, cid);
    }
  }

  lemma NoMembers(s: State, pid: u64, cid: u64)
    requires Linked(s) && HasType(s, pid, cid, UserObject)
    ensures Members(s.coll, pid, cid) == {}
  {
  }

  lemma CollectionGone(s: State, t: State, pid: u64, cid: u64)
    requires Linked(s) && !HasType(s, pid, cid, UserObject)
    requires t.obj == s.obj - {(pid, cid)} && t.files == s.files
    requires t.coll == s.coll - Members(s.coll, pid, cid)
    requires forall k :: k in t.attr <==> k in s.attr && !(k.0 == pid && k.1 == cid)
    ensures Linked(t)
  {
    assert forall k :: k in t.obj <==> k in s.obj && k != (pid, cid);
    forall m | m in t.coll ensures m in s.coll && !(m.pid == pid && m.cid == cid) {
      assert m !in Members(s.coll, pid, cid);
    }
  }

  lemma RemovePartitionLinked(s: State, pid: u64)
    requires Linked(s) && Contained(s.obj)
    ensures Linked(RemovePartition(s, pid).0)
  {
    var (t, r) := RemovePartition(s, pid);
    if r.Done? {
      assert forall k :: k in t.obj <==> k in s.obj && k != (pid, 0);
      assert forall k :: k in t.attr <==> k in s.attr && (k.0, k.1) != (pid, 0);
    }
  }

  lemma PointerLinked(s: State, pid: u64, oid: u64, number: u32, val: seq<byte>)
    requires Linked(s)
    ensures Linked(SetPointer(s, pid, oid, number, val).0) <==> !Unlinks(s, OpSetPointer(pid, oid, number, val))
  {
    hide SlotCid, FromBe;
    var t := SetPointer(s, pid, oid, number, val).0;
    if Unlinks(s, OpSetPointer(pid, oid, number, val)) {
      Widths();
      FieldBound(val);
      var m := Member(pid, FromBe(val), oid, number);
      forall x | x in s.coll ensures !(x.pid == pid && x.cid == m.cid && x.oid == oid) {
        assert HasType(s, x.pid, x.cid, Collection);
      }
      assert m in t.coll && !HasType(t, pid, m.cid, Collection);
    }
  }

  lemma AttrLinked(s: State, pid: u64, oid: u64, page: TablePage, number: u32, val: seq<byte>)
    requires Linked(s)
    ensures Linked(SetAttr(s, pid, oid, page, number, val).0)
  {
    hide MaySet, HasType;
    MayOnPresent(s, pid, oid, page, number, val);
    var t := SetAttr(s, pid, oid, page, number, val).0;
    SameTypes(s, t);
  }

  lemma SameTypes(s: State, t: State)
    requires s.obj == t.obj
    ensures forall p: u64, o: u64, kind: Kind :: HasType(t, p, o, kind) <==> HasType(s, p, o, kind)
  {
  }

  lemma MayOnPresent(s: State, pid: u64, oid: u64, page: TablePage, number: u32, val: seq<byte>)
    ensures MaySet(s, pid, oid, page, number, val) ==> (pid, oid) in s.obj
  {
  }

  /** Every command keeps the links if and only if it does not mistake the type of an object or the number of its
      members. */
  lemma WhenLinksSurvive(s: State, op: Op)
    requires Sound(s) && Linked(s)
    ensures Linked(Step(s, op).0) <==> !Unlinks(s, op)
  {
    hide Linked, Sound, Contained, Unlinks, Create, CreateCollection, CreatePartition, CopyUserObjects, Remove, RemoveCollection,
      RemovePartition, SetPointer, SetAttr;
    OthersKeepLinks(s, op);
    SoundIsContained(s);
    match op
    case OpCreatePartition(pid, f) => CreatePartitionLinked(s, pid, f);
    case OpCreateCollection(pid, cid, f) => CreateCollectionLinked(s, pid, cid, f);
    case OpCreate(pid, oid, num, f) => CreateLinked(s, pid, oid, num, f);
    case OpCopy(pid, oid, srcPid, srcOid) => CopyLinked(s, pid, oid, srcPid, srcOid);
    case OpRemove(pid, oid) => RemoveLinked(s, pid, oid);
    case OpRemoveCollection(pid, cid, force) => RemoveCollectionLinked(s, pid, cid, force);
    case OpRemovePartition(pid) => RemovePartitionLinked(s, pid);
    case OpSetPointer(pid, oid, number, val) => PointerLinked(s, pid, oid, number, val);
    case OpSetAttr(pid, oid, page, number, val) => AttrLinked(s, pid, oid, page, number, val);
  }

  lemma OthersKeepLinks(s: State, op: Op)
    ensures !op.OpRemove? && !op.OpRemoveCollection? && !op.OpSetPointer? ==> !Unlinks(s, op)
  {
  }

  lemma SoundIsContained(s: State)
    requires Sound(s)
    ensures Contained(s.obj)
  {
  }

  /** No command of the run breaks the links. */
  ghost predicate RunLinking(s: State, ops: seq<Op>)
    decreases ops
  {
    ops == [] || (!Unlinks(s, ops[0]) && RunLinking(Step(s, ops[0]).0, ops[1..]))
  }

  lemma {:induction false} RunLinked(s: State, ops: seq<Op>, b: nat)
    requires Sound(s) && Linked(s) && RunLinking(s, ops) && RunCounted(s, ops)
    requires s.cache.next <= b && TWO63 <= b && b + TWO16 * |ops| <= TWO64 - 1
    ensures Linked(Run(s, ops))
    decreases ops
  {
    hide Step, Sound, NoOverflow, Linked, Unlinks, Counted;
    if ops != [] {
      StepBounded(s, ops[0], b);
      WhenContainmentStays(s, ops[0]);
      WhenLinksSurvive(s, ops[0]);
      RunLinked(Step(s, ops[0]).0, ops[1..], b + TWO16);
    }
  }

  lemma InitialLinked()
    ensures Linked(Initial())
  {
  }

  /** The links hold over every run of fewer than 2^47 commands, none of which breaks them or miscounts a
      partition. */
  lemma RunKeepsLinks(ops: seq<Op>)
    requires |ops| < 0x8000_0000_0000 && RunLinking(Initial(), ops) && RunCounted(Initial(), ops)
    ensures Linked(Run(Initial(), ops))
  {
    hide Run, RunLinking, RunCounted, Sound;
    InitialHolds();
    RunLinked(Initial(), ops, TWO63);
  }

  /** With the links intact and no faults, assigning new objects to a present partition always succeeds, as long as the
      block ends at or below 2^63. */
  lemma AssignmentSucceeds(s: State, pid: u64, num: u16)
    requires Inv(s) && Linked(s) && InRange(s, OpCreate(pid, 0, num, NO_FAULTS)) && pid >= LB && (pid, 0) in s.obj
    ensures Create(s, pid, 0, num, NO_FAULTS).1 == Done(pid, Choose(s, pid).0 + AtLeastOne(num) - 1)
  {
    hide Grown, Choose, Contained, CreateLoop, Referenced;
    InvIsSound(s);
    CreateMeaning(s, pid, 0, num, NO_FAULTS);
    ChosenIsFresh(s, pid);
    var id := Choose(s, pid).0;
    BlockEnd(id, num);
    Answered(s, pid, num, NO_FAULTS);
    forall j: u64 | id <= j < id + AtLeastOne(num) ensures Free(s, pid, j, NO_FAULTS) {
      assert (pid, j) !in s.obj;
    }
  }

  // ---------- the three mistakes ----------

  const NEW_PARTITION := OpCreatePartition(LB, NO_FAULTS)
  const NEW_OBJECT := OpCreate(LB, 0, 1, NO_FAULTS)
  const NEW_COLLECTION := OpCreateCollection(LB, LB + 1, NO_FAULTS)

  /** The device with a partition and one user object in it. */
  lemma WithObjectOnly() returns (s: State)
    ensures s == Step(Step(Initial(), NEW_PARTITION).0, NEW_OBJECT).0
    ensures Sound(s) && Linked(s) && s.coll == {}
    ensures s.obj == map[(0, 0) := Root, (LB, 0) := Partition, (LB, LB) := UserObject]
  {
    hide CreateLoop, Choose;
    var s1 := Step(Initial(), NEW_PARTITION).0;
    assert s1.obj == map[(0, 0) := Root, (LB, 0) := Partition];
    FirstObject(s1);
    s := Step(s1, NEW_OBJECT).0;
    Typed(NEW_PARTITION, NEW_OBJECT, Initial(), s1, s);
  }

  lemma Typed(a: Op, b: Op, s0: State, s1: State, s2: State)
    requires s0 == Initial() && s1 == Step(s0, a).0 && s2 == Step(s1, b).0
    requires a == NEW_PARTITION && b == NEW_OBJECT
    ensures Sound(s2) && Linked(s2)
  {
    hide Step, Sound, Linked;
    InitialHolds();
    InitialLinked();
    StepBounded(s0, a, TWO63);
    WhenContainmentStays(s0, a);
    WhenLinksSurvive(s0, a);
    StepBounded(s1, b, TWO63 + TWO16);
    WhenContainmentStays(s1, b);
    WhenLinksSurvive(s1, b);
  }

  /** REMOVE COLLECTION of a user object. */
  lemma ObjectRemovedAsCollection()
    ensures var ops := [NEW_PARTITION, NEW_OBJECT, OpRemoveCollection(LB, LB, false)]; !Linked(Run(Initial(), ops))
  {
    hide Step, Sound, Linked;
    var s := WithObjectOnly();
    WhenLinksSurvive(s, OpRemoveCollection(LB, LB, false));
    RunThree(NEW_PARTITION, NEW_OBJECT, OpRemoveCollection(LB, LB, false));
  }

  /** A collection pointer to the partition's own id. */
  lemma PointerToNoCollection()
    ensures var ops := [NEW_PARTITION, NEW_OBJECT, OpSetPointer(LB, LB, 1, Be(0, 8))]; !Linked(Run(Initial(), ops))
  {
    hide Step, Sound, Linked, Be;
    var s := WithObjectOnly();
    Widths();
    FieldRoundTrip(0, 8);
    WhenLinksSurvive(s, OpSetPointer(LB, LB, 1, Be(0, 8)));
    RunThree(NEW_PARTITION, NEW_OBJECT, OpSetPointer(LB, LB, 1, Be(0, 8)));
  }

  lemma RunThree(a: Op, b: Op, c: Op)
    ensures Run(Initial(), [a, b, c]) == Step(Step(Step(Initial(), a).0, b).0, c).0
  {
    hide Step;
    var s := Step(Step(Initial(), a).0, b).0;
    RunOn(Initial(), a, [b, c]);
    RunOn(Step(Initial(), a).0, b, [c]);
    RunOn(s, c, []);
    assert [a] + [b, c] == [a, b, c] && [b] + [c] == [b, c] && [c] + [] == [c];
  }

  /** REMOVE of a collection that has a member. */
  lemma CollectionRemovedAsObject()
    ensures var ops := [NEW_PARTITION, NEW_OBJECT, NEW_COLLECTION, OpSetPointer(LB, LB, 1, Be(LB + 1, 8)), OpRemove(LB, LB + 1)];
            !Linked(Run(Initial(), ops))
  {
    hide Step, Sound, Linked, Be, Run;
    var s := WithObjectOnly();
    var t := WithMember(s, 1);
    assert Member(LB, LB + 1, LB, 1) in Members(t.coll, LB, LB + 1);
    WhenLinksSurvive(t, OpRemove(LB, LB + 1));
    var last := [OpSetPointer(LB, LB, 1, Be(LB + 1, 8)), OpRemove(LB, LB + 1)];
    RunFive(NEW_PARTITION, NEW_OBJECT, NEW_COLLECTION, last[0], last[1]);
  }

  lemma WithMember(s: State, number: u32) returns (t: State)
    requires Sound(s) && Linked(s) && s.coll == {} && UCAP_COLL_PTR_LB <= number <= UCAP_COLL_PTR_UB
    requires s.obj == map[(0, 0) := Root, (LB, 0) := Partition, (LB, LB) := UserObject]
    ensures t == Step(Step(s, NEW_COLLECTION).0, OpSetPointer(LB, LB, number, Be(LB + 1, 8))).0
    ensures Sound(t) && Linked(t) && Member(LB, LB + 1, LB, number) in t.coll && HasType(t, LB, LB, UserObject)
  {
    hide Sound, Linked, SetPointer, Be;
    var u := Step(s, NEW_COLLECTION).0;
    WhenContainmentStays(s, NEW_COLLECTION);
    WhenLinksSurvive(s, NEW_COLLECTION);
    Widths();
    FieldRoundTrip(LB + 1, 8);
    var op := OpSetPointer(LB, LB, number, Be(LB + 1, 8));
    t := Step(u, op).0;
    WhenContainmentStays(u, op);
    WhenLinksSurvive(u, op);
    PointerMoves(u, LB, LB, number, LB + 1);
    assert InSlot(Member(LB, LB + 1, LB, number), LB, LB, number);
    PointerKeepsObjects(u, LB, LB, number, Be(LB + 1, 8));
  }

  lemma PointerKeepsObjects(s: State, pid: u64, oid: u64, number: u32, val: seq<byte>)
    ensures SetPointer(s, pid, oid, number, val).0.obj == s.obj
  {
    hide SlotCid;
  }

  lemma RunFive(a: Op, b: Op, c: Op, d: Op, e: Op)
    ensures Run(Initial(), [a, b, c, d, e]) == Step(Step(Step(Step(Step(Initial(), a).0, b).0, c).0, d).0, e).0
  {
    hide Step;
    var s1 := Step(Initial(), a).0;
    var s2 := Step(s1, b).0;
    var s3 := Step(s2, c).0;
    RunOn(Initial(), a, [b, c, d, e]);
    RunOn(s1, b, [c, d, e]);
    RunOn(s2, c, [d, e]);
    RunOn(s3, d, [e]);
    RunOn(Step(s3, d).0, e, []);
    assert [a] + [b, c, d, e] == [a, b, c, d, e] && [b] + [c, d, e] == [b, c, d, e];
    assert [c] + [d, e] == [c, d, e] && [d] + [e] == [d, e] && [e] + [] == [e];
  }

  lemma RunFour(a: Op, b: Op, c: Op, d: Op)
    ensures Run(Initial(), [a, b, c, d]) == Step(Step(Step(Step(Initial(), a).0, b).0, c).0, d).0
  {
    hide Step;
    var s1 := Step(Initial(), a).0;
    var s2 := Step(s1, b).0;
    RunOn(Initial(), a, [b, c, d]);
    RunOn(s1, b, [c, d]);
    RunOn(s2, c, [d]);
    RunOn(Step(s2, c).0, d, []);
    assert [a] + [b, c, d] == [a, b, c, d] && [b] + [c, d] == [b, c, d] && [c] + [d] == [c, d] && [d] + [] == [d];
  }

  lemma RunOn(s: State, op: Op, ops: seq<Op>)
    ensures Run(s, [op] + ops) == Run(Step(s, op).0, ops) && Run(s, []) == s
  {
    hide Step;
    assert ([op] + ops)[1..] == ops;
  }

  // ---------- the coll table as a two-way key ----------

  /** (pid, cid, oid) and (pid, oid, number) each determine the row. */
  ghost predicate Keyed(coll: set<Member>) {
    && (forall a, b :: a in coll && b in coll && a.pid == b.pid && a.cid == b.cid && a.oid == b.oid ==> a == b)
    && (forall a, b :: a in coll && b in coll && a.pid == b.pid && a.oid == b.oid && a.number == b.number ==> a == b)
  }

  predicate InSlot(m: Member, pid: u64, oid: u64, number: u32) { m.pid == pid && m.oid == oid && m.number == number }

  lemma {:induction false} RemoveTmpShrinks(s: State, pid: u64, a: u64, b: u64)
    ensures RemoveTmp(s, pid, a, b).coll <= s.coll
    decreases b - a
  {
    if a < b { RemoveTmpShrinks(Remove(s, pid, a).0, pid, a + 1, b); }
  }

  lemma {:induction false} LoopShrinks(s: State, pid: u64, first: u64, i: u64, end: u64, f: Faults)
    ensures CreateLoop(s, pid, first, i, end, f).0.coll <= s.coll
    decreases end - i
  {
    hide RemoveTmp;
    if i < end {
      RemoveTmpShrinks(s, pid, first, i);
      RemoveTmpShrinks(DropObject(WithRow(s, pid, i, UserObject), pid, i), pid, first, i);
      LoopShrinks(WithObject(s, pid, i), pid, first, i + 1, end, f);
    }
  }

  lemma CreateShrinks(s: State, pid: u64, oid: u64, num: u16, f: Faults)
    ensures Create(s, pid, oid, num, f).0.coll <= s.coll
  {
    hide CreateLoop;
    if Assign(s, pid, oid).Some? {
      var (id, t) := Assign(s, pid, oid).value;
      LoopShrinks(t, pid, id, id, Add64(id, AtLeastOne(num)), f);
    }
  }

  lemma StepShrinks(s: State, op: Op)
    requires !op.OpSetPointer?
    ensures Step(s, op).0.coll <= s.coll
  {
    hide Create, NextOid, NextPid;
    if op.OpCreate? { CreateShrinks(s, op.pid, op.oid, op.num, op.faults); }
  }

  /** Both keys hold in every reachable state. */
  lemma StepKeepsKeys(s: State, op: Op)
    requires Keyed(s.coll)
    ensures Keyed(Step(s, op).0.coll)
  {
    if !op.OpSetPointer? {
      StepShrinks(s, op);
      SubsetKeyed(s.coll, Step(s, op).0.coll);
    } else {
      PointerKeyed(s, op.pid, op.oid, op.number, op.val);
    }
  }

  lemma SubsetKeyed(a: set<Member>, b: set<Member>)
    requires Keyed(a) && b <= a
    ensures Keyed(b)
  {
  }

  lemma PointerKeyed(s: State, pid: u64, oid: u64, number: u32, val: seq<byte>)
    requires Keyed(s.coll)
    ensures Keyed(SetPointer(s, pid, oid, number, val).0.coll)
  {
    hide SlotCid;
  }

  lemma {:induction false} RunKeepsKeys(s: State, ops: seq<Op>)
    requires Keyed(s.coll)
    ensures Keyed(Run(s, ops).coll)
    decreases ops
  {
    hide Step, Keyed;
    if ops != [] {
      StepKeepsKeys(s, ops[0]);
      RunKeepsKeys(Step(s, ops[0]).0, ops[1..]);
    }
  }

  /** Setting a pointer moves its slot to the new collection and leaves every other slot alone. It is refused exactly
      when the object already is a member of that collection, in whatever slot. */
  lemma PointerMoves(s: State, pid: u64, oid: u64, number: u32, cid: u64)
    requires (pid, oid) in s.obj && s.obj[(pid, oid)] == UserObject && (pid, cid) in s.obj
    requires UCAP_COLL_PTR_LB <= number <= UCAP_COLL_PTR_UB
    ensures var (t, r) := SetPointer(s, pid, oid, number, Be(cid, 8));
            && (r.Done? <==> forall n: u32 :: Member(pid, cid, oid, n) !in s.coll)
            && (!r.Done? ==> t == s)
            && (r.Done? ==> forall m :: m in t.coll <==>
                  if InSlot(m, pid, oid, number) then m.cid == cid else m in s.coll)
  {
    Widths();
    FieldRoundTrip(cid, 8);
    if exists x <- s.coll :: x.pid == pid && x.cid == cid && x.oid == oid {
      var x :| x in s.coll && x.pid == pid && x.cid == cid && x.oid == oid;
      assert x == Member(pid, cid, oid, x.number);
    }
  }

  /** The looked-up collection is that of the slot if its number is below 2^31, and 0 otherwise. */
  lemma SlotFound(coll: set<Member>, pid: u64, oid: u64, number: u32)
    ensures if number < TWO31 && exists c: u64 :: Member(pid, c, oid, number) in coll
            then Member(pid, SlotCid(coll, pid, oid, number), oid, number) in coll
            else SlotCid(coll, pid, oid, number) == 0
  {
    hide SlotHas;
    forall c: u64 ensures SlotHas(coll, pid, oid, number, c) <==> number < TWO31 && Member(pid, c, oid, number) in coll {
      WhenSlotHas(coll, pid, oid, number, c);
    }
    if number < TWO31 {
      if c: u64 :| Member(pid, c, oid, number) in coll { assert SlotHas(coll, pid, oid, number, c); }
    }
  }

  /** A zero-length set, which takes a null pointer and so a direct caller, means to remove the row of its slot and no
      other. When the slot's row is not found, the looked-up collection stays 0 and a membership by way of the
      partition's own id 0 goes instead. So the set is exact, for a number below 2^31, if and only if the slot is
      occupied or there is no such membership; for a number from 2^31 on, which is never found, if and only if the
      slot's row and such a membership are the same, as far as they exist. */
  lemma WhenClearingIsExact(s: State, pid: u64, oid: u64, number: u32)
    requires Keyed(s.coll) && (pid, oid) in s.obj && s.obj[(pid, oid)] == UserObject
    requires UCAP_COLL_PTR_LB <= number <= UCAP_COLL_PTR_UB
    ensures (forall m :: m in SetPointer(s, pid, oid, number, []).0.coll <==> m in s.coll && !InSlot(m, pid, oid, number))
            <==> if number < TWO31
                 then (exists c: u64 :: Member(pid, c, oid, number) in s.coll)
                      || (forall n: u32 :: Member(pid, 0, oid, n) !in s.coll)
                 else (forall c: u64 :: Member(pid, c, oid, number) in s.coll ==> c == 0)
                      && (forall n: u32 :: Member(pid, 0, oid, n) in s.coll ==> n == number)
  {
    hide SlotCid;
    SlotFound(s.coll, pid, oid, number);
    var t := SetPointer(s, pid, oid, number, []).0;
    if number < TWO31 && exists c: u64 :: Member(pid, c, oid, number) in s.coll {
      assert Member(pid, SlotCid(s.coll, pid, oid, number), oid, number) in s.coll;
    } else {
      ZeroCleared(s, t, pid, oid, number);
    }
  }

  /** What clearing does when the looked-up collection has stayed 0. */
  lemma ZeroCleared(s: State, t: State, pid: u64, oid: u64, number: u32)
    requires Keyed(s.coll) && t.coll == CollDelete(s.coll, pid, 0, oid)
    ensures (forall m :: m in t.coll <==> m in s.coll && !InSlot(m, pid, oid, number))
            <==> (forall c: u64 :: Member(pid, c, oid, number) in s.coll ==> c == 0)
                 && (forall n: u32 :: Member(pid, 0, oid, n) in s.coll ==> n == number)
  {
    if c: u64 :| Member(pid, c, oid, number) in s.coll && c != 0 {
      var m := Member(pid, c, oid, number);
      assert m in t.coll && InSlot(m, pid, oid, number);
    } else if n: u32 :| Member(pid, 0, oid, n) in s.coll && n != number {
      var m := Member(pid, 0, oid, n);
      assert m !in t.coll && !InSlot(m, pid, oid, number);
    } else {
      forall m | m in s.coll ensures InSlot(m, pid, oid, number) <==> m.pid == pid && m.cid == 0 && m.oid == oid {
        assert m == Member(m.pid, m.cid, m.oid, m.number);
      }
    }
  }

  /** The failing case is reachable by a direct caller that passes a null pointer: a pointer to id 0 is accepted, and
      clearing another, empty slot removes it. */
  lemma ClearingCanHitAnotherSlot()
    ensures var ops := [NEW_PARTITION, NEW_OBJECT, OpSetPointer(LB, LB, 1, Be(0, 8))];
            var s := Run(Initial(), ops);
            Member(LB, 0, LB, 1) in s.coll && Member(LB, 0, LB, 1) !in SetPointer(s, LB, LB, 2, []).0.coll
  {
    hide SetPointer, Linked, Sound, Be;
    var s := WithObjectOnly();
    FirstPointer(s);
    RunThree(NEW_PARTITION, NEW_OBJECT, OpSetPointer(LB, LB, 1, Be(0, 8)));
  }

  /** So is the other one: a slot with a number from 2^31 on keeps its row when it is cleared. */
  lemma LargeSlotIsNotCleared()
    ensures var ops := [NEW_PARTITION, NEW_OBJECT, NEW_COLLECTION, OpSetPointer(LB, LB, TWO31, Be(LB + 1, 8))];
            var s := Run(Initial(), ops);
            var m := Member(LB, LB + 1, LB, TWO31);
            m in s.coll && m in SetPointer(s, LB, LB, TWO31, []).0.coll
  {
    hide Step, Linked, Sound, Be, SlotCid;
    var s := WithObjectOnly();
    var t := WithMember(s, TWO31);
    SlotFound(t.coll, LB, LB, TWO31);
    RunFour(NEW_PARTITION, NEW_OBJECT, NEW_COLLECTION, OpSetPointer(LB, LB, TWO31, Be(LB + 1, 8)));
  }

  lemma FirstObject(s: State)
    requires s.obj == map[(0, 0) := Root, (LB, 0) := Partition] && s.cache == NO_CACHE && s.files == map[]
    ensures var t := Create(s, LB, 0, 1, NO_FAULTS).0;
            t.obj == s.obj[(LB, LB) := UserObject] && t.coll == s.coll
  {
    hide Choose;
    NothingAssigned(s);
    var t := s.(cache := Cache(LB, LB + 1));
    assert CreateLoop(t, LB, LB, LB, LB + 1, NO_FAULTS) == (WithObject(t, LB, LB), true);
  }

  lemma FirstPointer(s: State)
    requires (LB, LB) in s.obj && s.obj[(LB, LB)] == UserObject && (LB, 0) in s.obj && s.coll == {}
    ensures var t := SetPointer(s, LB, LB, 1, Be(0, 8)).0;
            Member(LB, 0, LB, 1) in t.coll && Member(LB, 0, LB, 1) !in SetPointer(t, LB, LB, 2, []).0.coll
  {
    PointerMoves(s, LB, LB, 1, 0);
    var t := SetPointer(s, LB, LB, 1, Be(0, 8)).0;
    assert InSlot(Member(LB, 0, LB, 1), LB, LB, 1);
    forall c: u64 ensures Member(LB, c, LB, 2) !in t.coll {
      assert !InSlot(Member(LB, c, LB, 2), LB, LB, 1);
    }
  }

  lemma NothingAssigned(s: State)
    requires s.obj == map[(0, 0) := Root, (LB, 0) := Partition] && s.cache == NO_CACHE
    ensures Choose(s, LB) == (LB, s.(cache := Cache(LB, LB + 1)))
  {
    assert Ids(s.obj, LB) == {0};
  }

  /** After REMOVE of a user object, the links being intact, no table and no file names it any more, and nothing else has
      changed. */
  lemma RemovedLeavesNothing(s: State, pid: u64, oid: u64)
    requires Sound(s) && Linked(s) && HasType(s, pid, oid, UserObject)
    ensures var t := Remove(s, pid, oid).0;
            && (pid, oid) !in t.obj && (pid, oid) !in t.files
            && (forall page: u32, number: u32 :: (pid, oid, page, number) !in t.attr)
            && (forall m :: m in t.coll ==> m.pid != pid || (m.oid != oid && m.cid != oid))
            && (forall k :: k in t.obj <==> k in s.obj && k != (pid, oid))
            && (forall k :: k in t.attr <==> k in s.attr && (k.0, k.1) != (pid, oid))
            && (forall k :: k in t.files <==> k in s.files && k != (pid, oid))
            && (forall m :: m in t.coll <==> m in s.coll && !(m.pid == pid && m.oid == oid))
            && (forall k :: k in t.obj ==> t.obj[k] == s.obj[k]) && (forall k :: k in t.attr ==> t.attr[k] == s.attr[k])
            && (forall k :: k in t.files ==> t.files[k] == s.files[k])
  {
    var t := Remove(s, pid, oid).0;
    forall m | m in t.coll ensures m.pid != pid || (m.oid != oid && m.cid != oid) {
      assert HasType(s, m.pid, m.cid, Collection);
    }
  }

  // ---------- information pages ----------

  /** Setting information attributes keeps every invariant. */
  lemma InfoKeeps(s: State, pid: u64, oid: u64, number: u32, val: seq<byte>)
    requires number == UIAP_LOGICAL_LEN ==> |val| >= 8
    ensures var t, u := SetUserInfo(s, pid, oid, number, val).0, SetRootInfo(s, pid, oid, number, val).0;
            && (Sound(s) ==> Sound(t) && Sound(u)) && (Inv(s) ==> Inv(t) && Inv(u))
            && (Linked(s) ==> Linked(t) && Linked(u)) && t.coll == u.coll == s.coll
  {
    hide FromBe, Settable, IsName, Contained;
  }

  /** The logical length goes through 16 bits: the file gets the length it is given, with the bytes it had and zeros
      behind them, if and only if that is below 2^16. */
  lemma WhenLengthIsSet(s: State, pid: u64, oid: u64, val: seq<byte>)
    requires Sound(s) && Linked(s) && HasType(s, pid, oid, UserObject) && |val| == 8
    ensures var (t, r) := SetUserInfo(s, pid, oid, UIAP_LOGICAL_LEN, val);
            && r == Done(pid, oid) && (pid, oid) in s.files && (pid, oid) in t.files
            && (|t.files[(pid, oid)]| == FromBe(val) <==> FromBe(val) < TWO16)
            && (forall i :: 0 <= i < |t.files[(pid, oid)]| ==>
                  t.files[(pid, oid)][i] == if i < |s.files[(pid, oid)]| then s.files[(pid, oid)][i] else 0)
  {
    hide FromBe;
    assert val[..8] == val;
    SmallIsShort(FromBe(val));
  }

  lemma SmallIsShort(n: nat)
    ensures n % TWO16 == n <==> n < TWO16
  {
  }
}
