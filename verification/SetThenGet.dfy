/** set_attr_list of cdb.c applied to the device, and what a retrieval then returns. */
module SetThenGet {
  import opened Bytes
  import opened Pages
  import opened Namespace
  import opened ListEntry
  import opened Device
  import opened NamespaceRuns
  import opened NamespaceLinks
  import C = Commands
  import SetAttrList
  import R = RetrievedAttrs

  /** Elsewhere: a logical length of fewer than eight bytes, whose padding would be read as well, or the system id, which
      can be set only by FORMAT OSD. */
  datatype Status = Good | Refused | Elsewhere | ParamListError | Overrun

  predicate IsUserObject(s: State, pid: u64, oid: u64) {
    (pid, oid) in s.obj && TypeOf(s, pid, oid) == Some(UserObject)
  }

  predicate IsElsewhere(pid: u64, oid: u64, e: Entry) {
    || (e.page == USER_INFO_PG && e.number == UIAP_LOGICAL_LEN && |e.shown| < 8)
    || (e.page == ROOT_INFO_PG && e.number == RIAP_OSD_SYSTEM_ID && (pid, oid) == (0, 0))
  }

  /** One entry set on one object. An empty value is refused, since a list entry never has a null pointer; the
      collection page sets a pointer, and the information pages have code of their own. */
  ghost function SetOne(s: State, pid: u64, oid: u64, e: Entry): (State, Status) {
    if e.shown == [] then (s, Refused)
    else if IsElsewhere(pid, oid, e) then (s, Elsewhere)
    else
      var (t, r) := if e.page == USER_COLL_PG then SetPointer(s, pid, oid, e.number, e.shown)
                    else if e.page == USER_INFO_PG then SetUserInfo(s, pid, oid, e.number, e.shown)
                    else if e.page == ROOT_INFO_PG then SetRootInfo(s, pid, oid, e.number, e.shown)
                    else Namespace.SetAttr(s, pid, oid, e.page, e.number, e.shown);
      (t, if r.Done? then Good else Refused)
  }

  /** One entry set on n objects from oid on, up to the first that refuses it. */
  ghost function SetMany(s: State, pid: u64, oid: u64, n: nat, e: Entry): (State, Status)
    requires oid + n < TWO64
    decreases n
  {
    if n == 0 then (s, Good)
    else
      var (t, r) := SetOne(s, pid, oid, e);
      if !r.Good? then (t, r) else SetMany(t, pid, oid + 1, n - 1, e)
  }

  /** The entries of a list in order, up to the first that fails. What was set before stays set. */
  ghost function SetAll(s: State, pid: u64, oid: u64, n: nat, es: seq<Entry>): (State, Status)
    requires oid + n < TWO64
    decreases es
  {
    if es == [] then (s, Good)
    else
      var (t, r) := SetMany(s, pid, oid, n, es[0]);
      if !r.Good? then (t, r) else SetAll(t, pid, oid, n, es[1..])
  }

  // ---------- the command ----------

  method SetOnObjects(d: OsdDevice, pid: u64, oid: u64, numoid: u16, e: Entry) returns (r: Status)
    requires d.Valid()
    modifies d
    ensures d.Valid() && (d.State(), r) == SetMany(old(d.State()), pid, oid, R.Covered(oid, numoid), e)
  {
    hide OsdDevice.Valid, SetPointer, Namespace.SetAttr, SetUserInfo, SetRootInfo, Add64, IsElsewhere;
    var i: u64, end := oid, Add64(oid, numoid);
    ghost var n := R.Covered(oid, numoid);
    while i < end
      invariant oid <= i <= oid + n && d.Valid()
      invariant SetMany(d.State(), pid, i, oid + n - i, e) == SetMany(old(d.State()), pid, oid, n, e)
    {
      r := SetOnObject(d, pid, i, e);
      if !r.Good? { return; }
      i := i + 1;
    }
    r := Good;
  }

  method SetOnObject(d: OsdDevice, pid: u64, oid: u64, e: Entry) returns (r: Status)
    requires d.Valid()
    modifies d
    ensures d.Valid() && (d.State(), r) == SetOne(old(d.State()), pid, oid, e)
  {
    hide OsdDevice.Valid, SetPointer, Namespace.SetAttr, SetUserInfo, SetRootInfo;
    if |e.shown| == 0 { return Refused; }
    if IsElsewhere(pid, oid, e) { return Elsewhere; }
    var done;
    if e.page == USER_COLL_PG {
      done := d.SetPointer(pid, oid, e.number, e.shown);
    } else if e.page == USER_INFO_PG {
      done := d.SetUserInfo(pid, oid, e.number, e.shown);
    } else if e.page == ROOT_INFO_PG {
      done := d.SetRootInfo(pid, oid, e.number, e.shown);
    } else {
      done := d.SetAttr(pid, oid, e.page, e.number, e.shown);
    }
    r := if done.Done? then Good else Refused;
  }

  /** set_attr_list: the cursor advances over the entries and each is set on the objects. */
  method ApplyList(d: OsdDevice, pid: u64, oid: u64, numoid: u16, indata: seq<byte>, listLen: u32, listOff: u32)
    returns (r: Status)
    requires d.Valid()
    modifies d
    ensures d.Valid()
    ensures SetAttrList.Check(indata, listLen, listOff).ParamListError? ==> r == ParamListError && d.State() == old(d.State())
    ensures listLen >= 8 && listOff + listLen > |indata| && !SetAttrList.Check(indata, listLen, listOff).ParamListError? ==>
              r == Overrun && d.State() == old(d.State())
    ensures listLen >= 8 && listOff + listLen <= |indata| && !SetAttrList.Check(indata, listLen, listOff).ParamListError? ==>
              var (es, rest) := Walk(indata[listOff + 8..listOff + listLen]);
              var (t, s) := SetAll(old(d.State()), pid, oid, R.Covered(oid, numoid), es);
              d.State() == t && r == if s.Good? && rest != [] then Overrun else s
    ensures listLen == 0 ==> r == Good && d.State() == old(d.State())
  {
    hide Walk, SetMany, SetAll, RoundUp8, FromBe, OsdDevice.Valid, R.Covered;
    if listLen == 0 { return Good; }
    if listLen < 8 { return ParamListError; }
    if listOff >= |indata| { return Overrun; }
    if indata[listOff] % 16 != SetAttrList.RTRVD_SET_ATTR_LIST { return ParamListError; }
    SetAttrList.BodyAligned(listLen);
    if !Aligned(listLen - 8) { return ParamListError; }
    if listOff + listLen > |indata| { return Overrun; }
    var hdr, end := listOff + 8, listOff + listLen;
    ghost var s0, w, n := d.State(), Walk(indata[hdr..end]), R.Covered(oid, numoid);
    while hdr < end
      invariant hdr <= end <= |indata| && d.Valid()
      invariant Walk(indata[hdr..end]).1 == w.1
      invariant SetAll(d.State(), pid, oid, n, Walk(indata[hdr..end]).0) == SetAll(s0, pid, oid, n, w.0)
    {
      if end - hdr < LE_VAL_OFF {
        SetAttrList.WalkShort(indata, hdr, end);
        SetNothing(d.State(), pid, oid, n);
        return Overrun;
      }
      SetAttrList.WalkNext(indata, hdr, end);
      var len := FromBe(indata[hdr + LE_LEN_OFF..hdr + LE_VAL_OFF]);
      var step := RoundUp8(LE_VAL_OFF + len);
      if hdr + step > end {
        SetNothing(d.State(), pid, oid, n);
        return Overrun;
      }
      var e := Entry(FromBe(indata[hdr..hdr + 4]), FromBe(indata[hdr + 4..hdr + 8]), len,
                     indata[hdr + LE_VAL_OFF..hdr + LE_VAL_OFF + len]);
      SetNext(d.State(), pid, oid, n, e, Walk(indata[hdr + step..end]).0);
      r := SetOnObjects(d, pid, oid, numoid, e);
      if !r.Good? { return; }
      hdr := hdr + step;
    }
    SetAttrList.WalkEnd(indata, hdr, end);
    SetNothing(d.State(), pid, oid, n);
    r := Good;
  }

  lemma SetNothing(s: State, pid: u64, oid: u64, n: nat)
    requires oid + n < TWO64
    ensures SetAll(s, pid, oid, n, []) == (s, Good)
  {
  }

  lemma SetNext(s: State, pid: u64, oid: u64, n: nat, e: Entry, es: seq<Entry>)
    requires oid + n < TWO64
    ensures var (t, r) := SetMany(s, pid, oid, n, e);
            SetAll(s, pid, oid, n, [e] + es) == if !r.Good? then (t, r) else SetAll(t, pid, oid, n, es)
  {
    hide SetMany;
    assert ([e] + es)[1..] == es;
  }

  // ---------- what has been set ----------

  ghost predicate Touches(k: (u64, u64, u32, u32), pid: u64, oid: u64, n: nat, e: Entry) {
    k.0 == pid && oid <= k.1 < oid + n && k.2 == e.page && k.3 == e.number
  }

  ghost predicate AllObjects(s: State, pid: u64, oid: u64, n: nat) {
    forall o: u64 :: oid <= o < oid + n ==> IsUserObject(s, pid, o)
  }

  /** What can be set on a user object, the collection page and the logical length apart. */
  predicate Accepted(e: Entry) {
    && 0 < |e.shown| <= ATTR_LEN_UB && Settable(UserObject, e.page)
    && e.number != ATTRNUM_UNMODIFIABLE && (e.number == ATTRNUM_INFO ==> IsName(e.shown))
  }

  /** An attribute that is kept in the attr table as it is. */
  predicate InTable(e: Entry) { e.page != USER_COLL_PG && (e.page == USER_INFO_PG ==> e.number == UIAP_USERNAME) }

  lemma SetOneMeans(s: State, pid: u64, oid: u64, e: Entry)
    requires IsUserObject(s, pid, oid) && InTable(e)
    ensures var (t, r) := SetOne(s, pid, oid, e);
            && (r.Good? <==> Accepted(e)) && (r.Good? || r.Refused?)
            && t == if r.Good? then s.(attr := s.attr[(pid, oid, e.page, e.number) := e.shown]) else s
  {
    hide Settable, IsName;
    RootPageIsForeign();
  }

  lemma RootPageIsForeign()
    ensures !Settable(UserObject, ROOT_INFO_PG)
  {
  }

  lemma {:induction false} SetManyMeans(s: State, pid: u64, oid: u64, n: nat, e: Entry)
    requires oid + n < TWO64 && AllObjects(s, pid, oid, n) && InTable(e)
    ensures var (t, r) := SetMany(s, pid, oid, n, e);
            && t == s.(attr := t.attr)
            && (r.Good? <==> n == 0 || Accepted(e))
            && (r.Good? ==> forall k :: k in t.attr <==> k in s.attr || Touches(k, pid, oid, n, e))
            && (r.Good? ==> forall k :: k in t.attr ==> t.attr[k] == if Touches(k, pid, oid, n, e) then e.shown else s.attr[k])
    decreases n
  {
    hide Accepted, SetOne, AllObjects;
    if n > 0 {
      FirstIsUserObject(s, pid, oid, n);
      SetOneMeans(s, pid, oid, e);
      if Accepted(e) {
        var u := SetOne(s, pid, oid, e).0;
        ObjectsNext(s, u, pid, oid, n);
        SetManyMeans(u, pid, oid + 1, n - 1, e);
        var k0 := (pid, oid, e.page, e.number);
        assert forall k :: k in u.attr <==> k in s.attr || k == k0;
        assert forall k :: Touches(k, pid, oid, n, e) <==> k == k0 || Touches(k, pid, oid + 1, n - 1, e);
      }
    }
  }

  lemma FirstIsUserObject(s: State, pid: u64, oid: u64, n: nat)
    requires n > 0 && oid + n < TWO64 && AllObjects(s, pid, oid, n)
    ensures IsUserObject(s, pid, oid)
  {
  }

  lemma ObjectsNext(s: State, u: State, pid: u64, oid: u64, n: nat)
    requires n > 0 && oid + n < TWO64 && u.obj == s.obj && AllObjects(s, pid, oid, n)
    ensures AllObjects(u, pid, oid + 1, n - 1)
  {
    forall o: u64 | oid + 1 <= o < oid + n ensures IsUserObject(u, pid, o) {
      assert IsUserObject(s, pid, o);
    }
  }

  ghost predicate AllAccepted(es: seq<Entry>) { forall i :: 0 <= i < |es| ==> Accepted(es[i]) }

  ghost predicate AllInTable(es: seq<Entry>) { forall i :: 0 <= i < |es| ==> InTable(es[i]) }

  /** The last entry of the list for a page and number, or -1. */
  function LastFor(es: seq<Entry>, page: u32, number: u32): (i: int)
    ensures -1 <= i < |es|
    ensures i >= 0 ==> es[i].page == page && es[i].number == number
    ensures forall j :: i < j < |es| ==> es[j].page != page || es[j].number != number
  {
    if es == [] then -1
    else
      var i := LastFor(es[1..], page, number);
      if i >= 0 then i + 1 else if es[0].page == page && es[0].number == number then 0 else -1
  }

  /** The value an attribute has after a list has been set. */
  ghost predicate HoldsAfter(s: State, t: State, pid: u64, oid: u64, n: nat, es: seq<Entry>, k: (u64, u64, u32, u32)) {
    var i := if k.0 == pid && oid <= k.1 < oid + n then LastFor(es, k.2, k.3) else -1;
    if i >= 0 then k in t.attr && t.attr[k] == es[i].shown
    else (k in t.attr <==> k in s.attr) && (k in s.attr ==> t.attr[k] == s.attr[k])
  }

  /** Setting a list of attributes that are kept in the table, on present user objects, succeeds exactly when every
      entry can be set; then each attribute has the value of the last entry for it, on every object of the range, and
      all others are as before. */
  lemma {:induction false} LastEntryWins(s: State, pid: u64, oid: u64, n: nat, es: seq<Entry>, k: (u64, u64, u32, u32))
    requires 0 < n && oid + n < TWO64 && AllObjects(s, pid, oid, n) && AllInTable(es)
    ensures var (t, r) := SetAll(s, pid, oid, n, es);
            && t == s.(attr := t.attr) && (r.Good? <==> AllAccepted(es))
            && (r.Good? ==> HoldsAfter(s, t, pid, oid, n, es, k))
    decreases es
  {
    hide SetMany, Accepted, AllObjects, InTable;
    if es != [] {
      assert InTable(es[0]);
      SetManyMeans(s, pid, oid, n, es[0]);
      var (t, r) := SetMany(s, pid, oid, n, es[0]);
      AcceptedCons(es);
      if r.Good? {
        SameObjects(s, t, pid, oid, n);
        LastEntryWins(t, pid, oid, n, es[1..], k);
      }
    }
  }

  lemma SameObjects(s: State, t: State, pid: u64, oid: u64, n: nat)
    requires t.obj == s.obj && AllObjects(s, pid, oid, n)
    ensures AllObjects(t, pid, oid, n)
  {
    forall o: u64 | oid <= o < oid + n ensures IsUserObject(t, pid, o) {
      assert IsUserObject(s, pid, o);
    }
  }

  lemma AcceptedCons(es: seq<Entry>)
    requires es != []
    ensures AllAccepted(es) <==> Accepted(es[0]) && AllAccepted(es[1..])
    ensures AllInTable(es) ==> AllInTable(es[1..])
  {
    hide Accepted, InTable;
    if Accepted(es[0]) && AllAccepted(es[1..]) {
      forall i | 0 <= i < |es| ensures Accepted(es[i]) {
        if i > 0 { assert Accepted(es[1..][i - 1]); }
      }
    }
    if AllAccepted(es) {
      forall i | 0 <= i < |es[1..]| ensures Accepted(es[1..][i]) { assert es[1..][i] == es[i + 1]; }
    }
    if AllInTable(es) {
      forall i | 0 <= i < |es[1..]| ensures InTable(es[1..][i]) { assert es[1..][i] == es[i + 1]; }
    }
  }

  /** A list that is refused has set the entries in front of the one that cannot be set, and no other. */
  lemma {:induction false} RefusedKeepsFront(s: State, pid: u64, oid: u64, n: nat, es: seq<Entry>, j: nat,
                                             k: (u64, u64, u32, u32))
    requires 0 < n && oid + n < TWO64 && AllObjects(s, pid, oid, n) && AllInTable(es)
    requires j < |es| && AllAccepted(es[..j]) && !Accepted(es[j])
    ensures var (t, r) := SetAll(s, pid, oid, n, es);
            r.Refused? && t == s.(attr := t.attr) && HoldsAfter(s, t, pid, oid, n, es[..j], k)
    decreases j
  {
    hide Accepted, AllObjects, InTable, SetMany;
    assert InTable(es[0]);
    SetManyMeans(s, pid, oid, n, es[0]);
    if j == 0 {
      FirstIsRefused(s, pid, oid, n, es[0]);
    } else {
      var front := es[..j];
      assert front[0] == es[0] && front[1..] == es[1..][..j - 1];
      AcceptedCons(front);
      AcceptedCons(es);
      var t := SetMany(s, pid, oid, n, es[0]).0;
      SameObjects(s, t, pid, oid, n);
      RefusedKeepsFront(t, pid, oid, n, es[1..], j - 1, k);
    }
  }

  lemma FirstIsRefused(s: State, pid: u64, oid: u64, n: nat, e: Entry)
    requires 0 < n && oid + n < TWO64 && AllObjects(s, pid, oid, n) && InTable(e) && !Accepted(e)
    ensures SetMany(s, pid, oid, n, e) == (s, Refused)
  {
    hide Accepted, InTable, SetOne;
    SetOneMeans(s, pid, oid, e);
  }

  /** An entry for the collection page moves the pointer of its number to the collection that its eight bytes name. It is
      set on user objects only, under a number for pointers, and on present objects that are no member yet. */
  lemma PointerEntryMeans(s: State, pid: u64, oid: u64, e: Entry, cid: u64)
    requires e.page == 4 && e.shown == Be(cid, 8)
    ensures var (t, r) := SetOne(s, pid, oid, e);
            && (r.Good? <==>
                  && (pid, oid) in s.obj && s.obj[(pid, oid)] == UserObject && 1 <= e.number <= 0xFFFF_FF00
                  && (pid, cid) in s.obj && forall m :: m in s.coll ==> (m.pid, m.cid, m.oid) != (pid, cid, oid))
            && (!r.Good? ==> r.Refused? && t == s)
            && (r.Good? ==> t == s.(coll := t.coll) && forall m :: m in t.coll <==>
                  if (m.pid, m.oid, m.number) == (pid, oid, e.number) then m.cid == cid else m in s.coll)
  {
    hide SetPointer, SetUserInfo, SetRootInfo, Namespace.SetAttr, FromBe, Be;
    C.WhenPointerIsRefused(s, pid, oid, e.number, cid);
    if SetPointer(s, pid, oid, e.number, e.shown).1.Done? { PointerMoves(s, pid, oid, e.number, cid); }
    assert forall n: u32, m :: m == Member(pid, cid, oid, n) ==> (m.pid, m.cid, m.oid) == (pid, cid, oid);
    assert forall m: Member :: (m.pid, m.cid, m.oid) == (pid, cid, oid) ==> m == Member(pid, cid, oid, m.number);
  }

  /** A pointer of any other length is refused. */
  lemma OddPointerEntryIsRefused(s: State, pid: u64, oid: u64, e: Entry)
    requires e.page == 4 && |e.shown| != 8
    ensures SetOne(s, pid, oid, e) == (s, Refused)
  {
    hide SetPointer;
    if e.shown != [] { C.OddPointerIsRefused(s, pid, oid, e.number, e.shown); }
  }

  /** An entry for the root information page, the system id and the name of the page apart: on the root the name of the
      device is kept as it is, and any other number accepted without effect; on any other object the page is refused. */
  lemma RootEntryMeans(s: State, pid: u64, oid: u64, e: Entry)
    requires Contained(s.obj) && e.page == 0x9000_0001 && e.number != 0 && e.number != 3 && e.number != 0xFFFF_FFFF
    ensures SetOne(s, pid, oid, e)
            == if (pid, oid) == (0, 0) && (0, 0) in s.obj && 0 < |e.shown| <= 0xFFFE
               then (if e.number == 9
                     then s.(attr := s.attr[(0 as u64, 0 as u64, 0x9000_0001 as u32, 9 as u32) := e.shown]) else s, Good)
               else (s, Refused)
  {
    hide IsName;
  }

  /** When the end of the range of objects wraps past 2^64, the list is answered GOOD and nothing is set, not even
      looked at. */
  lemma {:induction false} WrappedRangeIsNotSet(s: State, pid: u64, oid: u64, numoid: u16, es: seq<Entry>)
    requires oid + numoid >= TWO64
    ensures SetAll(s, pid, oid, R.Covered(oid, numoid), es) == (s, Good)
    decreases es
  {
    if es != [] { WrappedRangeIsNotSet(s, pid, oid, numoid, es[1..]); }
  }

  // ---------- getting it back ----------

  /** attr_get_attr on the table. */
  function LookupIn(s: State, pid: u64): R.Lookup {
    (oid: u64, page: u32, number: u32) =>
      if (pid, oid, page, number) in s.attr && |s.attr[(pid, oid, page, number)]| < TWO16
      then [R.Attr(page, number, s.attr[(pid, oid, page, number)])] else []
  }

  function RequestsFor(es: seq<Entry>): (rqs: seq<R.Request>)
    ensures |rqs| == |es|
  {
    seq(|es|, i requires 0 <= i < |es| => R.Request(es[i].page, es[i].number))
  }

  /** The pages that users may define on user objects, which are set and retrieved as they are. */
  predicate UserDefined(page: u32) { LUN_PG_LB <= page <= LUN_PG_UB }

  ghost predicate AllUserDefined(es: seq<Entry>) { forall i :: 0 <= i < |es| ==> UserDefined(es[i].page) }

  ghost predicate DistinctAttrs(es: seq<Entry>) {
    forall i, j :: 0 <= i < j < |es| ==> es[i].page != es[j].page || es[i].number != es[j].number
  }

  /** The object answers each request with the value of the entry. */
  ghost predicate Answering(db: R.Lookup, oid: u64, es: seq<Entry>) {
    forall i :: 0 <= i < |es| ==>
      |es[i].shown| < TWO16 && db(oid, es[i].page, es[i].number) == [R.Attr(es[i].page, es[i].number, es[i].shown)]
  }

  lemma SetIsAnswered(s: State, pid: u64, oid: u64, n: nat, es: seq<Entry>)
    requires 0 < n && oid + n < TWO64 && AllObjects(s, pid, oid, n)
    requires AllAccepted(es) && AllInTable(es) && DistinctAttrs(es)
    ensures forall o: u64 :: oid <= o < oid + n ==> Answering(LookupIn(SetAll(s, pid, oid, n, es).0, pid), o, es)
  {
    hide SetAll, AllObjects;
    var t := SetAll(s, pid, oid, n, es).0;
    forall o: u64, i | oid <= o < oid + n && 0 <= i < |es|
      ensures |es[i].shown| < TWO16
      ensures LookupIn(t, pid)(o, es[i].page, es[i].number) == [R.Attr(es[i].page, es[i].number, es[i].shown)]
    {
      assert Accepted(es[i]);
      LastEntryWins(s, pid, oid, n, es, (pid, o, es[i].page, es[i].number));
      assert LastFor(es, es[i].page, es[i].number) == i;
    }
  }

  // ---------- what comes back ----------

  /** The answers for one entry: the objects one after the other. */
  function EntryItems(e: Entry, oid: u64, n: nat, multi: bool): (items: seq<R.Item>)
    requires oid + n < TWO64 && e.Whole()
    ensures R.Uniform(items, if multi then 8 else 0)
  {
    if n == 0 then []
    else EntryItems(e, oid, n - 1, multi) + [R.Item(R.Lead(multi, oid + n - 1), e.page, e.number, e.shown)]
  }

  function SetItems(es: seq<Entry>, oid: u64, n: nat, multi: bool): (items: seq<R.Item>)
    requires oid + n < TWO64 && AllWhole(es)
    ensures R.Uniform(items, if multi then 8 else 0)
  {
    if es == [] then []
    else SetItems(es[..|es| - 1], oid, n, multi) + EntryItems(es[|es| - 1], oid, n, multi)
  }

  lemma {:induction false} EntryIsAnswered(db: R.Lookup, oid: u64, n: nat, multi: bool, e: Entry)
    requires oid + n < TWO64 && e.Whole() && |e.shown| < TWO16
    requires forall o: u64 :: oid <= o < oid + n ==> db(o, e.page, e.number) == [R.Attr(e.page, e.number, e.shown)]
    ensures R.PerObject(R.Request(e.page, e.number), oid, n, multi, db) == EntryItems(e, oid, n, multi)
  {
    if n > 0 {
      EntryIsAnswered(db, oid, n - 1, multi, e);
      var rows := db(oid + n - 1, e.page, e.number);
      assert R.ItemsOf(multi, oid + n - 1, rows) == [R.Item(R.Lead(multi, oid + n - 1), e.page, e.number, e.shown)];
    }
  }

  /** The answers to the requests for a set list are its entries, each on every object. */
  lemma {:induction false} AnswersAreEntries(db: R.Lookup, oid: u64, n: nat, multi: bool, es: seq<Entry>)
    requires oid + n < TWO64 && AllWhole(es) && forall o: u64 :: oid <= o < oid + n ==> Answering(db, o, es)
    ensures R.AllAnswers(RequestsFor(es), oid, n, multi, db) == SetItems(es, oid, n, multi)
    decreases |es|
  {
    hide R.PerObject, EntryItems;
    if es != [] {
      var k := |es| - 1;
      forall o: u64 | oid <= o < oid + n
        ensures Answering(db, o, es[..k])
        ensures db(o, es[k].page, es[k].number) == [R.Attr(es[k].page, es[k].number, es[k].shown)]
      {
        assert Answering(db, o, es);
      }
      AnswersAreEntries(db, oid, n, multi, es[..k]);
      EntryIsAnswered(db, oid, n, multi, es[k]);
      assert RequestsFor(es)[..k] == RequestsFor(es[..k]);
    }
  }

  lemma {:induction false} SingleItems(es: seq<Entry>, oid: u64)
    requires oid + 1 < TWO64 && AllWhole(es)
    ensures R.WholeOf(SetItems(es, oid, 1, false)) == es
    decreases |es|
  {
    hide EntryItems, R.WholeOf;
    if es == [] {
      NothingWhole();
    } else {
      var k, e := |es| - 1, es[|es| - 1];
      SingleItems(es[..k], oid);
      SingleEntry(e, oid);
      WholeSnoc(SetItems(es[..k], oid, 1, false), R.Item([], e.page, e.number, e.shown));
      assert es == es[..k] + [e];
    }
  }

  lemma NothingWhole()
    ensures R.WholeOf([]) == []
  {
  }

  lemma SingleEntry(e: Entry, oid: u64)
    requires oid + 1 < TWO64 && e.Whole()
    ensures EntryItems(e, oid, 1, false) == [R.Item([], e.page, e.number, e.shown)]
    ensures WholeEntry(e.page, e.number, e.shown) == e
  {
    assert EntryItems(e, oid, 0, false) == [];
  }

  lemma WholeSnoc(items: seq<R.Item>, x: R.Item)
    ensures R.WholeOf(items + [x]) == R.WholeOf(items) + [WholeEntry(x.page, x.number, x.value)]
  {
  }

  /** An entry with each object of the range. */
  function EntryPairs(e: Entry, oid: u64, n: nat): seq<(u64, Entry)>
    requires oid + n < TWO64
  {
    if n == 0 then [] else EntryPairs(e, oid, n - 1) + [((oid + n - 1) as u64, e)]
  }

  /** The entries in their order, each with the objects in theirs. */
  function SetPairs(es: seq<Entry>, oid: u64, n: nat): seq<(u64, Entry)>
    requires oid + n < TWO64
  {
    if es == [] then [] else SetPairs(es[..|es| - 1], oid, n) + EntryPairs(es[|es| - 1], oid, n)
  }

  /** The entries under one object, in their order. */
  function Under(ps: seq<(u64, Entry)>, oid: u64): seq<Entry> {
    if ps == [] then []
    else
      var (o, e) := ps[|ps| - 1];
      Under(ps[..|ps| - 1], oid) + if o == oid then [e] else []
  }

  lemma {:induction false} UnderAppend(a: seq<(u64, Entry)>, b: seq<(u64, Entry)>, oid: u64)
    ensures Under(a + b, oid) == Under(a, oid) + Under(b, oid)
    decreases |b|
  {
    if b == [] {
      assert a + b == a;
    } else {
      var front := b[..|b| - 1];
      assert (a + b)[..|a + b| - 1] == a + front;
      UnderAppend(a, front, oid);
      Assoc(Under(a, oid), Under(front, oid), if b[|b| - 1].0 == oid then [b[|b| - 1].1] else []);
    }
  }

  lemma {:induction false} UnderEntry(e: Entry, oid: u64, n: nat, o: u64)
    requires oid + n < TWO64
    ensures Under(EntryPairs(e, oid, n), o) == if oid <= o < oid + n then [e] else []
  {
    if n > 0 { UnderEntry(e, oid, n - 1, o); }
  }

  lemma UnderNothing(oid: u64)
    ensures Under([], oid) == []
  {
  }

  /** Under every object of the range stand exactly the entries of the list, and under no other object any. */
  lemma {:induction false} EachHasAll(es: seq<Entry>, oid: u64, n: nat, o: u64)
    requires oid + n < TWO64
    ensures Under(SetPairs(es, oid, n), o) == if oid <= o < oid + n then es else []
    decreases |es|
  {
    hide EntryPairs, Under;
    if es == [] {
      UnderNothing(o);
    } else {
      var k := |es| - 1;
      EachHasAll(es[..k], oid, n, o);
      UnderEntry(es[k], oid, n, o);
      UnderAppend(SetPairs(es[..k], oid, n), EntryPairs(es[k], oid, n), o);
      assert es == es[..k] + [es[k]];
    }
  }

  lemma OwnedAppend(a: seq<R.Item>, b: seq<R.Item>)
    requires R.Uniform(a, 8) && R.Uniform(b, 8)
    ensures R.Uniform(a + b, 8) && R.OwnedOf(a + b) == R.OwnedOf(a) + R.OwnedOf(b)
  {
    hide R.IdAt;
    assert R.Uniform(a + b, 8);
  }

  lemma {:induction false} EntryOwned(e: Entry, oid: u64, n: nat)
    requires oid + n < TWO64 && e.Whole()
    ensures R.OwnedOf(EntryItems(e, oid, n, true)) == EntryPairs(e, oid, n)
  {
    hide R.IdAt, R.Lead;
    if n > 0 {
      var t := R.Item(R.Lead(true, oid + n - 1), e.page, e.number, e.shown);
      EntryOwned(e, oid, n - 1);
      OwnedAppend(EntryItems(e, oid, n - 1, true), [t]);
      R.LeadIsId(oid + n - 1);
      assert R.OwnedOf([t]) == [(oid + n - 1, e)];
    }
  }

  lemma {:induction false} SetOwned(es: seq<Entry>, oid: u64, n: nat)
    requires oid + n < TWO64 && AllWhole(es)
    ensures R.OwnedOf(SetItems(es, oid, n, true)) == SetPairs(es, oid, n)
    decreases |es|
  {
    hide R.OwnedOf, EntryItems, EntryPairs;
    if es == [] {
      NothingOwned();
    } else {
      var k := |es| - 1;
      SetOwned(es[..k], oid, n);
      EntryOwned(es[k], oid, n);
      OwnedAppend(SetItems(es[..k], oid, n, true), EntryItems(es[k], oid, n, true));
    }
  }

  lemma NothingOwned()
    ensures R.OwnedOf([]) == []
  {
  }

  /** The request list for these attributes, as it is sent. */
  function AskImage(rqs: seq<R.Request>): (b: seq<byte>)
    ensures |b| == 8 * |rqs|
  {
    if rqs == [] then [] else Be(rqs[0].page, 4) + Be(rqs[0].number, 4) + AskImage(rqs[1..])
  }

  lemma {:induction false} AskReads(rqs: seq<R.Request>)
    ensures R.Requests(AskImage(rqs)) == rqs
  {
    if rqs != [] {
      var b := AskImage(rqs);
      Widths();
      FieldRoundTrip(rqs[0].page, 4);
      FieldRoundTrip(rqs[0].number, 4);
      assert b[..4] == Be(rqs[0].page, 4) && b[4..8] == Be(rqs[0].number, 4) && b[8..] == AskImage(rqs[1..]);
      AskReads(rqs[1..]);
    }
  }

  /** The request list for these attributes, as a client builds it: at an aligned place, and up to the end of the data. */
  ghost predicate Asks(indata: seq<byte>, listOff: u32, es: seq<Entry>) {
    && listOff % 8 == 0 && 8 + 8 * |es| < TWO32 && listOff + 8 + 8 * |es| == |indata|
    && indata[listOff] % 16 == 1 && indata[listOff + 8..listOff + 8 + 8 * |es|] == AskImage(RequestsFor(es))
  }

  lemma AskIsTaken(indata: seq<byte>, listOff: u32, es: seq<Entry>, allocLen: u32)
    requires Asks(indata, listOff, es) && Aligned(allocLen) && allocLen >= 8
    ensures R.Check(indata, 8 + 8 * |es|, listOff, allocLen) == R.Filled(0)
  {
    hide AskImage;
    assert (8 + 8 * |es|) % 8 == 0;
    SmallIsLow(|indata| - listOff);
  }

  lemma EntriesAreAsked(db: R.Lookup, oid: u64, numoid: u16, es: seq<Entry>, indata: seq<byte>, listOff: u32)
    requires oid + numoid < TWO64 && AllWhole(es) && Asks(indata, listOff, es)
    requires forall o: u64 :: oid <= o < oid + numoid ==> Answering(db, o, es)
    ensures R.Asked(indata, 8 + 8 * |es|, listOff, oid, numoid, db) == SetItems(es, oid, numoid, numoid > 1)
  {
    hide Answering, AskImage, R.Requests, AllWhole, SetItems, R.AllAnswers, RequestsFor;
    AskReads(RequestsFor(es));
    AnswersAreEntries(db, oid, numoid, numoid > 1, es);
  }

  /** get_obj_type. */
  function KindsIn(s: State, pid: u64): R.Kinds { (oid: u64) => TypeOf(s, pid, oid) }

  lemma EntriesAreReadable(t: State, pid: u64, oid: u64, numoid: u16, es: seq<Entry>, indata: seq<byte>, listOff: u32)
    requires oid + numoid < TWO64 && AllObjects(t, pid, oid, numoid) && AllUserDefined(es) && Asks(indata, listOff, es)
    ensures R.AskedReading(indata, 8 + 8 * |es|, listOff, oid, numoid, KindsIn(t, pid)).Readable?
  {
    hide AskImage, R.Requests, AllObjects, R.ListReading;
    var rqs := RequestsFor(es);
    AskReads(rqs);
    R.WhenListReadable(rqs, oid, numoid, KindsIn(t, pid));
    forall i, o: u64 | 0 <= i < |rqs| && oid <= o < oid + numoid
      ensures R.CanRead(KindsIn(t, pid)(o), rqs[i].page)
    {
      ObjectOfRange(t, pid, oid, numoid, o);
      assert UserDefined(es[i].page);
    }
  }

  lemma ObjectOfRange(s: State, pid: u64, oid: u64, n: nat, o: u64)
    requires AllObjects(s, pid, oid, n) && oid <= o < oid + n
    ensures TypeOf(s, pid, o) == Some(UserObject)
  {
    assert IsUserObject(s, pid, o);
  }

  lemma AllDefinedInTable(es: seq<Entry>)
    requires AllUserDefined(es)
    ensures AllInTable(es)
  {
    forall i | 0 <= i < |es| ensures InTable(es[i]) { assert UserDefined(es[i].page); }
  }

  lemma EntriesAreRetrieved(db: R.Lookup, oid: u64, numoid: u16, es: seq<Entry>, indata: seq<byte>, listOff: u32,
                            allocLen: u32)
    requires 0 < numoid && oid + numoid < TWO64 && AllWhole(es) && Asks(indata, listOff, es)
    requires forall o: u64 :: oid <= o < oid + numoid ==> Answering(db, o, es)
    requires Aligned(allocLen) && allocLen >= 8
    ensures var items := R.Asked(indata, 8 + 8 * |es|, listOff, oid, numoid, db);
            var (whole, body) := (R.Serialised(items), R.Gathered(items, allocLen - 8));
            && body <= whole && (body == whole <==> 8 + |whole| <= allocLen)
            && (numoid == 1 ==> whole == ListImage(es))
            && (numoid > 1 ==> R.WalkMulti(whole) == (SetPairs(es, oid, numoid), []))
  {
    hide AllWhole, Aligned, Answering, AskImage, RequestsFor, SetItems, SetPairs, ListImage, R.Asked, R.Serialised,
         R.Gathered, R.WalkMulti, R.OwnedOf, R.WholeOf, R.Header;
    EntriesAreAsked(db, oid, numoid, es, indata, listOff);
    R.RetrievedIsPrefix(indata, 8 + 8 * |es|, listOff, allocLen, oid, numoid, db);
    ItemsReadBack(es, oid, numoid);
  }

  lemma ItemsReadBack(es: seq<Entry>, oid: u64, numoid: u16)
    requires 0 < numoid && oid + numoid < TWO64 && AllWhole(es)
    ensures var whole := R.Serialised(SetItems(es, oid, numoid, numoid > 1));
            && (numoid == 1 ==> whole == ListImage(es))
            && (numoid > 1 ==> R.WalkMulti(whole) == (SetPairs(es, oid, numoid), []))
  {
    hide AllWhole, SetPairs, SetItems, ListImage, R.Serialised, R.WalkMulti, R.OwnedOf, R.WholeOf;
    if numoid == 1 {
      SingleItems(es, oid);
      R.SerialisedReadsBack(SetItems(es, oid, numoid, numoid > 1));
    } else {
      SetOwned(es, oid, numoid);
      R.MultiobjReadsBack(SetItems(es, oid, numoid, numoid > 1));
    }
  }

  /** Set on a range of objects, then get, from bytes to bytes: a set list as a client builds it is taken, entry by entry;
      a retrieval list for the same attributes is taken and not refused, and the body that answers it is a prefix of the
      complete answers, all of them given room. These are, for one object, byte for byte the body of the set list; for
      more, a list in which a client reads each entry under every object. */
  lemma GetReturnsWhatWasSet(s: State, pid: u64, oid: u64, numoid: u16, es: seq<Entry>, setData: seq<byte>, setOff: u32,
                             indata: seq<byte>, listOff: u32, allocLen: u32)
    requires 0 < numoid && oid + numoid < TWO64 && AllObjects(s, pid, oid, numoid)
    requires AllWhole(es) && AllUserDefined(es) && AllAccepted(es) && DistinctAttrs(es)
    requires SetAttrList.Lists(setData, setOff, es) && Asks(indata, listOff, es)
    requires Aligned(allocLen) && allocLen >= 8
    ensures SetAttrList.Check(setData, 8 + |ListImage(es)|, setOff) == SetAttrList.Parsed(es)
    ensures R.Check(indata, 8 + 8 * |es|, listOff, allocLen) == R.Filled(0)
    ensures var (t, r) := SetAll(s, pid, oid, numoid, es);
            var items := R.Asked(indata, 8 + 8 * |es|, listOff, oid, numoid, LookupIn(t, pid));
            var (whole, body) := (R.Serialised(items), R.Gathered(items, allocLen - 8));
            && r.Good? && R.AskedReading(indata, 8 + 8 * |es|, listOff, oid, numoid, KindsIn(t, pid)).Readable?
            && body <= whole && (body == whole <==> 8 + |whole| <= allocLen)
            && (numoid == 1 ==> whole == ListImage(es))
            && (numoid > 1 ==> R.WalkMulti(whole) == (SetPairs(es, oid, numoid), []))
  {
    hide *;
    SetAttrList.PackParse(es, setData, setOff);
    AskIsTaken(indata, listOff, es, allocLen);
    AllDefinedInTable(es);
    SetIsGood(s, pid, oid, numoid, es);
    var t := SetAll(s, pid, oid, numoid, es).0;
    SetIsAnswered(s, pid, oid, numoid, es);
    EntriesAreReadable(t, pid, oid, numoid, es, indata, listOff);
    EntriesAreRetrieved(LookupIn(t, pid), oid, numoid, es, indata, listOff, allocLen);
  }

  lemma SetIsGood(s: State, pid: u64, oid: u64, n: nat, es: seq<Entry>)
    requires 0 < n && oid + n < TWO64 && AllObjects(s, pid, oid, n) && AllInTable(es) && AllAccepted(es)
    ensures var (t, r) := SetAll(s, pid, oid, n, es); r.Good? && AllObjects(t, pid, oid, n)
  {
    hide SetAll, AllObjects, AllInTable, AllAccepted;
    LastEntryWins(s, pid, oid, n, es, (0, 0, 0, 0));
    SameObjects(s, SetAll(s, pid, oid, n, es).0, pid, oid, n);
  }
}
