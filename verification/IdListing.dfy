/** LIST without attributes: the id pages of db.c inside the reply of osd_list, and what a client collects from them. */
module IdListing {
  import opened Bytes
  import opened Namespace
  import opened Sql
  import NamespaceRuns
  import LA = ListWithAttrs

  const REPLY_HEADER := 24
  const FORMAT_IDS: byte := 0x84       // 0x21 << 2
  const FORMAT_ATTRS: byte := 0x88     // 0x22 << 2
  const SUM_LIMIT := 0x2000_0000_0000_0000

  // ---------- the rows ----------

  /** SELECT ... WHERE id >= ?, in index order. Both sides are signed. */
  function From(ids: seq<u64>, initial: u64): seq<u64> {
    if ids == [] then []
    else (if Signed(ids[0]) >= Signed(initial) then [ids[0]] else []) + From(ids[1..], initial)
  }

  ghost predicate Ascending(ids: seq<u64>) { forall i, j :: 0 <= i < j < |ids| ==> Signed(ids[i]) < Signed(ids[j]) }

  /** Ids in the order of the index, where those from 2^63 on come first. */
  ghost predicate Listable(ids: seq<u64>) { Ascending(ids) && forall i :: 0 <= i < |ids| ==> ids[i] != 0 }

  // ---------- one page ----------

  function IdsImage(ids: seq<u64>): (b: seq<byte>)
    ensures |b| == 8 * |ids|
  {
    if ids == [] then [] else Be(ids[0], 8) + IdsImage(ids[1..])
  }

  lemma {:induction false} IdsImageSnoc(ids: seq<u64>, x: u64)
    ensures IdsImage(ids + [x]) == IdsImage(ids) + Be(x, 8)
  {
    if ids == [] {
      assert [x][1..] == [];
    } else {
      IdsImageSnoc(ids[1..], x);
      assert (ids + [x])[1..] == ids[1..] + [x];
      Assoc(Be(ids[0], 8), IdsImage(ids[1..]), Be(x, 8));
    }
  }

  /** How many ids go out, and how many rows are looked at before add_len overflows. */
  function Shown(rows: seq<u64>, room: u64): nat { Min(|rows|, room / 8) }

  function Counted(rows: seq<u64>): nat { Min(|rows|, SUM_LIMIT) }

  function AddLen(n: nat): u64 { if n < SUM_LIMIT then 8 * n else TWO64 - 1 }

  /** 0 means that no continuation id has been set, so an id 0 would be passed over. */
  function FirstNonZero(ids: seq<u64>): u64 {
    if ids == [] then 0 else if ids[0] != 0 then ids[0] else FirstNonZero(ids[1..])
  }

  lemma {:induction false} FirstNonZeroSnoc(ids: seq<u64>, x: u64)
    ensures FirstNonZero(ids + [x]) == if FirstNonZero(ids) == 0 then x else FirstNonZero(ids)
  {
    if ids == [] {
      assert [x][1..] == [];
    } else {
      FirstNonZeroSnoc(ids[1..], x);
      assert (ids + [x])[1..] == ids[1..] + [x];
    }
  }

  function Cont(rows: seq<u64>, room: u64): u64 { FirstNonZero(rows[Shown(rows, room)..Counted(rows)]) }

  lemma RoomFits(rows: seq<u64>, room: u64)
    ensures 8 * Shown(rows, room) <= room && Shown(rows, room) <= Counted(rows) <= |rows|
  {
  }

  /** The first row after the page starts the next one. */
  lemma ContIsNext(rows: seq<u64>, room: u64)
    requires Listable(rows)
    ensures Cont(rows, room) == if Shown(rows, room) < |rows| then rows[Shown(rows, room)] else 0
  {
  }

  lemma NothingYet(rows: seq<u64>)
    ensures IdsImage(rows[..0]) == [] && FirstNonZero(rows[0..0]) == 0
  {
  }

  /** The listing loop of db_exec_id_rtrvl_stmt over the rows of the statement. */
  method ExecIdRetrieval(rows: seq<u64>, room: u64, out: array<byte>, off: nat)
    returns (usedOutlen: u64, addLen: u64, contId: u64)
    requires off + room <= out.Length
    modifies out
    ensures off + 8 * Shown(rows, room) <= out.Length
    ensures out[..] == Splice(old(out[..]), off, IdsImage(rows[..Shown(rows, room)]))
    ensures usedOutlen == 8 * Shown(rows, room)
    ensures addLen == AddLen(|rows|) && contId == Cont(rows, room)
  {
    hide IdsImage, FirstNonZero;
    NothingYet(rows);
    var len: u64, i := 0, 0;
    addLen, contId := 0, 0;
    ghost var b := out[..];
    SpliceNothing(b, off, []);
    while i < |rows|
      invariant i <= |rows| && i < SUM_LIMIT && addLen == 8 * i
      invariant len == 8 * Min(i, room / 8) <= room
      invariant out[..] == Splice(b, off, IdsImage(rows[..Min(i, room / 8)]))
      invariant contId == FirstNonZero(rows[Min(i, room / 8)..i])
    {
      contId, len := EmitRow(rows, i, room, out, off, len, contId, b);
      i := i + 1;
      if Add64(addLen, 8) > addLen {
        addLen := addLen + 8;
      } else {
        addLen := TWO64 - 1;
        break;
      }
    }
    usedOutlen := len;
  }

  /** One row: the id is stored while there is room, and afterwards only remembered as the place to continue. */
  method EmitRow(rows: seq<u64>, i: nat, room: u64, out: array<byte>, off: nat, len: u64, contId: u64,
                 ghost b: seq<byte>) returns (contId': u64, len': u64)
    requires i < |rows| && off + room <= out.Length == |b| && len == 8 * Min(i, room / 8) <= room
    requires out[..] == Splice(b, off, IdsImage(rows[..Min(i, room / 8)]))
    requires contId == FirstNonZero(rows[Min(i, room / 8)..i])
    modifies out
    ensures len' == 8 * Min(i + 1, room / 8) <= room
    ensures out[..] == Splice(b, off, IdsImage(rows[..Min(i + 1, room / 8)]))
    ensures contId' == FirstNonZero(rows[Min(i + 1, room / 8)..i + 1])
  {
    contId', len' := contId, len;
    if room - len >= 8 {
      assert Min(i, room / 8) == i && Min(i + 1, room / 8) == i + 1;
      Store(out, off + len, Be(rows[i], 8));
      len' := len + 8;
      assert rows[..i + 1] == rows[..i] + [rows[i]];
      IdsImageSnoc(rows[..i], rows[i]);
      SpliceJoin(b, off, IdsImage(rows[..i]), Be(rows[i], 8));
      assert rows[i..i] == [] && rows[i + 1..i + 1] == [];
    } else {
      var k := Min(i, room / 8);
      assert k == room / 8 == Min(i + 1, room / 8);
      assert rows[k..i + 1] == rows[k..i] + [rows[i]];
      FirstNonZeroSnoc(rows[k..i], rows[i]);
      if contId == 0 { contId' := rows[i]; }
    }
  }

  // ---------- the reply ----------

  function Saturating16(a: u64): u64 { if a + 16 < TWO64 then a + 16 else TWO64 - 1 }

  function Header(addLen: u64, contId: u64, format: byte): (b: seq<byte>)
    ensures |b| == REPLY_HEADER
  {
    Be(addLen, 8) + Be(contId, 8) + Zeros(7) + [format]
  }

  function Reply(rows: seq<u64>, allocLen: u64): (b: seq<byte>)
    requires allocLen >= REPLY_HEADER
    ensures |b| == REPLY_HEADER + 8 * Shown(rows, allocLen - REPLY_HEADER) <= allocLen
  {
    var room := allocLen - REPLY_HEADER;
    RoomFits(rows, room);
    Header(Saturating16(AddLen(|rows|)), Cont(rows, room), FORMAT_IDS) + IdsImage(rows[..Shown(rows, room)])
  }

  /** A list id restarts at 0: the continuation id it is meant to resume from is a fresh local variable. */
  function Begin(initial: u64, listId: u32): u64 { if listId != 0 then 0 else initial }

  datatype Status = Good | CdbError | HardwareFault

  /** The reply to LIST of ids. */
  function IdsReply(ids: seq<u64>, initial: u64, listId: u32, allocLen: u64): seq<byte>
    requires allocLen >= REPLY_HEADER
  {
    Reply(From(ids, Begin(initial, listId)), allocLen)
  }

  /** What LIST with attributes makes of the rows that its statement gives from some id on. */
  function AttrsRun(attrRows: u64 -> seq<LA.Row>, initial: u64, listId: u32, allocLen: u64): LA.State
    requires allocLen >= REPLY_HEADER
  {
    LA.Run(LA.Start(allocLen - REPLY_HEADER), attrRows(Begin(initial, listId)))
  }

  /** osd_list. ids are the table's partitions (pid 0) or the user objects of pid; attrRows are the rows that the
      compiled statement for the wanted attributes gives from the id on that is passed to it. */
  method OsdList(listAttr: bool, wantsAttrs: bool, pid: u64, allocLen: u64, initial: u64, listId: u32,
                 ids: seq<u64>, attrRows: u64 -> seq<LA.Row>, out: array<byte>) returns (r: Status, usedOutlen: u64)
    requires out.Length >= allocLen
    modifies out
    ensures allocLen == 0 || allocLen < REPLY_HEADER ==> out[..] == old(out[..])
    ensures allocLen > 0 && !listAttr && !wantsAttrs && r == Good ==>
              && allocLen >= REPLY_HEADER
              && var reply := IdsReply(ids, initial, listId, allocLen);
                 usedOutlen == |reply| && out[..] == Splice(old(out[..]), 0, reply)
    ensures allocLen > 0 && listAttr && wantsAttrs && pid != 0 && r == Good ==>
              && allocLen >= REPLY_HEADER
              && var s := AttrsRun(attrRows, initial, listId, allocLen);
                 var reply := Header(Saturating16(s.added), s.cont, 0x22 * 4) + s.reply.Reply();
                 usedOutlen == |reply| <= allocLen && LA.Holds(old(out[..]), out[..], 0, usedOutlen, reply)
    ensures allocLen >= REPLY_HEADER && (listAttr != wantsAttrs || (listAttr && pid == 0)) ==>
              out[..] == Splice(old(out[..]), 0, Zeros(REPLY_HEADER))
    ensures r == CdbError <==> allocLen > 0 && (allocLen < REPLY_HEADER || listAttr != wantsAttrs)
    ensures r == HardwareFault <==>
              && allocLen >= REPLY_HEADER && listAttr && wantsAttrs && pid != 0
              && AttrsRun(attrRows, initial, listId, allocLen).status.Failed?
  {
    hide LA.Run;
    r, usedOutlen := Good, 0;
    if allocLen == 0 { return; }
    if allocLen < REPLY_HEADER { return CdbError, 0; }
    ghost var b := out[..];
    Store(out, 0, Zeros(REPLY_HEADER));
    if !listAttr && wantsAttrs { return CdbError, 0; }
    if listAttr && !wantsAttrs { return CdbError, 0; }
    var begin := Begin(initial, listId);
    if !listAttr {
      usedOutlen := IdReply(From(ids, begin), allocLen, out, b);
    } else if pid != 0 {
      var ok;
      ok, usedOutlen := AttrReply(attrRows(begin), allocLen, out, b);
      if !ok { return HardwareFault, 0; }
    }
  }

  /** The header over a zeroed field: lines 2106 to 2132, and 2135 to 2151 for the other format. */
  method FillHeader(out: array<byte>, addLen: u64, contId: u64, format: byte, ghost b: seq<byte>, ghost body: seq<byte>)
    requires |b| == out.Length >= REPLY_HEADER + |body|
    requires out[..] == Splice(b, 0, Zeros(23) + [format] + body)
    modifies out
    ensures out[..] == Splice(b, 0, Header(addLen, contId, format) + body)
  {
    Store(out, 0, Be(addLen, 8));
    Store(out, 8, Be(contId, 8));
    HeaderStores(b, addLen, contId, format, body);
  }

  lemma HeaderStores(b: seq<byte>, addLen: u64, contId: u64, format: byte, body: seq<byte>)
    requires |b| >= REPLY_HEADER + |body|
    ensures Splice(Splice(Splice(b, 0, Zeros(23) + [format] + body), 0, Be(addLen, 8)), 8, Be(contId, 8))
            == Splice(b, 0, Header(addLen, contId, format) + body)
  {
    var c := Splice(Splice(Splice(b, 0, Zeros(23) + [format] + body), 0, Be(addLen, 8)), 8, Be(contId, 8));
    var d := Splice(b, 0, Header(addLen, contId, format) + body);
    forall i | 0 <= i < |b| ensures c[i] == d[i] {
      if i < 8 {
        assert c[i] == Be(addLen, 8)[i];
      } else if i < 16 {
        assert c[i] == Be(contId, 8)[i - 8];
      } else if i < 23 {
        assert c[i] == 0;
      }
    }
  }

  method IdReply(rows: seq<u64>, allocLen: u64, out: array<byte>, ghost b: seq<byte>) returns (usedOutlen: u64)
    requires allocLen >= REPLY_HEADER && out.Length >= allocLen && |b| == out.Length
    requires out[..] == Splice(b, 0, Zeros(REPLY_HEADER))
    modifies out
    ensures usedOutlen == |Reply(rows, allocLen)| && out[..] == Splice(b, 0, Reply(rows, allocLen))
  {
    hide FirstNonZero, IdsImage;
    out[23] := FORMAT_IDS;
    assert Zeros(REPLY_HEADER)[..23] == Zeros(23);
    assert out[..] == Splice(b, 0, Zeros(23) + [FORMAT_IDS]);
    var room := allocLen - REPLY_HEADER;
    RoomFits(rows, room);
    var used, addLen, contId := ExecIdRetrieval(rows, room, out, REPLY_HEADER);
    ghost var body := IdsImage(rows[..Shown(rows, room)]);
    SpliceJoin(b, 0, Zeros(23) + [FORMAT_IDS], body);
    usedOutlen := used + REPLY_HEADER;
    addLen := if Add64(addLen, 16) > addLen then addLen + 16 else TWO64 - 1;
    FillHeader(out, addLen, contId, FORMAT_IDS, b, body);
  }

  method AttrReply(rows: seq<LA.Row>, allocLen: u64, out: array<byte>, ghost b: seq<byte>)
    returns (ok: bool, usedOutlen: u64)
    requires allocLen >= REPLY_HEADER && out.Length >= allocLen && |b| == out.Length
    requires out[..] == Splice(b, 0, Zeros(REPLY_HEADER))
    modifies out
    ensures var s := LA.Run(LA.Start(allocLen - REPLY_HEADER), rows);
            var reply := Header(Saturating16(s.added), s.cont, FORMAT_ATTRS) + s.reply.Reply();
            && (ok <==> !s.status.Failed?)
            && (ok ==> usedOutlen == |reply| <= allocLen && LA.Holds(b, out[..], 0, usedOutlen, reply))
  {
    hide LA.Run, LA.Shape.Reply;
    out[23] := FORMAT_ATTRS;
    assert Zeros(REPLY_HEADER)[..23] == Zeros(23);
    assert out[..] == Splice(b, 0, Zeros(23) + [FORMAT_ATTRS]);
    ghost var s := LA.Run(LA.Start(allocLen - REPLY_HEADER), rows);
    var ret, used, addLen, contId := LA.ListOidsAttr(rows, allocLen - REPLY_HEADER, out, REPLY_HEADER);
    FailsWithError(LA.Start(allocLen - REPLY_HEADER), rows);
    if ret != 0 { return false, 0; }
    AttrBody(b, out[..], used, s.reply.Reply());
    ok, usedOutlen := true, used + REPLY_HEADER;
    addLen := if Add64(addLen, 16) > addLen then addLen + 16 else TWO64 - 1;
    FillHeader(out, addLen, contId, FORMAT_ATTRS, b, s.reply.Reply());
    SpliceHolds(b, Header(addLen, contId, FORMAT_ATTRS) + s.reply.Reply());
  }

  lemma {:induction false} FailsWithError(s: LA.State, rows: seq<LA.Row>)
    requires s.status.Failed? ==> s.status.code != 0
    ensures var t := LA.Run(s, rows); t.status.Failed? ==> t.status.code != 0
    decreases rows
  {
    if rows != [] && s.status == LA.Going { FailsWithError(LA.Step(s, rows[0]), rows[1..]); }
  }

  lemma SpliceHolds(b: seq<byte>, s: seq<byte>)
    requires |s| <= |b|
    ensures LA.Holds(b, Splice(b, 0, s), 0, |s|, s)
  {
  }

  lemma AttrBody(b: seq<byte>, c: seq<byte>, used: nat, body: seq<byte>)
    requires REPLY_HEADER + used <= |b| && |body| == used
    requires LA.Holds(Splice(b, 0, Zeros(23) + [FORMAT_ATTRS]), c, REPLY_HEADER, REPLY_HEADER + used, body)
    ensures c == Splice(b, 0, Zeros(23) + [FORMAT_ATTRS] + body)
  {
    var d := Splice(b, 0, Zeros(23) + [FORMAT_ATTRS]);
    assert c == c[..REPLY_HEADER] + c[REPLY_HEADER..REPLY_HEADER + used] + c[REPLY_HEADER + used..];
    assert c == d[..REPLY_HEADER] + body + d[REPLY_HEADER + used..];
  }

  // ---------- the client ----------

  datatype Page = Page(ids: seq<u64>, cont: u64, addLen: u64)

  function ReadIds(b: seq<byte>): seq<u64> {
    if |b| < 8 then [] else Widths(); FieldBound(b[..8]); [FromBe(b[..8])] + ReadIds(b[8..])
  }

  function ReadPage(b: seq<byte>): Page
    requires |b| >= REPLY_HEADER
  {
    Widths(); FieldBound(b[..8]); FieldBound(b[8..16]);
    Page(ReadIds(b[REPLY_HEADER..]), FromBe(b[8..16]), FromBe(b[..8]))
  }

  lemma {:induction false} ReadIdsImage(ids: seq<u64>)
    ensures ReadIds(IdsImage(ids)) == ids
  {
    if ids != [] {
      Widths(); FieldRoundTrip(ids[0], 8);
      var b := IdsImage(ids);
      assert b[..8] == Be(ids[0], 8) && b[8..] == IdsImage(ids[1..]);
      ReadIdsImage(ids[1..]);
    }
  }

  /** A page shows the first ids that fit, points to the first one that does not, and always counts all of them. */
  lemma ReadReply(rows: seq<u64>, allocLen: u64)
    requires allocLen >= REPLY_HEADER && Listable(rows)
    ensures var (p, k) := (ReadPage(Reply(rows, allocLen)), Shown(rows, allocLen - REPLY_HEADER));
            && p.ids == rows[..k] && p.cont == (if k < |rows| then rows[k] else 0)
            && p.addLen == Saturating16(AddLen(|rows|))
  {
    hide Cont, IdsImage, ReadIds;
    var b, room := Reply(rows, allocLen), allocLen - REPLY_HEADER;
    var added, k := Saturating16(AddLen(|rows|)), Shown(rows, room);
    ContIsNext(rows, room);
    Widths(); FieldRoundTrip(added, 8); FieldRoundTrip(Cont(rows, room), 8);
    assert b[..8] == Be(added, 8) && b[8..16] == Be(Cont(rows, room), 8) && b[24..] == IdsImage(rows[..k]);
    ReadIdsImage(rows[..k]);
  }

  /** The header of a listing in bytes: add_len, cont_id, seven zeros and the format. */
  lemma HeaderLayout(addLen: u64, contId: u64, format: byte)
    ensures var h := Header(addLen, contId, format);
            && |h| == 24 && FromBe(h[..8]) == addLen && FromBe(h[8..16]) == contId && h[16..23] == Zeros(7) && h[23] == format
  {
    hide Be, FromBe;
    Widths();
    FieldRoundTrip(addLen, 8);
    FieldRoundTrip(contId, 8);
    var h := Header(addLen, contId, format);
    assert h[..8] == Be(addLen, 8) && h[8..16] == Be(contId, 8) && h[16..23] == Zeros(7);
  }

  /** The length field of a page is that of the reply with all rows, without the field itself, as far as 64 bits go. */
  lemma LengthCountsAll(rows: seq<u64>, allocLen: u64)
    requires allocLen >= REPLY_HEADER
    ensures FromBe(Reply(rows, allocLen)[..8]) == Min(24 + 8 * |rows| - 8, TWO64 - 1)
    ensures 24 + 8 * |rows| <= allocLen ==> FromBe(Reply(rows, allocLen)[..8]) == |Reply(rows, allocLen)| - 8
    ensures Reply(rows, allocLen)[23] == 0x21 * 4
  {
    hide IdsImage, Cont, Be, FromBe;
    var room := allocLen - REPLY_HEADER;
    var added := Saturating16(AddLen(|rows|));
    RoomFits(rows, room);
    HeaderLayout(added, Cont(rows, room), FORMAT_IDS);
    var h := Header(added, Cont(rows, room), FORMAT_IDS);
    assert Reply(rows, allocLen)[..8] == h[..8];
  }

  // ---------- whole listings ----------

  /** Rows from an id on are a suffix of an ascending list. */
  lemma {:induction false} FromDrops(ids: seq<u64>, initial: u64, k: nat)
    requires Ascending(ids) && k <= |ids|
    requires (forall i :: 0 <= i < k ==> Signed(ids[i]) < Signed(initial))
    requires k < |ids| ==> Signed(ids[k]) >= Signed(initial)
    ensures From(ids, initial) == ids[k..]
  {
    if ids != [] {
      if k == 0 {
        if |ids| > 1 { assert ids[1..][0] == ids[1]; }
        FromDrops(ids[1..], initial, 0);
        assert ids == [ids[0]] + ids[1..];
      } else {
        FromDrops(ids[1..], initial, k - 1);
      }
    }
  }

  lemma {:induction false} FromIsSuffix(ids: seq<u64>, initial: u64) returns (k: nat)
    requires Ascending(ids)
    ensures k <= |ids| && From(ids, initial) == ids[k..]
    ensures forall i :: 0 <= i < |ids| ==> (i < k <==> Signed(ids[i]) < Signed(initial))
  {
    k := 0;
    while k < |ids| && Signed(ids[k]) < Signed(initial)
      invariant k <= |ids| && forall i :: 0 <= i < k ==> Signed(ids[i]) < Signed(initial)
    {
      k := k + 1;
    }
    FromDrops(ids, initial, k);
  }

  predicate AllAtLeast(allocs: seq<u64>, n: nat) { forall i :: 0 <= i < |allocs| ==> allocs[i] >= n }

  /** The ids that a client collects which sends LIST with no list id and passes each continuation id as the next initial
      id, until it is 0 or the client has no further buffers. */
  function Collect(ids: seq<u64>, initial: u64, allocs: seq<u64>): seq<u64>
    requires AllAtLeast(allocs, REPLY_HEADER)
    decreases allocs
  {
    if allocs == [] then []
    else
      var p := ReadPage(IdsReply(ids, initial, 0, allocs[0]));
      p.ids + if p.cont == 0 then [] else Collect(ids, p.cont, allocs[1..])
  }

  lemma CollectNothing(ids: seq<u64>, initial: u64)
    ensures Collect(ids, initial, []) == []
  {
  }

  lemma CollectPage(ids: seq<u64>, initial: u64, allocs: seq<u64>)
    requires Listable(ids) && AllAtLeast(allocs, REPLY_HEADER) && allocs != []
    ensures var (rows, n) := (From(ids, initial), Shown(From(ids, initial), allocs[0] - REPLY_HEADER));
            Collect(ids, initial, allocs) == rows[..n] + if n < |rows| then Collect(ids, rows[n], allocs[1..]) else []
  {
    hide Reply, ReadPage;
    var k := ListableSuffix(ids, initial);
    ReadReply(From(ids, initial), allocs[0]);
  }

  /** Asking from the n-th row of a page on gives the rows from there on. */
  lemma FromRow(ids: seq<u64>, initial: u64, n: nat)
    requires Listable(ids) && n < |From(ids, initial)|
    ensures From(ids, From(ids, initial)[n]) == From(ids, initial)[n..]
  {
    hide From;
    var k := FromIsSuffix(ids, initial);
    assert From(ids, initial)[n] == ids[k + n];
    FromDrops(ids, ids[k + n], k + n);
    assert ids[k..][n..] == ids[k + n..];
  }

  /** Pages of any sizes never skip, repeat or reorder an id; with room for at least one id on each, as many pages as
      there are ids, or fewer, collect them all. */
  lemma {:induction false} PagesTile(ids: seq<u64>, initial: u64, allocs: seq<u64>)
    requires Listable(ids) && AllAtLeast(allocs, REPLY_HEADER)
    ensures Collect(ids, initial, allocs) <= From(ids, initial)
    ensures |allocs| >= |From(ids, initial)| && AllAtLeast(allocs, REPLY_HEADER + 8) ==>
              Collect(ids, initial, allocs) == From(ids, initial)
    decreases allocs
  {
    hide Collect, From, Listable;
    if allocs == [] {
      CollectNothing(ids, initial);
    } else {
      var rows, n := From(ids, initial), Shown(From(ids, initial), allocs[0] - REPLY_HEADER);
      CollectPage(ids, initial, allocs);
      if n < |rows| {
        FromRow(ids, initial, n);
        PagesTile(ids, rows[n], allocs[1..]);
        assert rows == rows[..n] + rows[n..];
      }
    }
  }

  ghost predicate IsUserObject(obj: ObjTable, pid: u64, id: u64) { (pid, id) in obj && obj[(pid, id)] == UserObject }

  /** The user objects of a partition in the order of the index. */
  ghost predicate UserObjects(ids: seq<u64>, obj: ObjTable, pid: u64) {
    Ascending(ids) && forall id: u64 :: id in ids <==> IsUserObject(obj, pid, id)
  }

  lemma UserIdsListable(obj: ObjTable, pid: u64, ids: seq<u64>)
    requires NamespaceRuns.Contained(obj) && UserObjects(ids, obj, pid)
    ensures Listable(ids)
  {
    forall i | 0 <= i < |ids| ensures ids[i] != 0 { assert ids[i] in ids && IsUserObject(obj, pid, ids[i]); }
  }

  lemma FromMeans(ids: seq<u64>, initial: u64)
    requires Ascending(ids)
    ensures Ascending(From(ids, initial))
    ensures forall id: u64 :: id in From(ids, initial) <==> id in ids && Signed(id) >= Signed(initial)
  {
    hide From, Signed;
    var k := FromIsSuffix(ids, initial);
    forall id: u64 ensures id in ids[k..] <==> id in ids && Signed(id) >= Signed(initial) {
      if i :| 0 <= i < |ids| && ids[i] == id && Signed(id) >= Signed(initial) { assert ids[k..][i - k] == id; }
      if j :| 0 <= j < |ids[k..]| && ids[k..][j] == id { assert ids[k + j] == id; }
    }
  }

  /** The two ids are on the same side of 2^63. */
  predicate SameSide(a: u64, b: u64) { a < TWO63 <==> b < TWO63 }

  lemma SignedSides(id: u64, initial: u64)
    ensures SameSide(id, initial) ==> (Signed(id) >= Signed(initial) <==> id >= initial)
    ensures !SameSide(id, initial) ==> (Signed(id) >= Signed(initial) <==> id < initial)
  {
  }

  /** A listing from any initial id returns, in the order of the index, the user objects of the partition that the signed
      comparison lets through. These are the ones from that id on if and only if all user objects lie on the same side of
      2^63 as the initial id. */
  lemma WhenListingIsComplete(s: State, pid: u64, ids: seq<u64>, initial: u64, allocs: seq<u64>)
    requires NamespaceRuns.Contained(s.obj) && UserObjects(ids, s.obj, pid)
    requires |allocs| >= |ids| && AllAtLeast(allocs, REPLY_HEADER + 8)
    ensures var got := Collect(ids, initial, allocs);
            && Ascending(got)
            && (forall id: u64 :: id in got <==> IsUserObject(s.obj, pid, id) && Signed(id) >= Signed(initial))
            && ((forall id: u64 :: id in got <==> IsUserObject(s.obj, pid, id) && id >= initial)
                <==> forall id: u64 :: IsUserObject(s.obj, pid, id) ==> SameSide(id, initial))
  {
    hide Collect, From, Signed, SameSide;
    UserIdsListable(s.obj, pid, ids);
    PagesTile(ids, initial, allocs);
    FromShorter(ids, initial);
    FromMeans(ids, initial);
    forall id: u64
      ensures SameSide(id, initial) ==> (Signed(id) >= Signed(initial) <==> id >= initial)
      ensures !SameSide(id, initial) ==> (Signed(id) >= Signed(initial) <==> id < initial)
    {
      SignedSides(id, initial);
    }
  }

  lemma FromShorter(ids: seq<u64>, initial: u64)
    requires Ascending(ids)
    ensures |From(ids, initial)| <= |ids|
  {
    var k := FromIsSuffix(ids, initial);
  }

  /** The id lies, in the order of the index, between 0 and the initial id. */
  predicate Between(id: u64, initial: u64) { if initial < TWO63 then id < initial else id >= initial }

  lemma WhenBetween(id: u64, initial: u64)
    ensures Between(id, initial) <==> (Signed(id) >= 0) != (Signed(id) >= Signed(initial))
  {
  }

  /** A list id makes no difference exactly when no id lies between 0, where it makes the listing start, and the initial
      id that the client asked for: with an initial id below 2^63, when no id is below it; otherwise when no id is at or
      above it. */
  lemma WhenListIdResumes(ids: seq<u64>, initial: u64, listId: u32, allocLen: u64)
    requires Listable(ids) && allocLen >= REPLY_HEADER && listId != 0
    ensures IdsReply(ids, initial, listId, allocLen) == IdsReply(ids, initial, 0, allocLen)
            <==> forall i :: 0 <= i < |ids| ==> !Between(ids[i], initial)
  {
    hide Reply, From, Listable, Between, Signed;
    var j := ListableSuffix(ids, 0);
    var k := ListableSuffix(ids, initial);
    ZeroSigned();
    forall i | 0 <= i < |ids| ensures Between(ids[i], initial) <==> (i < j) != (i < k) { WhenBetween(ids[i], initial); }
    if j != k {
      var i := if j < k then j else k;
      assert Between(ids[i], initial);
      RepliesDiffer(ids, j, k, allocLen);
    }
  }

  lemma ZeroSigned()
    ensures Signed(0) == 0
  {
  }

  /** Two ends of a list that start at different rows give different replies. */
  lemma RepliesDiffer(ids: seq<u64>, j: nat, k: nat, allocLen: u64)
    requires Listable(ids) && j <= |ids| && k <= |ids| && j != k && allocLen >= REPLY_HEADER
    ensures Reply(ids[j..], allocLen) != Reply(ids[k..], allocLen)
  {
    hide Reply, ReadPage;
    ReadReply(ids[j..], allocLen);
    ReadReply(ids[k..], allocLen);
    if j < |ids| && k < |ids| { assert Signed(ids[j]) != Signed(ids[k]); }
  }

  /** With the one id 2^63 + 7 and the initial id 2^63 + 3, no id lies below the initial one, and still a list id changes
      the reply. */
  lemma LargeIdIsNotResumed(allocLen: u64)
    requires allocLen >= REPLY_HEADER
    ensures var ids, initial := [TWO63 + 7], TWO63 + 3;
            Listable(ids) && ids[0] > initial && IdsReply(ids, initial, 1, allocLen) != IdsReply(ids, initial, 0, allocLen)
  {
    hide Reply, From;
    WhenListIdResumes([TWO63 + 7], TWO63 + 3, 1, allocLen);
    assert Between([TWO63 + 7][0], TWO63 + 3);
  }

  lemma ListableSuffix(ids: seq<u64>, initial: u64) returns (k: nat)
    requires Listable(ids)
    ensures k <= |ids| && From(ids, initial) == ids[k..] && Listable(ids[k..])
    ensures forall i :: 0 <= i < |ids| ==> (i < k <==> Signed(ids[i]) < Signed(initial))
  {
    k := FromIsSuffix(ids, initial);
  }
}
