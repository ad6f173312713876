/** Attributes retrieved into a shrinking buffer: le_multiobj_pack_attr, exec_attr_rtrvl_stmt, osd_getattr_list and
    get_attr_list, which nest three levels of "append what still fits". */
module RetrievedAttrs {
  import opened Bytes
  import opened ListEntry
  import N = Namespace

  const LIST_HDR_LEN := 8
  const RTRV_ATTR_LIST := 0x01
  const RTRVD_SET_ATTR_LIST: byte := 0x09
  const RTRVD_CREATE_MULTIOBJ_LIST: byte := 0x0F
  const GETALLATTR_PG: u32 := 0xFFFF_FFFF
  const ATTRNUM_GETALL: u32 := 0xFFFF_FFFF

  /** One attribute to be returned; lead is the object id in the multi-object format, and empty otherwise. */
  datatype Item = Item(lead: seq<byte>, page: u32, number: u32, value: Value) {
    predicate Valid() { |lead| == 0 || |lead| == 8 }

    function Whole(): (b: seq<byte>) { lead + WholeEntry(page, number, value).Image() }

    /** The bytes it leaves in a buffer with room bytes: nothing when no entry can be started. */
    function Put(room: nat): (b: seq<byte>)
      ensures Aligned(room) && Valid() ==> |b| <= room && Aligned(|b|)
    {
      if room < |lead| + LE_VAL_OFF then []
      else
        var e := Packed(page, number, |value|, Some(value), room - |lead|);
        if Aligned(room) && Valid() then AlignedSub(room, |lead|); AlignedAdd(|lead|, e.Size()); lead + e.Image()
        else lead + e.Image()
    }
  }

  lemma AlignedNext(m: nat)
    requires Aligned(m)
    ensures Aligned(m + 8)
  {
  }

  lemma AlignedSub(m: nat, n: nat)
    requires Aligned(m) && n <= m && (n == 0 || n == 8)
    ensures Aligned(m - n) && Aligned(n)
  {
  }

  /** The untruncated serialisation. */
  function Serialised(items: seq<Item>): seq<byte> {
    if items == [] then [] else items[0].Whole() + Serialised(items[1..])
  }

  predicate AllValid(items: seq<Item>) { forall i :: 0 <= i < |items| ==> items[i].Valid() }

  /** What is gathered into room bytes: items in order, up to the first that cannot be started. */
  function Gathered(items: seq<Item>, room: nat): (b: seq<byte>)
    requires Aligned(room) && AllValid(items)
    ensures |b| <= room && Aligned(|b|)
    decreases items
  {
    if items == [] || items[0].Put(room) == [] then []
    else
      var b := items[0].Put(room);
      AlignedLess(room, |b|);
      var more := Gathered(items[1..], room - |b|);
      AlignedAdd(|b|, |more|);
      b + more
  }

  lemma AlignedLess(m: nat, n: nat)
    requires Aligned(m) && Aligned(n) && n <= m
    ensures Aligned(m - n)
  {
  }

  // ---------- truncation is a byte prefix ----------

  lemma PutIsPrefix(t: Item, room: nat)
    requires Aligned(room) && t.Valid()
    ensures t.Put(room) <= t.Whole()
    ensures t.Put(room) == t.Whole() <==> |t.Whole()| <= room
    ensures t.Put(room) != t.Whole() ==> t.Put(room) == [] || |t.Put(room)| == room
  {
    hide Entry.Image;
    if room >= |t.lead| + LE_VAL_OFF {
      AlignedSub(room, |t.lead|);
      PackedIsPrefix(t.page, t.number, t.value, room - |t.lead|);
    }
  }

  /** The gathered bytes are a prefix of the untruncated serialisation, and all of it when that fits. */
  lemma {:induction false} GatheredIsPrefix(items: seq<Item>, room: nat)
    requires Aligned(room) && AllValid(items)
    ensures Gathered(items, room) <= Serialised(items)
    ensures |Serialised(items)| <= room <==> Gathered(items, room) == Serialised(items)
    decreases items
  {
    hide Item.Put, Item.Whole;
    if items != [] {
      var t := items[0];
      PutIsPrefix(t, room);
      ItemSize(t);
      if t.Put(room) != [] {
        AlignedLess(room, |t.Put(room)|);
        GatheredIsPrefix(items[1..], room - |t.Put(room)|);
        if t.Put(room) != t.Whole() { NoRoomLeft(items[1..]); }
      }
    }
  }

  lemma ItemSize(t: Item)
    ensures |t.Whole()| >= LE_VAL_OFF
  {
  }

  lemma NoRoomLeft(items: seq<Item>)
    requires AllValid(items)
    ensures Gathered(items, 0) == []
  {
  }

  /** Items of one list format: all with an object id in front, or none. */
  predicate Uniform(items: seq<Item>, n: nat) {
    (n == 0 || n == 8) && forall i :: 0 <= i < |items| ==> |items[i].lead| == n
  }

  lemma {:induction false} GatheredStuck(items: seq<Item>, n: nat, room: nat)
    requires Aligned(room) && Uniform(items, n) && room < n + LE_VAL_OFF
    ensures Gathered(items, room) == []
  {
  }

  /** Gathering in several calls, each into what the former left, is gathering everything at once. */
  lemma {:induction false} GatheredSplit(a: seq<Item>, b: seq<Item>, n: nat, room: nat)
    requires Aligned(room) && Uniform(a, n) && Uniform(b, n)
    ensures AlignedLeft(room, |Gathered(a, room)|)
    ensures Gathered(a + b, room) == Gathered(a, room) + Gathered(b, room - |Gathered(a, room)|)
    decreases a
  {
    hide Item.Put, Item.Whole, Aligned, Gathered;
    AlignedLess(room, |Gathered(a, room)|);
    if a == [] {
      assert a + b == b;
      GatheredNone(room);
      assert Gathered(a + b, room) == [] + Gathered(b, room);
    } else {
      var p := a[0].Put(room);
      assert (a + b)[0] == a[0] && (a + b)[1..] == a[1..] + b;
      GatheredHead(a, room);
      GatheredHead(a + b, room);
      if p == [] {
        PutNothing(a[0], room);
        GatheredStuck(b, n, room);
      } else {
        GatheredSplit(a[1..], b, n, room - |p|);
        Assoc(p, Gathered(a[1..], room - |p|), Gathered(b, room - |Gathered(a, room)|));
      }
    }
  }

  lemma GatheredHead(items: seq<Item>, room: nat)
    requires items != [] && Aligned(room) && AllValid(items)
    ensures var p := items[0].Put(room);
            && |p| <= room && Aligned(room - |p|)
            && Gathered(items, room) == if p == [] then [] else p + Gathered(items[1..], room - |p|)
  {
    hide Item.Put, Aligned;
    AlignedLess(room, |items[0].Put(room)|);
  }

  predicate AlignedLeft(room: nat, n: nat) { n <= room && Aligned(room - n) }

  lemma PutNothing(t: Item, room: nat)
    requires t.Put(room) == []
    ensures room < |t.lead| + LE_VAL_OFF
  {
  }

  // ---------- writing ----------

  /** b is b0 with data at off; bytes outside [off..off + room) are untouched. */
  ghost predicate Wrote(b0: seq<byte>, b: seq<byte>, off: nat, room: nat, data: seq<byte>) {
    && |data| <= room && off + room <= |b| == |b0|
    && b[..off] == b0[..off] && b[off + room..] == b0[off + room..] && b[off..off + |data|] == data
  }

  lemma WroteNothing(b: seq<byte>, off: nat, room: nat)
    requires off + room <= |b|
    ensures Wrote(b, b, off, room, [])
  {
  }

  lemma WroteMore(b0: seq<byte>, b: seq<byte>, c: seq<byte>, off: nat, room: nat, d: seq<byte>, e: seq<byte>)
    requires Wrote(b0, b, off, room, d) && Wrote(b, c, off + |d|, room - |d|, e)
    ensures Wrote(b0, c, off, room, d + e)
  {
    assert c[..off] == c[..off + |d|][..off] == b[..off];
    assert c[off..off + |d|] == c[..off + |d|][off..] == b[off..off + |d|];
    assert c[off..off + |d + e|] == c[off..off + |d|] + c[off + |d|..off + |d| + |e|];
  }

  lemma WroteSplice(b: seq<byte>, off: nat, room: nat, data: seq<byte>)
    requires off + room <= |b| && |data| <= room
    ensures Wrote(b, Splice(b, off, data), off, room, data)
  {
    assert Splice(b, off, data)[off..off + |data|] == data;
  }

  /** le_multiobj_pack_attr: an ordinary entry behind the object id. With 16 to 23 bytes the id is left behind
      although the entry is refused. */
  method LeMultiobjPackAttr(buf: array<byte>, off: nat, buflen: u32, oid: u64, page: u32, number: u32, value: Value)
    returns (ret: int)
    requires Aligned(off) && Aligned(buflen) && off + buflen <= buf.Length
    modifies buf
    ensures var t := Item(Be(oid, 8), page, number, value);
            && ret == (if t.Put(buflen) == [] then -EOVERFLOW else |t.Put(buflen)|)
            && Wrote(old(buf[..]), buf[..], off, buflen, t.Put(buflen))
  {
    hide Wrote, Packed, Entry.Image, Item.Put, Be, Splice, Aligned;
    ghost var b, t := buf[..], Item(Be(oid, 8), page, number, value);
    PutError(t, buflen);
    AlignedNext(off);
    if buflen < LE_VAL_OFF { WroteNothing(b, off, buflen); return -EOVERFLOW; }
    Store(buf, off, Be(oid, 8));
    WroteSplice(b, off, buflen, Be(oid, 8));
    ghost var c := buf[..];
    ret := LePackAttr(buf, off + 8, buflen - 8, page, number, |value|, if value == [] then None else Some(value));
    if ret > 0 {
      PackedEmpty(page, number, buflen - 8);
      ghost var e := Packed(page, number, |value|, Some(value), buflen - 8).Image();
      WroteSplice(c, off + 8, buflen - 8, e);
      WroteMore(b, c, buf[..], off, buflen, Be(oid, 8), e);
      ret := 8 + ret;
    } else {
      WroteLess(b, c, off, buflen, Be(oid, 8));
    }
  }

  function Lead(multi: bool, oid: u64): (s: seq<byte>)
    ensures |s| == if multi then 8 else 0
  {
    if multi then Be(oid, 8) else []
  }

  /** The packing routine that the list format asks for. */
  method PackItem(buf: array<byte>, off: nat, room: u32, multi: bool, oid: u64, page: u32, number: u32, value: Value)
    returns (ret: int)
    requires Aligned(off) && Aligned(room) && off + room <= buf.Length
    modifies buf
    ensures var t := Item(Lead(multi, oid), page, number, value);
            && ret == (if t.Put(room) == [] then -EOVERFLOW else |t.Put(room)|)
            && Wrote(old(buf[..]), buf[..], off, room, t.Put(room))
  {
    hide Wrote, Packed, Entry.Image, Item.Put;
    if multi {
      ret := LeMultiobjPackAttr(buf, off, room, oid, page, number, value);
      return;
    }
    ghost var b, t := buf[..], Item([], page, number, value);
    PutError(t, room);
    ret := LePackAttr(buf, off, room, page, number, |value|, if value == [] then None else Some(value));
    if ret > 0 {
      PackedEmpty(page, number, room);
      ghost var e := Packed(page, number, |value|, Some(value), room).Image();
      assert [] + e == e;
      WroteSplice(b, off, room, e);
    } else {
      WroteNothing(b, off, room);
    }
  }

  lemma WroteLess(b: seq<byte>, c: seq<byte>, off: nat, room: nat, data: seq<byte>)
    requires Wrote(b, c, off, room, data)
    ensures Wrote(b, c, off, room, [])
  {
  }

  /** The packing routines refuse exactly the items that leave nothing. */
  lemma PutError(t: Item, room: nat)
    requires Aligned(room) && t.Valid()
    ensures t.Put(room) == [] <==> room < |t.lead| + LE_VAL_OFF
    ensures room >= |t.lead| + LE_VAL_OFF ==>
              PackError(0, room - |t.lead|) == 0
              && t.Put(room) == t.lead + Packed(t.page, t.number, |t.value|, Some(t.value), room - |t.lead|).Image()
    ensures |t.lead| <= room < |t.lead| + LE_VAL_OFF ==> PackError(0, room - |t.lead|) == -EOVERFLOW
  {
    if room >= |t.lead| { AlignedSub(room, |t.lead|); }
    if t.Put(room) == [] { PutNothing(t, room); }
  }

  // ---------- one call: exec_attr_rtrvl_stmt and osd_getattr_list ----------

  /** A row of the attr table. */
  datatype Attr = Attr(page: u32, number: u32, value: Value)

  function ItemsOf(multi: bool, oid: u64, rows: seq<Attr>): (items: seq<Item>)
    ensures |items| == |rows| && Uniform(items, if multi then 8 else 0)
  {
    seq(|rows|, i requires 0 <= i < |rows| => Item(Lead(multi, oid), rows[i].page, rows[i].number, rows[i].value))
  }

  /** What a request for one attribute of one object brings: its rows, or the null attribute when there are none. */
  function Answer(multi: bool, oid: u64, page: u32, number: u32, rows: seq<Attr>): (items: seq<Item>)
    ensures Uniform(items, if multi then 8 else 0)
  {
    if rows != [] then ItemsOf(multi, oid, rows)
    else if page != GETALLATTR_PG && number != ATTRNUM_GETALL then [Item(Lead(multi, oid), page, number, [])]
    else []
  }

  /** The rows that are found come back in their order, each under its own page and number; a single attribute that is not
      found comes back as an empty value under the page and number asked for, and a request for many as nothing. */
  lemma AnswerMeans(multi: bool, oid: u64, page: u32, number: u32, rows: seq<Attr>)
    ensures var items := Answer(multi, oid, page, number, rows);
            && (rows != [] ==> |items| == |rows|)
            && (rows == [] ==> |items| == if page != 0xFFFF_FFFF && number != 0xFFFF_FFFF then 1 else 0)
            && (rows == [] && items != [] ==> (items[0].page, items[0].number, items[0].value) == (page, number, []))
            && (forall i :: 0 <= i < |items| ==> items[i].lead == if multi then Be(oid, 8) else [])
            && (forall i :: 0 <= i < |items| && rows != [] ==>
                  (items[i].page, items[i].number, items[i].value) == (rows[i].page, rows[i].number, rows[i].value))
  {
  }

  /** exec_attr_rtrvl_stmt with GATHER_ATTR: len, outlen and outdata advance until a row does not fit. used is 0 also
      for the empty result, which the caller reports as not found. */
  method GatherAttrs(buf: array<byte>, off: nat, room: u32, multi: bool, oid: u64, rows: seq<Attr>) returns (used: u32)
    requires Aligned(off) && Aligned(room) && off + room <= buf.Length
    modifies buf
    ensures AllValid(ItemsOf(multi, oid, rows))
    ensures var g := Gathered(ItemsOf(multi, oid, rows), room); used == |g| && Wrote(old(buf[..]), buf[..], off, room, g)
  {
    hide Wrote, Gathered, Item.Put, Aligned, Uniform, Lead;
    ghost var b0, items := buf[..], ItemsOf(multi, oid, rows);
    UniformValid(items, if multi then 8 else 0);
    assert items[0..] == items;
    WroteNothing(b0, off, room);
    used := 0;
    var i := 0;
    ghost var done := [];
    while i < |rows|
      invariant 0 <= i <= |rows| && used == |done| <= room && Aligned(off + used) && Aligned(room - used)
      invariant Wrote(b0, buf[..], off, room, done)
      invariant Gathered(items, room) == done + Gathered(items[i..], room - used)
    {
      ghost var b, p := buf[..], items[i].Put(room - used);
      GatheredNext(items, i, room - used);
      var ret := PackItem(buf, off + used, room - used, multi, oid, rows[i].page, rows[i].number, rows[i].value);
      WroteMore(b0, b, buf[..], off, room, done, p);
      if ret <= 0 {
        assert done + [] == done;
        break;
      }
      AlignedAdd(off + used, ret);
      AlignedLess(room - used, ret);
      Assoc(done, p, Gathered(items[i + 1..], room - used - ret));
      used, done, i := used + ret, done + p, i + 1;
    }
    GatheredNone(room - used);
    assert done + [] == done;
  }

  lemma GatheredNext(items: seq<Item>, i: nat, room: nat)
    requires i < |items| && Aligned(room) && AllValid(items)
    ensures var p := items[i].Put(room);
            && |p| <= room && Aligned(|p|) && Aligned(room - |p|)
            && Gathered(items[i..], room) == if p == [] then [] else p + Gathered(items[i + 1..], room - |p|)
  {
    hide Item.Put, Aligned, Gathered;
    assert items[i..][0] == items[i] && items[i..][1..] == items[i + 1..];
    GatheredHead(items[i..], room);
  }

  lemma GatheredNone(room: nat)
    requires Aligned(room)
    ensures Gathered([], room) == []
  {
  }

  lemma UniformValid(items: seq<Item>, n: nat)
    requires Uniform(items, n)
    ensures AllValid(items)
  {
  }

  /** Whether an attribute of an object of this type can be retrieved, and if not, which error that is. */
  datatype Reading = Readable | InvalidFieldInCdb | InvalidFieldInList

  function ReadingOf(kind: Option<N.Kind>, page: u32): Reading {
    if kind.None? then InvalidFieldInCdb else if N.Gettable(kind.value, page) then Readable else InvalidFieldInList
  }

  /** osd_getattr_list: the rows found, or else the null attribute; a lack of room is not an error. kind is the type of
      the object as get_obj_type finds it. */
  method GetattrList(buf: array<byte>, off: nat, room: u32, multi: bool, oid: u64, page: u32, number: u32,
                     kind: Option<N.Kind>, rows: seq<Attr>) returns (r: Reading, used: u32)
    requires Aligned(off) && Aligned(room) && off + room <= buf.Length
    modifies buf
    ensures r == ReadingOf(kind, page) && AllValid(Answer(multi, oid, page, number, rows))
    ensures if r.Readable? then
              var g := Gathered(Answer(multi, oid, page, number, rows), room);
              used == |g| && Wrote(old(buf[..]), buf[..], off, room, g)
            else used == 0 && buf[..] == old(buf[..])
  {
    hide Wrote, Gathered, Item.Put, Aligned, Uniform;
    ghost var b, items := buf[..], Answer(multi, oid, page, number, rows);
    UniformValid(items, if multi then 8 else 0);
    r, used := Readable, 0;
    if kind.None? { return InvalidFieldInCdb, 0; }
    if !N.Gettable(kind.value, page) { return InvalidFieldInList, 0; }
    used := GatherAttrs(buf, off, room, multi, oid, rows);
    if used == 0 && page != GETALLATTR_PG && number != ATTRNUM_GETALL {
      ghost var c, t := buf[..], Item(Lead(multi, oid), page, number, []);
      var ret := PackItem(buf, off, room, multi, oid, page, number, []);
      WroteMore(b, c, buf[..], off, room, [], t.Put(room));
      assert [] + t.Put(room) == t.Put(room);
      if rows == [] { GatheredOne(t, room); } else { GatheredRefusal(ItemsOf(multi, oid, rows), t, room); }
      if ret > 0 { used := ret; }
    }
    if rows == [] { GatheredNone(room); }
  }

  lemma GatheredOne(t: Item, room: nat)
    requires Aligned(room) && t.Valid()
    ensures Gathered([t], room) == t.Put(room)
  {
    hide Item.Put;
    assert [t][1..] == [];
    assert t.Put(room) + [] == t.Put(room);
  }

  /** Where a row is refused for lack of room, so is the null attribute. */
  lemma GatheredRefusal(items: seq<Item>, t: Item, room: nat)
    requires Aligned(room) && items != [] && AllValid(items) && Gathered(items, room) == []
    requires t.Valid() && |t.lead| == |items[0].lead|
    ensures t.Put(room) == []
  {
    hide Item.Put;
    PutNothing(items[0], room);
    PutError(t, room);
  }

  // ---------- the whole command: get_attr_list ----------

  type Lookup = (u64, u32, u32) -> seq<Attr>

  datatype Request = Request(page: u32, number: u32)

  /** The 8-byte requests that follow the list header. */
  function Requests(b: seq<byte>): seq<Request> {
    if |b| < 8 then []
    else
      FieldBound(b[..4]); FieldBound(b[4..8]); Widths();
      [Request(FromBe(b[..4]), FromBe(b[4..8]))] + Requests(b[8..])
  }

  /** The objects that the loop i = oid; i < oid + numoid comes to: none when its end wraps past 2^64. */
  function Covered(oid: u64, numoid: u16): (n: nat)
    ensures oid + n < TWO64
    ensures n == if Add64(oid, numoid) > oid then Add64(oid, numoid) - oid else 0
  {
    if oid + numoid < TWO64 then numoid
    else
      ModUnique(oid + numoid, TWO64, 1, oid + numoid - TWO64);
      0
  }

  /** The answers to one request for n objects from oid on. */
  function PerObject(rq: Request, oid: u64, n: nat, multi: bool, db: Lookup): (items: seq<Item>)
    requires oid + n < TWO64
    ensures Uniform(items, if multi then 8 else 0)
  {
    if n == 0 then []
    else PerObject(rq, oid, n - 1, multi, db)
         + Answer(multi, oid + n - 1, rq.page, rq.number, db(oid + n - 1, rq.page, rq.number))
  }

  function AllAnswers(rqs: seq<Request>, oid: u64, n: nat, multi: bool, db: Lookup): (items: seq<Item>)
    requires oid + n < TWO64
    ensures Uniform(items, if multi then 8 else 0)
  {
    if rqs == [] then []
    else AllAnswers(rqs[..|rqs| - 1], oid, n, multi, db) + PerObject(rqs[|rqs| - 1], oid, n, multi, db)
  }

  /** get_obj_type on the objects of a partition. */
  type Kinds = u64 -> Option<N.Kind>

  /** The first object for which a request fails decides. */
  function RequestReading(rq: Request, oid: u64, n: nat, kinds: Kinds): Reading
    requires oid + n < TWO64
  {
    if n == 0 then Readable
    else
      var r := RequestReading(rq, oid, n - 1, kinds);
      if r.Readable? then ReadingOf(kinds(oid + n - 1), rq.page) else r
  }

  /** And so does the first request. */
  function ListReading(rqs: seq<Request>, oid: u64, n: nat, kinds: Kinds): Reading
    requires oid + n < TWO64
  {
    if rqs == [] then Readable
    else
      var r := ListReading(rqs[..|rqs| - 1], oid, n, kinds);
      if r.Readable? then RequestReading(rqs[|rqs| - 1], oid, n, kinds) else r
  }

  predicate CanRead(kind: Option<N.Kind>, page: u32) { kind.Some? && N.Gettable(kind.value, page) }

  lemma {:induction false} WhenRequestReadable(rq: Request, oid: u64, n: nat, kinds: Kinds)
    requires oid + n < TWO64
    ensures RequestReading(rq, oid, n, kinds).Readable?
            <==> forall o: u64 :: oid <= o < oid + n ==> CanRead(kinds(o), rq.page)
  {
    hide N.Gettable;
    if n > 0 { WhenRequestReadable(rq, oid, n - 1, kinds); }
  }

  /** A retrieval is refused exactly when some object is of no type or some page cannot be retrieved from its type. */
  lemma {:induction false} WhenListReadable(rqs: seq<Request>, oid: u64, n: nat, kinds: Kinds)
    requires oid + n < TWO64
    ensures ListReading(rqs, oid, n, kinds).Readable?
            <==> forall i, o: u64 :: 0 <= i < |rqs| && oid <= o < oid + n ==> CanRead(kinds(o), rqs[i].page)
    decreases |rqs|
  {
    hide ReadingOf, CanRead;
    if rqs != [] {
      var k := |rqs| - 1;
      WhenListReadable(rqs[..k], oid, n, kinds);
      WhenRequestReadable(rqs[k], oid, n, kinds);
      assert forall i :: 0 <= i < k ==> rqs[..k][i] == rqs[i];
      if ListReading(rqs, oid, n, kinds).Readable? {
        forall i, o: u64 | 0 <= i < |rqs| && oid <= o < oid + n ensures CanRead(kinds(o), rqs[i].page) {
          if i < k { assert CanRead(kinds(o), rqs[..k][i].page); }
        }
      }
    }
  }

  lemma {:induction false} FirstObjectDecides(rq: Request, oid: u64, n: nat, kinds: Kinds, o: u64)
    requires oid <= o < oid + n < TWO64 && !CanRead(kinds(o), rq.page)
    requires forall p: u64 :: oid <= p < o ==> CanRead(kinds(p), rq.page)
    ensures RequestReading(rq, oid, n, kinds) == if kinds(o).None? then InvalidFieldInCdb else InvalidFieldInList
  {
    hide N.Gettable;
    if o == oid + n - 1 {
      WhenRequestReadable(rq, oid, n - 1, kinds);
    } else {
      FirstObjectDecides(rq, oid, n - 1, kinds, o);
    }
  }

  /** The first request that cannot be answered for some object, and its first such object, decide which error it is. */
  lemma {:induction false} FirstRefusalDecides(rqs: seq<Request>, oid: u64, n: nat, kinds: Kinds, i: nat, o: u64)
    requires i < |rqs| && oid <= o < oid + n < TWO64 && !CanRead(kinds(o), rqs[i].page)
    requires forall j, p: u64 :: 0 <= j < i && oid <= p < oid + n ==> CanRead(kinds(p), rqs[j].page)
    requires forall p: u64 :: oid <= p < o ==> CanRead(kinds(p), rqs[i].page)
    ensures ListReading(rqs, oid, n, kinds) == if kinds(o).None? then InvalidFieldInCdb else InvalidFieldInList
    decreases |rqs|
  {
    hide CanRead, ReadingOf;
    var k := |rqs| - 1;
    if i == k {
      WhenListReadable(rqs[..k], oid, n, kinds);
      FirstObjectDecides(rqs[k], oid, n, kinds, o);
    } else {
      FirstRefusalDecides(rqs[..k], oid, n, kinds, i, o);
    }
  }

  lemma {:induction false} ObjectsAppend(rq: Request, oid: u64, m: nat, n: nat, multi: bool, db: Lookup)
    requires oid + m + n < TWO64
    ensures PerObject(rq, oid, m + n, multi, db) == PerObject(rq, oid, m, multi, db) + PerObject(rq, oid + m, n, multi, db)
    ensures m == 1 ==> PerObject(rq, oid, m, multi, db) == Answer(multi, oid, rq.page, rq.number, db(oid, rq.page, rq.number))
    decreases n
  {
    hide Answer;
    if m == 1 { assert PerObject(rq, oid, 0, multi, db) == []; }
    if n > 0 {
      ObjectsAppend(rq, oid, m, n - 1, multi, db);
      Assoc(PerObject(rq, oid, m, multi, db), PerObject(rq, oid + m, n - 1, multi, db),
            Answer(multi, oid + m + n - 1, rq.page, rq.number, db(oid + m + n - 1, rq.page, rq.number)));
    }
  }

  /** The answers to a list are those to its requests in their order, and to each of these those of the objects in theirs. */
  lemma {:induction false} AnswersAppend(a: seq<Request>, b: seq<Request>, oid: u64, n: nat, multi: bool, db: Lookup)
    requires oid + n < TWO64
    ensures AllAnswers(a + b, oid, n, multi, db) == AllAnswers(a, oid, n, multi, db) + AllAnswers(b, oid, n, multi, db)
    ensures |a| == 1 ==> AllAnswers(a, oid, n, multi, db) == PerObject(a[0], oid, n, multi, db)
    decreases |b|
  {
    hide PerObject;
    if |a| == 1 { assert a[..0] == [] && AllAnswers(a[..0], oid, n, multi, db) == []; }
    if b == [] {
      assert a + b == a;
    } else {
      var front := b[..|b| - 1];
      assert (a + b)[..|a + b| - 1] == a + front;
      AnswersAppend(a, front, oid, n, multi, db);
      Assoc(AllAnswers(a, oid, n, multi, db), AllAnswers(front, oid, n, multi, db),
            PerObject(b[|b| - 1], oid, n, multi, db));
    }
  }

  /** The answers to one request, appended to what doneItems brought. */
  method AnswerRequest(out: array<byte>, off: nat, room: u32, rq: Request, oid: u64, numoid: u16, multi: bool, db: Lookup,
                       kinds: Kinds, used0: u32, ghost doneItems: seq<Item>, ghost b0: seq<byte>)
    returns (r: Reading, used: u32)
    requires Aligned(off) && Aligned(room) && off + room <= out.Length
    requires Uniform(doneItems, if multi then 8 else 0) && AllValid(doneItems)
    requires used0 == |Gathered(doneItems, room)| && Wrote(b0, out[..], off, room, Gathered(doneItems, room))
    modifies out
    ensures r == RequestReading(rq, oid, Covered(oid, numoid), kinds)
    ensures var items := doneItems + PerObject(rq, oid, Covered(oid, numoid), multi, db);
            if r.Readable?
            then AllValid(items) && used == |Gathered(items, room)| && Wrote(b0, out[..], off, room, Gathered(items, room))
            else Wrote(b0, out[..], off, room, [])
  {
    hide Wrote, Gathered, Aligned, Uniform, AllValid, Answer, ReadingOf, Add64;
    used := used0;
    ghost var n, items := if multi then 8 else 0, doneItems;
    assert items + PerObject(rq, oid, 0, multi, db) == items;
    var i: u64, end := oid, Add64(oid, numoid);
    while i < end
      invariant oid <= i <= oid + Covered(oid, numoid)
      invariant items == doneItems + PerObject(rq, oid, i - oid, multi, db) && Uniform(items, n) && AllValid(items)
      invariant RequestReading(rq, oid, i - oid, kinds).Readable?
      invariant used == |Gathered(items, room)| && Wrote(b0, out[..], off, room, Gathered(items, room))
    {
      ghost var b := out[..];
      ghost var more := Answer(multi, i, rq.page, rq.number, db(i, rq.page, rq.number));
      Appending(items, more, n, off, room);
      var m;
      r, m := GetattrList(out, off + used, room - used, multi, i, rq.page, rq.number, kinds(i), db(i, rq.page, rq.number));
      if !r.Readable? {
        FirstRefusal(rq, oid, i, Covered(oid, numoid), kinds);
        WroteLess(b0, out[..], off, room, Gathered(items, room));
        return;
      }
      WroteMore(b0, b, out[..], off, room, Gathered(items, room), Gathered(more, room - used));
      Assoc(doneItems, PerObject(rq, oid, i - oid, multi, db), more);
      used, items := used + m, items + more;
      i := i + 1;
    }
    r := Readable;
  }

  lemma {:induction false} FirstRefusal(rq: Request, oid: u64, i: u64, n: nat, kinds: Kinds)
    requires oid <= i < oid + n < TWO64 && RequestReading(rq, oid, i - oid, kinds).Readable?
    requires !ReadingOf(kinds(i), rq.page).Readable?
    ensures RequestReading(rq, oid, n, kinds) == ReadingOf(kinds(i), rq.page)
    decreases n
  {
    hide ReadingOf;
    if i < oid + n - 1 { FirstRefusal(rq, oid, i, n - 1, kinds); }
  }

  lemma Appending(items: seq<Item>, more: seq<Item>, n: nat, off: nat, room: nat)
    requires Uniform(items, n) && Uniform(more, n) && Aligned(off) && Aligned(room)
    ensures AllValid(items) && AllValid(more) && Uniform(items + more, n) && AllValid(items + more)
    ensures var g := Gathered(items, room);
            && |g| <= room && Aligned(off + |g|) && Aligned(room - |g|)
            && Gathered(items + more, room) == g + Gathered(more, room - |g|)
  {
    hide Gathered, Aligned;
    var g := Gathered(items, room);
    AlignedAdd(off, |g|);
    AlignedLess(room, |g|);
    GatheredSplit(items, more, n, room);
  }

  datatype Outcome = Nothing | ParamListError | InvalidParamList | Overrun | Refused(why: Reading) | Filled(used: nat)

  /** The checks of lines 206 to 232. Overrun stands for reading past the data that arrived, and for the header that an
      allocation of 0 has no room for. */
  function Check(indata: seq<byte>, listLen: u32, listOff: u64, allocLen: u32): (r: Outcome)
    ensures !r.Refused?
    ensures r.Filled? ==>
              LIST_HDR_LEN <= listLen && listOff + listLen <= |indata| && Aligned(allocLen) && LIST_HDR_LEN <= allocLen
  {
    if listLen == 0 then Nothing
    else if listLen < LIST_HDR_LEN then ParamListError
    else
      var available := (|indata| - listOff) % TWO32;
      if available < 8 || !Aligned(listOff) || !Aligned(allocLen) then ParamListError
      else if listOff >= |indata| then Overrun
      else if indata[listOff] % 16 != RTRV_ATTR_LIST then InvalidParamList
      else if !Aligned(listLen) || listLen < available then ParamListError
      else if listOff + listLen > |indata| || allocLen == 0 then Overrun
      else Filled(0)
  }

  /** Which request lists are answered: those of type 1 at an aligned place, of an aligned length that reaches the end of
      the data and not beyond (the bytes up to there being counted in 32 bits), for an aligned allocation other than 0.
      Of the others, an empty list asks for nothing, and a list of another type is an invalid parameter if its lengths are
      long enough and aligned as far as they are looked at before. */
  lemma WhenListIsTaken(indata: seq<byte>, listLen: u32, listOff: u64, allocLen: u32)
    ensures var c, rest := Check(indata, listLen, listOff, allocLen), (|indata| - listOff) % TWO32;
            && (c.Nothing? <==> listLen == 0)
            && (c.Filled? <==>
                  && listOff % 8 == 0 && listLen % 8 == 0 && allocLen % 8 == 0 && allocLen > 0 && listLen >= 8
                  && listOff + listLen <= |indata| && 8 <= rest <= listLen && indata[listOff] % 16 == 1)
            && (c.InvalidParamList? <==>
                  && listLen >= 8 && rest >= 8 && listOff % 8 == 0 && allocLen % 8 == 0 && listOff < |indata|
                  && indata[listOff] % 16 != 1)
            && (c.Overrun? <==>
                  && listLen >= 8 && rest >= 8 && listOff % 8 == 0 && allocLen % 8 == 0
                  && (listOff >= |indata|
                      || (indata[listOff] % 16 == 1 && listLen % 8 == 0 && listLen >= rest
                          && (listOff + listLen > |indata| || allocLen == 0))))
            && !c.Refused?
  {
  }

  /** With less than 2^32 bytes behind it, a list is answered only when it ends with the data. */
  lemma TakenListEndsData(indata: seq<byte>, listLen: u32, listOff: u64, allocLen: u32)
    requires listOff <= |indata| < listOff + TWO32
    ensures Check(indata, listLen, listOff, allocLen).Filled? <==>
              && listOff % 8 == 0 && listLen % 8 == 0 && allocLen % 8 == 0 && allocLen > 0 && listLen >= 8
              && listOff + listLen == |indata| && indata[listOff] % 16 == 1
  {
    SmallIsLow(|indata| - listOff);
  }

  function Header(multi: bool, n: nat): (b: seq<byte>)
    ensures |b| == LIST_HDR_LEN
  {
    [if multi then RTRVD_CREATE_MULTIOBJ_LIST else RTRVD_SET_ATTR_LIST] + Zeros(3) + Be(n, 4)
  }

  /** The answers to the request list that starts at listOff. */
  function Asked(indata: seq<byte>, listLen: u32, listOff: u64, oid: u64, numoid: u16, db: Lookup): (items: seq<Item>)
    requires LIST_HDR_LEN <= listLen && listOff + listLen <= |indata|
    ensures AllValid(items) && Uniform(items, if numoid > 1 then 8 else 0)
  {
    AllAnswers(Requests(indata[listOff + 8..listOff + listLen]), oid, Covered(oid, numoid), numoid > 1, db)
  }

  /** Whether these requests are answered. */
  function AskedReading(indata: seq<byte>, listLen: u32, listOff: u64, oid: u64, numoid: u16, kinds: Kinds): Reading
    requires LIST_HDR_LEN <= listLen && listOff + listLen <= |indata|
  {
    ListReading(Requests(indata[listOff + 8..listOff + listLen]), oid, Covered(oid, numoid), kinds)
  }

  /** get_attr_list: header, then the answers, request by request and object by object. A refusal leaves the header and
      the answers so far behind. */
  method GetAttrList(indata: seq<byte>, listLen: u32, listOff: u64, allocLen: u32, oid: u64, numoid: u16, db: Lookup,
                     kinds: Kinds, out: array<byte>, off: nat) returns (r: Outcome)
    requires Aligned(off) && off + allocLen <= out.Length
    modifies out
    ensures var c := Check(indata, listLen, listOff, allocLen);
            if !c.Filled? then r == c && out[..] == old(out[..])
            else
              var why := AskedReading(indata, listLen, listOff, oid, numoid, kinds);
              if !why.Readable? then r == Refused(why) && Wrote(old(out[..]), out[..], off, allocLen, [])
              else
                var body := Gathered(Asked(indata, listLen, listOff, oid, numoid, db), allocLen - 8);
                && r == Filled(8 + |body|)
                && Wrote(old(out[..]), out[..], off, allocLen, Header(numoid > 1, |body|) + body)
  {
    hide Wrote, Gathered, Uniform, AllValid, Aligned, Requests, AllAnswers, PerObject, Header, Splice, Covered,
         RequestReading, ListReading;
    r := Check(indata, listLen, listOff, allocLen);
    if !r.Filled? { return; }
    var multi, room := numoid > 1, allocLen - 8;
    ghost var b0, n := out[..], Covered(oid, numoid);
    Store(out, off, [if multi then RTRVD_CREATE_MULTIOBJ_LIST else RTRVD_SET_ATTR_LIST] + Zeros(3));
    ghost var b1 := out[..];
    WroteNothing(b1, off + 8, room);
    AlignedNext(off);
    RoomAligned(allocLen);
    RoomAligned(listLen);
    var p, end, used := listOff + 8, listOff + listLen, 0;
    ghost var rqs, k := Requests(indata[p..end]), 0;
    NothingAsked(rqs, oid, n, multi, db, kinds, room);
    RequestCount(indata[p..end]);
    while p < end
      invariant listOff + 8 <= p <= end && k <= |rqs| && p + 8 * (|rqs| - k) == end
      invariant Requests(indata[p..end]) == rqs[k..]
      invariant ValidAnswers(rqs[..k], oid, n, multi, db) && ListReading(rqs[..k], oid, n, kinds).Readable?
      invariant var g := Gathered(AllAnswers(rqs[..k], oid, n, multi, db), room);
                used == |g| && Wrote(b1, out[..], off + 8, room, g)
    {
      NextRequest(indata, p, end);
      var rq := Request(FromBe(indata[p..p + 4]), FromBe(indata[p + 4..p + 8]));
      AnswersNext(rqs, k, oid, n, multi, db);
      ReadingNext(rqs, k, oid, n, kinds);
      var why;
      why, used := AnswerRequest(out, off + 8, room, rq, oid, numoid, multi, db, kinds, used,
                                 AllAnswers(rqs[..k], oid, n, multi, db), b1);
      if !why.Readable? {
        RefusedRest(rqs, k + 1, oid, n, kinds);
        HeaderLeft(b0, b1, out[..], off, allocLen, multi);
        return Refused(why);
      }
      p, k := p + 8, k + 1;
    }
    assert rqs[..k] == rqs;
    ghost var b2 := out[..];
    Store(out, off + 4, Be(used, 4));
    r := Filled(8 + used);
    ghost var body := Gathered(AllAnswers(rqs, oid, n, multi, db), room);
    HeaderAround(b0, b1, b2, out[..], off, allocLen, multi, body);
  }

  lemma ReadingNext(rqs: seq<Request>, k: nat, oid: u64, n: nat, kinds: Kinds)
    requires k < |rqs| && oid + n < TWO64 && ListReading(rqs[..k], oid, n, kinds).Readable?
    ensures ListReading(rqs[..k + 1], oid, n, kinds) == RequestReading(rqs[k], oid, n, kinds)
  {
    hide RequestReading;
    assert rqs[..k + 1][..k] == rqs[..k];
  }

  lemma {:induction false} RefusedRest(rqs: seq<Request>, k: nat, oid: u64, n: nat, kinds: Kinds)
    requires k <= |rqs| && oid + n < TWO64 && !ListReading(rqs[..k], oid, n, kinds).Readable?
    ensures ListReading(rqs, oid, n, kinds) == ListReading(rqs[..k], oid, n, kinds)
    decreases |rqs|
  {
    hide RequestReading;
    if k == |rqs| {
      assert rqs[..k] == rqs;
    } else {
      var front := rqs[..|rqs| - 1];
      assert front[..k] == rqs[..k];
      RefusedRest(front, k, oid, n, kinds);
    }
  }

  lemma HeaderLeft(b0: seq<byte>, b1: seq<byte>, b2: seq<byte>, off: nat, allocLen: nat, multi: bool)
    requires allocLen >= 8 && off + allocLen <= |b0|
    requires b1 == Splice(b0, off, [if multi then RTRVD_CREATE_MULTIOBJ_LIST else RTRVD_SET_ATTR_LIST] + Zeros(3))
    requires Wrote(b1, b2, off + 8, allocLen - 8, [])
    ensures Wrote(b0, b2, off, allocLen, [])
  {
    assert b2[..off] == b2[..off + 8][..off] == b1[..off + 8][..off] == b1[..off] == b0[..off];
    assert b1[off + allocLen..] == b0[off + allocLen..];
  }

  /** The answers can be gathered: they are all of one format. */
  ghost predicate ValidAnswers(rqs: seq<Request>, oid: u64, n: nat, multi: bool, db: Lookup) {
    oid + n < TWO64 && AllValid(AllAnswers(rqs, oid, n, multi, db))
  }

  lemma RoomAligned(allocLen: u32)
    requires Aligned(allocLen) && allocLen >= 8
    ensures Aligned(allocLen - 8)
  {
  }

  lemma NothingAsked(rqs: seq<Request>, oid: u64, n: nat, multi: bool, db: Lookup, kinds: Kinds, room: nat)
    requires Aligned(room) && oid + n < TWO64
    ensures ListReading([], oid, n, kinds).Readable?
    ensures rqs[..0] == [] && rqs[0..] == rqs && ValidAnswers([], oid, n, multi, db)
    ensures Gathered(AllAnswers([], oid, n, multi, db), room) == []
  {
  }

  lemma AnswersNext(rqs: seq<Request>, k: nat, oid: u64, n: nat, multi: bool, db: Lookup)
    requires k < |rqs| && oid + n < TWO64
    ensures rqs[k..] == [rqs[k]] + rqs[k + 1..]
    ensures AllAnswers(rqs[..k + 1], oid, n, multi, db)
            == AllAnswers(rqs[..k], oid, n, multi, db) + PerObject(rqs[k], oid, n, multi, db)
  {
    assert rqs[..k + 1][..k] == rqs[..k];
  }

  /** Request i stands at 8 * i, the page in front of the number. */
  lemma {:induction false} RequestAt(b: seq<byte>, i: nat)
    requires 8 * i + 8 <= |b|
    ensures i < |Requests(b)|
    ensures Requests(b)[i] == Request(U32At(b, 8 * i), U32At(b, 8 * i + 4))
    decreases i
  {
    hide U32At, FromBe;
    FirstRequest(b);
    if i > 0 {
      RequestAt(b[8..], i - 1);
      FieldBehind(b, 8 * i - 8);
      FieldBehind(b, 8 * i - 4);
    }
  }

  lemma FirstRequest(b: seq<byte>)
    requires |b| >= 8
    ensures Requests(b) == [Request(U32At(b, 0), U32At(b, 4))] + Requests(b[8..])
  {
    hide FromBe;
    assert b[..4] == b[0..4];
  }

  lemma FieldBehind(b: seq<byte>, k: nat)
    requires 8 + k + 4 <= |b|
    ensures U32At(b[8..], k) == U32At(b, 8 + k)
  {
    hide FromBe;
    assert b[8..][k..k + 4] == b[8 + k..8 + k + 4];
  }

  lemma {:induction false} RequestCount(b: seq<byte>)
    requires Aligned(|b|)
    ensures 8 * |Requests(b)| == |b|
  {
    if b != [] { RequestCount(b[8..]); }
  }

  lemma NextRequest(b: seq<byte>, p: nat, end: nat)
    requires p + 8 <= end <= |b|
    ensures FromBe(b[p..p + 4]) < TWO32 && FromBe(b[p + 4..p + 8]) < TWO32
    ensures Requests(b[p..end]) == [Request(FromBe(b[p..p + 4]), FromBe(b[p + 4..p + 8]))] + Requests(b[p + 8..end])
  {
    FieldBound(b[p..p + 4]); FieldBound(b[p + 4..p + 8]); Widths();
    SubSlice(b, p, end, 0, 4);
    SubSlice(b, p, end, 4, 8);
    SubSlice(b, p, end, 8, end - p);
  }

  lemma HeaderAround(b0: seq<byte>, b1: seq<byte>, b2: seq<byte>, b3: seq<byte>, off: nat, allocLen: nat, multi: bool,
                     body: seq<byte>)
    requires allocLen >= 8 && off + allocLen <= |b0|
    requires b1 == Splice(b0, off, [if multi then RTRVD_CREATE_MULTIOBJ_LIST else RTRVD_SET_ATTR_LIST] + Zeros(3))
    requires Wrote(b1, b2, off + 8, allocLen - 8, body) && b3 == Splice(b2, off + 4, Be(|body|, 4))
    ensures Wrote(b0, b3, off, allocLen, Header(multi, |body|) + body)
  {
    hide Splice, Be, Header, Wrote;
    var tag := [if multi then RTRVD_CREATE_MULTIOBJ_LIST else RTRVD_SET_ATTR_LIST] + Zeros(3);
    TagAround(b0, b1, b2, off, allocLen, tag, body, Be(|body|, 4));
    HeaderIs(multi, |body|, tag);
  }

  lemma TagAround(b0: seq<byte>, b1: seq<byte>, b2: seq<byte>, off: nat, allocLen: nat, tag: seq<byte>, body: seq<byte>,
                  w: seq<byte>)
    requires |tag| == 4 == |w| && allocLen >= 8 && off + allocLen <= |b0| && b1 == Splice(b0, off, tag)
    requires Wrote(b1, b2, off + 8, allocLen - 8, body)
    ensures Wrote(b0, Splice(b2, off + 4, w), off, allocLen, tag + w + body)
  {
    hide Splice;
    HeaderBytes(b0, b1, b2, off, tag, body, w);
    HeaderFrame(b0, b1, b2, off, off + allocLen, tag, body, w);
  }

  lemma HeaderIs(multi: bool, n: nat, tag: seq<byte>)
    requires tag == [if multi then RTRVD_CREATE_MULTIOBJ_LIST else RTRVD_SET_ATTR_LIST] + Zeros(3)
    ensures Header(multi, n) == tag + Be(n, 4)
  {
  }

  lemma HeaderBytes(b0: seq<byte>, b1: seq<byte>, b2: seq<byte>, off: nat, tag: seq<byte>, body: seq<byte>, w: seq<byte>)
    requires |tag| == 4 == |w| && off + 8 + |body| <= |b0| && b1 == Splice(b0, off, tag)
    requires |b2| == |b1| && b2[..off + 8] == b1[..off + 8] && b2[off + 8..off + 8 + |body|] == body
    ensures Splice(b2, off + 4, w)[off..off + 8 + |body|] == tag + w + body
  {
    hide Splice;
    SpliceWindow(b2, off, off + 4, w, off + 8 + |body|);
    SpliceWindow(b0, off, off, tag, off + 4);
    SubSlice(b2, 0, off + 8, off, off + 4);
    SubSlice(b1, 0, off + 8, off, off + 4);
    assert b2[0..off + 8] == b2[..off + 8] && b1[0..off + 8] == b1[..off + 8];
  }

  lemma HeaderFrame(b0: seq<byte>, b1: seq<byte>, b2: seq<byte>, off: nat, end: nat, tag: seq<byte>, body: seq<byte>,
                    w: seq<byte>)
    requires |tag| == 4 == |w| && off + 8 <= end <= |b0| && b1 == Splice(b0, off, tag)
    requires |b2| == |b1| && b2[..off + 8] == b1[..off + 8] && b2[end..] == b1[end..]
    ensures Splice(b2, off + 4, w)[..off] == b0[..off] && Splice(b2, off + 4, w)[end..] == b0[end..]
  {
    hide Splice;
    SpliceWindow(b2, off, off + 4, w, end);
    SpliceWindow(b0, off, off, tag, end);
    SubSlice(b2, 0, off + 8, 0, off);
    SubSlice(b1, 0, off + 8, 0, off);
    assert b2[..off] == b2[..off + 8][..off] && b1[..off] == b1[..off + 8][..off];
  }

  // ---------- what the client receives ----------

  /** Truncation is a byte prefix: the body is an 8-aligned prefix of the untruncated answers, all of them when they fit,
      and header and body stay within the allocation. */
  lemma RetrievedIsPrefix(indata: seq<byte>, listLen: u32, listOff: u64, allocLen: u32, oid: u64, numoid: u16, db: Lookup)
    requires LIST_HDR_LEN <= listLen && listOff + listLen <= |indata|
    requires Aligned(allocLen) && LIST_HDR_LEN <= allocLen
    ensures var items := Asked(indata, listLen, listOff, oid, numoid, db);
            var body := Gathered(items, allocLen - 8);
            && body <= Serialised(items) && Aligned(|body|)
            && (body == Serialised(items) <==> 8 + |Serialised(items)| <= allocLen)
            && |Header(numoid > 1, |body|) + body| <= allocLen
            && FromBe(Header(numoid > 1, |body|)[4..]) == |body|
  {
    hide Gathered, Asked, Serialised, Header, Check;
    RoomAligned(allocLen);
    var items := Asked(indata, listLen, listOff, oid, numoid, db);
    GatheredIsPrefix(items, allocLen - 8);
    HeaderLength(numoid > 1, |Gathered(items, allocLen - 8)|);
  }

  /** When the end of the range of objects wraps past 2^64, nothing is looked up and the list is answered with no
      attribute at all, whatever it asks for. */
  lemma WrappedRangeIsNotRead(indata: seq<byte>, listLen: u32, listOff: u64, oid: u64, numoid: u16, db: Lookup, kinds: Kinds)
    requires LIST_HDR_LEN <= listLen && listOff + listLen <= |indata| && oid + numoid >= TWO64
    ensures AskedReading(indata, listLen, listOff, oid, numoid, kinds).Readable?
    ensures Asked(indata, listLen, listOff, oid, numoid, db) == []
  {
    hide Requests;
    NobodyAnswers(Requests(indata[listOff + 8..listOff + listLen]), oid, numoid > 1, db, kinds);
  }

  lemma {:induction false} NobodyAnswers(rqs: seq<Request>, oid: u64, multi: bool, db: Lookup, kinds: Kinds)
    ensures AllAnswers(rqs, oid, 0, multi, db) == [] && ListReading(rqs, oid, 0, kinds).Readable?
  {
    if rqs != [] { NobodyAnswers(rqs[..|rqs| - 1], oid, multi, db, kinds); }
  }

  /** The list type of a reply, three reserved bytes, and the length of the body. */
  lemma HeaderLayout(multi: bool, n: u32)
    ensures var h := Header(multi, n);
            && |h| == 8 && h[0] == (if multi then 0x0F else 0x09) && h[1..4] == [0, 0, 0] && U32At(h, 4) == n
  {
    HeaderLength(multi, n);
    assert Header(multi, n)[4..] == Header(multi, n)[4..8];
  }

  lemma HeaderLength(multi: bool, n: nat)
    requires n < TWO32
    ensures FromBe(Header(multi, n)[4..]) == n
  {
    Widths();
    FieldRoundTrip(n, 4);
    assert Header(multi, n)[4..] == Be(n, 4);
  }

  /** With an allocation of 0 the subtraction of the header wraps, and the header alone exceeds it: of the aligned
      allocations it is the only one that is not respected. */
  lemma WhenWithinAllocation(items: seq<Item>, allocLen: u32)
    requires AllValid(items) && Aligned(allocLen)
    ensures Aligned(Sub32(allocLen, 8))
    ensures 8 + |Gathered(items, Sub32(allocLen, 8))| <= allocLen <==> allocLen != 0
  {
    SubAligned(allocLen);
  }

  lemma SubAligned(allocLen: u32)
    requires Aligned(allocLen)
    ensures Aligned(Sub32(allocLen, 8)) && (allocLen != 0 ==> Sub32(allocLen, 8) == allocLen - 8)
  {
  }

  function WholeOf(items: seq<Item>): (es: seq<Entry>)
    ensures |es| == |items| && AllWhole(es)
  {
    seq(|items|, i requires 0 <= i < |items| => WholeEntry(items[i].page, items[i].number, items[i].value))
  }

  /** In the single-object format the untruncated answers read back as exactly the attributes found. */
  lemma {:induction false} SerialisedReadsBack(items: seq<Item>)
    requires Uniform(items, 0)
    ensures Serialised(items) == ListImage(WholeOf(items)) && Walk(Serialised(items)) == (WholeOf(items), [])
  {
    SerialisedIsList(items);
    WalkOfImage(WholeOf(items), []);
    assert ListImage(WholeOf(items)) + [] == ListImage(WholeOf(items));
    assert WholeOf(items) + [] == WholeOf(items);
  }

  lemma {:induction false} SerialisedIsList(items: seq<Item>)
    requires Uniform(items, 0)
    ensures Serialised(items) == ListImage(WholeOf(items))
  {
    hide Entry.Image;
    if items != [] {
      SerialisedIsList(items[1..]);
      assert WholeOf(items) == [WholeOf(items)[0]] + WholeOf(items[1..]);
      assert items[0].lead == [];
      assert [] + WholeOf(items)[0].Image() == WholeOf(items)[0].Image();
    }
  }

  // ---------- reading the multi-object format ----------

  /** The complete entries of a multi-object list with the ids in front of them, and the bytes left over. */
  function WalkMulti(b: seq<byte>): (r: (seq<(u64, Entry)>, seq<byte>)) {
    if |b| < 8 + LE_VAL_OFF then ([], b)
    else
      var step := 8 + RoundUp8(LE_VAL_OFF + HeadEntry(b[8..]).len);
      if step > |b| then ([], b)
      else
        var (es, rest) := WalkMulti(b[step..]);
        ([(IdAt(b), HeadEntry(b[8..]))] + es, rest)
  }

  function IdAt(b: seq<byte>): u64
    requires |b| >= 8
  {
    FieldBound(b[..8]); Widths();
    FromBe(b[..8])
  }

  /** The attributes of the items, each with the id that its item carries. */
  function OwnedOf(items: seq<Item>): (es: seq<(u64, Entry)>)
    requires Uniform(items, 8)
    ensures |es| == |items|
  {
    seq(|items|, i requires 0 <= i < |items| =>
          (IdAt(items[i].lead), WholeEntry(items[i].page, items[i].number, items[i].value)))
  }

  lemma LeadIsId(oid: u64)
    ensures IdAt(Lead(true, oid)) == oid
  {
    Widths();
    FieldRoundTrip(oid, 8);
    assert Be(oid, 8)[..8] == Be(oid, 8);
  }

  lemma WalkMultiCons(t: Item, b: seq<byte>)
    requires |t.lead| == 8
    ensures WalkMulti(t.Whole() + b)
            == ([(IdAt(t.lead), WholeEntry(t.page, t.number, t.value))] + WalkMulti(b).0, WalkMulti(b).1)
  {
    hide Entry.Image, HeadEntry, FromBe, RoundUp8;
    var e := WholeEntry(t.page, t.number, t.value);
    var c := t.Whole() + b;
    HeadOfImage(e, b);
    Assoc(t.lead, e.Image(), b);
    assert c[..8] == t.lead == t.lead[..8] && c[8..] == e.Image() + b;
    assert c[8..][e.Size()..] == c[8 + e.Size()..] == b;
  }

  /** In the multi-object format the untruncated answers read back as exactly the attributes found, each under the id of
      the object that has it. */
  lemma {:induction false} MultiobjReadsBack(items: seq<Item>)
    requires Uniform(items, 8)
    ensures WalkMulti(Serialised(items)) == (OwnedOf(items), [])
    ensures forall i, oid: u64 :: 0 <= i < |items| && items[i].lead == Lead(true, oid) ==> OwnedOf(items)[i].0 == oid
  {
    hide Item.Whole, WalkMulti, IdAt, Lead;
    if items == [] {
      NothingMulti();
    } else {
      MultiobjReadsBack(items[1..]);
      WalkMultiCons(items[0], Serialised(items[1..]));
      assert OwnedOf(items) == [OwnedOf(items)[0]] + OwnedOf(items[1..]);
    }
    forall i, oid: u64 | 0 <= i < |items| && items[i].lead == Lead(true, oid) ensures OwnedOf(items)[i].0 == oid {
      LeadIsId(oid);
    }
  }

  lemma NothingMulti()
    ensures WalkMulti([]) == ([], [])
  {
  }

  // ---------- the end of the command ----------

  const NO_OFFSET: u64 := TWO64 - 1

  /** calc_max_out_len for a command whose own data may take dataLen bytes. */
  function MaxOutLen(dataLen: u64, attrOff: u64, allocLen: u32): u64 {
    var end := if attrOff != NO_OFFSET then (attrOff + allocLen) % TWO64 else 0;
    if end > dataLen then end else dataLen
  }

  /** Lines 2195 to 2201 of osdemu_cmd_submit: the gap between data and attributes is zeroed. */
  method FinishReply(out: array<byte>, usedData: u64, attrOff: u64, getUsed: u32) returns (used: nat)
    requires getUsed > 0 && attrOff != NO_OFFSET ==> attrOff <= out.Length
    modifies out
    ensures if getUsed > 0 && attrOff != NO_OFFSET then
              && used == attrOff + getUsed
              && (forall i :: 0 <= i < out.Length ==> out[i] == if usedData <= i < attrOff then 0 else old(out[i]))
            else used == usedData && out[..] == old(out[..])
  {
    used := usedData;
    if getUsed > 0 && attrOff != NO_OFFSET {
      if usedData < attrOff { Store(out, usedData, Zeros(attrOff - usedData)); }
      assert forall i :: 0 <= i < out.Length ==> out[i] == out[..][i];
      used := attrOff + getUsed;
    }
  }

  /** The reply buffer is as long as it has to be and no longer: it ends with the data or with the attributes. */
  lemma MaxOutLenIsExact(dataLen: u64, attrOff: u64, allocLen: u32)
    requires attrOff != TWO64 - 1 ==> attrOff + allocLen < TWO64
    ensures MaxOutLen(dataLen, attrOff, allocLen) == if attrOff == TWO64 - 1 then dataLen else Max(dataLen, attrOff + allocLen)
  {
  }

  /** The assert(used_outlen <= outlen) of line 2205. */
  lemma ReplyFits(dataLen: u64, usedData: u64, attrOff: u64, allocLen: u32, getUsed: u32)
    requires usedData <= dataLen && getUsed <= allocLen && (attrOff != NO_OFFSET ==> attrOff + allocLen < TWO64)
    ensures (if getUsed > 0 && attrOff != NO_OFFSET then attrOff + getUsed else usedData) <= MaxOutLen(dataLen, attrOff, allocLen)
  {
  }
}
