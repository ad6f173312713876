/** LIST with attributes: the reply builder of mtq.c, which opens an object descriptor, packs entries behind it
    and fills the descriptor's list length in later. */
module ListWithAttrs {
  import opened Bytes
  import opened ListEntry

  const USER_TMSTMP_PG := 0x3
  const HEADER := 16

  /** A row of the compiled SELECT. */
  datatype Row = Row(oid: u64, page: u32, number: u32, value: Value) {
    /** The timestamp page's own row, which announces a new object. */
    predicate Opens() { page == USER_TMSTMP_PG && number == 0 }

    function Whole(): (e: Entry) { WholeEntry(page, number, value) }
  }

  /** An object descriptor: object id, four reserved bytes, the byte count of the entries, the entries. */
  datatype Desc = Desc(oid: u64, entries: seq<Entry>) {
    function Lead(): (b: seq<byte>)
      ensures |b| == 12
    {
      Be(oid, 8) + Zeros(4)
    }

    function Image(): (b: seq<byte>)
      ensures |b| == HEADER + |ListImage(entries)|
    {
      Lead() + Be(|ListImage(entries)|, 4) + ListImage(entries)
    }
  }

  /** The bytes of a descriptor: the object id, four zeros, the length of the entries, the entries. */
  lemma DescLayout(d: Desc)
    requires |ListImage(d.entries)| < TWO32
    ensures var b := d.Image();
            && FromBe(b[..8]) == d.oid && b[8..12] == [0, 0, 0, 0] && U32At(b, 12) == |ListImage(d.entries)|
            && b[16..] == ListImage(d.entries)
  {
    hide Be, FromBe, ListImage;
    var es := ListImage(d.entries);
    var b, id, n := d.Image(), Be(d.oid, 8), Be(|es|, 4);
    Widths();
    FieldRoundTrip(d.oid, 8);
    FieldRoundTrip(|es|, 4);
    assert b[..8] == id && b[8..12] == Zeros(4) && b[12..16] == n && b[16..] == es;
  }

  function DescsImage(ds: seq<Desc>): seq<byte> {
    if ds == [] then [] else DescsImage(ds[..|ds| - 1]) + ds[|ds| - 1].Image()
  }

  datatype Status = Going | SumOverflow | Failed(code: int)

  /** What has been written. orphans are entries packed before any descriptor was opened; open tells whether a
      list length is still to be filled in (head != tail). */
  datatype Shape = Shape(orphans: seq<Entry>, descs: seq<Desc>, open: bool) {
    predicate Empty() { orphans == [] && descs == [] }

    function OpenList(): seq<Entry> { if descs == [] then orphans else descs[|descs| - 1].entries }

    /** The reply up to, and from behind, the list length of the last descriptor. */
    function Front(): seq<byte> {
      if descs == [] then []
      else OrphanImage(orphans) + DescsImage(descs[..|descs| - 1]) + descs[|descs| - 1].Lead()
    }

    function Back(): seq<byte> {
      if descs == [] then (if orphans == [] then [] else ListImage(orphans)[4..])
      else ListImage(descs[|descs| - 1].entries)
    }

    function Reply(): seq<byte> { OrphanImage(orphans) + DescsImage(descs) }

    function Opened(oid: u64): Shape { Shape(orphans, descs + [Desc(oid, [])], true) }

    function Extended(e: Entry): Shape {
      if descs == [] then Shape(orphans + [e], descs, true)
      else
        var d := descs[|descs| - 1];
        Shape(orphans, descs[..|descs| - 1] + [d.(entries := d.entries + [e])], true)
    }

    function Closed(): Shape { this.(open := false) }
  }

  datatype State = State(reply: Shape, left: u64, cont: u64, added: u64, status: Status) {
    /** The list is left for good: later rows no longer fit. */
    function Ended(oid: u64): State { this.(reply := reply.Closed(), cont := if cont == 0 then oid else cont) }

    /** add_len grows by n, or sticks at its largest value and ends the listing. */
    function Counted(n: nat): State {
      if added + n < TWO64 then this.(added := added + n)
      else this.(added := TWO64 - 1, status := SumOverflow)
    }
  }

  /** The first list length lands on the page field of the first orphan. */
  function OrphanImage(es: seq<Entry>): (b: seq<byte>)
    ensures |b| == |ListImage(es)|
  {
    if es == [] then []
    else
      var b := ListImage(es);
      assert |b| == es[0].Size() + |ListImage(es[1..])|;
      Be(|b|, 4) + b[4..]
  }

  function Start(allocLen: u64): State { State(Shape([], [], false), allocLen, 0, 0, Going) }

  /** A row, before add_len is advanced. The length handed to le_pack_attr is the low 32 bits of what is left. */
  function Placed(s: State, row: Row): (t: State)
    ensures t.added == s.added && (!t.status.Failed? ==> t.status == s.status)
  {
    if row.Opens() then
      if s.left >= HEADER then s.(reply := s.reply.Opened(row.oid), left := s.left - HEADER) else s.Ended(row.oid)
    else if s.left < HEADER then
      if s.reply.open then s.Ended(row.oid) else s
    else
      var buflen := Low32(s.left);
      if PackError(0, buflen) != 0 then s.(status := Failed(PackError(0, buflen)))
      else
        var e := Packed(row.page, row.number, |row.value|, Some(row.value), buflen);
        var t := s.(reply := s.reply.Extended(e), left := s.left - e.Size());
        if t.left < HEADER then t.Ended(row.oid) else t
  }

  /** The contribution of a row to add_len. */
  function Weight(row: Row): nat { if row.Opens() then 16 else RoundUp8(10 + |row.value|) }

  function Step(s: State, row: Row): State {
    var t := Placed(s, row);
    if t.status == Going then t.Counted(Weight(row)) else t
  }

  function Run(s: State, rows: seq<Row>): State
    decreases rows
  {
    if rows == [] || s.status != Going then s else Run(Step(s, rows[0]), rows[1..])
  }

  // ---------- the buffer ----------

  /** b, which was b0, holds exactly the bytes full in [lo..hi). */
  ghost predicate Holds(b0: seq<byte>, b: seq<byte>, lo: nat, hi: nat, full: seq<byte>) {
    lo <= hi <= |b| == |b0| && b[..lo] == b0[..lo] && b[hi..] == b0[hi..] && b[lo..hi] == full
  }

  /** As Holds, but for four bytes still to be written at gap. */
  ghost predicate HoldsGap(b0: seq<byte>, b: seq<byte>, lo: nat, gap: nat, hi: nat, front: seq<byte>, back: seq<byte>) {
    && lo <= gap && gap + 4 <= hi <= |b| == |b0| && b[..lo] == b0[..lo] && b[hi..] == b0[hi..]
    && b[lo..gap] == front && b[gap + 4..hi] == back
  }

  lemma GapLength(b0: seq<byte>, b: seq<byte>, lo: nat, gap: nat, hi: nat, front: seq<byte>, back: seq<byte>)
    requires HoldsGap(b0, b, lo, gap, hi, front, back)
    ensures hi == gap + 4 + |back|
  {
    assert |b[gap + 4..hi]| == hi - gap - 4;
  }

  lemma FillGap(b0: seq<byte>, b: seq<byte>, lo: nat, gap: nat, hi: nat, front: seq<byte>, back: seq<byte>, w: seq<byte>)
    requires HoldsGap(b0, b, lo, gap, hi, front, back) && |w| == 4
    ensures Holds(b0, Splice(b, gap, w), lo, hi, front + w + back)
  {
    SpliceWindow(b, lo, gap, w, hi);
  }

  lemma GrowGap(b0: seq<byte>, b: seq<byte>, lo: nat, gap: nat, hi: nat, front: seq<byte>, back: seq<byte>, w: seq<byte>)
    requires HoldsGap(b0, b, lo, gap, hi, front, back) && hi + |w| <= |b|
    ensures HoldsGap(b0, Splice(b, hi, w), lo, gap, hi + |w|, front, back + w)
  {
    var c := Splice(b, hi, w);
    assert c[lo..gap] == b[lo..gap] && c[..lo] == b[..lo];
    SpliceWindow(b, gap + 4, hi, w, hi + |w|);
    assert b[hi + |w|..] == b[hi..][|w|..] == b0[hi + |w|..];
  }

  lemma OpenGap(b0: seq<byte>, b: seq<byte>, lo: nat, hi: nat, full: seq<byte>, w: seq<byte>)
    requires Holds(b0, b, lo, hi, full) && hi + |w| + 4 <= |b|
    ensures HoldsGap(b0, Splice(b, hi, w), lo, hi + |w|, hi + |w| + 4, full + w, [])
  {
    SpliceWindow(b, lo, hi, w, hi + |w|);
    var c := Splice(b, hi, w);
    assert c[hi + |w| + 4..] == b[hi..][|w| + 4..] == b0[hi + |w| + 4..];
  }

  /** The buffer shows s: complete, or complete but for the list length awaited at head. */
  ghost predicate Drawn(b0: seq<byte>, b: seq<byte>, base: nat, s: Shape, head: nat, tail: nat) {
    && tail == base + |s.Reply()|
    && (if s.open then !s.Empty() && HoldsGap(b0, b, base, head, tail, s.Front(), s.Back())
        else head == tail && Holds(b0, b, base, tail, s.Reply()))
  }

  lemma ReplyParts(s: Shape)
    requires !s.Empty()
    ensures s.Reply() == s.Front() + Be(|ListImage(s.OpenList())|, 4) + s.Back()
  {
    if s.descs != [] {
      var d := s.descs[|s.descs| - 1];
      var pre := OrphanImage(s.orphans) + DescsImage(s.descs[..|s.descs| - 1]);
      assert s.Reply() == pre + (d.Lead() + Be(|ListImage(d.entries)|, 4) + ListImage(d.entries));
    } else {
      assert DescsImage(s.descs) == [];
    }
  }

  lemma ExtendedParts(s: Shape, e: Entry)
    requires !s.Empty()
    ensures s.Extended(e).Front() == s.Front() && s.Extended(e).Back() == s.Back() + e.Image()
    ensures |s.Extended(e).Reply()| == |s.Reply()| + e.Size()
    ensures s.Extended(e).OpenList() == s.OpenList() + [e]
  {
    var t := s.Extended(e);
    ListImageAppend(s.OpenList(), [e]);
    ListImageOne(e);
    if s.descs == [] {
      assert |ListImage(s.orphans)| == |OrphanImage(s.orphans)| >= s.orphans[0].Size();
      assert (ListImage(s.orphans) + e.Image())[4..] == ListImage(s.orphans)[4..] + e.Image();
    } else {
      assert t.descs[..|t.descs| - 1] == s.descs[..|s.descs| - 1];
    }
    ReplyParts(s);
    ReplyParts(t);
  }

  lemma OpenedParts(s: Shape, oid: u64)
    ensures s.Opened(oid).Front() == s.Reply() + Desc(oid, []).Lead() && s.Opened(oid).Back() == []
    ensures |s.Opened(oid).Reply()| == |s.Reply()| + HEADER
  {
    var t := s.Opened(oid);
    assert t.descs[..|t.descs| - 1] == s.descs;
    ReplyParts(t);
  }

  lemma FillLength(b0: seq<byte>, b: seq<byte>, base: nat, s: Shape, head: nat, tail: nat)
    requires Drawn(b0, b, base, s, head, tail) && s.open
    ensures Drawn(b0, Splice(b, head, Be(|ListImage(s.OpenList())|, 4)), base, s.Closed(), tail, tail)
  {
    ReplyParts(s);
    FillGap(b0, b, base, head, tail, s.Front(), s.Back(), Be(|ListImage(s.OpenList())|, 4));
  }

  lemma WriteLead(b0: seq<byte>, b: seq<byte>, base: nat, s: Shape, tail: nat, oid: u64)
    requires Drawn(b0, b, base, s, tail, tail) && !s.open && tail + HEADER <= |b|
    ensures Drawn(b0, Splice(b, tail, Desc(oid, []).Lead()), base, s.Opened(oid), tail + 12, tail + HEADER)
  {
    OpenedParts(s, oid);
    OpenGap(b0, b, base, tail, s.Reply(), Desc(oid, []).Lead());
  }

  lemma WriteEntry(b0: seq<byte>, b: seq<byte>, base: nat, s: Shape, head: nat, tail: nat, e: Entry)
    requires Drawn(b0, b, base, s, head, tail) && tail + e.Size() <= |b|
    requires s.open || s.Empty()
    ensures Drawn(b0, Splice(b, tail, e.Image()), base, s.Extended(e), head, tail + e.Size())
  {
    if s.open {
      ExtendedParts(s, e);
      GrowGap(b0, b, base, head, tail, s.Front(), s.Back(), e.Image());
    } else {
      WriteOrphan(b0, b, base, s, tail, e);
    }
  }

  lemma WriteOrphan(b0: seq<byte>, b: seq<byte>, base: nat, s: Shape, tail: nat, e: Entry)
    requires Drawn(b0, b, base, s, tail, tail) && !s.open && s.Empty() && tail + e.Size() <= |b|
    ensures Drawn(b0, Splice(b, tail, e.Image()), base, s.Extended(e), tail, tail + e.Size())
  {
    ListImageOne(e);
    assert s.Extended(e).orphans == [e] && s.Reply() == [];
    SpliceWindow(b, tail, tail, e.Image(), tail + e.Size());
    assert b[tail + e.Size()..] == b[tail..][e.Size()..] == b0[tail + e.Size()..];
  }

  // ---------- the builder ----------

  /** The loop's own variables: alloc_len, head, tail, attr_list_len and *cont_id. */
  datatype Cursor = Cursor(left: u64, head: nat, tail: nat, listLen: u32, cont: u64) {
    function Noted(oid: u64): Cursor { this.(head := tail, listLen := 0, cont := if cont == 0 then oid else cont) }
  }

  /** The buffer b, which was b0, and the cursor c show the state s of a reply laid out in [base..end). */
  ghost predicate Shows(b0: seq<byte>, b: seq<byte>, base: nat, end: nat, s: State, c: Cursor) {
    && Drawn(b0, b, base, s.reply, c.head, c.tail)
    && (s.reply.open <==> c.head != c.tail)
    && c.listLen == (if s.reply.open then Low32(|ListImage(s.reply.OpenList())|) else 0)
    && (!s.reply.open && !s.reply.Empty() ==> s.left < HEADER)
    && c.left == s.left && c.cont == s.cont && Aligned(c.tail) && c.tail + c.left == end <= |b|
  }

  /** Lines 329 to 334, 340 to 345, 373 to 375, 383 to 387 and 408: the list length of the descriptor being left. */
  method FillPrevious(out: array<byte>, c: Cursor, ghost b0: seq<byte>, ghost base: nat, ghost s: Shape)
    requires Drawn(b0, out[..], base, s, c.head, c.tail) && (s.open <==> c.head != c.tail)
    requires s.open ==> c.listLen == Low32(|ListImage(s.OpenList())|)
    modifies out
    ensures Drawn(b0, out[..], base, s.Closed(), c.tail, c.tail)
  {
    if c.head != c.tail {
      FillLength(b0, out[..], base, s, c.head, c.tail);
      LowBits(|ListImage(s.OpenList())|, 4); Widths();
      Store(out, c.head, Be(c.listLen, 4));
    }
  }

  lemma DrawnBounds(b0: seq<byte>, b: seq<byte>, base: nat, s: Shape, head: nat, tail: nat)
    requires Drawn(b0, b, base, s, head, tail)
    ensures base <= head <= tail <= |b| && (s.open ==> head + 4 <= tail)
  {
  }

  /** Lines 327 to 337: the lead of a new descriptor, then the list length of the one before. */
  method OpenDescriptor(out: array<byte>, c: Cursor, oid: u64, ghost b0: seq<byte>, ghost base: nat, ghost s: Shape)
    requires Drawn(b0, out[..], base, s, c.head, c.tail) && (s.open <==> c.head != c.tail)
    requires s.open ==> c.listLen == Low32(|ListImage(s.OpenList())|)
    requires c.tail + HEADER <= out.Length
    modifies out
    ensures Drawn(b0, out[..], base, s.Opened(oid), c.tail + 12, c.tail + HEADER)
  {
    hide Drawn, Be, Splice, ListImage, DescsImage, OrphanImage, Shape.Reply, Shape.Front, Shape.Back, Shape.OpenList;
    DrawnBounds(b0, out[..], base, s, c.head, c.tail);
    ghost var b, w, lead := out[..], Be(|ListImage(s.OpenList())|, 4), Desc(oid, []).Lead();
    Store(out, c.tail, Desc(oid, []).Lead());
    if c.head != c.tail {
      FillLength(b0, b, base, s, c.head, c.tail);
      LowBits(|ListImage(s.OpenList())|, 4); Widths();
      SpliceSwap(b, c.head, w, c.tail, lead);
      Store(out, c.head, Be(c.listLen, 4));
      WriteLead(b0, Splice(b, c.head, w), base, s.Closed(), c.tail, oid);
    } else {
      WriteLead(b0, b, base, s, c.tail, oid);
    }
  }

  /** Lines 363 to 371: one attribute appended at tail. */
  method PackRow(out: array<byte>, c: Cursor, row: Row,
                 ghost b0: seq<byte>, ghost base: nat, ghost s: Shape) returns (ret: int)
    requires Drawn(b0, out[..], base, s, c.head, c.tail) && (s.open || s.Empty())
    requires HEADER <= c.left && Aligned(c.tail) && c.tail + c.left <= out.Length
    modifies out
    ensures PackError(0, Low32(c.left)) != 0 ==> ret == PackError(0, Low32(c.left))
    ensures PackError(0, Low32(c.left)) == 0 ==>
              var e := Packed(row.page, row.number, |row.value|, Some(row.value), Low32(c.left));
              0 < ret == e.Size() <= c.left && Aligned(ret) && Drawn(b0, out[..], base, s.Extended(e), c.head, c.tail + ret)
  {
    hide Drawn;
    var buflen := Low32(c.left);
    ret := LePackAttr(out, c.tail, buflen, row.page, row.number, |row.value|,
                      if row.value == [] then None else Some(row.value));
    if PackError(0, buflen) == 0 {
      WriteEntry(b0, old(out[..]), base, s, c.head, c.tail,
                 Packed(row.page, row.number, |row.value|, Some(row.value), buflen));
    }
  }

  lemma ListLengths(s: Shape, oid: u64, e: Entry)
    ensures s.Empty() ==> |ListImage(s.OpenList())| == 0
    ensures |ListImage(s.Opened(oid).OpenList())| == 0
    ensures |ListImage(s.Extended(e).OpenList())| == |ListImage(s.OpenList())| + e.Size()
    ensures !s.Extended(e).Empty() && s.Extended(e).open
  {
    ListImageAppend(s.OpenList(), [e]);
    ListImageOne(e);
    assert s.Extended(e).OpenList() == s.OpenList() + [e];
  }

  /** The state after one more entry, before a full list is closed. */
  ghost function Appended(s: State, row: Row): State
    requires HEADER <= s.left && PackError(0, Low32(s.left)) == 0
  {
    var e := Packed(row.page, row.number, |row.value|, Some(row.value), Low32(s.left));
    s.(reply := s.reply.Extended(e), left := s.left - e.Size())
  }

  /** Lines 363 to 371: an attribute while there is room to start an entry. */
  method AppendAttr(out: array<byte>, c: Cursor, row: Row,
                    ghost b0: seq<byte>, ghost base: nat, ghost end: nat, ghost s: State) returns (ret: int, d: Cursor)
    requires Shows(b0, out[..], base, end, s, c) && HEADER <= s.left
    modifies out
    ensures PackError(0, Low32(s.left)) != 0 ==> ret == PackError(0, Low32(s.left))
    ensures PackError(0, Low32(s.left)) == 0 ==> ret > 0 && Shows(b0, out[..], base, end, Appended(s, row), d)
  {
    hide Drawn, ListImage, Shape.Extended, Shape.OpenList, Shape.Empty, Packed, Entry.Size, RoundUp8, Low32, Aligned;
    DrawnBounds(b0, out[..], base, s.reply, c.head, c.tail);
    d := c;
    ret := PackRow(out, c, row, b0, base, s.reply);
    if ret <= 0 { return; }
    ghost var e := Packed(row.page, row.number, |row.value|, Some(row.value), Low32(c.left));
    ListLengths(s.reply, row.oid, e);
    DrawnBounds(b0, out[..], base, s.reply.Extended(e), c.head, c.tail + ret);
    d := c.(left := c.left - ret, tail := c.tail + ret, listLen := Low32(c.listLen + ret));
    Low32Add(|ListImage(s.reply.OpenList())|, ret);
    AlignedAdd(c.tail, ret);
  }

  /** Lines 340 to 347, 373 to 377, 383 to 389: the open list is finished, and the object noted for a later LIST. */
  method EndList(out: array<byte>, c: Cursor, oid: u64,
                 ghost b0: seq<byte>, ghost base: nat, ghost end: nat, ghost s: State) returns (d: Cursor)
    requires Shows(b0, out[..], base, end, s, c) && s.left < HEADER
    modifies out
    ensures Shows(b0, out[..], base, end, s.Ended(oid), d)
  {
    hide Drawn, ListImage;
    FillPrevious(out, c, b0, base, s.reply);
    d := c.Noted(oid);
  }

  /** Lines 323 to 391: one row, before *add_len is advanced. */
  method PlaceRow(out: array<byte>, c: Cursor, row: Row,
                  ghost b0: seq<byte>, ghost base: nat, ghost end: nat, ghost s: State) returns (ret: int, d: Cursor)
    requires Shows(b0, out[..], base, end, s, c) && s.status == Going
    modifies out
    ensures ret == (if Placed(s, row).status.Failed? then Placed(s, row).status.code else 0)
    ensures ret == 0 ==> Placed(s, row).status == Going && Shows(b0, out[..], base, end, Placed(s, row), d)
  {
    hide Drawn, ListImage;
    ret, d := 0, c;
    if row.Opens() {
      if c.left >= HEADER {
        DrawnBounds(b0, out[..], base, s.reply, c.head, c.tail);
        OpenDescriptor(out, c, row.oid, b0, base, s.reply);
        ListLengths(s.reply, row.oid, row.Whole());
        d := Cursor(c.left - HEADER, c.tail + 12, c.tail + HEADER, 0, c.cont);
      } else {
        d := EndList(out, c, row.oid, b0, base, end, s);
      }
    } else if c.left >= HEADER {
      ret, d := AppendAttr(out, c, row, b0, base, end, s);
      if ret <= 0 { return; }
      ret := 0;
      if d.left < HEADER { d := EndList(out, d, row.oid, b0, base, end, Appended(s, row)); }
    } else if c.head != c.tail {
      d := EndList(out, c, row.oid, b0, base, end, s);
    }
  }

  lemma BackLength(s: Shape)
    requires !s.Empty()
    ensures |s.Back()| == |ListImage(s.OpenList())| - (if s.descs == [] then 4 else 0)
  {
    if s.descs == [] { assert |ListImage(s.orphans)| == |OrphanImage(s.orphans)| >= 4; }
  }

  /** The closing assert(head == tail) of line 411 holds exactly when some descriptor was opened. */
  lemma ClosingCheck(b0: seq<byte>, b: seq<byte>, base: nat, end: nat, s: State, c: Cursor)
    requires Shows(b0, b, base, end, s, c) && s.reply.open && |ListImage(s.reply.OpenList())| < TWO32
    ensures c.head + 4 + c.listLen == c.tail <==> s.reply.descs != []
  {
    hide Shape.Back, Shape.Front, Shape.Reply, ListImage, Shape.OpenList, HoldsGap, Holds, Low32;
    GapLength(b0, b, base, c.head, c.tail, s.reply.Front(), s.reply.Back());
    BackLength(s.reply);
    SmallIsLow(|ListImage(s.reply.OpenList())|);
  }

  /** mtq_list_oids_attr over the rows of the compiled query, ordered by object id. */
  method ListOidsAttr(rows: seq<Row>, allocLen: u64, out: array<byte>, base: nat)
    returns (ret: int, usedOutlen: u64, addLen: u64, contId: u64)
    requires Aligned(base) && base + allocLen <= out.Length
    modifies out
    ensures var s := Run(Start(allocLen), rows);
            && addLen == s.added && (ret == 0 ==> contId == s.cont)
            && ret == (if s.status.Failed? then s.status.code else 0)
            && (ret == 0 ==> usedOutlen == |s.reply.Reply()| == allocLen - s.left)
            && (ret == 0 ==> Holds(old(out[..]), out[..], base, base + usedOutlen, s.reply.Reply()))
  {
    hide Drawn, ListImage, Placed, Run, Holds, Shape.Reply, Low32, Aligned;
    var c := Cursor(allocLen, base, base, 0, 0);
    StartDrawn(out[..], base);
    ret, usedOutlen, addLen, contId := 0, 0, 0, 0;
    ghost var b0, s, end := out[..], Start(allocLen), base + allocLen;
    assert rows[0..] == rows;
    var i := 0;
    while i < |rows|
      invariant 0 <= i <= |rows|
      invariant Run(s, rows[i..]) == Run(Start(allocLen), rows)
      invariant ret == 0 && addLen == s.added && s.status == Going
      invariant Shows(b0, out[..], base, end, s, c)
    {
      var row, t := rows[i], Placed(s, rows[i]);
      RunNext(s, rows, i);
      ret, c := PlaceRow(out, c, row, b0, base, end, s);
      if ret != 0 { return; }
      i := i + 1;
      s := t.Counted(Weight(row));
      if Add64(addLen, Weight(row)) > addLen {
        addLen := addLen + Weight(row);
      } else {
        addLen := TWO64 - 1;
        break;
      }
    }
    RunDone(s, rows[i..]);
    FillPrevious(out, c, b0, base, s.reply);
    DrawnClosed(b0, out[..], base, s.reply, c.tail);
    usedOutlen, contId := c.tail - base, c.cont;
  }

  lemma StartDrawn(b: seq<byte>, base: nat)
    requires base <= |b|
    ensures Drawn(b, b, base, Shape([], [], false), base, base)
  {
  }

  lemma DrawnClosed(b0: seq<byte>, b: seq<byte>, base: nat, s: Shape, tail: nat)
    requires Drawn(b0, b, base, s.Closed(), tail, tail)
    ensures tail == base + |s.Reply()| && Holds(b0, b, base, tail, s.Reply())
  {
  }

  lemma RunNext(s: State, rows: seq<Row>, i: nat)
    requires i < |rows| && s.status == Going
    ensures Run(s, rows[i..]) == Run(Step(s, rows[i]), rows[i + 1..])
    ensures Step(s, rows[i]).status != Going ==> Run(s, rows[i..]) == Step(s, rows[i])
  {
    assert rows[i..][0] == rows[i] && rows[i..][1..] == rows[i + 1..];
  }

  lemma RunDone(s: State, rows: seq<Row>)
    requires rows == [] || s.status != Going
    ensures Run(s, rows) == s
  {
  }
}
