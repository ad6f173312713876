/** What a LIST-with-attributes reply means to the client: framing, continuation and resumption. */
module ListReply {
  import opened Bytes
  import opened ListEntry
  import opened ListWithAttrs

  // ---------- decoding ----------

  /** The entries of one descriptor; the last may be cut short. */
  function DecodeEntries(b: seq<byte>): Option<seq<Entry>> {
    var (es, rest) := Walk(b);
    if rest == [] then Some(es)
    else if |rest| < LE_VAL_OFF then None
    else Some(es + [HeadEntry(rest)])
  }

  function Decode(b: seq<byte>): Option<seq<Desc>> {
    if b == [] then Some([])
    else if |b| < HEADER then None
    else
      var n := FromBe(b[12..16]);
      if HEADER + n > |b| then None
      else
        FieldBound(b[..8]); Widths();
        match (DecodeEntries(b[16..16 + n]), Decode(b[16 + n..]))
        case (Some(es), Some(ds)) => Some([Desc(FromBe(b[..8]), es)] + ds)
        case _ => None
  }

  /** An entry whose value was cut to fill the buffer. */
  predicate Cut(e: Entry) { |e.shown| < e.len && Aligned(|e.shown|) }

  /** Whole entries, but for a last one that may be cut. */
  predicate CutAtEnd(es: seq<Entry>) {
    es == [] || (AllWhole(es[..|es| - 1]) && (es[|es| - 1].Whole() || Cut(es[|es| - 1])))
  }

  predicate Readable(d: Desc) { CutAtEnd(d.entries) && |ListImage(d.entries)| < TWO32 }

  lemma DecodeEntriesOfImage(es: seq<Entry>)
    requires CutAtEnd(es)
    ensures DecodeEntries(ListImage(es)) == Some(es)
  {
    if es == [] {
    } else {
      var front, last := es[..|es| - 1], es[|es| - 1];
      assert es == front + [last];
      ListImageAppend(front, [last]);
      ListImageOne(last);
      WalkOfImage(front, last.Image());
      assert last.Image() + [] == last.Image();
      HeadOfImage(last, []);
      if last.Whole() {
        WalkCons(last, []);
        assert Walk([]) == ([], []);
        assert [last] + [] == [last];
      } else {
        assert Walk(last.Image()) == ([], last.Image());
        assert front + [] == front;
      }
    }
  }

  lemma {:induction false} DescsImageCons(d: Desc, ds: seq<Desc>)
    ensures DescsImage([d] + ds) == d.Image() + DescsImage(ds)
  {
    hide Desc.Image;
    if ds == [] {
      assert [d] + ds == [d] && [d][..0] == [];
      assert DescsImage([d]) == DescsImage([]) + d.Image();
    } else {
      var front, last := ds[..|ds| - 1], ds[|ds| - 1];
      DescsImageCons(d, front);
      assert ([d] + ds)[..|ds|] == [d] + front;
      Assoc(d.Image(), DescsImage(front), last.Image());
    }
  }

  lemma DecodeCons(d: Desc, more: seq<byte>)
    requires Readable(d) && Decode(more).Some?
    ensures Decode(d.Image() + more) == Some([d] + Decode(more).value)
  {
    var b, n := d.Image() + more, |ListImage(d.entries)|;
    Widths();
    FieldRoundTrip(d.oid, 8);
    FieldRoundTrip(n, 4);
    assert b[..8] == Be(d.oid, 8);
    assert b[12..16] == Be(n, 4);
    assert b[16..16 + n] == ListImage(d.entries);
    assert b[16 + n..] == more;
    DecodeEntriesOfImage(d.entries);
  }

  /** Every reply made of readable descriptors decodes to exactly those descriptors. */
  lemma {:induction false} DecodeOfImage(ds: seq<Desc>)
    requires forall d <- ds :: Readable(d)
    ensures Decode(DescsImage(ds)) == Some(ds)
  {
    if ds != [] {
      DecodeOfImage(ds[1..]);
      DecodeCons(ds[0], DescsImage(ds[1..]));
      DescsImageCons(ds[0], ds[1..]);
      assert ds == [ds[0]] + ds[1..];
    }
  }

  // ---------- the rows of a listing ----------

  /** An object of the listing: its timestamp row and the requested attributes it has. */
  datatype Object = Object(oid: u64, stamp: Value, attrs: seq<Row>) {
    predicate Valid() { oid != 0 && forall i :: 0 <= i < |attrs| ==> attrs[i].oid == oid && !attrs[i].Opens() }

    function Opening(): (r: Row)
      ensures r.Opens()
    {
      Row(oid, USER_TMSTMP_PG, 0, stamp)
    }

    /** Its descriptor when nothing is cut. */
    function Whole(): Desc { Desc(oid, WholeEntries(attrs)) }
  }

  function WholeEntries(attrs: seq<Row>): (es: seq<Entry>)
    ensures |es| == |attrs| && AllWhole(es)
  {
    seq(|attrs|, i requires 0 <= i < |attrs| => attrs[i].Whole())
  }

  predicate Listing(os: seq<Object>) {
    && (forall i :: 0 <= i < |os| ==> os[i].Valid())
    && (forall i, j :: 0 <= i < j < |os| ==> os[i].oid < os[j].oid)
  }

  /** The compiled query's rows: each object's timestamp row first, objects in ascending order. */
  function Rows(os: seq<Object>): seq<Row> {
    if os == [] then [] else [os[0].Opening()] + os[0].attrs + Rows(os[1..])
  }

  function Descs(os: seq<Object>): (ds: seq<Desc>)
    ensures |ds| == |os|
  {
    seq(|os|, i requires 0 <= i < |os| => os[i].Whole())
  }

  // ---------- one object ----------

  /** Nothing has been cut or dropped so far, and add_len does not exceed the bytes written. */
  ghost predicate Intact(s: State, allocLen: u64) {
    && s.status == Going && s.cont == 0 && s.reply.orphans == []
    && s.left <= allocLen && Aligned(s.left) && s.added <= allocLen - s.left
    && (s.left < TWO32 || (s.reply.descs == [] && s.left < TWO32 + HEADER))
  }

  /** From here on no row changes the reply. */
  predicate Over(s: State) { s.left < HEADER && s.cont != 0 && !s.status.Failed? && s.reply.orphans == [] }

  lemma {:induction false} OverStays(s: State, rows: seq<Row>)
    requires Over(s)
    ensures var t := Run(s, rows);
            Over(t) && t.cont == s.cont && t.reply.descs == s.reply.descs && t.left == s.left
    decreases rows
  {
    if rows != [] && s.status == Going { OverStays(Step(s, rows[0]), rows[1..]); }
  }

  lemma {:induction false} RunAppend(s: State, a: seq<Row>, b: seq<Row>)
    ensures Run(s, a + b) == Run(Run(s, a), b)
    decreases a
  {
    if a == [] {
      assert a + b == b;
    } else if s.status == Going {
      assert (a + b)[1..] == a[1..] + b && (a + b)[0] == a[0];
      RunAppend(Step(s, a[0]), a[1..], b);
    }
  }

  /** part is whole but for its last entry, whose image is a byte prefix of the whole entry's. */
  predicate CutOf(part: seq<Entry>, whole: seq<Entry>) {
    && |part| <= |whole| && CutAtEnd(part)
    && (forall i :: 0 <= i < |part| - 1 ==> part[i] == whole[i])
    && (part != [] ==> part[|part| - 1].Image() <= whole[|part| - 1].Image())
  }

  function Last(s: State): Desc
    requires s.reply.descs != []
  {
    s.reply.descs[|s.reply.descs| - 1]
  }

  /** t differs from s only in the entries of the last descriptor, which grew by es. */
  predicate Grown(s: State, t: State, es: seq<Entry>)
    requires s.reply.descs != []
  {
    var n := |s.reply.descs|;
    && |t.reply.descs| == n && t.reply.descs[..n - 1] == s.reply.descs[..n - 1]
    && Last(t) == Desc(Last(s).oid, Last(s).entries + es)
  }

  /** One attribute row for which an entry can be started. */
  lemma OneEntry(s: State, row: Row) returns (e: Entry)
    requires s.status == Going && s.reply.descs != [] && !row.Opens()
    requires HEADER <= s.left < TWO32 && Aligned(s.left)
    ensures var t := Step(s, row);
            && Grown(s, t, [e]) && !t.status.Failed? && t.reply.orphans == s.reply.orphans
            && e.Image() <= row.Whole().Image() && (e.Whole() || (Cut(e) && t.left == 0))
            && (row.Whole().Size() <= s.left ==> e == row.Whole() && e.Whole())
            && t.left == s.left - e.Size() && Aligned(t.left)
            && (t.left < HEADER <==> s.left < row.Whole().Size() + HEADER)
            && t.cont == (if t.left < HEADER && s.cont == 0 then row.oid else s.cont)
            && (t.left >= HEADER ==> t.reply.open)
            && t == Placed(s, row).Counted(RoundUp8(10 + |row.value|))
  {
    hide Entry.Image, Entry.Size, Low32, Packed, RoundUp8, Cut;
    SmallIsLow(s.left);
    e := PackedCut(row, s.left);
  }

  lemma PackedCut(row: Row, left: nat) returns (e: Entry)
    requires HEADER <= left && Aligned(left)
    ensures e == Packed(row.page, row.number, |row.value|, Some(row.value), left)
    ensures e.Image() <= row.Whole().Image() && e.Size() <= left && Aligned(left - e.Size())
    ensures if row.Whole().Size() <= left then e == row.Whole() && e.Whole() else Cut(e) && e.Size() == left
  {
    hide Entry.Image;
    PackedIsPrefix(row.page, row.number, row.value, left);
    e := Packed(row.page, row.number, |row.value|, Some(row.value), left);
  }

  /** One attribute row that arrives while nothing has been cut. */
  lemma OneAttr(s: State, row: Row, allocLen: u64) returns (e: Entry)
    requires Intact(s, allocLen) && s.reply.open && s.reply.descs != [] && !row.Opens() && row.oid != 0
    requires HEADER <= s.left
    ensures var t := Step(s, row);
            && Grown(s, t, [e]) && e.Image() <= row.Whole().Image() && (e.Whole() || Cut(e))
            && t.left == s.left - e.Size()
            && (row.Whole().Size() + HEADER <= s.left ==>
                  e == row.Whole() && e.Whole() && Intact(t, allocLen) && t.reply.open)
            && (row.Whole().Size() + HEADER > s.left ==> Over(t) && t.cont == row.oid)
  {
    hide Entry.Image, Step, Placed;
    e := OneEntry(s, row);
  }

  lemma WholeCons(row: Row, rows: seq<Row>)
    ensures WholeEntries([row] + rows) == [row.Whole()] + WholeEntries(rows)
    ensures |ListImage(WholeEntries([row] + rows))| == row.Whole().Size() + |ListImage(WholeEntries(rows))|
  {
    assert WholeEntries([row] + rows) == [row.Whole()] + WholeEntries(rows);
    assert ([row.Whole()] + WholeEntries(rows))[1..] == WholeEntries(rows);
  }

  lemma CutOfCons(e: Entry, part: seq<Entry>, whole: seq<Entry>)
    requires e.Whole() && CutOf(part, whole)
    ensures CutOf([e] + part, [e] + whole)
  {
    var p := [e] + part;
    if part != [] {
      assert p[..|p| - 1] == [e] + part[..|part| - 1];
    }
  }

  lemma OneCut(e: Entry, w: Entry, whole: seq<Entry>)
    requires whole != [] && whole[0] == w && e.Image() <= w.Image() && (e.Whole() || Cut(e))
    ensures CutOf([e], whole)
  {
    assert [e][..0] == [];
  }

  lemma GrownTwice(s: State, t: State, u: State, a: seq<Entry>, b: seq<Entry>)
    requires s.reply.descs != [] && Grown(s, t, a) && t.reply.descs != [] && Grown(t, u, b)
    ensures Grown(s, u, a + b)
  {
    Assoc(Last(s).entries, a, b);
  }

  lemma NoRoom(s: State, row: Row, allocLen: u64)
    requires Intact(s, allocLen) && s.left < HEADER && row.oid != 0 && (s.reply.open || row.Opens())
    ensures var t := Step(s, row);
            && Over(t) && t.cont == row.oid && t.reply.descs == s.reply.descs
            && (s.reply.descs != [] ==> Grown(s, t, []) && CutOf([], []))
  {
    if s.reply.descs != [] { NothingYet(s); }
  }

  lemma NothingYet(s: State)
    requires s.reply.descs != []
    ensures Grown(s, s, []) && WholeEntries([]) == [] && ListImage([]) == []
    ensures forall whole :: CutOf([], whole)
  {
    assert Last(s).entries + [] == Last(s).entries;
  }

  /** All attribute rows of one object: either every entry is whole and room remains, or the list is cut, the
      object is noted, and nothing more will be written. The former exactly when 16 bytes to spare remain. */
  lemma {:induction false} AttrRows(s: State, rows: seq<Row>, oid: u64, allocLen: u64) returns (part: seq<Entry>)
    requires Intact(s, allocLen) && s.reply.open && s.reply.descs != [] && oid != 0
    requires forall i :: 0 <= i < |rows| ==> rows[i].oid == oid && !rows[i].Opens()
    ensures var t := Run(s, rows);
            && Grown(s, t, part) && CutOf(part, WholeEntries(rows))
            && (if rows == [] || |ListImage(WholeEntries(rows))| + HEADER <= s.left
                then part == WholeEntries(rows) && Intact(t, allocLen) && t.reply.open
                     && t.left == s.left - |ListImage(WholeEntries(rows))|
                else Over(t) && t.cont == oid)
    decreases rows
  {
    hide Step, ListImage, Row.Whole, CutAtEnd;
    if rows == [] {
      part := [];
      NothingYet(s);
    } else if s.left < HEADER {
      part := [];
      NoRoom(s, rows[0], allocLen);
      OverStays(Step(s, rows[0]), rows[1..]);
    } else {
      var row, t := rows[0], Step(s, rows[0]);
      assert rows == [row] + rows[1..];
      WholeCons(row, rows[1..]);
      var e := OneAttr(s, row, allocLen);
      if row.Whole().Size() + HEADER <= s.left {
        var more := AttrRows(t, rows[1..], oid, allocLen);
        part := [e] + more;
        CutOfCons(e, more, WholeEntries(rows[1..]));
        GrownTwice(s, t, Run(t, rows[1..]), [e], more);
      } else {
        part := [e];
        assert part[..0] == [];
        OneCut(e, row.Whole(), WholeEntries(rows));
        OverStays(t, rows[1..]);
      }
    }
  }

  // ---------- whole listings ----------

  /** The object's descriptor leaves room to start another entry behind it. */
  predicate Fits(o: Object, left: nat) {
    HEADER <= left && (o.attrs == [] || 2 * HEADER + |ListImage(o.Whole().entries)| <= left)
  }

  function ObjectRows(o: Object): seq<Row> { [o.Opening()] + o.attrs }

  lemma OneOpening(s: State, o: Object, allocLen: u64)
    requires Intact(s, allocLen) && o.Valid() && HEADER <= s.left
    ensures var t := Step(s, o.Opening());
            && Intact(t, allocLen) && t.left == s.left - HEADER && t.reply.open
            && t.reply.descs == s.reply.descs + [Desc(o.oid, [])]
  {
  }

  lemma OneObject(s: State, o: Object, allocLen: u64) returns (got: seq<Desc>)
    requires Intact(s, allocLen) && o.Valid()
    ensures var t := Run(s, ObjectRows(o));
            && t.reply.descs == s.reply.descs + got
            && (if Fits(o, s.left)
                then got == [o.Whole()] && Intact(t, allocLen)
                     && t.left == s.left - HEADER - |ListImage(o.Whole().entries)|
                else Over(t) && t.cont == o.oid && UpTo(got, [o], 0))
  {
    hide Step, CutOf, ListImage;
    var rows, t := ObjectRows(o), Step(s, o.Opening());
    assert rows[0] == o.Opening() && rows[1..] == o.attrs;
    if s.left < HEADER {
      NoRoom(s, o.Opening(), allocLen);
      OverStays(t, o.attrs);
      got := [];
    } else {
      OneOpening(s, o, allocLen);
      var part := AttrRows(t, o.attrs, o.oid, allocLen);
      got := [Desc(o.oid, part)];
      assert [] + part == part;
    }
  }

  /** ds are the whole descriptors of the first k objects, then at most a cut one of the next object. */
  predicate UpTo(ds: seq<Desc>, os: seq<Object>, k: nat)
    requires k < |os|
  {
    || ds == Descs(os[..k])
    || (|ds| == k + 1 && ds[..k] == Descs(os[..k])
        && ds[k].oid == os[k].oid && CutOf(ds[k].entries, os[k].Whole().entries))
  }

  lemma UpToCons(o: Object, ds: seq<Desc>, os: seq<Object>, k: nat)
    requires k < |os| && UpTo(ds, os, k)
    ensures UpTo([o.Whole()] + ds, [o] + os, k + 1)
  {
    assert ([o] + os)[..k + 1] == [o] + os[..k];
    assert Descs([o] + os[..k]) == [o.Whole()] + Descs(os[..k]);
    if |ds| == k + 1 { assert ([o.Whole()] + ds)[..k + 1] == [o.Whole()] + ds[..k]; }
  }

  lemma {:induction false} ListingRows(s: State, os: seq<Object>, allocLen: u64) returns (k: nat, got: seq<Desc>)
    requires Intact(s, allocLen) && forall i :: 0 <= i < |os| ==> os[i].Valid()
    ensures var t := Run(s, Rows(os));
            && t.reply.descs == s.reply.descs + got && k <= |os|
            && (if k == |os| then Intact(t, allocLen) && got == Descs(os)
                else Over(t) && t.cont == os[k].oid && UpTo(got, os, k))
    ensures os != [] ==> (k == 0 <==> !Fits(os[0], s.left))
    ensures forall i :: 0 <= i < k ==> Fits(os[i], allocLen)
    decreases os
  {
    hide Run, UpTo, Over, Fits, Intact, Object.Valid, Object.Whole, CutOf;
    if os == [] {
      k, got := 0, [];
      RunDone(s, []);
    } else {
      var o, t := os[0], Run(s, ObjectRows(os[0]));
      assert os == [o] + os[1..];
      RunAppend(s, ObjectRows(o), Rows(os[1..]));
      var first := OneObject(s, o, allocLen);
      if Fits(o, s.left) {
        k, got := ListingRows(t, os[1..], allocLen);
        if k < |os[1..]| { UpToCons(o, got, os[1..], k); }
        assert Descs(os) == [o.Whole()] + Descs(os[1..]);
        FitsMore(o, s, allocLen);
        k, got := k + 1, first + got;
      } else {
        OverStays(t, Rows(os[1..]));
        k, got := 0, first;
        UpToFirst(first, o, os);
      }
    }
  }

  lemma FitsMore(o: Object, s: State, allocLen: u64)
    requires Intact(s, allocLen) && Fits(o, s.left)
    ensures Fits(o, allocLen)
  {
    hide ListImage;
  }

  lemma UpToFirst(ds: seq<Desc>, o: Object, os: seq<Object>)
    requires os != [] && os[0] == o && UpTo(ds, [o], 0)
    ensures UpTo(ds, os, 0)
  {
    assert os[..0] == [o][..0];
  }

  // ---------- framing, for every row stream ----------

  lemma ReplyStep(s: State, row: Row)
    requires s.status == Going
    ensures |Step(s, row).reply.Reply()| + Step(s, row).left == |s.reply.Reply()| + s.left
  {
    hide Shape.Reply, Packed;
    var t := Placed(s, row);
    ReplyClosed(s.reply);
    if row.Opens() {
      OpenedParts(s.reply, row.oid);
    } else if HEADER <= s.left && PackError(0, Low32(s.left)) == 0 {
      var e := Packed(row.page, row.number, |row.value|, Some(row.value), Low32(s.left));
      ExtendedSize(s.reply, e);
      ReplyClosed(s.reply.Extended(e));
    }
  }

  lemma ReplyClosed(r: Shape)
    ensures r.Closed().Reply() == r.Reply()
  {
  }

  lemma ExtendedSize(r: Shape, e: Entry)
    ensures |r.Extended(e).Reply()| == |r.Reply()| + e.Size()
  {
    if r.Empty() {
      ListImageOne(e);
      assert r.Extended(e).orphans == [e];
    } else {
      ExtendedParts(r, e);
    }
  }

  /** used_outlen plus the remaining alloc_len never changes. */
  lemma {:induction false} ReplySize(s: State, rows: seq<Row>)
    ensures |Run(s, rows).reply.Reply()| + Run(s, rows).left == |s.reply.Reply()| + s.left
    decreases rows
  {
    if rows != [] && s.status == Going {
      ReplyStep(s, rows[0]);
      ReplySize(Step(s, rows[0]), rows[1..]);
    }
  }

  /** Every descriptor is opened properly, and only the very last entry may be cut, which fills the buffer. */
  ghost predicate Framed(s: State) {
    && s.reply.orphans == [] && Aligned(s.left)
    && (s.left < TWO32 || (s.reply.descs == [] && s.left < TWO32 + HEADER))
    && (s.reply.descs == [] ==> s.left < HEADER || !s.reply.open)
    && (forall i :: 0 <= i < |s.reply.descs| ==> CutAtEnd(s.reply.descs[i].entries))
    && (s.reply.descs != [] && HEADER <= s.left ==> AllWhole(Last(s).entries))
  }

  lemma FramedStep(s: State, row: Row)
    requires s.status == Going && Framed(s) && (s.reply.descs != [] || s.left < HEADER || row.Opens())
    ensures Framed(Step(s, row)) && !Step(s, row).status.Failed?
    ensures Step(s, row).reply.descs != [] || Step(s, row).left < HEADER
  {
    hide Step, Placed, CutAtEnd;
    if row.Opens() || s.left < HEADER {
      FramedOpening(s, row);
    } else {
      var e := OneEntry(s, row);
      CutAtEndAppend(Last(s).entries, e);
      GrownOthers(s, Step(s, row), [e]);
    }
  }

  lemma FramedOpening(s: State, row: Row)
    requires s.status == Going && Framed(s) && (row.Opens() || s.left < HEADER)
    ensures Framed(Step(s, row)) && !Step(s, row).status.Failed?
    ensures Step(s, row).reply.descs != [] || Step(s, row).left < HEADER
  {
  }

  lemma CutAtEndAppend(es: seq<Entry>, e: Entry)
    requires AllWhole(es) && (e.Whole() || Cut(e))
    ensures CutAtEnd(es + [e]) && (e.Whole() ==> AllWhole(es + [e]))
  {
    assert (es + [e])[..|es|] == es;
  }

  lemma GrownOthers(s: State, t: State, es: seq<Entry>)
    requires s.reply.descs != [] && Grown(s, t, es)
    ensures t.reply.descs != [] && Last(t).entries == Last(s).entries + es
    ensures forall i :: 0 <= i < |s.reply.descs| - 1 ==> t.reply.descs[i] == s.reply.descs[i]
  {
    forall i | 0 <= i < |s.reply.descs| - 1 ensures t.reply.descs[i] == s.reply.descs[i] {
      assert t.reply.descs[i] == t.reply.descs[..|s.reply.descs| - 1][i];
    }
  }

  lemma {:induction false} FramedRun(s: State, rows: seq<Row>)
    requires Framed(s) && !s.status.Failed?
    requires rows == [] || s.reply.descs != [] || s.left < HEADER || rows[0].Opens()
    ensures Framed(Run(s, rows)) && !Run(s, rows).status.Failed?
    decreases rows
  {
    if rows != [] && s.status == Going {
      FramedStep(s, rows[0]);
      FramedRun(Step(s, rows[0]), rows[1..]);
    }
  }

  lemma {:induction false} DescsFitImage(ds: seq<Desc>)
    ensures forall d <- ds :: HEADER + |ListImage(d.entries)| <= |DescsImage(ds)|
  {
    if ds != [] {
      DescsFitImage(ds[..|ds| - 1]);
      assert ds == ds[..|ds| - 1] + [ds[|ds| - 1]];
    }
  }

  /** Framing: whenever the first row opens an object and the length is a multiple of 8 below 2^32 + 16, the builder
      succeeds within the allocation, and the reply decodes to the descriptors, each list length exact. */
  lemma Framing(allocLen: u64, rows: seq<Row>)
    requires Aligned(allocLen) && allocLen < TWO32 + HEADER
    requires rows == [] || rows[0].Opens()
    ensures var s := Run(Start(allocLen), rows);
            && !s.status.Failed? && |s.reply.Reply()| == allocLen - s.left
            && Decode(s.reply.Reply()) == Some(s.reply.descs)
  {
    var s := Run(Start(allocLen), rows);
    FramedRun(Start(allocLen), rows);
    ReplySize(Start(allocLen), rows);
    assert s.reply.Reply() == DescsImage(s.reply.descs);
    DescsFitImage(s.reply.descs);
    forall d | d in s.reply.descs ensures |ListImage(d.entries)| < TWO32 {
      assert HEADER + |ListImage(d.entries)| <= |DescsImage(s.reply.descs)|;
    }
    DecodeOfImage(s.reply.descs);
  }

  // ---------- continuation ----------

  predicate FitUpTo(os: seq<Object>, k: nat, allocLen: u64)
    requires k <= |os|
  {
    forall i :: 0 <= i < k ==> Fits(os[i], allocLen)
  }

  /** Continuation loses nothing: with cont_id 0 every object is there in full; otherwise cont_id is the id of some
      k-th object, the objects before it are there in full, at most a cut form of it follows, and nothing after it. What
      is there in full would also fit alone. */
  lemma Continuation(allocLen: u64, os: seq<Object>)
    requires Aligned(allocLen) && allocLen < TWO32 + HEADER && Listing(os)
    ensures var s := Run(Start(allocLen), Rows(os));
            && (s.cont == 0 ==> s.reply.descs == Descs(os) && FitUpTo(os, |os|, allocLen))
            && (s.cont != 0 ==> exists k :: 0 <= k < |os| && s.cont == os[k].oid && UpTo(s.reply.descs, os, k)
                                            && FitUpTo(os, k, allocLen))
    ensures os != [] ==> (Run(Start(allocLen), Rows(os)).cont == os[0].oid <==> !Fits(os[0], allocLen))
  {
    var s := Run(Start(allocLen), Rows(os));
    var k, got := ListingRows(Start(allocLen), os, allocLen);
    assert s.reply.descs == [] + got == got;
    if 0 < k < |os| { assert os[0].oid < os[k].oid; }
  }

  /** The length of the complete listing, as add_len accumulates it. */
  function Total(added: u64, rows: seq<Row>): (n: u64)
    ensures n >= added
    decreases rows
  {
    if rows == [] then added
    else if added + Weight(rows[0]) < TWO64 then Total(added + Weight(rows[0]), rows[1..])
    else TWO64 - 1
  }

  /** add_len depends on the rows alone, whatever the allocation. */
  lemma {:induction false} AddLenIgnoresAllocation(s: State, rows: seq<Row>)
    requires s.status == Going && !Run(s, rows).status.Failed?
    ensures Run(s, rows).added == Total(s.added, rows)
    decreases rows
  {
    if rows != [] {
      var t := Step(s, rows[0]);
      if t.status == Going { AddLenIgnoresAllocation(t, rows[1..]); }
    }
  }

  // ---------- resuming ----------

  /** The objects of a listing that starts at an initial object id. */
  function From(os: seq<Object>, initial: u64): (r: seq<Object>)
    ensures |r| <= |os|
  {
    if os == [] || initial <= os[0].oid then os else From(os[1..], initial)
  }

  lemma {:induction false} FromIndex(os: seq<Object>, k: nat)
    requires Listing(os) && k < |os|
    ensures From(os, os[k].oid) == os[k..]
  {
    if k > 0 {
      FromIndex(os[1..], k - 1);
      assert os[1..][k - 1..] == os[k..];
    }
  }

  /** A client that repeats LIST from cont_id, keeping of each reply the objects before cont_id. When an object does
      not fit (its own id comes back as cont_id) it gives up. */
  function Collect(allocLen: u64, os: seq<Object>): seq<Desc>
    decreases |os|
  {
    var s := Run(Start(allocLen), Rows(os));
    var rest := From(os, s.cont);
    if s.cont == 0 then s.reply.descs
    else if |rest| >= |os| || |s.reply.descs| < |os| - |rest| then []
    else s.reply.descs[..|os| - |rest|] + Collect(allocLen, rest)
  }

  /** Over the whole run of replies every object arrives once, in order and in full, if and only if each one alone fits. */
  lemma {:induction false} WhenCollectsAll(allocLen: u64, os: seq<Object>)
    requires Aligned(allocLen) && allocLen < TWO32 + HEADER && Listing(os)
    ensures Collect(allocLen, os) == Descs(os) <==> FitUpTo(os, |os|, allocLen)
    decreases |os|
  {
    hide Run, Rows, Fits, UpTo, From, Descs, FitUpTo, Collect;
    var s := Run(Start(allocLen), Rows(os));
    Continuation(allocLen, os);
    if s.cont != 0 {
      var k :| 0 <= k < |os| && s.cont == os[k].oid && UpTo(s.reply.descs, os, k) && FitUpTo(os, k, allocLen);
      FitSplit(os, k, allocLen);
      UpToKept(s.reply.descs, os, k);
      CollectNext(allocLen, os, k);
      if k == 0 {
        FirstFits(os, allocLen);
      } else {
        WhenCollectsAll(allocLen, os[k..]);
        SameFront(s.reply.descs[..k], Collect(allocLen, os[k..]), Descs(os[k..]));
      }
    } else {
      CollectDone(allocLen, os);
    }
  }

  lemma CollectDone(allocLen: u64, os: seq<Object>)
    requires Run(Start(allocLen), Rows(os)).cont == 0
    ensures Collect(allocLen, os) == Run(Start(allocLen), Rows(os)).reply.descs
  {
  }

  lemma CollectNext(allocLen: u64, os: seq<Object>, k: nat)
    requires Listing(os) && k < |os|
    requires var s := Run(Start(allocLen), Rows(os)); s.cont == os[k].oid && s.cont != 0 && |s.reply.descs| >= k
    ensures Collect(allocLen, os)
            == if k == 0 then [] else Run(Start(allocLen), Rows(os)).reply.descs[..k] + Collect(allocLen, os[k..])
  {
    hide Run, Rows, From;
    FromIndex(os, k);
  }

  lemma FitSplit(os: seq<Object>, k: nat, allocLen: u64)
    requires k <= |os| && FitUpTo(os, k, allocLen)
    ensures FitUpTo(os, |os|, allocLen) <==> FitUpTo(os[k..], |os[k..]|, allocLen)
  {
    hide Fits;
    if FitUpTo(os[k..], |os[k..]|, allocLen) {
      forall i | 0 <= i < |os| ensures Fits(os[i], allocLen) { if i >= k { assert Fits(os[k..][i - k], allocLen); } }
    }
    if FitUpTo(os, |os|, allocLen) {
      forall i | 0 <= i < |os[k..]| ensures Fits(os[k..][i], allocLen) { assert os[k..][i] == os[k + i]; }
    }
  }

  lemma FirstFits(os: seq<Object>, allocLen: u64)
    requires os != [] && !Fits(os[0], allocLen)
    ensures !FitUpTo(os, |os|, allocLen) && Descs(os) != []
  {
  }

  lemma SameFront<T>(a: seq<T>, b: seq<T>, c: seq<T>)
    ensures a + b == a + c <==> b == c
  {
    assert (a + b)[|a|..] == b && (a + c)[|a|..] == c;
  }

  lemma UpToKept(ds: seq<Desc>, os: seq<Object>, k: nat)
    requires k < |os| && UpTo(ds, os, k)
    ensures |ds| >= k && ds[..k] + Descs(os[k..]) == Descs(os)
  {
    assert os == os[..k] + os[k..];
    assert ds[..k] == Descs(os[..k]);
  }

  // ---------- when the builder fails ----------

  function EmptyAttrs(n: nat): seq<Row> { seq(n, _ => Row(1, 1, 1, [])) }

  lemma OneEmpty(s: State, row: Row)
    requires s.status == Going && s.reply.descs != [] && Aligned(s.left) && s.left >= TWO32
    requires row == Row(1, 1, 1, []) && s.added + HEADER < TWO64
    ensures var t := Step(s, row);
            || t.status.Failed?
            || (t.status == Going && t.reply.descs != [] && TWO32 <= t.left == s.left - HEADER && Aligned(t.left)
                && t.added == s.added + HEADER)
  {
    hide Low32;
    Low32Gap(s.left);
    if PackError(0, Low32(s.left)) == 0 {
      var e := Packed(1, 1, 0, Some([]), Low32(s.left));
      assert e.shown == [] && e.Size() == HEADER;
    }
  }

  lemma Low32Gap(n: nat)
    requires n >= TWO32
    ensures Low32(n) + TWO32 <= n
  {
  }

  /** Empty attributes use 16 bytes each, until the low 32 bits of what is left cannot hold an entry. */
  lemma {:induction false} EmptyAttrsFail(s: State, n: nat)
    requires s.status == Going && s.reply.descs != [] && Aligned(s.left) && s.left >= TWO32
    requires s.left - TWO32 < HEADER * n && s.added + HEADER * n < TWO64
    ensures Run(s, EmptyAttrs(n)).status.Failed?
    decreases n
  {
    hide Step;
    var rows := EmptyAttrs(n);
    assert rows[1..] == EmptyAttrs(n - 1);
    OneEmpty(s, rows[0]);
    if Step(s, rows[0]).status == Going { EmptyAttrsFail(Step(s, rows[0]), n - 1); }
  }

  ghost predicate NeverFails(allocLen: u64) {
    forall rows: seq<Row> :: rows != [] && rows[0].Opens() ==> !Run(Start(allocLen), rows).status.Failed?
  }

  /** The builder succeeds on every stream of rows exactly for these lengths: from 32 bytes on, an unaligned length is
      refused by le_pack_attr, and one of 2^32 + 16 bytes or more is not passed on in full. */
  lemma WhenNeverFails(allocLen: u64)
    ensures NeverFails(allocLen) <==> allocLen < 2 * HEADER || (Aligned(allocLen) && allocLen < TWO32 + HEADER)
  {
    hide Run, Step;
    var opening, attr := Row(1, USER_TMSTMP_PG, 0, []), Row(1, 1, 1, []);
    if allocLen < 2 * HEADER {
      forall rows: seq<Row> | rows != [] && rows[0].Opens() ensures !Run(Start(allocLen), rows).status.Failed? {
        TinyStart(allocLen, rows);
      }
    } else if Aligned(allocLen) && allocLen < TWO32 + HEADER {
      forall rows: seq<Row> | rows != [] && rows[0].Opens() ensures !Run(Start(allocLen), rows).status.Failed? {
        Framing(allocLen, rows);
      }
    } else if Aligned(allocLen) {
      LargeStart(allocLen);
      Refuted(allocLen, opening, EmptyAttrs((allocLen - TWO32) / HEADER + 1));
    } else {
      Unaligned(allocLen);
      RunOne(Step(Start(allocLen), opening), attr);
      Refuted(allocLen, opening, [attr]);
    }
  }

  lemma LargeStart(allocLen: u64)
    requires Aligned(allocLen) && allocLen >= TWO32 + HEADER
    ensures Run(Step(Start(allocLen), Row(1, USER_TMSTMP_PG, 0, [])), EmptyAttrs((allocLen - TWO32) / HEADER + 1)).status.Failed?
  {
    EmptyAttrsFail(Step(Start(allocLen), Row(1, USER_TMSTMP_PG, 0, [])), (allocLen - TWO32) / HEADER + 1);
  }

  lemma TinyStart(allocLen: u64, rows: seq<Row>)
    requires allocLen < 2 * HEADER && rows != [] && rows[0].Opens()
    ensures !Run(Start(allocLen), rows).status.Failed?
  {
    TinyRun(Step(Start(allocLen), rows[0]), rows[1..]);
  }

  lemma RunOne(s: State, row: Row)
    ensures s.status == Going ==> Run(s, [row]) == Step(s, row)
    ensures s.status != Going ==> Run(s, [row]) == s
  {
    assert [row][1..] == [];
  }

  lemma Refuted(allocLen: u64, first: Row, rows: seq<Row>)
    requires first.Opens() && Run(Step(Start(allocLen), first), rows).status.Failed?
    ensures !NeverFails(allocLen)
  {
    assert ([first] + rows)[0] == first && ([first] + rows)[1..] == rows;
  }

  lemma Unaligned(allocLen: u64)
    requires 2 * HEADER <= allocLen && !Aligned(allocLen)
    ensures var s := Step(Start(allocLen), Row(1, USER_TMSTMP_PG, 0, []));
            s.status == Going && Step(s, Row(1, 1, 1, [])).status.Failed?
  {
    UnalignedLow(allocLen - HEADER);
  }

  lemma UnalignedLow(n: nat)
    requires !Aligned(n + HEADER)
    ensures !Aligned(Low32(n))
  {
    hide Low32;
    AlignedByLow(n);
  }

  /** With less than 16 bytes left nothing is packed any more. */
  lemma {:induction false} TinyRun(s: State, rows: seq<Row>)
    requires s.left < HEADER && !s.status.Failed?
    ensures !Run(s, rows).status.Failed?
    decreases rows
  {
    if rows != [] && s.status == Going { TinyRun(Step(s, rows[0]), rows[1..]); }
  }

  ghost predicate NoStreamFails(allocLen: u64) { forall rows: seq<Row> :: !Run(Start(allocLen), rows).status.Failed? }

  /** Streams of any kind: then also a first row that opens no object must not be refused, which takes a length that is
      below 16 bytes, or a multiple of 8 below 2^32. */
  lemma WhenNoStreamFails(allocLen: u64)
    ensures NoStreamFails(allocLen) <==> allocLen < HEADER || (Aligned(allocLen) && allocLen < TWO32)
  {
    hide Run, Step, Aligned;
    var attr := Row(1, 1, 1, []);
    if allocLen < HEADER {
      forall rows: seq<Row> ensures !Run(Start(allocLen), rows).status.Failed? { TinyRun(Start(allocLen), rows); }
    } else if Aligned(allocLen) && allocLen < TWO32 {
      forall rows: seq<Row> ensures !Run(Start(allocLen), rows).status.Failed? { AlignedRun(Start(allocLen), rows); }
    } else if Aligned(allocLen) && allocLen >= TWO32 + HEADER {
      WhenNeverFails(allocLen);
    } else {
      FirstRefused(allocLen);
      RunOne(Start(allocLen), attr);
      assert Run(Start(allocLen), [attr]).status.Failed?;
    }
  }

  lemma FirstRefused(allocLen: u64)
    requires allocLen >= HEADER && (!Aligned(allocLen) || TWO32 <= allocLen < TWO32 + HEADER)
    ensures Step(Start(allocLen), Row(1, 1, 1, [])).status.Failed?
  {
    if !Aligned(allocLen) { AlignedByLow(allocLen); } else { ModUnique(allocLen, TWO32, 1, allocLen - TWO32); }
  }

  lemma AlignedByLow(n: nat)
    ensures Aligned(Low32(n)) ==> Aligned(n)
  {
    var q, r := n / TWO32, n % TWO32;
    if Aligned(r) {
      assert n == TWO32 * q + r && r == 8 * (r / 8);
      ModUnique(n, 8, 0x2000_0000 * q + r / 8, 0);
    }
  }

  lemma {:induction false} AlignedRun(s: State, rows: seq<Row>)
    requires Aligned(s.left) && s.left < TWO32 && !s.status.Failed?
    ensures !Run(s, rows).status.Failed?
    decreases rows
  {
    hide Step, Aligned;
    if rows != [] && s.status == Going {
      AlignedStep(s, rows[0]);
      AlignedRun(Step(s, rows[0]), rows[1..]);
    }
  }

  lemma AlignedStep(s: State, row: Row)
    requires Aligned(s.left) && s.left < TWO32 && s.status == Going
    ensures var t := Step(s, row); Aligned(t.left) && t.left < TWO32 && !t.status.Failed?
  {
    hide Packed;
    SmallIsLow(s.left);
  }

  // ---------- a first row that opens no object ----------

  lemma {:induction false} OrphansStay(s: State, rows: seq<Row>)
    requires s.reply.descs != [] || s.reply.orphans != []
    ensures Run(s, rows).reply.orphans == [] <==> s.reply.orphans == []
    decreases rows
  {
    if rows != [] && s.status == Going { OrphansStay(Step(s, rows[0]), rows[1..]); }
  }

  lemma FirstStep(allocLen: u64, row: Row)
    requires Aligned(allocLen) && HEADER <= allocLen < TWO32
    ensures var r := Step(Start(allocLen), row).reply;
            if row.Opens() then r.descs != [] && r.orphans == [] else r.orphans != []
  {
    SmallIsLow(allocLen);
  }

  /** An object whose timestamp row is missing at the front spoils the framing: entries precede every descriptor, and
      where the client expects the high half of an object id it finds the byte count of those entries. */
  lemma FirstRowDecides(allocLen: u64, rows: seq<Row>)
    requires Aligned(allocLen) && HEADER <= allocLen < TWO32 && rows != []
    ensures var r := Run(Start(allocLen), rows).reply;
            && (r.orphans == [] <==> rows[0].Opens())
            && (r.orphans != [] ==> |r.Reply()| >= HEADER && FromBe(r.Reply()[..4]) == |ListImage(r.orphans)| >= HEADER)
  {
    hide Step;
    FirstStep(allocLen, rows[0]);
    OrphansStay(Step(Start(allocLen), rows[0]), rows[1..]);
    var r := Run(Start(allocLen), rows).reply;
    ReplySize(Start(allocLen), rows);
    if r.orphans != [] { OrphanLead(r); }
  }

  lemma OrphanLead(r: Shape)
    requires r.orphans != [] && |r.Reply()| < TWO32
    ensures |r.Reply()| >= HEADER && FromBe(r.Reply()[..4]) == |ListImage(r.orphans)| >= HEADER
  {
    var n := |ListImage(r.orphans)|;
    assert n >= r.orphans[0].Size();
    Widths();
    FieldRoundTrip(n, 4);
    assert r.Reply()[..4] == Be(n, 4);
  }
}
