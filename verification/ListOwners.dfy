/** Under which object each entry of a LIST reply lands, and a listing with attributes taken from the tables. */
module ListOwners {
  import opened Bytes
  import opened ListEntry
  import opened ListWithAttrs
  import L = ListReply

  // ---------- a reply with room for every row ----------

  function SizeOf(row: Row): nat { if row.Opens() then HEADER else row.Whole().Size() }

  function Needed(rows: seq<Row>): nat {
    if rows == [] then 0 else Needed(rows[..|rows| - 1]) + SizeOf(rows[|rows| - 1])
  }

  /** Every row in its place: a timestamp row opens a descriptor, any other is added to the last one. */
  function Grouped(rows: seq<Row>): (r: Shape)
    ensures rows != [] ==> r.open
  {
    if rows == [] then Shape([], [], false)
    else
      var r, row := Grouped(rows[..|rows| - 1]), rows[|rows| - 1];
      if row.Opens() then r.Opened(row.oid) else r.Extended(row.Whole())
  }

  predicate SameContent(r: Shape, t: Shape) { r.orphans == t.orphans && r.descs == t.descs }

  lemma RoomyStep(s: State, row: Row)
    requires s.status == Going && Aligned(s.left) && SizeOf(row) <= s.left < TWO32 && s.added + SizeOf(row) < TWO64
    ensures var t := Step(s, row);
            && t.status == Going && Aligned(t.left) && t.left == s.left - SizeOf(row) && t.added <= s.added + SizeOf(row)
            && SameContent(t.reply, if row.Opens() then s.reply.Opened(row.oid) else s.reply.Extended(row.Whole()))
  {
    hide Low32, Packed, Aligned;
    SmallIsLow(s.left);
    if row.Opens() {
      AlignedLess16(s.left);
    } else {
      PackedIsPrefix(row.page, row.number, row.value, s.left);
      AlignedSize(s.left, row.Whole());
      WeightFits(row);
    }
  }

  lemma AlignedLess16(n: nat)
    requires Aligned(n) && n >= HEADER
    ensures Aligned(n - HEADER)
  {
  }

  lemma AlignedSize(n: nat, e: Entry)
    requires Aligned(n) && e.Size() <= n
    ensures Aligned(n - e.Size()) && PackError(0, n) == 0
  {
  }

  lemma WeightFits(row: Row)
    requires !row.Opens()
    ensures Weight(row) <= SizeOf(row)
  {
  }

  lemma ContentFollows(r: Shape, t: Shape, row: Row)
    requires SameContent(r, t)
    ensures SameContent(r.Opened(row.oid), t.Opened(row.oid)) && SameContent(r.Extended(row.Whole()), t.Extended(row.Whole()))
  {
  }

  /** With room for all of them the run puts every row in its place. */
  lemma {:induction false} RoomyRun(allocLen: u64, rows: seq<Row>)
    requires Aligned(allocLen) && Needed(rows) <= allocLen < TWO32
    ensures var s := Run(Start(allocLen), rows);
            && s.status == Going && Aligned(s.left) && s.left == allocLen - Needed(rows) && s.added <= Needed(rows)
            && SameContent(s.reply, Grouped(rows))
    decreases |rows|
  {
    hide Step, SizeOf, Shape.Opened, Shape.Extended;
    if rows != [] {
      var front, row := rows[..|rows| - 1], rows[|rows| - 1];
      RoomyRun(allocLen, front);
      assert rows == front + [row];
      L.RunAppend(Start(allocLen), front, [row]);
      L.RunOne(Run(Start(allocLen), front), row);
      RoomyStep(Run(Start(allocLen), front), row);
      ContentFollows(Run(Start(allocLen), front).reply, Grouped(front), row);
    }
  }

  // ---------- any rows in any buffer ----------

  /** Nothing has been cut or passed over so far. */
  predicate Ready(s: State, allocLen: u64) {
    && s.status == Going && s.cont == 0 && Aligned(s.left) && s.left < TWO32 && s.added + s.left <= allocLen
    && (s.reply.open || s.left >= HEADER)
  }

  /** From here on no row is placed. */
  predicate Shut(s: State) { s.left < HEADER && s.cont != 0 && !s.status.Failed? }

  lemma {:induction false} ShutStays(s: State, rows: seq<Row>)
    requires Shut(s)
    ensures var t := Run(s, rows); Shut(t) && t.cont == s.cont && SameContent(t.reply, s.reply)
    decreases rows
  {
    if rows != [] && s.status == Going { ShutStays(Step(s, rows[0]), rows[1..]); }
  }

  /** The content after all rows before the k-th, and maybe a part of the k-th. */
  function UpTo(rows: seq<Row>, k: nat, part: seq<Entry>): Shape
    requires k <= |rows| && |part| <= 1
  {
    if part == [] then Grouped(rows[..k]) else Grouped(rows[..k]).Extended(part[0])
  }

  /** One row: it is placed whole and more may follow, or it is the one to resume at. */
  lemma AnyStep(s: State, row: Row, allocLen: u64) returns (part: seq<Entry>)
    requires Ready(s, allocLen) && row.oid != 0 && allocLen < TWO32
    ensures |part| <= 1 && forall e <- part :: !row.Opens() && e.Image() <= row.Whole().Image()
    ensures var t := Step(s, row);
            || (part == [] && Ready(t, allocLen)
                && SameContent(t.reply, if row.Opens() then s.reply.Opened(row.oid) else s.reply.Extended(row.Whole())))
            || (Shut(t) && t.cont == row.oid
                && SameContent(t.reply, if part == [] then s.reply else s.reply.Extended(part[0])))
  {
    hide Low32, Packed, Aligned, Entry.Image;
    SmallIsLow(s.left);
    part := [];
    if s.left >= HEADER && row.Opens() {
      AlignedLess16(s.left);
    } else if s.left >= HEADER {
      PackRoom(s.left);
      var e := L.PackedCut(row, s.left);
      WeightFits(row);
      if s.left - e.Size() < HEADER { part := [e]; } else { WholeIfRoom(row, e, s.left); }
    }
  }

  lemma PackRoom(left: nat)
    requires Aligned(left) && left >= HEADER
    ensures PackError(0, left) == 0
  {
  }

  lemma WholeIfRoom(row: Row, e: Entry, left: nat)
    requires e == row.Whole() || e.Size() == left
    requires left - e.Size() >= HEADER
    ensures e == row.Whole()
  {
  }

  /** Whatever the rows and wherever the buffer ends, the reply holds the rows in their places up to the one to resume at,
      of which it may hold a part; without a continuation id it holds all of them. */
  lemma {:induction false} AnyRun(allocLen: u64, rows: seq<Row>) returns (k: nat, part: seq<Entry>)
    requires Aligned(allocLen) && HEADER <= allocLen < TWO32 && forall row <- rows :: row.oid != 0
    ensures k <= |rows| && |part| <= 1
    ensures var s := Run(Start(allocLen), rows);
            && SameContent(s.reply, UpTo(rows, k, part))
            && (s.cont == 0 ==> k == |rows| && part == [] && Ready(s, allocLen))
            && (s.cont != 0 ==> Shut(s) && k < |rows| && s.cont == rows[k].oid
                                && forall e <- part :: !rows[k].Opens() && e.Image() <= rows[k].Whole().Image())
    decreases |rows|
  {
    hide Step, Shape.Opened, Shape.Extended, Entry.Image, Row.Whole, Row.Opens;
    k, part := 0, [];
    if rows != [] {
      var n, front, row := |rows| - 1, rows[..|rows| - 1], rows[|rows| - 1];
      k, part := AnyRun(allocLen, front);
      assert rows == front + [row] && front[..k] == rows[..k] && rows[..n] == front;
      L.RunAppend(Start(allocLen), front, [row]);
      var s := Run(Start(allocLen), front);
      if s.cont != 0 {
        ShutStays(s, [row]);
      } else {
        L.RunOne(s, row);
        var more := AnyStep(s, row, allocLen);
        assert front[..n] == front;
        if Step(s, row).cont == 0 {
          ContentFollows(s.reply, Grouped(front), row);
          k := |rows|;
          assert rows[..k] == rows;
        } else {
          k, part := n, more;
          if more != [] { ContentExtended(s.reply, Grouped(front), more[0]); }
        }
      }
    }
  }

  lemma ContentExtended(r: Shape, t: Shape, e: Entry)
    requires SameContent(r, t)
    ensures SameContent(r.Extended(e), t.Extended(e))
  {
  }

  // ---------- the additional length ----------

  /** add_len counts the row with as many bytes as it needs. */
  predicate CountedInFull(row: Row) { row.Opens() || |row.value| % 8 == 0 || |row.value| % 8 == 7 }

  function ShortRows(rows: seq<Row>): nat {
    if rows == [] then 0 else (if CountedInFull(rows[0]) then 0 else 1) + ShortRows(rows[1..])
  }

  /** The padding of an entry starts behind a head of 16 bytes, that of add_len behind one of 10. */
  lemma WeightOf(row: Row)
    ensures Weight(row) == SizeOf(row) - if CountedInFull(row) then 0 else 8
  {
  }

  lemma {:induction false} NeededCons(row: Row, rows: seq<Row>)
    ensures Needed([row] + rows) == SizeOf(row) + Needed(rows)
    decreases |rows|
  {
    hide SizeOf;
    var all := [row] + rows;
    if rows == [] {
      assert all[..0] == [] && all == [row];
    } else {
      NeededCons(row, rows[..|rows| - 1]);
      assert all[..|all| - 1] == [row] + rows[..|rows| - 1];
    }
  }

  /** add_len falls short of the bytes that the rows need by 8 for each row that is not counted in full, and stops at
      2^64 - 1. */
  lemma {:induction false} AddLenIsShort(added: u64, rows: seq<Row>)
    ensures Needed(rows) >= 16 * |rows| >= 16 * ShortRows(rows)
    ensures L.Total(added, rows) == Min(added + Needed(rows) - 8 * ShortRows(rows), TWO64 - 1)
    decreases rows
  {
    hide SizeOf, Weight, CountedInFull;
    if rows != [] {
      assert rows == [rows[0]] + rows[1..];
      NeededCons(rows[0], rows[1..]);
      WeightOf(rows[0]);
      SizeAtLeast(rows[0]);
      AddLenIsShort(if added + Weight(rows[0]) < TWO64 then added + Weight(rows[0]) else 0, rows[1..]);
    }
  }

  lemma SizeAtLeast(row: Row)
    ensures SizeOf(row) >= 16
  {
  }

  /** A listing that the packer does not fail ends for the sake of add_len exactly when that would reach 2^64. */
  lemma {:induction false} WhenSumOverflows(s: State, rows: seq<Row>)
    requires s.status == Going && !Run(s, rows).status.Failed?
    ensures Needed(rows) >= 8 * ShortRows(rows)
    ensures Run(s, rows).status == SumOverflow <==> s.added + Needed(rows) - 8 * ShortRows(rows) >= TWO64
    decreases rows
  {
    hide SizeOf, Weight, CountedInFull, Placed;
    AddLenIsShort(s.added, rows);
    if rows != [] {
      assert rows == [rows[0]] + rows[1..];
      NeededCons(rows[0], rows[1..]);
      WeightOf(rows[0]);
      AddLenIsShort(s.added, rows[1..]);
      StoppedStays(Step(s, rows[0]), rows[1..]);
      if Step(s, rows[0]).status == Going { WhenSumOverflows(Step(s, rows[0]), rows[1..]); }
    }
  }

  lemma StoppedStays(s: State, rows: seq<Row>)
    ensures s.status != Going ==> Run(s, rows) == s
  {
  }

  lemma {:induction false} WhenNoneShort(rows: seq<Row>)
    ensures ShortRows(rows) == 0 <==> forall i :: 0 <= i < |rows| ==> CountedInFull(rows[i])
  {
    hide CountedInFull;
    if rows != [] {
      WhenNoneShort(rows[1..]);
      assert forall i :: 0 < i < |rows| ==> rows[i] == rows[1..][i - 1];
    }
  }

  /** Below 2^64, add_len is the number of bytes that the rows need if and only if the value of every attribute row has a
      length of 0 or 7 modulo 8. */
  lemma WhenAddLenIsSize(added: u64, rows: seq<Row>)
    requires added + Needed(rows) < TWO64
    ensures L.Total(added, rows) == added + Needed(rows) <==> forall i :: 0 <= i < |rows| ==> CountedInFull(rows[i])
  {
    AddLenIsShort(added, rows);
    WhenNoneShort(rows);
  }

  /** Given room for every row, that is when add_len is the length of the reply. */
  lemma WhenAddLenIsReplied(allocLen: u64, rows: seq<Row>)
    requires Aligned(allocLen) && Needed(rows) <= allocLen < TWO32
    ensures var s := Run(Start(allocLen), rows);
            s.added == |s.reply.Reply()| <==> forall i :: 0 <= i < |rows| ==> CountedInFull(rows[i])
  {
    hide Run, Shape.Reply;
    RoomyRun(allocLen, rows);
    L.ReplySize(Start(allocLen), rows);
    StartReplies(allocLen);
    L.AddLenIgnoresAllocation(Start(allocLen), rows);
    WhenAddLenIsSize(0, rows);
  }

  lemma StartReplies(allocLen: u64)
    ensures Start(allocLen).reply.Reply() == []
  {
  }

  /** A value of one byte: the object and its attribute take 40 bytes, add_len counts 32. */
  lemma OneByteIsShort(oid: u64, page: u32, number: u32, x: byte)
    requires page != 3
    ensures var rows := [Row(oid, 3, 0, []), Row(oid, page, number, [x])];
            Needed(rows) == 40 && L.Total(0, rows) == 32
  {
    var rows := [Row(oid, USER_TMSTMP_PG, 0, []), Row(oid, page, number, [x])];
    assert rows[..1] == [rows[0]] && Needed([]) == 0 && [rows[0]][..0] == [];
    assert Needed([rows[0]]) == SizeOf(rows[0]) == 16 && SizeOf(rows[1]) == 24;
    assert rows[1..] == [rows[1]] && ShortRows([rows[1]]) == 1;
    AddLenIsShort(0, rows);
  }

  // ---------- owners ----------

  /** The entries of a descriptor with the object it is for. */
  function Pairs(d: Desc): (ps: seq<(u64, Entry)>)
    ensures |ps| == |d.entries|
  {
    seq(|d.entries|, i requires 0 <= i < |d.entries| => (d.oid, d.entries[i]))
  }

  function Attributed(ds: seq<Desc>): seq<(u64, Entry)> {
    if ds == [] then [] else Attributed(ds[..|ds| - 1]) + Pairs(ds[|ds| - 1])
  }

  /** The attributes of the rows with the objects that have them. */
  function Rightful(rows: seq<Row>): seq<(u64, Entry)> {
    if rows == [] then []
    else
      var row := rows[|rows| - 1];
      Rightful(rows[..|rows| - 1]) + if row.Opens() then [] else [(row.oid, row.Whole())]
  }

  ghost predicate Owned(r: Shape, rows: seq<Row>) { r.orphans == [] && Attributed(r.descs) == Rightful(rows) }

  /** The rows of each object start with an opening row: any other row follows a row of the same object. */
  ghost predicate ObjectsOpen(rows: seq<Row>) {
    forall i :: 0 <= i < |rows| && !rows[i].Opens() ==> i > 0 && rows[i - 1].oid == rows[i].oid
  }

  lemma ObjectsOpenSnoc(front: seq<Row>, row: Row)
    ensures ObjectsOpen(front + [row]) <==>
              ObjectsOpen(front) && (row.Opens() || (front != [] && front[|front| - 1].oid == row.oid))
  {
    var rows := front + [row];
    assert forall i :: 0 <= i < |front| ==> rows[i] == front[i];
    if ObjectsOpen(front) && (row.Opens() || (front != [] && front[|front| - 1].oid == row.oid)) {
      forall i | 0 <= i < |rows| && !rows[i].Opens() ensures i > 0 && rows[i - 1].oid == rows[i].oid {
        if i < |front| { assert front[i] == rows[i]; }
      }
    }
    if ObjectsOpen(rows) {
      forall i | 0 <= i < |front| && !front[i].Opens() ensures i > 0 && front[i - 1].oid == front[i].oid {
        assert rows[i] == front[i];
      }
      assert rows[|front|] == row;
    }
  }

  lemma AttributedOpened(r: Shape, oid: u64)
    ensures Attributed(r.Opened(oid).descs) == Attributed(r.descs)
  {
    var ds := r.descs + [Desc(oid, [])];
    assert ds[..|ds| - 1] == r.descs && Pairs(Desc(oid, [])) == [];
    assert Attributed(r.descs) + [] == Attributed(r.descs);
  }

  lemma AttributedExtended(r: Shape, e: Entry)
    requires r.descs != []
    ensures Attributed(r.Extended(e).descs) == Attributed(r.descs) + [(r.descs[|r.descs| - 1].oid, e)]
  {
    var d := r.descs[|r.descs| - 1];
    var ds := r.Extended(e).descs;
    assert ds[..|ds| - 1] == r.descs[..|r.descs| - 1];
    assert Pairs(d.(entries := d.entries + [e])) == Pairs(d) + [(d.oid, e)];
    Assoc(Attributed(r.descs[..|r.descs| - 1]), Pairs(d), [(d.oid, e)]);
  }

  lemma SnocEqual<T>(a: seq<T>, x: T, b: seq<T>, y: T)
    ensures a + [x] == b + [y] <==> a == b && x == y
  {
    if a + [x] == b + [y] {
      assert |a| == |b|;
      assert a == (a + [x])[..|a|] && b == (b + [y])[..|b|];
      assert (a + [x])[|a|] == x && (b + [y])[|b|] == y;
    }
  }

  lemma {:induction false} WhenGroupedOwned(rows: seq<Row>)
    ensures Owned(Grouped(rows), rows) <==> ObjectsOpen(rows)
    ensures ObjectsOpen(rows) && rows != [] ==>
              var ds := Grouped(rows).descs; ds != [] && ds[|ds| - 1].oid == rows[|rows| - 1].oid
    decreases |rows|
  {
    if rows != [] {
      var front, row := rows[..|rows| - 1], rows[|rows| - 1];
      var r := Grouped(front);
      WhenGroupedOwned(front);
      assert rows == front + [row];
      ObjectsOpenSnoc(front, row);
      OwnedNext(r, front, row);
    }
  }

  /** A row keeps the entries owned exactly when it opens an object or belongs to the last one. */
  lemma OwnedNext(r: Shape, front: seq<Row>, row: Row)
    ensures var t := if row.Opens() then r.Opened(row.oid) else r.Extended(row.Whole());
            && (Owned(t, front + [row]) <==>
                  Owned(r, front) && (row.Opens() || (r.descs != [] && r.descs[|r.descs| - 1].oid == row.oid)))
            && (row.Opens() ==> t.descs != [] && t.descs[|t.descs| - 1].oid == row.oid)
            && (!row.Opens() && r.descs != [] ==>
                  t.descs != [] && t.descs[|t.descs| - 1].oid == r.descs[|r.descs| - 1].oid)
  {
    hide Attributed;
    var rows := front + [row];
    assert rows[..|rows| - 1] == front && rows[|rows| - 1] == row;
    if row.Opens() {
      AttributedOpened(r, row.oid);
      assert Rightful(front) + [] == Rightful(front);
    } else if r.descs != [] {
      AttributedExtended(r, row.Whole());
      SnocEqual(Attributed(r.descs), (r.descs[|r.descs| - 1].oid, row.Whole()), Rightful(front), (row.oid, row.Whole()));
    }
  }

  /** The entries of the reply belong to the objects that have the attributes, down to the one that may be cut. */
  ghost predicate OwnedUpTo(r: Shape, rows: seq<Row>, k: nat, part: seq<Entry>)
    requires k + |part| <= |rows| && |part| <= 1
  {
    r.orphans == [] && Attributed(r.descs) == Rightful(rows[..k]) + if part == [] then [] else [(rows[k].oid, part[0])]
  }

  lemma WhenPartOwned(rows: seq<Row>, k: nat, part: seq<Entry>)
    requires k + |part| <= |rows| && |part| <= 1 && (part != [] ==> !rows[k].Opens())
    ensures OwnedUpTo(UpTo(rows, k, part), rows, k, part) <==> ObjectsOpen(rows[..k + |part|])
  {
    hide Attributed, ObjectsOpen, Rightful, Grouped, Row.Opens;
    WhenGroupedOwned(rows[..k]);
    var front, r := rows[..k], Grouped(rows[..k]);
    if part == [] {
      assert Rightful(front) + [] == Rightful(front);
    } else {
      assert rows[..k + 1] == front + [rows[k]];
      ObjectsOpenSnoc(front, rows[k]);
      PartOwned(r, front, rows[k].oid, part[0]);
      assert front != [] ==> ObjectsOpen(front) ==> r.descs != [] && r.descs[|r.descs| - 1].oid == front[|front| - 1].oid;
      if front == [] { NothingGrouped(front); }
    }
  }

  lemma NothingGrouped(rows: seq<Row>)
    requires rows == []
    ensures Grouped(rows).descs == []
  {
  }

  lemma PartOwned(r: Shape, front: seq<Row>, oid: u64, e: Entry)
    ensures var t := r.Extended(e);
            t.orphans == [] && Attributed(t.descs) == Rightful(front) + [(oid, e)]
            <==> Owned(r, front) && r.descs != [] && r.descs[|r.descs| - 1].oid == oid
  {
    hide Attributed, Rightful;
    if r.descs != [] {
      AttributedExtended(r, e);
      SnocEqual(Attributed(r.descs), (r.descs[|r.descs| - 1].oid, e), Rightful(front), (oid, e));
    }
  }

  /** Whatever is cut off, each entry of the reply lands under its own object if and only if in what has been placed the
      rows of each object start with an opening row. */
  lemma WhenEntriesAreOwned(allocLen: u64, rows: seq<Row>) returns (k: nat, part: seq<Entry>)
    requires Aligned(allocLen) && HEADER <= allocLen < TWO32 && forall row <- rows :: row.oid != 0
    ensures k + |part| <= |rows| && |part| <= 1
    ensures var s := Run(Start(allocLen), rows);
            && SameContent(s.reply, UpTo(rows, k, part))
            && (s.cont == 0 ==> k == |rows|) && (s.cont != 0 ==> k < |rows| && s.cont == rows[k].oid)
            && (OwnedUpTo(s.reply, rows, k, part) <==> ObjectsOpen(rows[..k + |part|]))
  {
    hide Run, ObjectsOpen, UpTo, Attributed, Rightful, Row.Opens, Row.Whole;
    k, part := AnyRun(allocLen, rows);
    assert part != [] ==> part[0] in part;
    WhenPartOwned(rows, k, part);
  }
}
