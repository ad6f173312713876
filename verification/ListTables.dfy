/** LIST with attributes from the tables: the rows its statement gives for an initial id, and what a client collects
    that resumes the listing. */
module ListTables {
  import opened Bytes
  import opened ListEntry
  import opened ListWithAttrs
  import opened Sql
  import L = ListReply
  import N = Namespace
  import opened Pages
  import NR = NamespaceRuns
  import I = IdListing

  /** A wanted attribute. */
  datatype Wanted = Wanted(page: u32, number: u32) {
    /** The page name of the timestamp page, which the statement asks for anyway. */
    predicate IsStamp() { page == USER_TMSTMP_PG && number == 0 }

    /** Comes back as an entry: it opens no descriptor, and the literals of the statement can name it. */
    predicate Nameable() { !IsStamp() && page < TWO31 && number < TWO31 }
  }

  const STAMP := Wanted(USER_TMSTMP_PG, 0)

  type AttrTable = map<(u64, u64, u32, u32), seq<byte>>

  predicate Has(attr: AttrTable, pid: u64, oid: u64, w: Wanted) {
    (pid, oid, w.page, w.number) in attr && |attr[(pid, oid, w.page, w.number)]| < TWO16
  }

  /** obj.pid = %llu AND attr.page = %u AND attr.number = %u, which only the row with just these values can meet. */
  predicate Listed(pid: u64, w: Wanted) { Equals64(pid, pid) && Equals32(w.page, w.page) && Equals32(w.number, w.number) }

  lemma WhenListed(pid: u64, w: Wanted)
    ensures Listed(pid, w) <==> pid < TWO63 && w.page < TWO31 && w.number < TWO31
  {
    WhenEquals64(pid, pid);
    WhenEquals32(w.page, w.page);
    WhenEquals32(w.number, w.number);
  }

  /** One SELECT of the statement for one object. */
  function RowFor(attr: AttrTable, pid: u64, oid: u64, w: Wanted): seq<Row> {
    if Has(attr, pid, oid, w) && Listed(pid, w)
    then [Row(oid, w.page, w.number, attr[(pid, oid, w.page, w.number)])] else []
  }

  function WantedRows(attr: AttrTable, pid: u64, oid: u64, ws: seq<Wanted>): seq<Row> {
    if ws == [] then [] else RowFor(attr, pid, oid, ws[0]) + WantedRows(attr, pid, oid, ws[1..])
  }

  /** The rows of some objects: for each its timestamp row and the wanted attributes it has. */
  function TableRows(attr: AttrTable, pid: u64, ids: seq<u64>, ws: seq<Wanted>): seq<Row> {
    if ids == [] then []
    else RowFor(attr, pid, ids[0], STAMP) + WantedRows(attr, pid, ids[0], ws) + TableRows(attr, pid, ids[1..], ws)
  }

  /** obj.oid >= %llu: from 2^63 on the literal is a REAL above every stored id. */
  function Rest(ids: seq<u64>, initial: u64): seq<u64> { if initial < TWO63 then I.From(ids, initial) else [] }

  /** Unlike the parameter of the listing without attributes, the literal compares as the unsigned number it stands for;
      but an object with an id from 2^63 on is stored with a negative one, and never listed. */
  lemma RestMeans(ids: seq<u64>, initial: u64)
    requires I.Ascending(ids)
    ensures forall id: u64 :: id in Rest(ids, initial) <==> id in ids && initial <= id < TWO63
  {
    hide I.From;
    if initial < TWO63 { I.FromMeans(ids, initial); }
  }

  /** Ids that SQLite orders as uint64_t does. */
  ghost predicate Low(ids: seq<u64>) {
    (forall i, j :: 0 <= i < j < |ids| ==> ids[i] < ids[j]) && forall i :: 0 <= i < |ids| ==> 0 < ids[i] < TWO63
  }

  lemma RestIsLow(ids: seq<u64>, initial: u64)
    requires I.Listable(ids)
    ensures Low(Rest(ids, initial))
  {
    hide I.From, Signed;
    if initial < TWO63 {
      var k := I.FromIsSuffix(ids, initial);
      SignedIsLow(initial);
      forall i | 0 <= i < |ids[k..]| ensures 0 < ids[k..][i] < TWO63 && Signed(ids[k..][i]) == ids[k..][i] {
        assert ids[k..][i] == ids[k + i] && Signed(ids[k + i]) >= 0;
        SignedIsLow(ids[k + i]);
      }
    }
  }

  lemma SignedIsLow(id: u64)
    ensures Signed(id) >= 0 <==> id < TWO63
    ensures id < TWO63 ==> Signed(id) == id
  {
  }

  /** The statement of mtq_list_oids_attr for an initial id. */
  function StatementRows(attr: AttrTable, pid: u64, ids: seq<u64>, ws: seq<Wanted>, initial: u64): seq<Row> {
    TableRows(attr, pid, Rest(ids, initial), ws)
  }

  // ---------- as a listing of objects ----------

  predicate Stamped(attr: AttrTable, pid: u64, ids: seq<u64>) {
    forall i :: 0 <= i < |ids| ==> RowFor(attr, pid, ids[i], STAMP) != []
  }

  predicate NoStamp(ws: seq<Wanted>) { forall i :: 0 <= i < |ws| ==> !ws[i].IsStamp() }

  function ObjectOf(attr: AttrTable, pid: u64, oid: u64, ws: seq<Wanted>): L.Object
    requires RowFor(attr, pid, oid, STAMP) != []
  {
    L.Object(oid, RowFor(attr, pid, oid, STAMP)[0].value, WantedRows(attr, pid, oid, ws))
  }

  function Objects(attr: AttrTable, pid: u64, ids: seq<u64>, ws: seq<Wanted>): (os: seq<L.Object>)
    requires Stamped(attr, pid, ids)
    ensures |os| == |ids| && forall i :: 0 <= i < |ids| ==> os[i] == ObjectOf(attr, pid, ids[i], ws)
  {
    seq(|ids|, i requires 0 <= i < |ids| => ObjectOf(attr, pid, ids[i], ws))
  }

  lemma {:induction false} WantedRowsValid(attr: AttrTable, pid: u64, oid: u64, ws: seq<Wanted>)
    requires NoStamp(ws)
    ensures forall i :: 0 <= i < |WantedRows(attr, pid, oid, ws)| ==>
              WantedRows(attr, pid, oid, ws)[i].oid == oid && !WantedRows(attr, pid, oid, ws)[i].Opens()
  {
    if ws != [] {
      assert !ws[0].IsStamp();
      WantedRowsValid(attr, pid, oid, ws[1..]);
    }
  }

  lemma ObjectsList(attr: AttrTable, pid: u64, ids: seq<u64>, ws: seq<Wanted>)
    requires Stamped(attr, pid, ids) && NoStamp(ws) && Low(ids)
    ensures L.Listing(Objects(attr, pid, ids, ws))
  {
    hide WantedRows, RowFor;
    var os := Objects(attr, pid, ids, ws);
    forall i | 0 <= i < |os| ensures os[i].Valid() { WantedRowsValid(attr, pid, ids[i], ws); }
  }

  lemma {:induction false} RowsOfObjects(attr: AttrTable, pid: u64, ids: seq<u64>, ws: seq<Wanted>)
    requires Stamped(attr, pid, ids)
    ensures TableRows(attr, pid, ids, ws) == L.Rows(Objects(attr, pid, ids, ws))
  {
    hide WantedRows;
    var os := Objects(attr, pid, ids, ws);
    if ids != [] {
      StampedTail(attr, pid, ids);
      RowsOfObjects(attr, pid, ids[1..], ws);
      assert os[1..] == Objects(attr, pid, ids[1..], ws);
      assert RowFor(attr, pid, ids[0], STAMP) == [os[0].Opening()];
    }
  }

  lemma StampedTail(attr: AttrTable, pid: u64, ids: seq<u64>)
    requires Stamped(attr, pid, ids) && ids != []
    ensures Stamped(attr, pid, ids[1..])
  {
    hide RowFor;
    forall i | 0 <= i < |ids[1..]| ensures RowFor(attr, pid, ids[1..][i], STAMP) != [] {
      assert ids[1..][i] == ids[i + 1];
    }
  }

  // ---------- resuming ----------

  /** Of a reply a client keeps all descriptors, save one that was cut: the one for the continuation id. */
  function Kept(ds: seq<Desc>, cont: u64): seq<Desc> {
    if ds != [] && ds[|ds| - 1].oid == cont then ds[..|ds| - 1] else ds
  }

  /** The space behind the header of a reply. */
  function Room(allocLen: u64): u64
    requires allocLen >= I.REPLY_HEADER
  {
    allocLen - I.REPLY_HEADER
  }

  /** The allocations for which the builder cannot fail once an object is open. */
  predicate Suitable(allocLen: u64) { allocLen % 8 == 0 && 24 <= allocLen < TWO32 + 40 }

  lemma RoomIsSuitable(allocLen: u64)
    requires Suitable(allocLen)
    ensures allocLen >= I.REPLY_HEADER && Aligned(Room(allocLen)) && Room(allocLen) < TWO32 + HEADER
  {
  }

  /** The descriptors that a client collects which sends LIST with no list id and passes each continuation id as the next
      initial id; it gives up when that does not get it further. */
  function Collect(attr: AttrTable, pid: u64, ids: seq<u64>, ws: seq<Wanted>, initial: u64, allocLen: u64): seq<Desc>
    requires allocLen >= I.REPLY_HEADER
    decreases |Rest(ids, initial)|
  {
    var s := I.AttrsRun((i: u64) => StatementRows(attr, pid, ids, ws, i), initial, 0, allocLen);
    if s.cont == 0 then s.reply.descs
    else if |Rest(ids, s.cont)| >= |Rest(ids, initial)| then []
    else Kept(s.reply.descs, s.cont) + Collect(attr, pid, ids, ws, s.cont, allocLen)
  }

  lemma KeptUpTo(ds: seq<Desc>, os: seq<L.Object>, k: nat)
    requires L.Listing(os) && k < |os| && L.UpTo(ds, os, k)
    ensures Kept(ds, os[k].oid) == L.Descs(os[..k])
  {
    if |ds| == k && k > 0 { assert os[..k][k - 1].oid < os[k].oid; }
  }

  lemma DescsSplit(os: seq<L.Object>, k: nat)
    requires k <= |os|
    ensures L.Descs(os) == L.Descs(os[..k]) + L.Descs(os[k..])
  {
  }

  /** One reply of a listing that has come to the j-th id. */
  lemma OneReply(attr: AttrTable, pid: u64, ids: seq<u64>, ws: seq<Wanted>, j: nat, allocLen: u64) returns (k: nat)
    requires Stamped(attr, pid, ids) && NoStamp(ws) && Low(ids) && Aligned(allocLen) && allocLen < TWO32 + HEADER
    requires j <= |ids|
    ensures var (s, os) := (Run(Start(allocLen), TableRows(attr, pid, ids[j..], ws)), Objects(attr, pid, ids, ws)[j..]);
            && (s.cont == 0 ==> s.reply.descs == L.Descs(os) && L.FitUpTo(os, |os|, allocLen))
            && (s.cont != 0 ==>
                  && j + k < |ids| && s.cont == ids[j + k] && Kept(s.reply.descs, s.cont) == L.Descs(os[..k])
                  && L.FitUpTo(os, k, allocLen) && (k == 0 ==> !L.Fits(os[0], allocLen)))
  {
    hide Run, TableRows, L.Fits, L.FitUpTo, L.UpTo, L.Descs, L.Listing, L.Rows, ObjectOf, RowFor, Stamped, NoStamp, Low, Kept;
    k := 0;
    StampedFrom(attr, pid, ids, j);
    LowFrom(ids, j);
    var os := Objects(attr, pid, ids[j..], ws);
    assert os == Objects(attr, pid, ids, ws)[j..];
    assert os != [] ==> os[0] == Objects(attr, pid, ids, ws)[j];
    ObjectsList(attr, pid, ids[j..], ws);
    RowsOfObjects(attr, pid, ids[j..], ws);
    L.Continuation(allocLen, os);
    var s := Run(Start(allocLen), L.Rows(os));
    if s.cont != 0 {
      k :| 0 <= k < |os| && s.cont == os[k].oid && L.UpTo(s.reply.descs, os, k) && L.FitUpTo(os, k, allocLen);
      ContIsId(attr, pid, ids, ws, j, k);
      KeptUpTo(s.reply.descs, os, k);
    }
  }

  /** One reply of the listing and what the client goes on with. */
  lemma CollectNext(attr: AttrTable, pid: u64, ids: seq<u64>, ws: seq<Wanted>, initial: u64, allocLen: u64)
    requires allocLen >= I.REPLY_HEADER
    ensures var s := Run(Start(Room(allocLen)), TableRows(attr, pid, Rest(ids, initial), ws));
            Collect(attr, pid, ids, ws, initial, allocLen)
            == if s.cont == 0 then s.reply.descs
               else if |Rest(ids, s.cont)| >= |Rest(ids, initial)| then []
               else Kept(s.reply.descs, s.cont) + Collect(attr, pid, ids, ws, s.cont, allocLen)
  {
    hide Run, TableRows, Rest, Kept;
  }

  /** A resumed listing of the rest from some id on collects the rest exactly when each object of it fits alone. */
  lemma {:induction false} CollectFrom(attr: AttrTable, pid: u64, ids: seq<u64>, ws: seq<Wanted>, initial: u64, j: nat,
                                       allocLen: u64)
    requires Stamped(attr, pid, ids) && NoStamp(ws) && Low(ids) && Suitable(allocLen)
    requires j <= |ids| && Rest(ids, initial) == ids[j..]
    ensures var os := Objects(attr, pid, ids, ws)[j..];
            Collect(attr, pid, ids, ws, initial, allocLen) == L.Descs(os) <==> L.FitUpTo(os, |os|, Room(allocLen))
    decreases |ids| - j
  {
    hide Run, TableRows, Collect, Suitable, L.Fits, L.FitUpTo, L.Descs, ObjectOf, RowFor, Stamped, NoStamp, Low, Kept, Rest;
    RoomIsSuitable(allocLen);
    var os, room := Objects(attr, pid, ids, ws), Room(allocLen);
    CollectNext(attr, pid, ids, ws, initial, allocLen);
    var k := OneReply(attr, pid, ids, ws, j, room);
    var s := Run(Start(room), TableRows(attr, pid, ids[j..], ws));
    if s.cont != 0 {
      FromRow(ids, j + k);
      if k == 0 {
        L.FirstFits(os[j..], room);
      } else {
        CollectFrom(attr, pid, ids, ws, s.cont, j + k, allocLen);
        DescsSplit(os[j..], k);
        assert os[j..][k..] == os[j + k..];
        L.FitSplit(os[j..], k, room);
        L.SameFront(L.Descs(os[j..][..k]), Collect(attr, pid, ids, ws, s.cont, allocLen), L.Descs(os[j + k..]));
      }
    }
  }

  lemma ContIsId(attr: AttrTable, pid: u64, ids: seq<u64>, ws: seq<Wanted>, j: nat, k: nat)
    requires Stamped(attr, pid, ids) && j + k < |ids|
    ensures Objects(attr, pid, ids, ws)[j..][k].oid == ids[j + k]
  {
    hide RowFor, WantedRows;
  }

  lemma StampedFrom(attr: AttrTable, pid: u64, ids: seq<u64>, j: nat)
    requires Stamped(attr, pid, ids) && j <= |ids|
    ensures Stamped(attr, pid, ids[j..])
  {
    hide RowFor;
    forall i | 0 <= i < |ids[j..]| ensures RowFor(attr, pid, ids[j..][i], STAMP) != [] {
      assert ids[j..][i] == ids[j + i];
    }
  }

  lemma LowFrom(ids: seq<u64>, j: nat)
    requires Low(ids) && j <= |ids|
    ensures Low(ids[j..])
  {
  }

  lemma FromRow(ids: seq<u64>, k: nat)
    requires Low(ids) && k < |ids|
    ensures Rest(ids, ids[k]) == ids[k..]
  {
    I.FromDrops(ids, ids[k], k);
  }

  // ---------- when the listing is complete ----------

  /** The wanted attributes that an object has, whether or not the statement can name them. */
  function OwnRows(attr: AttrTable, pid: u64, oid: u64, ws: seq<Wanted>): seq<Row> {
    if ws == [] then []
    else
      (if Has(attr, pid, oid, ws[0])
       then [Row(oid, ws[0].page, ws[0].number, attr[(pid, oid, ws[0].page, ws[0].number)])] else [])
      + OwnRows(attr, pid, oid, ws[1..])
  }

  /** The descriptor that an object should have. */
  function Due(attr: AttrTable, pid: u64, oid: u64, ws: seq<Wanted>): Desc {
    Desc(oid, L.WholeEntries(OwnRows(attr, pid, oid, ws)))
  }

  predicate Complete(ds: seq<Desc>, attr: AttrTable, pid: u64, ids: seq<u64>, ws: seq<Wanted>) {
    |ds| == |ids| && forall i :: 0 <= i < |ids| ==> ds[i] == Due(attr, pid, ids[i], ws)
  }

  /** Room for the descriptor and, behind its entries, for the start of another. */
  predicate FitsAlone(d: Desc, allocLen: u64) { |d.Image()| + (if d.entries == [] then 0 else HEADER) <= allocLen }

  predicate AllNameable(attr: AttrTable, pid: u64, oid: u64, ws: seq<Wanted>) {
    forall j :: 0 <= j < |ws| && Has(attr, pid, oid, ws[j]) ==> ws[j].Nameable()
  }

  lemma {:induction false} NameableIsListed(attr: AttrTable, pid: u64, oid: u64, ws: seq<Wanted>)
    requires pid < TWO63 && AllNameable(attr, pid, oid, ws)
    ensures WantedRows(attr, pid, oid, ws) == OwnRows(attr, pid, oid, ws)
  {
    hide Has, Listed;
    if ws != [] {
      WhenListed(pid, ws[0]);
      assert AllNameable(attr, pid, oid, ws[1..]) by {
        forall j | 0 <= j < |ws[1..]| && Has(attr, pid, oid, ws[1..][j]) ensures ws[1..][j].Nameable() {
          assert ws[1..][j] == ws[j + 1];
        }
      }
      NameableIsListed(attr, pid, oid, ws[1..]);
    }
  }

  lemma {:induction false} OwnRowOf(attr: AttrTable, pid: u64, oid: u64, ws: seq<Wanted>, j: nat) returns (i: nat)
    requires j < |ws| && Has(attr, pid, oid, ws[j])
    ensures i < |OwnRows(attr, pid, oid, ws)|
    ensures OwnRows(attr, pid, oid, ws)[i].page == ws[j].page && OwnRows(attr, pid, oid, ws)[i].number == ws[j].number
    decreases ws
  {
    hide Has;
    if j == 0 {
      i := 0;
    } else {
      i := OwnRowOf(attr, pid, oid, ws[1..], j - 1);
      if Has(attr, pid, oid, ws[0]) { i := i + 1; }
    }
  }

  /** For an object with a timestamp row in a partition that a literal can name, and with nothing but nameable entries. */
  ghost predicate Grounded(d: Desc, attr: AttrTable, pid: u64) {
    && pid < TWO63 && d.oid < TWO63 && Has(attr, pid, d.oid, STAMP)
    && forall e <- d.entries :: Wanted(e.page, e.number).Nameable()
  }

  ghost predicate AllGrounded(ds: seq<Desc>, attr: AttrTable, pid: u64) { forall d <- ds :: Grounded(d, attr, pid) }

  /** A row that the statement can give. */
  ghost predicate Given(row: Row, attr: AttrTable, pid: u64) {
    && row.oid < TWO63 && Has(attr, pid, row.oid, Wanted(row.page, row.number))
    && Listed(pid, Wanted(row.page, row.number))
  }

  lemma {:induction false} WantedRowsGiven(attr: AttrTable, pid: u64, oid: u64, ws: seq<Wanted>)
    requires oid < TWO63
    ensures forall row <- WantedRows(attr, pid, oid, ws) :: Given(row, attr, pid)
  {
    hide Has, Listed;
    if ws != [] { WantedRowsGiven(attr, pid, oid, ws[1..]); }
  }

  lemma {:induction false} TableRowsGiven(attr: AttrTable, pid: u64, ids: seq<u64>, ws: seq<Wanted>)
    requires forall i :: 0 <= i < |ids| ==> ids[i] < TWO63
    ensures forall row <- TableRows(attr, pid, ids, ws) :: Given(row, attr, pid)
  {
    hide Has, Listed, WantedRows;
    if ids != [] {
      WantedRowsGiven(attr, pid, ids[0], ws);
      TableRowsGiven(attr, pid, ids[1..], ws);
    }
  }

  lemma GroundedStep(s: State, row: Row, attr: AttrTable, pid: u64)
    requires AllGrounded(s.reply.descs, attr, pid) && Given(row, attr, pid)
    ensures AllGrounded(Step(s, row).reply.descs, attr, pid)
  {
    hide Has, Listed, Low32;
    WhenListed(pid, Wanted(row.page, row.number));
    var ds, n := s.reply.descs, |s.reply.descs|;
    if row.Opens() {
      assert Grounded(Desc(row.oid, []), attr, pid);
    } else if n > 0 && s.left >= HEADER && PackError(0, Low32(s.left)) == 0 {
      var e := Packed(row.page, row.number, |row.value|, Some(row.value), Low32(s.left));
      assert ds[n - 1] in ds;
      assert Grounded(ds[n - 1].(entries := ds[n - 1].entries + [e]), attr, pid);
      assert forall d <- ds[..n - 1] :: d in ds;
    }
  }

  lemma {:induction false} GroundedRun(s: State, rows: seq<Row>, attr: AttrTable, pid: u64)
    requires AllGrounded(s.reply.descs, attr, pid) && forall row <- rows :: Given(row, attr, pid)
    ensures AllGrounded(Run(s, rows).reply.descs, attr, pid)
    decreases rows
  {
    hide Step, AllGrounded, Given;
    if rows != [] && s.status == Going {
      GroundedStep(s, rows[0], attr, pid);
      GroundedRun(Step(s, rows[0]), rows[1..], attr, pid);
    }
  }

  lemma KeptIsPrefix(ds: seq<Desc>, cont: u64)
    ensures Kept(ds, cont) <= ds
  {
  }

  /** However often it is resumed, a listing gives descriptors only for objects below 2^63 with a timestamp row in a
      partition below 2^63, and entries only for attributes that the statement can name. */
  lemma {:induction false} CollectGrounded(attr: AttrTable, pid: u64, ids: seq<u64>, ws: seq<Wanted>, initial: u64,
                                           allocLen: u64)
    requires I.Listable(ids) && allocLen >= I.REPLY_HEADER
    ensures AllGrounded(Collect(attr, pid, ids, ws, initial, allocLen), attr, pid)
    decreases |Rest(ids, initial)|
  {
    hide Run, TableRows, Rest, Given, Grounded, I.Listable, Collect, Kept;
    var room := Room(allocLen);
    var s := Run(Start(room), StatementRows(attr, pid, ids, ws, initial));
    CollectNext(attr, pid, ids, ws, initial, allocLen);
    KeptIsPrefix(s.reply.descs, s.cont);
    RestIsLow(ids, initial);
    TableRowsGiven(attr, pid, Rest(ids, initial), ws);
    GroundedRun(Start(room), StatementRows(attr, pid, ids, ws, initial), attr, pid);
    if s.cont != 0 && |Rest(ids, s.cont)| < |Rest(ids, initial)| {
      CollectGrounded(attr, pid, ids, ws, s.cont, allocLen);
    }
  }

  /** An object that the statement shows in full. */
  predicate Shown(attr: AttrTable, pid: u64, oid: u64, ws: seq<Wanted>) {
    pid < TWO63 && oid < TWO63 && Has(attr, pid, oid, STAMP) && AllNameable(attr, pid, oid, ws)
  }

  lemma DueIsGrounded(attr: AttrTable, pid: u64, oid: u64, ws: seq<Wanted>)
    requires Grounded(Due(attr, pid, oid, ws), attr, pid)
    ensures Shown(attr, pid, oid, ws)
  {
    hide Has, OwnRows;
    var d := Due(attr, pid, oid, ws);
    forall j | 0 <= j < |ws| && Has(attr, pid, oid, ws[j]) ensures ws[j].Nameable() {
      var i := OwnRowOf(attr, pid, oid, ws, j);
      assert d.entries[i] in d.entries;
    }
  }

  /** An object that a resumed listing collects. */
  predicate Collected(attr: AttrTable, pid: u64, oid: u64, ws: seq<Wanted>, allocLen: u64)
    requires allocLen >= I.REPLY_HEADER
  {
    Shown(attr, pid, oid, ws) && FitsAlone(Due(attr, pid, oid, ws), Room(allocLen))
  }

  /** A listing with attributes that is resumed from each continuation id collects, for every user object of the
      partition in order, exactly the wanted attributes that it has, if and only if, for every user object: its id and that
      of the partition are below 2^63, it has its timestamp row, every wanted attribute that it has lies below 2^31 with
      its page and its number and is not the timestamp row itself, and its descriptor fits alone. */
  lemma WhenListingIsComplete(s: N.State, pid: u64, ids: seq<u64>, ws: seq<Wanted>, allocLen: u64)
    requires NR.Contained(s.obj) && I.UserObjects(ids, s.obj, pid) && Suitable(allocLen)
    ensures Complete(Collect(s.attr, pid, ids, ws, 0, allocLen), s.attr, pid, ids, ws)
            <==> forall oid: u64 :: I.IsUserObject(s.obj, pid, oid) ==> Collected(s.attr, pid, oid, ws, allocLen)
  {
    hide Collect, FitsAlone, Shown, Due, Grounded, Rest, NR.Contained, I.Ascending;
    var ds := Collect(s.attr, pid, ids, ws, 0, allocLen);
    I.UserIdsListable(s.obj, pid, ids);
    assert forall i :: 0 <= i < |ids| ==> ids[i] in ids;
    CollectGrounded(s.attr, pid, ids, ws, 0, allocLen);
    if Complete(ds, s.attr, pid, ids, ws) {
      forall i | 0 <= i < |ids| ensures Shown(s.attr, pid, ids[i], ws) {
        assert ds[i] in ds;
        DueIsGrounded(s.attr, pid, ids[i], ws);
      }
    }
    if forall i :: 0 <= i < |ids| ==> Shown(s.attr, pid, ids[i], ws) {
      AllAreLow(s.attr, pid, ids, ws);
      if ids == [] {
        NothingToList(s.attr, pid, ids, ws, allocLen);
      } else {
        ShownIsComplete(s.attr, pid, ids, ws, allocLen);
      }
    }
  }

  lemma AllAreLow(attr: AttrTable, pid: u64, ids: seq<u64>, ws: seq<Wanted>)
    requires I.Listable(ids) && forall i :: 0 <= i < |ids| ==> Shown(attr, pid, ids[i], ws)
    ensures Low(ids)
  {
    hide Has, AllNameable;
  }

  lemma NothingToList(attr: AttrTable, pid: u64, ids: seq<u64>, ws: seq<Wanted>, allocLen: u64)
    requires ids == [] && allocLen >= I.REPLY_HEADER
    ensures Collect(attr, pid, ids, ws, 0, allocLen) == []
  {
  }

  lemma ShownIsComplete(attr: AttrTable, pid: u64, ids: seq<u64>, ws: seq<Wanted>, allocLen: u64)
    requires ids != [] && Low(ids) && Suitable(allocLen)
    requires forall i :: 0 <= i < |ids| ==> Shown(attr, pid, ids[i], ws)
    ensures Complete(Collect(attr, pid, ids, ws, 0, allocLen), attr, pid, ids, ws)
            <==> forall i :: 0 <= i < |ids| ==> FitsAlone(Due(attr, pid, ids[i], ws), Room(allocLen))
  {
    hide Collect, FitsAlone, Shown, Due, Low, Rest, RowFor, WantedRows, OwnRows, L.Fits;
    forall i | 0 <= i < |ids| ensures RowFor(attr, pid, ids[i], STAMP) != [] { ShownHasStamp(attr, pid, ids[i], ws); }
    ShownHasNoStamp(attr, pid, ids[0], ws);
    var os, ds := Objects(attr, pid, ids, ws), Collect(attr, pid, ids, ws, 0, allocLen);
    forall i | 0 <= i < |ids|
      ensures os[i].Whole() == Due(attr, pid, ids[i], ws)
      ensures L.Fits(os[i], Room(allocLen)) <==> FitsAlone(Due(attr, pid, ids[i], ws), Room(allocLen))
    {
      ShownIsDue(attr, pid, ids[i], ws, Room(allocLen));
    }
    FromRow0(ids);
    assert ids[0..] == ids && os[0..] == os;
    CollectFrom(attr, pid, ids, ws, 0, 0, allocLen);
    assert Complete(ds, attr, pid, ids, ws) ==> ds == L.Descs(os);
  }

  lemma FromRow0(ids: seq<u64>)
    requires Low(ids)
    ensures Rest(ids, 0) == ids[0..]
  {
    I.FromDrops(ids, 0, 0);
  }

  lemma ShownHasStamp(attr: AttrTable, pid: u64, oid: u64, ws: seq<Wanted>)
    requires Shown(attr, pid, oid, ws)
    ensures RowFor(attr, pid, oid, STAMP) != []
  {
    WhenListed(pid, STAMP);
  }

  lemma ShownHasNoStamp(attr: AttrTable, pid: u64, oid: u64, ws: seq<Wanted>)
    requires Shown(attr, pid, oid, ws)
    ensures NoStamp(ws)
  {
    forall j | 0 <= j < |ws| ensures !ws[j].IsStamp() { assert ws[j].IsStamp() ==> ws[j] == STAMP; }
  }

  lemma ShownIsDue(attr: AttrTable, pid: u64, oid: u64, ws: seq<Wanted>, allocLen: u64)
    requires Shown(attr, pid, oid, ws) && RowFor(attr, pid, oid, STAMP) != []
    ensures ObjectOf(attr, pid, oid, ws).Whole() == Due(attr, pid, oid, ws)
    ensures L.Fits(ObjectOf(attr, pid, oid, ws), allocLen) <==> FitsAlone(Due(attr, pid, oid, ws), allocLen)
  {
    hide RowFor, WantedRows, OwnRows, Has;
    NameableIsListed(attr, pid, oid, ws);
    var o, d := ObjectOf(attr, pid, oid, ws), Due(attr, pid, oid, ws);
    assert |d.Image()| == HEADER + |ListImage(d.entries)| && |d.entries| == |o.attrs|;
  }

  /** An attribute number from 2^31 on can be set, but it is never listed. */
  lemma LargeNumberIsNotListed()
    ensures var obj := map[(0, 0) := N.Root, (N.LB, 0) := N.Partition, (N.LB, N.LB) := N.UserObject];
            var s := N.State(obj, map[(N.LB, N.LB, USER_TMSTMP_PG, 0) := [0]], {}, map[(N.LB, N.LB) := []], N.NO_CACHE);
            var (t, r) := N.SetAttr(s, N.LB, N.LB, LUN_PG_LB, TWO31, [7]);
            var ws := [Wanted(LUN_PG_LB, TWO31)];
            && r.Done? && I.UserObjects([N.LB], obj, N.LB) && Due(t.attr, N.LB, N.LB, ws).entries != []
            && !Complete(Collect(t.attr, N.LB, [N.LB], ws, 0, 64), t.attr, N.LB, [N.LB], ws)
  {
    hide Collect;
    var obj := map[(0, 0) := N.Root, (N.LB, 0) := N.Partition, (N.LB, N.LB) := N.UserObject];
    var s := N.State(obj, map[(N.LB, N.LB, USER_TMSTMP_PG, 0) := [0]], {}, map[(N.LB, N.LB) := []], N.NO_CACHE);
    var t := N.SetAttr(s, N.LB, N.LB, LUN_PG_LB, TWO31, [7]).0;
    var ws := [Wanted(LUN_PG_LB, TWO31)];
    assert N.LB in [N.LB] && [N.LB][0] == N.LB;
    var ds := Collect(t.attr, N.LB, [N.LB], ws, 0, 64);
    CollectGrounded(t.attr, N.LB, [N.LB], ws, 0, 64);
    assert ws[1..] == [] && !ws[0].Nameable() && Has(t.attr, N.LB, N.LB, ws[0]);
    assert Complete(ds, t.attr, N.LB, [N.LB], ws) ==> ds[0] in ds;
    if Grounded(Due(t.attr, N.LB, N.LB, ws), t.attr, N.LB) { DueIsGrounded(t.attr, N.LB, N.LB, ws); }
  }

  lemma OneLargeId(initial: u64)
    ensures Rest([TWO63], initial) == []
  {
    assert [TWO63][1..] == [];
    if initial < TWO63 { I.FromDrops([TWO63], initial, 1); }
  }

  /** CREATE accepts the id 2^63, and no listing with attributes shows the object, wherever it starts. */
  lemma LargeIdIsNotListed(ws: seq<Wanted>, initial: u64)
    ensures var obj := map[(0, 0) := N.Root, (N.LB, 0) := N.Partition];
            var s := N.State(obj, map[], {}, map[], N.NO_CACHE);
            var (t, r) := N.Create(s, N.LB, TWO63, 1, N.NO_FAULTS);
            && r.Done? && I.UserObjects([TWO63], t.obj, N.LB) && Rest([TWO63], initial) == []
            && StatementRows(t.attr, N.LB, [TWO63], ws, initial) == []
  {
    var obj := map[(0, 0) := N.Root, (N.LB, 0) := N.Partition];
    var s := N.State(obj, map[], {}, map[], N.NO_CACHE);
    var t := N.Create(s, N.LB, TWO63, 1, N.NO_FAULTS).0;
    var end := Add64(TWO63, 1);
    assert end == TWO63 + 1;
    assert N.CreateLoop(N.WithObject(s, N.LB, TWO63), N.LB, TWO63, TWO63 + 1, end, N.NO_FAULTS)
           == (N.WithObject(s, N.LB, TWO63), true);
    assert N.CreateLoop(s, N.LB, TWO63, TWO63, end, N.NO_FAULTS) == (N.WithObject(s, N.LB, TWO63), true);
    assert TWO63 in [TWO63] && [TWO63][1..] == [];
    assert t.obj == obj[(N.LB, TWO63) := N.UserObject];
    OneLargeId(initial);
  }
}
