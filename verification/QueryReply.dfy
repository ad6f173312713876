/** The reply to QUERY: the ordered result packed behind the 13-byte header, and the command around it. */
module QueryReply {
  import opened Bytes
  import opened Namespace
  import opened QueryCriteria
  import opened Query
  import opened IdListing
  import opened Sql

  const ML_ODL_OFF := 13
  const MINQLISTLEN := 8

  // ---------- ORDER BY ----------

  method Least(ids: set<u64>) returns (x: u64)
    requires ids != {}
    ensures x in ids && forall y <- ids :: Signed(x) <= Signed(y)
  {
    x :| x in ids;
    var rest: set<u64> := ids - {x};
    while rest != {}
      invariant x in ids && rest <= ids && forall y <- ids :: y in rest || Signed(x) <= Signed(y)
      decreases |rest|
    {
      var y: u64 :| y in rest;
      rest := rest - {y};
      if Signed(y) < Signed(x) { x := y; }
    }
  }

  method OrderedRows(ids: set<u64>) returns (rows: seq<u64>)
    ensures Ascending(rows) && forall id: u64 :: id in rows <==> id in ids
  {
    rows := [];
    var rest: set<u64> := ids;
    while rest != {}
      invariant rest <= ids && Ascending(rows)
      invariant forall id: u64 :: id in rows <==> id in ids && id !in rest
      invariant forall i, y: u64 :: 0 <= i < |rows| && y in rest ==> Signed(rows[i]) < Signed(y)
      decreases |rest|
    {
      var x := Least(rest);
      rows := rows + [x];
      rest := rest - {x};
    }
  }

  /** That order, in which ids from 2^63 on come first, is the one of uint64_t exactly when all ids are on the same side
      of 2^63. */
  lemma WhenOrderIsUnsigned(rows: seq<u64>)
    requires Ascending(rows)
    ensures (forall i, j :: 0 <= i < j < |rows| ==> rows[i] < rows[j])
            <==> forall i, j :: 0 <= i < j < |rows| ==> SameSide(rows[i], rows[j])
  {
    forall i, j | 0 <= i < j < |rows| ensures rows[i] < rows[j] <==> SameSide(rows[i], rows[j]) {
      SignedSides(rows[j], rows[i]);
    }
  }

  // ---------- packing ----------

  /** The additional length once k rows have been seen. */
  function LenAt(k: nat): u64 { if 5 + 8 * k < TWO64 then 5 + 8 * k else TWO64 - 1 }

  /** The space guard at row k, which sees the low 32 bits of the allocation: a 64-bit difference that wraps once the
      length has passed them. */
  predicate Stored(k: nat, low: u32) { (low - LenAt(k)) % TWO64 > 8 }

  /** Every row that the guard lets through is stored within the allocation. */
  ghost predicate StaysInside(n: nat, alloc: u64) {
    forall k :: 0 <= k < n && Stored(k, Low32(alloc)) ==> ML_ODL_OFF + 8 * k + 8 <= alloc
  }

  lemma StoredIff(k: nat, low: u32)
    requires ML_ODL_OFF + 8 * k < TWO64
    ensures Stored(k, low) <==> ML_ODL_OFF + 8 * k < low || low < 5 + 8 * k
  {
    if low < 5 + 8 * k { ModUnique(low - LenAt(k) + TWO64, TWO64, 0, low - LenAt(k) + TWO64); }
  }

  /** The guard keeps every store within the allocation exactly when the reply fits, or when one or two rows are missing
      and the others fill an allocation below 2^32 to the last byte. */
  lemma WhenReplyStaysInside(n: nat, alloc: u64)
    requires alloc >= ML_ODL_OFF
    ensures StaysInside(n, alloc) <==>
              || ML_ODL_OFF + 8 * n <= alloc
              || (alloc < TWO32 && (alloc == ML_ODL_OFF + 8 * (n - 1) || alloc == ML_ODL_OFF + 8 * (n - 2)))
  {
    hide Stored, Low32;
    if alloc < TWO32 {
      SmallIsLow(alloc);
      WhenSmallStaysInside(n, alloc);
    } else if ML_ODL_OFF + 8 * n > alloc {
      var k := (alloc - ML_ODL_OFF) / 8;
      LowIsFar(alloc);
      StoredIff(k, Low32(alloc));
      assert Stored(k, Low32(alloc)) && ML_ODL_OFF + 8 * k + 8 > alloc;
    }
  }

  lemma LowIsFar(alloc: u64)
    requires alloc >= TWO32
    ensures Low32(alloc) + TWO32 <= alloc
  {
  }

  lemma WhenSmallStaysInside(n: nat, alloc: u32)
    requires alloc >= ML_ODL_OFF
    ensures (forall k :: 0 <= k < n && Stored(k, alloc) ==> ML_ODL_OFF + 8 * k + 8 <= alloc) <==>
              ML_ODL_OFF + 8 * n <= alloc || alloc == ML_ODL_OFF + 8 * (n - 1) || alloc == ML_ODL_OFF + 8 * (n - 2)
  {
    hide Stored;
    var k := (alloc - ML_ODL_OFF) / 8;
    if ML_ODL_OFF + 8 * k < alloc {
      StoredIff(k, alloc);
    } else {
      StoredIff(k + 2, alloc);
    }
    if n <= k + 2 {
      forall i | 0 <= i < n && Stored(i, alloc) && ML_ODL_OFF + 8 * k == alloc ensures ML_ODL_OFF + 8 * i + 8 <= alloc {
        StoredIff(i, alloc);
      }
    }
  }

  /** No row is left out exactly when the low 32 bits of the allocation are beyond all rows or below the first: in
      between the guard passes over a row, which in an allocation from 2^32 on leaves a hole in the reply. */
  lemma WhenAllAreStored(n: nat, low: u32)
    requires ML_ODL_OFF + 8 * n < TWO64
    ensures (forall k :: 0 <= k < n ==> Stored(k, low)) <==> n == 0 || low < 5 || low > 5 + 8 * n
  {
    hide Stored;
    if n > 0 && 5 <= low <= 5 + 8 * n {
      var k := if low <= ML_ODL_OFF then 0 else (low - 6) / 8;
      StoredIff(k, low);
      assert !Stored(k, low);
    } else {
      forall k | 0 <= k < n ensures Stored(k, low) { StoredIff(k, low); }
    }
  }

  // ---------- what is stored ----------

  /** b with the ids of the stored rows at their places behind the header. */
  function StoreRows(b: seq<byte>, rows: seq<u64>, low: u32): (c: seq<byte>)
    requires forall k :: 0 <= k < |rows| && Stored(k, low) ==> ML_ODL_OFF + 8 * k + 8 <= |b|
    ensures |c| == |b|
  {
    if rows == [] then b
    else
      var k := |rows| - 1;
      var c := StoreRows(b, rows[..k], low);
      if Stored(k, low) then Splice(c, ML_ODL_OFF + 8 * k, Be(rows[k], 8)) else c
  }

  function StoredCount(n: nat, low: u32): (c: nat)
    ensures c <= n
  {
    if n == 0 then 0 else StoredCount(n - 1, low) + if Stored(n - 1, low) then 1 else 0
  }

  /** Lines 164 to 190 over the rows of the statement. */
  method Pack(rows: seq<u64>, low: u32, out: array<byte>) returns (usedOutlen: nat)
    requires out.Length >= ML_ODL_OFF
    requires forall k :: 0 <= k < |rows| && Stored(k, low) ==> ML_ODL_OFF + 8 * k + 8 <= out.Length
    modifies out
    ensures usedOutlen == ML_ODL_OFF + 8 * StoredCount(|rows|, low)
    ensures out[..] == Splice(StoreRows(old(out[..]), rows, low), 0, Be(LenAt(|rows|), 8))
  {
    hide Stored, Lengthened, Splice, Be;
    var p, len: u64, i := ML_ODL_OFF, ML_ODL_OFF - 8, 0;
    usedOutlen := ML_ODL_OFF;
    ghost var b := out[..];
    while i < |rows|
      invariant i <= |rows| && p == ML_ODL_OFF + 8 * i && len == LenAt(i)
      invariant usedOutlen == ML_ODL_OFF + 8 * StoredCount(i, low)
      invariant out[..] == StoreRows(b, rows[..i], low)
    {
      GuardIsStored(i, low);
      assert rows[..i + 1][..i] == rows[..i];
      if GuardPasses(low, len) {
        Store(out, p, Be(rows[i], 8));
        usedOutlen := usedOutlen + 8;
      }
      p := p + 8;
      len := Lengthened(len);
      LenAtNext(i);
      i := i + 1;
    }
    assert rows[..i] == rows;
    Store(out, 0, Be(len, 8));
  }

  function Room(alloc: u64): nat
    requires alloc >= ML_ODL_OFF
  {
    (alloc - ML_ODL_OFF) / 8
  }

  /** Within the condition, and below 2^32, the guard stores the first rows that fit and no others. */
  lemma StoredFits(n: nat, k: nat, alloc: u64)
    requires ML_ODL_OFF <= alloc < TWO32 && StaysInside(n, alloc) && k < n
    ensures Stored(k, Low32(alloc)) <==> k < Room(alloc)
  {
    hide Stored, Low32;
    SmallIsLow(alloc);
    WhenReplyStaysInside(n, alloc);
    StoredIff(k, alloc);
  }

  lemma {:induction false} StoredIsPrefix(b: seq<byte>, rows: seq<u64>, n: nat, alloc: u64)
    requires ML_ODL_OFF <= alloc < TWO32 && alloc <= |b| && StaysInside(n, alloc) && |rows| <= n
    ensures ML_ODL_OFF + 8 * Min(|rows|, Room(alloc)) <= |b|
    ensures StoreRows(b, rows, Low32(alloc)) == Splice(b, ML_ODL_OFF, IdsImage(rows[..Min(|rows|, Room(alloc))]))
    ensures StoredCount(|rows|, Low32(alloc)) == Min(|rows|, Room(alloc))
    decreases |rows|
  {
    hide Stored, Low32, IdsImage, Be, Splice;
    if rows == [] {
      SpliceNothing(b, ML_ODL_OFF, IdsImage(rows[..0]));
      ImageNothing(rows);
    } else {
      var k := |rows| - 1;
      StoredIsPrefix(b, rows[..k], n, alloc);
      StoredFits(n, k, alloc);
      if k < Room(alloc) {
        IdsImageSnoc(rows[..k], rows[k]);
        assert rows[..k][..k] == rows[..k] && rows[..|rows|] == rows[..k] + [rows[k]];
        SpliceJoin(b, ML_ODL_OFF, IdsImage(rows[..k]), Be(rows[k], 8));
      } else {
        assert rows[..k][..Room(alloc)] == rows[..Room(alloc)];
      }
    }
  }

  // ---------- the reply ----------

  function Front(n: nat): (b: seq<byte>)
    ensures |b| == ML_ODL_OFF
  {
    Be(LenAt(n), 8) + Zeros(4) + [FORMAT_IDS]
  }

  /** The buffer after the command: header, and behind it what the guard has let through. */
  function Replied(b: seq<byte>, rows: seq<u64>, alloc: u64): (c: seq<byte>)
    requires ML_ODL_OFF <= alloc <= |b| && StaysInside(|rows|, alloc)
    ensures |c| == |b|
  {
    Splice(StoreRows(Splice(b, 8, Zeros(4) + [FORMAT_IDS]), rows, Low32(alloc)), 0, Be(LenAt(|rows|), 8))
  }

  /** The reply as one sequence of bytes: the header and the first ids that fit. */
  function Image(rows: seq<u64>, alloc: u64): (b: seq<byte>)
    requires alloc >= ML_ODL_OFF
    ensures |b| == ML_ODL_OFF + 8 * Min(|rows|, Room(alloc)) <= alloc
  {
    Front(|rows|) + IdsImage(rows[..Min(|rows|, Room(alloc))])
  }

  /** Below 2^32 the buffer starts with the reply, and its length is the one returned. */
  lemma RepliedIsImage(b: seq<byte>, rows: seq<u64>, alloc: u64)
    requires ML_ODL_OFF <= alloc <= |b| && alloc < TWO32 && StaysInside(|rows|, alloc)
    ensures Replied(b, rows, alloc) == Splice(b, 0, Image(rows, alloc))
    ensures ML_ODL_OFF + 8 * StoredCount(|rows|, Low32(alloc)) == |Image(rows, alloc)|
  {
    hide StaysInside, StoreRows, IdsImage, Splice, Be, Low32;
    StoredIsPrefix(Splice(b, 8, Zeros(4) + [FORMAT_IDS]), rows, |rows|, alloc);
    ReplyStores(b, rows, alloc);
  }

  lemma {:induction false} AllStored(b: seq<byte>, rows: seq<u64>, low: u32)
    requires ML_ODL_OFF + 8 * |rows| <= |b| && forall k :: 0 <= k < |rows| ==> Stored(k, low)
    ensures StoreRows(b, rows, low) == Splice(b, ML_ODL_OFF, IdsImage(rows)) && StoredCount(|rows|, low) == |rows|
    decreases |rows|
  {
    hide Stored, IdsImage, Be, Splice;
    if rows == [] {
      SpliceNothing(b, ML_ODL_OFF, IdsImage(rows));
      ImageNothing(rows);
    } else {
      var k := |rows| - 1;
      AllStored(b, rows[..k], low);
      IdsImageSnoc(rows[..k], rows[k]);
      assert rows == rows[..k] + [rows[k]];
      SpliceJoin(b, ML_ODL_OFF, IdsImage(rows[..k]), Be(rows[k], 8));
    }
  }

  lemma FitsStaysInside(n: nat, alloc: u64)
    requires ML_ODL_OFF + 8 * n <= alloc
    ensures StaysInside(n, alloc)
  {
    hide Stored;
  }

  lemma AllShown(rows: seq<u64>, alloc: u64)
    requires ML_ODL_OFF + 8 * |rows| <= alloc
    ensures rows[..Min(|rows|, Room(alloc))] == rows
  {
  }

  /** With no row passed over, the reply is the header and all ids, also in an allocation from 2^32 on. */
  lemma WholeReply(b: seq<byte>, rows: seq<u64>, alloc: u64)
    requires ML_ODL_OFF + 8 * |rows| <= alloc <= |b| && forall k :: 0 <= k < |rows| ==> Stored(k, Low32(alloc))
    ensures StaysInside(|rows|, alloc) && Replied(b, rows, alloc) == Splice(b, 0, Image(rows, alloc))
    ensures rows[..Min(|rows|, Room(alloc))] == rows && StoredCount(|rows|, Low32(alloc)) == |rows|
  {
    hide Stored, StoreRows, IdsImage, Splice, Be, Low32, StoredCount, LenAt, StaysInside, Room, Front;
    FitsStaysInside(|rows|, alloc);
    AllStored(Splice(b, 8, Zeros(4) + [FORMAT_IDS]), rows, Low32(alloc));
    AllShown(rows, alloc);
    ReplyStores(b, rows, alloc);
  }

  /** One more id: the additional length sticks at its largest value. */
  function Lengthened(len: u64): u64 { if len != TWO64 - 1 && Add64(len, 8) > len then len + 8 else TWO64 - 1 }

  lemma LenAtNext(k: nat)
    ensures Lengthened(LenAt(k)) == LenAt(k + 1)
  {
    if 13 + 8 * k < TWO64 {
    } else if 5 + 8 * k < TWO64 {
      ModUnique(13 + 8 * k, TWO64, 1, 13 + 8 * k - TWO64);
    }
  }

  predicate GuardPasses(low: u32, len: u64) { (low - len) % TWO64 > 8 }

  lemma GuardIsStored(k: nat, low: u32)
    ensures GuardPasses(low, LenAt(k)) <==> Stored(k, low)
  {
  }

  lemma ImageNothing(rows: seq<u64>)
    ensures IdsImage(rows[..0]) == []
  {
  }

  // ---------- the command ----------

  /** ReplyOutside: the reply would not stay inside its allocation. ListOverrun: the criteria run past their list. */
  datatype QueryStatus = Success | InvalidField | Failure | ListOverrun | ReplyOutside

  /** The rows are, in SQLite's signed order, exactly the selected members, and none when an id is beyond the literals. */
  ghost predicate Found(s: State, pid: u64, cid: u64, queryType: byte, cs: seq<Criterion>, rows: seq<u64>) {
    && Ascending(rows)
    && forall oid: u64 :: oid in rows <==>
         pid < TWO63 && cid < TWO63 && IsMember(s.coll, pid, cid, oid) && Selected(s, queryType, cs, oid)
  }

  /** The checks of osd_query before the criteria are parsed, in order. */
  function Check(s: State, pid: u64, cid: u64, qll: u32, alloc: u64): Option<QueryStatus> {
    if pid < LB || (pid, cid) !in s.obj || qll < MINQLISTLEN then Some(InvalidField)
    else if alloc == 0 then Some(Success)
    else if alloc < ML_ODL_OFF then Some(InvalidField)
    else None
  }

  /** Which requests get to their criteria: those on a present collection, or whatever else has this id, with a list of at
      least 8 bytes and an allocation that holds the header. An allocation of 0 is answered at once, with nothing. */
  lemma WhenQueryIsTaken(s: State, pid: u64, cid: u64, qll: u32, alloc: u64)
    ensures var c := Check(s, pid, cid, qll, alloc);
            var sound := pid >= 0x1_0000 && (pid, cid) in s.obj && qll >= 8;
            && (c == None <==> sound && alloc >= 13) && (c == Some(Success) <==> sound && alloc == 0)
            && (c == Some(InvalidField) <==> !sound || 0 < alloc < 13)
  {
  }

  method OsdQuery(s: State, pid: u64, cid: u64, qll: u32, alloc: u64, indata: seq<byte>, out: array<byte>)
    returns (r: QueryStatus, usedOutlen: nat, ghost rows: seq<u64>)
    requires |indata| >= qll && out.Length >= alloc
    modifies out
    ensures Check(s, pid, cid, qll, alloc).Some? ==> Some(r) == Check(s, pid, cid, qll, alloc) && out[..] == old(out[..])
    ensures Check(s, pid, cid, qll, alloc).None? ==>
              && qll >= MINQLISTLEN && alloc >= ML_ODL_OFF
              && var (parsed, queryType) := (ParseFrom(indata, 4, qll - 4), indata[0] % 16);
                 match r
                 case ListOverrun => parsed.Overrun?
                 case InvalidField => parsed.BadPage? && out[..] == old(out[..])
                 case Failure => parsed.Criteria? && queryType > 1
                 case ReplyOutside =>
                   && parsed.Criteria? && queryType <= 1 && Found(s, pid, cid, queryType, parsed.list, rows)
                   && !StaysInside(|rows|, alloc)
                 case Success =>
                   && parsed.Criteria? && queryType <= 1 && Found(s, pid, cid, queryType, parsed.list, rows)
                   && StaysInside(|rows|, alloc)
                   && usedOutlen == ML_ODL_OFF + 8 * StoredCount(|rows|, Low32(alloc))
                   && out[..] == Replied(old(out[..]), rows, alloc)
  {
    hide ParseFrom, Replied, StaysInside, Found, StoredCount;
    r, usedOutlen, rows := Success, 0, [];
    if pid < LB { return InvalidField, 0, []; }
    if (pid, cid) !in s.obj { return InvalidField, 0, []; }
    if qll < MINQLISTLEN { return InvalidField, 0, []; }
    if alloc == 0 { return; }
    if alloc < ML_ODL_OFF { return InvalidField, 0, []; }
    var qc := new Table();
    qc.Alloc();
    var ok, overrun := qc.Parse(indata, qll);
    if !ok { return if overrun then ListOverrun else InvalidField, 0, []; }
    ghost var b := out[..];
    Store(out, 8, Zeros(4));
    out[12] := FORMAT_IDS;
    assert out[..] == Splice(b, 8, Zeros(4) + [FORMAT_IDS]);
    r, usedOutlen, rows := RunQuery(s, pid, cid, qc, alloc, out, b);
  }

  /** mtq_run_query. */
  method RunQuery(s: State, pid: u64, cid: u64, qc: Table, alloc: u64, out: array<byte>, ghost b: seq<byte>)
    returns (r: QueryStatus, usedOutlen: nat, ghost rows: seq<u64>)
    requires qc.Valid() && alloc >= ML_ODL_OFF && out.Length >= alloc && |b| == out.Length
    requires out[..] == Splice(b, 8, Zeros(4) + [FORMAT_IDS])
    modifies out
    ensures r.Failure? || r.ReplyOutside? || r.Success?
    ensures r.Failure? <==> qc.queryType > 1
    ensures !r.Failure? ==> Found(s, pid, cid, qc.queryType, qc.Contents(), rows) && (r.Success? <==> StaysInside(|rows|, alloc))
    ensures r.Success? ==>
              usedOutlen == ML_ODL_OFF + 8 * StoredCount(|rows|, Low32(alloc)) && out[..] == Replied(b, rows, alloc)
  {
    hide StoreRows, Selected, StoredCount, Stored, Low32;
    r, usedOutlen, rows := Failure, 0, [];
    var op;
    if qc.queryType == 0 {
      op := Union;
    } else if qc.queryType == 1 {
      op := Intersect;
    } else {
      return;
    }
    var cs := qc.Contents();
    var found := Statement(s, pid, cid, qc.queryType, cs, op);
    rows := found;
    var inside := FitsInside(|found|, alloc);
    if !inside { return ReplyOutside, 0, found; }
    r := Success;
    usedOutlen := Pack(found, Low32(alloc), out);
  }

  method Statement(s: State, pid: u64, cid: u64, queryType: byte, cs: seq<Criterion>, op: Token) returns (rows: seq<u64>)
    requires queryType <= 1 && op == Operator(queryType)
    ensures Found(s, pid, cid, queryType, cs, rows)
  {
    hide Exec, Chain, AllParameters, Selected, IsMember;
    var sql := BuildStatement(cs, op);
    var values := BindValues(cs);
    rows := OrderedRows(Answer(s, pid, cid, sql, values));
    forall oid: u64
      ensures oid in rows <==>
                pid < TWO63 && cid < TWO63 && IsMember(s.coll, pid, cid, oid) && Selected(s, queryType, cs, oid)
    {
      AnswerMeans(s, pid, cid, queryType, cs, oid);
    }
  }

  /** Whether the guard will keep the reply within its allocation. */
  method FitsInside(n: nat, alloc: u64) returns (inside: bool)
    requires alloc >= ML_ODL_OFF
    ensures inside <==> StaysInside(n, alloc)
  {
    WhenReplyStaysInside(n, alloc);
    inside := ML_ODL_OFF + 8 * n <= alloc;
    if !inside && alloc < TWO32 { inside := alloc == ML_ODL_OFF + 8 * (n - 1) || alloc == ML_ODL_OFF + 8 * (n - 2); }
  }

  lemma ReplyStores(b: seq<byte>, rows: seq<u64>, alloc: u64)
    requires ML_ODL_OFF <= alloc <= |b|
    ensures Splice(Splice(Splice(b, 8, Zeros(4) + [FORMAT_IDS]), ML_ODL_OFF, IdsImage(rows[..Min(|rows|, Room(alloc))])),
                   0, Be(LenAt(|rows|), 8)) == Splice(b, 0, Image(rows, alloc))
  {
    hide IdsImage;
    var body, reserved, len := IdsImage(rows[..Min(|rows|, Room(alloc))]), Zeros(4) + [FORMAT_IDS], Be(LenAt(|rows|), 8);
    SpliceJoin(b, 8, reserved, body);
    SpliceSwap(b, 0, len, 8, reserved + body);
    SpliceJoin(b, 0, len, reserved + body);
    Assoc(len, reserved, body);
    Assoc(len, Zeros(4), [FORMAT_IDS]);
  }

  /** A reply that fits lists the whole result, and its length field counts it all. */
  lemma ReplyReadsBack(rows: seq<u64>, alloc: u64)
    requires ML_ODL_OFF + 8 * |rows| <= alloc
    ensures ReadIds(Image(rows, alloc)[ML_ODL_OFF..]) == rows
    ensures FromBe(Image(rows, alloc)[..8]) + 8 == |Image(rows, alloc)|
  {
    hide IdsImage, ReadIds, Front, LenAt;
    assert rows[..|rows|] == rows;
    Widths();
    FieldRoundTrip(LenAt(|rows|), 8);
    FrontReads(|rows|, IdsImage(rows));
    LenAtExact(|rows|);
    ReadIdsImage(rows);
  }

  /** The header: the length of what follows it, four zeros, and the format of an id list. */
  lemma FrontLayout(n: nat)
    ensures FromBe(Front(n)[..8]) == Min(5 + 8 * n, TWO64 - 1)
    ensures Front(n)[8..12] == [0, 0, 0, 0] && Front(n)[12] == 0x21 * 4
  {
    hide Be, FromBe;
    Widths();
    FieldRoundTrip(LenAt(n), 8);
    assert Front(n)[..8] == Be(LenAt(n), 8) && Front(n)[8..12] == Zeros(4);
  }

  lemma FrontReads(n: nat, body: seq<byte>)
    ensures (Front(n) + body)[..8] == Be(LenAt(n), 8) && (Front(n) + body)[ML_ODL_OFF..] == body
  {
  }

  lemma LenAtExact(n: nat)
    requires 5 + 8 * n < TWO64
    ensures LenAt(n) == 5 + 8 * n
  {
  }
}
