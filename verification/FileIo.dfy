/** Reading and writing user objects: the contiguous, scatter/gather and strided commands of io.c, and osd_punch. */
module FileIo {
  import opened Bytes
  import opened FileBytes
  import opened FilePlaces
  import Namespace
  import opened NamespaceRuns
  import opened NamespaceLinks
  import opened Device

  /** Recovered: fewer bytes than asked for. Overrun: the C code would leave its data buffer. Endless: a pass of the
      strided loop that has changed none of its variables, so that none ever will. */
  datatype Status = Good | Recovered | BadField | Fault | Overrun | Endless

  /** open() of the data file, behind the check of the ids. */
  predicate CanOpen(files: map<(u64, u64), seq<byte>>, pid: u64, oid: u64) {
    pid >= Namespace.LB && oid >= Namespace.LB && (pid, oid) in files
  }

  /** With the links intact, exactly the user objects can be opened. */
  lemma WhenOpened(s: Namespace.State, pid: u64, oid: u64)
    requires Sound(s) && Linked(s)
    ensures CanOpen(s.files, pid, oid) <==> (pid, oid) in s.obj && s.obj[(pid, oid)] == Namespace.UserObject
  {
  }

  datatype SgEntry = SgEntry(offset: u64, length: u64)

  /** The entries of a scatter/gather list, moved by the offset of the command. */
  function Pieces(sg: seq<SgEntry>, offset: u64): seq<Piece> {
    seq(|sg|, i requires 0 <= i < |sg| => Piece(Add64(sg[i].offset, offset), sg[i].length))
  }

  /** Where data byte i of a scatter/gather list stands: behind the offset of its entry, moved by that of the command. */
  function EntryPlace(sg: seq<SgEntry>, offset: nat, i: nat): nat {
    if sg == [] then 0
    else if i < sg[0].length then (sg[0].offset + offset) % TWO64 + i
    else EntryPlace(sg[1..], offset, i - sg[0].length)
  }

  function EntryTotal(sg: seq<SgEntry>): nat { if sg == [] then 0 else sg[0].length + EntryTotal(sg[1..]) }

  lemma {:induction false} PiecesPlaced(sg: seq<SgEntry>, offset: u64)
    ensures |Places(Pieces(sg, offset))| == EntryTotal(sg)
    ensures PlacedBy(Places(Pieces(sg, offset)), (i: nat) => EntryPlace(sg, offset, i))
  {
    if sg != [] {
      var ps := Pieces(sg, offset);
      assert ps[1..] == Pieces(sg[1..], offset);
      PiecesPlaced(sg[1..], offset);
      var rest := Places(ps[1..]);
      forall i | 0 <= i < |Places(ps)| ensures Places(ps)[i] == EntryPlace(sg, offset, i) {
        if i >= sg[0].length { assert rest[i - sg[0].length] == EntryPlace(sg[1..], offset, i - sg[0].length); }
      }
    }
  }

  /** The kernel takes the ends of all entries. */
  ghost predicate EntriesTaken(sg: seq<SgEntry>, offset: nat) {
    forall k :: 0 <= k < |sg| ==> (sg[k].offset + offset) % TWO64 + sg[k].length < TWO63
  }

  lemma WhenEntriesTaken(sg: seq<SgEntry>, offset: u64)
    ensures AllReachable(Pieces(sg, offset)) <==> EntriesTaken(sg, offset)
  {
    var ps := Pieces(sg, offset);
    if AllReachable(ps) {
      forall k | 0 <= k < |sg| ensures (sg[k].offset + offset) % TWO64 + sg[k].length < TWO63 {
        assert Reachable(ps[k].at, ps[k].len);
      }
    }
  }

  /** What the reads of a scatter/gather list bring, one behind the other. */
  function Joined(f: seq<byte>, ps: seq<Piece>): seq<byte> {
    if ps == [] then [] else PRead(f, ps[0].len, ps[0].at) + Joined(f, ps[1..])
  }

  // ---------- what a sequence of writes and reads does ----------

  /** The writes of a transfer, up to the first that fails. */
  function WriteAll(f: seq<byte>, ps: seq<Piece>, din: seq<byte>): (seq<byte>, Status)
    decreases ps
  {
    if ps == [] then (f, Good)
    else if !Reachable(ps[0].at, ps[0].len) then (f, Fault)
    else if ps[0].len > |din| then (f, Overrun)
    else WriteAll(PWrite(f, din[..ps[0].len], ps[0].at), ps[1..], din[ps[0].len..])
  }

  /** The reads of a gather into b from position at on. A short read is padded with zeros, but the next one starts
      right behind the bytes that were read. */
  function ReadInto(f: seq<byte>, ps: seq<Piece>, b: seq<byte>, at: nat): (seq<byte>, nat, Status)
    decreases ps
  {
    if ps == [] then (b, at, Good)
    else if !Reachable(ps[0].at, ps[0].len) then (b, at, Fault)
    else if at + ps[0].len > |b| then (b, at, Overrun)
    else
      var got := PRead(f, ps[0].len, ps[0].at);
      ReadInto(f, ps[1..], Splice(b, at, got + Zeros(ps[0].len - |got|)), at + |got|)
  }

  /** The same for the strided read, which gives up behind a piece that comes short. */
  function ReadExactly(f: seq<byte>, ps: seq<Piece>, b: seq<byte>, at: nat): (seq<byte>, Status)
    decreases ps
  {
    if ps == [] then (b, Good)
    else if !Reachable(ps[0].at, ps[0].len) then (b, Fault)
    else
      var got := PRead(f, ps[0].len, ps[0].at);
      if at + |got| > |b| then (b, Overrun)
      else if |got| < ps[0].len then (Splice(b, at, got), Fault)
      else ReadExactly(f, ps[1..], Splice(b, at, got), at + ps[0].len)
  }

  /** Whether a piece lies within a file. */
  predicate Inside(p: Piece, n: nat) { p.len == 0 || p.at + p.len <= n }

  ghost predicate AllInside(ps: seq<Piece>, n: nat) { forall i :: 0 <= i < |ps| ==> Inside(ps[i], n) }

  /** The writes succeed exactly when the data suffices and the kernel takes every offset, and then they scatter. */
  lemma {:induction false} WriteAllScatters(f: seq<byte>, ps: seq<Piece>, din: seq<byte>)
    ensures var (g, r) := WriteAll(f, ps, din);
            && (r.Good? <==> |Places(ps)| <= |din| && AllReachable(ps))
            && (r.Good? ==> g == Scatter(f, ps, din[..|Places(ps)|]))
    decreases ps
  {
    hide PWrite, Reachable;
    if ps != [] {
      var p := ps[0];
      assert AllReachable(ps) <==> Reachable(p.at, p.len) && AllReachable(ps[1..]) by { AllReachableCons(ps); }
      if p.len <= |din| {
        WriteAllScatters(PWrite(f, din[..p.len], p.at), ps[1..], din[p.len..]);
        var n := |Places(ps[1..])|;
        if p.len + n <= |din| {
          var data := din[..p.len + n];
          assert data[..p.len] == din[..p.len] && data[p.len..] == din[p.len..][..n];
        }
      }
    }
  }

  /** A transfer that fails at piece k has written the pieces before it and nothing of the others. */
  lemma {:induction false} WhenWriteStops(f: seq<byte>, ps: seq<Piece>, din: seq<byte>, k: nat)
    requires k < |ps| && AllReachable(ps[..k]) && |Places(ps[..k])| <= |din|
    requires var left := |din| - |Places(ps[..k])|; !Reachable(ps[k].at, ps[k].len) || ps[k].len > left
    ensures WriteAll(f, ps, din) == (Scatter(f, ps[..k], din[..|Places(ps[..k])|]),
                                     if Reachable(ps[k].at, ps[k].len) then Overrun else Fault)
    decreases k
  {
    hide PWrite, Reachable;
    if k > 0 {
      var p, n := ps[0], |Places(ps[..k])|;
      assert ps[..k][1..] == ps[1..][..k - 1] && ps[..k][0] == p;
      AllReachableCons(ps[..k]);
      WhenWriteStops(PWrite(f, din[..p.len], p.at), ps[1..], din[p.len..], k - 1);
      assert din[..n][p.len..] == din[p.len..][..n - p.len] && din[..n][..p.len] == din[..p.len];
    }
  }

  lemma GatherCons(f: seq<byte>, ps: seq<Piece>)
    requires ps != [] && Inside(ps[0], |f|)
    ensures |PRead(f, ps[0].len, ps[0].at)| == ps[0].len
    ensures Gather(f, ps) == PRead(f, ps[0].len, ps[0].at) + Gather(f, ps[1..])
  {
    hide Gather, PRead, Places;
    PiecesRead(f, ps[0]);
    GatherSize(f, ps);
    forall i | 0 <= i < |Gather(f, ps)|
      ensures Gather(f, ps)[i] == (PRead(f, ps[0].len, ps[0].at) + Gather(f, ps[1..]))[i]
    {
      GatherAt(f, ps, i);
    }
  }

  lemma PiecesRead(f: seq<byte>, p: Piece)
    requires Inside(p, |f|)
    ensures |PRead(f, p.len, p.at)| == p.len
    ensures forall i :: 0 <= i < p.len ==> PRead(f, p.len, p.at)[i] == ByteAt(f, p.at + i)
  {
  }

  lemma GatherSize(f: seq<byte>, ps: seq<Piece>)
    requires ps != []
    ensures |Gather(f, ps)| == ps[0].len + |Gather(f, ps[1..])|
  {
    hide Gather;
  }

  lemma GatherAt(f: seq<byte>, ps: seq<Piece>, i: nat)
    requires ps != [] && Inside(ps[0], |f|) && i < |Gather(f, ps)|
    ensures |PRead(f, ps[0].len, ps[0].at)| == ps[0].len
    ensures |Gather(f, ps)| == ps[0].len + |Gather(f, ps[1..])|
    ensures Gather(f, ps)[i] == if i < ps[0].len then PRead(f, ps[0].len, ps[0].at)[i] else Gather(f, ps[1..])[i - ps[0].len]
  {
    hide PRead, ByteAt;
    PiecesRead(f, ps[0]);
    GatherSize(f, ps);
    if i < ps[0].len { assert Places(ps)[i] == ps[0].at + i; }
  }

  lemma {:induction false} ReadsGather(f: seq<byte>, ps: seq<Piece>, b: seq<byte>, at: nat)
    requires at + |Places(ps)| <= |b| && AllInside(ps, |f|) && AllReachable(ps)
    ensures ReadInto(f, ps, b, at) == (Splice(b, at, Gather(f, ps)), at + |Places(ps)|, Good)
    ensures ReadExactly(f, ps, b, at) == (Splice(b, at, Gather(f, ps)), Good)
    decreases ps
  {
    hide PRead, Gather, Reachable, Inside;
    if ps == [] {
      SpliceNothing(b, at, Gather(f, ps));
    } else {
      var p := ps[0];
      AllReachableCons(ps);
      InsideTail(ps, |f|);
      GatherCons(f, ps);
      var got := PRead(f, p.len, p.at);
      assert got + Zeros(0) == got;
      ReadsGather(f, ps[1..], Splice(b, at, got), at + p.len);
      SpliceJoin(b, at, got, Gather(f, ps[1..]));
    }
  }

  lemma InsideTail(ps: seq<Piece>, n: nat)
    requires AllInside(ps, n) && ps != []
    ensures Inside(ps[0], n) && AllInside(ps[1..], n)
  {
    hide Inside;
    forall i | 0 <= i < |ps[1..]| ensures Inside(ps[1..][i], n) {
      assert ps[1..][i] == ps[i + 1];
    }
  }

  /** A gather that is padded by short reads moves fewer bytes than were asked for: the count is full exactly when
      every piece lies within the file. */
  lemma {:induction false} WhenReadIsFull(f: seq<byte>, ps: seq<Piece>, b: seq<byte>, at: nat)
    requires at + |Places(ps)| <= |b| && AllReachable(ps)
    ensures var (_, n, r) := ReadInto(f, ps, b, at);
            r.Good? && n <= at + |Places(ps)| && (n == at + |Places(ps)| <==> AllInside(ps, |f|))
    decreases ps
  {
    hide PRead, Reachable, Inside, Splice;
    if ps != [] {
      var p := ps[0];
      AllReachableCons(ps);
      ReadLength(f, p);
      InsideCons(ps, |f|);
      var got := PRead(f, p.len, p.at);
      WhenReadIsFull(f, ps[1..], Splice(b, at, got + Zeros(p.len - |got|)), at + |got|);
    }
  }

  /** Short or not, the reads of a gather stand one behind the other in the buffer. */
  lemma {:induction false} ReadsJoin(f: seq<byte>, ps: seq<Piece>, b: seq<byte>, at: nat)
    requires at <= |b|
    ensures var (c, n, r) := ReadInto(f, ps, b, at);
            r.Good? ==> |c| == |b| && at <= n <= |b| && c[..at] == b[..at] && c[at..n] == Joined(f, ps)
    decreases ps
  {
    hide PRead, Reachable, Splice;
    if ps != [] && Reachable(ps[0].at, ps[0].len) && at + ps[0].len <= |b| {
      var got := PRead(f, ps[0].len, ps[0].at);
      var data := got + Zeros(ps[0].len - |got|);
      var d := Splice(b, at, data);
      ReadsJoin(f, ps[1..], d, at + |got|);
      var (c, n, r) := ReadInto(f, ps[1..], d, at + |got|);
      if r.Good? { SpliceThenRead(b, at, got, Zeros(ps[0].len - |got|), c, n, Joined(f, ps[1..])); }
    }
  }

  lemma SpliceThenRead(b: seq<byte>, at: nat, got: seq<byte>, pad: seq<byte>, c: seq<byte>, n: nat, tail: seq<byte>)
    requires at + |got| + |pad| <= |b| == |c| && at + |got| <= n <= |c|
    requires c[..at + |got|] == Splice(b, at, got + pad)[..at + |got|] && c[at + |got|..n] == tail
    ensures c[..at] == b[..at] && c[at..n] == got + tail
  {
    var d, m := Splice(b, at, got + pad), at + |got|;
    forall i | 0 <= i < m ensures c[i] == d[i] { assert c[..m][i] == d[..m][i]; }
    assert c[at..m] == got;
    assert c[at..n] == c[at..m] + c[m..n];
  }

  /** The last read, when it is short, leaves zeros behind. */
  lemma ShortReadIsPadded(f: seq<byte>, p: Piece, b: seq<byte>, at: nat)
    requires Reachable(p.at, p.len) && at + p.len <= |b|
    ensures var (c, n, r) := ReadInto(f, [p], b, at);
            && r.Good? && n <= at + p.len <= |c| == |b|
            && c[n..at + p.len] == Zeros(at + p.len - n) && c[at + p.len..] == b[at + p.len..]
  {
    var got := PRead(f, p.len, p.at);
    var data := got + Zeros(p.len - |got|);
    assert [p][1..] == [];
    assert ReadInto(f, [p], b, at) == (Splice(b, at, data), at + |got|, Good);
  }

  lemma ReadLength(f: seq<byte>, p: Piece)
    ensures |PRead(f, p.len, p.at)| == p.len <==> Inside(p, |f|)
  {
  }

  lemma InsideCons(ps: seq<Piece>, n: nat)
    requires ps != []
    ensures AllInside(ps, n) <==> Inside(ps[0], n) && AllInside(ps[1..], n)
  {
    hide Inside;
    if AllInside(ps, n) { InsideTail(ps, n); }
    if Inside(ps[0], n) && AllInside(ps[1..], n) {
      forall i | 0 <= i < |ps| ensures Inside(ps[i], n) {
        if i > 0 { assert Inside(ps[1..][i - 1], n); }
      }
    }
  }

  // ---------- round trips ----------

  /** Reading back what a scatter/gather list or a stride has written to disjoint pieces returns the data, in full. */
  lemma TransferRoundTrip(f: seq<byte>, ps: seq<Piece>, din: seq<byte>, b: seq<byte>)
    requires WriteAll(f, ps, din).1.Good? && Disjoint(ps) && |b| >= |Places(ps)|
    ensures var (g, n) := (WriteAll(f, ps, din).0, |Places(ps)|);
            && n <= |din| && AllReachable(ps)
            && ReadInto(g, ps, b, 0) == (Splice(b, 0, din[..n]), n, Good)
            && ReadExactly(g, ps, b, 0) == (Splice(b, 0, din[..n]), Good)
  {
    hide Scatter, Gather, WriteAll, ReadInto, ReadExactly, Places, Splice, Extent;
    WriteAllScatters(f, ps, din);
    var g, data := WriteAll(f, ps, din).0, din[..|Places(ps)|];
    DistinctIffDisjoint(ps);
    ReadsBack(f, ps, data);
    ScatterLength(f, ps, data);
    ExtentCovers(|f|, ps);
    ReadsGather(g, ps, b, 0);
  }

  /** What the file holds after a transfer: the last bytes written to a position, and otherwise the old ones. */
  lemma TransferLastWriter(f: seq<byte>, ps: seq<Piece>, din: seq<byte>, q: nat)
    requires WriteAll(f, ps, din).1.Good?
    ensures var (g, i) := (WriteAll(f, ps, din).0, Last(Places(ps), q));
            && i < |din| && ByteAt(g, q) == (if i >= 0 then din[i] else ByteAt(f, q))
            && |g| == Extent(|f|, ps)
            && (i < 0 <==> forall k :: 0 <= k < |ps| ==> !Covers(ps[k], q))
  {
    hide Scatter, WriteAll, Places, Extent, ByteAt, Covers;
    WriteAllScatters(f, ps, din);
    LastWriterWins(f, ps, din[..|Places(ps)|], q);
    ScatterLength(f, ps, din[..|Places(ps)|]);
    PlacesCover(ps, q);
  }

  /** A strided write reads back for every payload exactly when the stride keeps the segments apart. */
  lemma WhenStrideReadsBack(f: seq<byte>, offset: u64, stride: u64, length: u64, n: u64)
    requires 0 < length <= n && AllReachable(Strides(offset, stride, length, n))
    ensures var ps := Strides(offset, stride, length, n);
            (forall data: seq<byte> :: |data| == |Places(ps)| ==> Gather(WriteAll(f, ps, data).0, ps) == data)
            <==> KeepsApart(stride, length, n)
  {
    hide Scatter, Gather, WriteAll, Places, Strides, Disjoint, Distinct, AllReachable, KeepsApart;
    var ps := Strides(offset, stride, length, n);
    forall data: seq<byte> | |data| == |Places(ps)| ensures WriteAll(f, ps, data).0 == Scatter(f, ps, data) {
      WriteAllScatters(f, ps, data);
      assert data[..|Places(ps)|] == data;
    }
    WhenReadBack(f, ps);
    DistinctIffDisjoint(ps);
    WhenStridesDisjoint(offset, stride, length, n);
  }

  // ---------- the commands ----------

  method ContigWrite(d: OsdDevice, pid: u64, oid: u64, offset: u64, din: seq<byte>) returns (r: Status)
    modifies d`files
    ensures var f := old(d.files);
            if !CanOpen(f, pid, oid) then r == BadField && d.files == f
            else if !Reachable(offset, |din|) then r == Fault && d.files == f
            else r == Good && d.files == f[(pid, oid) := PWrite(f[(pid, oid)], din, offset)]
  {
    if !CanOpen(d.files, pid, oid) { return BadField; }
    if !Reachable(offset, |din|) { return Fault; }
    d.files := d.files[(pid, oid) := PWrite(d.files[(pid, oid)], din, offset)];
    r := Good;
  }

  method ContigRead(d: OsdDevice, pid: u64, oid: u64, len: u64, offset: u64, out: array<byte>) returns (r: Status, used: u64)
    requires out.Length >= len
    modifies out
    ensures r == BadField <==> !CanOpen(d.files, pid, oid)
    ensures r == Fault <==> CanOpen(d.files, pid, oid) && !Reachable(offset, len)
    ensures r.BadField? || r.Fault? ==> out[..] == old(out[..])
    ensures r.Good? || r.Recovered? ==>
              var got := PRead(d.files[(pid, oid)], len, offset);
              && (r.Recovered? <==> |got| < len) && used == len
              && out[..] == Splice(old(out[..]), 0, got + Zeros(len - |got|))
    ensures !r.Overrun? && !r.Endless?
  {
    if !CanOpen(d.files, pid, oid) { return BadField, 0; }
    if !Reachable(offset, len) { return Fault, 0; }
    var got := PRead(d.files[(pid, oid)], len, offset);
    Store(out, 0, got);
    r := Good;
    ghost var b := old(out[..]);
    if |got| < len {
      Store(out, |got|, Zeros(len - |got|));
      SpliceJoin(b, 0, got, Zeros(len - |got|));
      r := Recovered;
    } else {
      assert got + Zeros(0) == got;
    }
    used := len;
  }

  /** The file of an object and the others. */
  ghost predicate OnlyFile(before: map<(u64, u64), seq<byte>>, after: map<(u64, u64), seq<byte>>, pid: u64, oid: u64,
                           f: seq<byte>)
  {
    (pid, oid) in before && after == before[(pid, oid) := f]
  }

  method SglWrite(d: OsdDevice, pid: u64, oid: u64, offset: u64, din: seq<byte>, sg: seq<SgEntry>) returns (r: Status)
    modifies d`files
    ensures !CanOpen(old(d.files), pid, oid) ==> r == BadField && d.files == old(d.files)
    ensures CanOpen(old(d.files), pid, oid) ==>
              && r == WriteAll(old(d.files[(pid, oid)]), Pieces(sg, offset), din).1
              && OnlyFile(old(d.files), d.files, pid, oid, WriteAll(old(d.files[(pid, oid)]), Pieces(sg, offset), din).0)
    ensures r.Good? <==> CanOpen(old(d.files), pid, oid) && EntryTotal(sg) <= |din| && EntriesTaken(sg, offset)
    ensures r.Good? ==>
              && EntryTotal(sg) <= |din| && (pid, oid) in old(d.files) && (pid, oid) in d.files
              && Lands(old(d.files)[(pid, oid)], d.files[(pid, oid)], din[..EntryTotal(sg)],
                       (i: nat) => EntryPlace(sg, offset, i))
  {
    hide WriteAll, PWrite, Lands, EntriesTaken, EntryTotal;
    if !CanOpen(d.files, pid, oid) { return BadField; }
    ghost var ps := Pieces(sg, offset);
    ghost var f0 := d.files[(pid, oid)];
    SglLands(f0, sg, offset, din);
    var dataOffset: nat, i := 0, 0;
    assert ps[0..] == ps && din[0..] == din;
    while i < |sg|
      invariant i <= |sg| && dataOffset <= |din|
      invariant (pid, oid) in d.files && OnlyFile(old(d.files), d.files, pid, oid, d.files[(pid, oid)])
      invariant WriteAll(d.files[(pid, oid)], ps[i..], din[dataOffset..]) == WriteAll(f0, ps, din)
    {
      var at, length := Add64(sg[i].offset, offset), sg[i].length;
      WriteAllNext(d.files[(pid, oid)], ps, i, din, dataOffset);
      if !Reachable(at, length) { return Fault; }
      if length > |din| - dataOffset { return Overrun; }
      d.files := d.files[(pid, oid) := PWrite(d.files[(pid, oid)], din[dataOffset..dataOffset + length], at)];
      dataOffset := dataOffset + length;
      i := i + 1;
    }
    WriteAllNothing(d.files[(pid, oid)], ps[i..], din[dataOffset..]);
    r := Good;
  }

  lemma SglLands(f: seq<byte>, sg: seq<SgEntry>, offset: u64, din: seq<byte>)
    ensures var (g, r) := WriteAll(f, Pieces(sg, offset), din);
            && (r.Good? <==> EntryTotal(sg) <= |din| && EntriesTaken(sg, offset))
            && (r.Good? ==> Lands(f, g, din[..EntryTotal(sg)], (i: nat) => EntryPlace(sg, offset, i)))
  {
    hide WriteAll, Lands, EntriesTaken, EntryTotal, Scatter, Places, AllReachable, PlacedBy;
    var ps := Pieces(sg, offset);
    WriteAllScatters(f, ps, din);
    WhenEntriesTaken(sg, offset);
    PiecesPlaced(sg, offset);
    if WriteAll(f, ps, din).1.Good? { ScatterLands(f, ps, din[..EntryTotal(sg)], (i: nat) => EntryPlace(sg, offset, i)); }
  }

  lemma WriteAllNothing(f: seq<byte>, ps: seq<Piece>, din: seq<byte>)
    requires ps == []
    ensures WriteAll(f, ps, din) == (f, Good)
  {
  }

  /** The next write of a transfer that has come to piece i and data byte k. */
  lemma WriteAllNext(f: seq<byte>, ps: seq<Piece>, i: nat, din: seq<byte>, k: nat)
    requires i < |ps| && k <= |din|
    ensures var (p, w) := (ps[i], WriteAll(f, ps[i..], din[k..]));
            if !Reachable(p.at, p.len) then w == (f, Fault)
            else if p.len > |din| - k then w == (f, Overrun)
            else w == WriteAll(PWrite(f, din[k..k + p.len], p.at), ps[i + 1..], din[k + p.len..])
  {
    hide PWrite, Reachable;
    assert ps[i..][0] == ps[i] && ps[i..][1..] == ps[i + 1..];
    if ps[i].len <= |din| - k {
      assert din[k..][..ps[i].len] == din[k..k + ps[i].len];
      assert din[k..][ps[i].len..] == din[k + ps[i].len..];
    }
  }

  method SglRead(d: OsdDevice, pid: u64, oid: u64, len: u64, offset: u64, sg: seq<SgEntry>, out: array<byte>)
    returns (r: Status, used: nat)
    modifies out
    ensures !CanOpen(d.files, pid, oid) ==> r == BadField && out[..] == old(out[..])
    ensures CanOpen(d.files, pid, oid) ==>
              var (b, n, s) := ReadInto(d.files[(pid, oid)], Pieces(sg, offset), old(out[..]), 0);
              && out[..] == b && (s.Good? ==> used == n)
              && r == if s.Good? && n < len then Recovered else s
    ensures r.Good? || r.Recovered? ==>
              var f := d.files[(pid, oid)];
              && used <= EntryTotal(sg) && used <= out.Length && out[..used] == Joined(f, Pieces(sg, offset))
              && (used == EntryTotal(sg) ==> forall i :: 0 <= i < used ==>
                    EntryPlace(sg, offset, i) < |f| && out[i] == f[EntryPlace(sg, offset, i)])
  {
    hide ReadInto, PRead, Splice, EntryTotal, Joined;
    used := 0;
    if !CanOpen(d.files, pid, oid) { return BadField, 0; }
    ghost var ps := Pieces(sg, offset);
    var f := d.files[(pid, oid)];
    var i := 0;
    assert ps[0..] == ps;
    while i < |sg|
      invariant i <= |sg| && used <= out.Length
      invariant ReadInto(f, ps[i..], out[..], used) == ReadInto(f, ps, old(out[..]), 0)
    {
      var at, length := Add64(sg[i].offset, offset), sg[i].length;
      ReadIntoNext(f, ps, i, out[..], used);
      if !Reachable(at, length) { return Fault, used; }
      if used + length > out.Length { return Overrun, used; }
      var got := PRead(f, length, at);
      Store(out, used, got + Zeros(length - |got|));
      used := used + |got|;
      i := i + 1;
    }
    ReadIntoNothing(f, ps[i..], out[..], used);
    SglJoins(f, sg, offset, old(out[..]), out[..], used);
    r := if used < len then Recovered else Good;
  }

  lemma SglJoins(f: seq<byte>, sg: seq<SgEntry>, offset: u64, b: seq<byte>, c: seq<byte>, n: nat)
    requires ReadInto(f, Pieces(sg, offset), b, 0) == (c, n, Good)
    ensures n <= EntryTotal(sg) && n <= |c| && c[..n] == Joined(f, Pieces(sg, offset))
    ensures n == EntryTotal(sg) ==> forall i :: 0 <= i < n ==>
              EntryPlace(sg, offset, i) < |f| && c[i] == f[EntryPlace(sg, offset, i)]
  {
    hide ReadInto, Joined, EntryTotal, Places;
    var ps := Pieces(sg, offset);
    ReadsJoin(f, ps, b, 0);
    PiecesPlaced(sg, offset);
    JoinedAt(f, ps);
    assert c[0..n] == c[..n];
    if n == EntryTotal(sg) {
      forall i | 0 <= i < n ensures EntryPlace(sg, offset, i) < |f| && c[i] == f[EntryPlace(sg, offset, i)] {
        assert c[..n][i] == c[i];
        assert Places(ps)[i] == EntryPlace(sg, offset, i);
      }
    }
  }

  lemma FullRead(f: seq<byte>, p: Piece)
    ensures |PRead(f, p.len, p.at)| == p.len ==>
              forall i :: 0 <= i < p.len ==> p.at + i < |f| && PRead(f, p.len, p.at)[i] == f[p.at + i]
  {
  }

  /** The reads bring all that was asked for only when every place lies in the file, and then each byte from its place. */
  lemma {:induction false} JoinedAt(f: seq<byte>, ps: seq<Piece>)
    ensures |Joined(f, ps)| <= |Places(ps)|
    ensures |Joined(f, ps)| == |Places(ps)| ==>
              forall i :: 0 <= i < |Places(ps)| ==> Places(ps)[i] < |f| && Joined(f, ps)[i] == f[Places(ps)[i]]
  {
    hide PRead;
    if ps != [] {
      JoinedAt(f, ps[1..]);
      FullRead(f, ps[0]);
      var r, rest, tail := Range(ps[0].at, ps[0].len), Places(ps[1..]), Joined(f, ps[1..]);
      if |Joined(f, ps)| == |Places(ps)| {
        forall i | 0 <= i < |Places(ps)| ensures Places(ps)[i] < |f| && Joined(f, ps)[i] == f[Places(ps)[i]] {
          if i < |r| {
            assert Places(ps)[i] == r[i] && Joined(f, ps)[i] == PRead(f, ps[0].len, ps[0].at)[i];
          } else {
            assert Places(ps)[i] == rest[i - |r|] && Joined(f, ps)[i] == tail[i - |r|];
          }
        }
      }
    }
  }

  lemma ReadIntoNothing(f: seq<byte>, ps: seq<Piece>, b: seq<byte>, at: nat)
    requires ps == []
    ensures ReadInto(f, ps, b, at) == (b, at, Good)
  {
  }

  lemma ReadIntoNext(f: seq<byte>, ps: seq<Piece>, i: nat, b: seq<byte>, at: nat)
    requires i < |ps|
    ensures var (p, w) := (ps[i], ReadInto(f, ps[i..], b, at));
            if !Reachable(p.at, p.len) then w == (b, at, Fault)
            else if at + p.len > |b| then w == (b, at, Overrun)
            else
              var got := PRead(f, p.len, p.at);
              w == ReadInto(f, ps[i + 1..], Splice(b, at, got + Zeros(p.len - |got|)), at + |got|)
  {
    hide PRead, Splice, Reachable;
    assert ps[i..][0] == ps[i] && ps[i..][1..] == ps[i + 1..];
  }

  // ---------- strided transfers ----------

  const STRIDE_HEADER := 16

  function Stride(b: seq<byte>): u64
    requires |b| >= STRIDE_HEADER
  {
    Widths(); FieldBound(b[..8]);
    FromBe(b[..8])
  }

  function SegmentLength(b: seq<byte>): u64
    requires |b| >= STRIDE_HEADER
  {
    Widths(); FieldBound(b[8..16]);
    FromBe(b[8..16])
  }

  lemma HeaderReads(b: seq<byte>)
    requires |b| >= STRIDE_HEADER
    ensures Stride(b) == FromBe(b[..8]) && SegmentLength(b) == FromBe(b[8..16])
  {
    hide FromBe;
  }

  /** The transfer can be cut into segments, and the kernel takes the place of every byte. */
  ghost predicate SegmentsTaken(offset: nat, stride: nat, length: nat, n: nat) {
    n == 0 || (0 < length <= n && forall i :: 0 <= i < n ==> SegmentPlace(offset, stride, length, i) < TWO63 - 1)
  }

  lemma WhenSegmentsTaken(offset: u64, stride: u64, length: u64, n: u64)
    requires Cut(length, n)
    ensures SegmentsTaken(offset, stride, length, n) <==> AllReachable(Strides(offset, stride, length, n))
    ensures PlacedBy(Places(Strides(offset, stride, length, n)), (i: nat) => SegmentPlace(offset, stride, length, i))
    ensures |Places(Strides(offset, stride, length, n))| == n
  {
    hide SegmentPlace, Places, Reachable;
    var ps := Strides(offset, stride, length, n);
    StridesTotal(offset, stride, length, n);
    StridesNotEmpty(offset, stride, length, n);
    WhenPlacesReachable(ps);
    forall i | 0 <= i < n ensures Places(ps)[i] == SegmentPlace(offset, stride, length, i) {
      StridePlaceAt(offset, stride, length, n, i);
    }
  }

  lemma StridedWriteLands(f: seq<byte>, offset: u64, stride: u64, length: u64, payload: seq<byte>)
    requires |payload| < TWO64
    ensures |payload| > 0 && length == 0 ==> !SegmentsTaken(offset, stride, length, |payload|)
    ensures |payload| == 0 || length > 0 ==>
              var (g, r) := WriteAll(f, Segments(offset, stride, length, |payload|), payload);
              && (r.Good? <==> SegmentsTaken(offset, stride, length, |payload|))
              && (r.Good? ==> Lands(f, g, payload, (i: nat) => SegmentPlace(offset, stride, length, i)))
  {
    hide WriteAll, Segments, Strides, Lands, SegmentPlace, Scatter, Places, AllReachable, PlacedBy;
    var n := |payload|;
    if Cut(length, n) {
      SegmentsAreStrides(offset, stride, length, n);
      WhenSegmentsTaken(offset, stride, length, n);
      var ps := Strides(offset, stride, length, n);
      WriteAllScatters(f, ps, payload);
      assert payload[..n] == payload;
      if WriteAll(f, ps, payload).1.Good? {
        ScatterLands(f, ps, payload, (i: nat) => SegmentPlace(offset, stride, length, i));
      }
    } else if length > n {
      LongSegmentFails(f, offset, stride, length, n, payload, []);
    }
  }

  lemma StridedReadLands(f: seq<byte>, offset: u64, stride: u64, length: u64, n: u64, b: seq<byte>)
    requires n <= |b| < TWO64
    ensures n > 0 && length == 0 ==> !SegmentsTaken(offset, stride, length, n)
    ensures n == 0 || length > 0 ==>
              var (c, r) := ReadExactly(f, Segments(offset, stride, length, n), b, 0);
              && (r.Good? <==> SegmentsTaken(offset, stride, length, n)
                               && forall i :: 0 <= i < n ==> SegmentPlace(offset, stride, length, i) < |f|)
              && (r.Good? ==> |c| == |b| && c[n..] == b[n..] && forall i :: 0 <= i < n ==>
                    SegmentPlace(offset, stride, length, i) < |f| && c[i] == f[SegmentPlace(offset, stride, length, i)])
  {
    hide ReadExactly, Segments, Strides, SegmentPlace, Places, AllReachable, PlacedBy, Fetched, Below, SegmentsTaken;
    if Cut(length, n) {
      SegmentsAreStrides(offset, stride, length, n);
      WhenSegmentsTaken(offset, stride, length, n);
      var ps, place := Strides(offset, stride, length, n), (i: nat) => SegmentPlace(offset, stride, length, i);
      ExactReads(f, ps, b, 0);
      BelowPlaced(Places(ps), place, |f|);
      assert forall i :: 0 <= i < n ==> place(i) == SegmentPlace(offset, stride, length, i);
      var (c, r) := ReadExactly(f, ps, b, 0);
      if r.Good? { FetchedPlaced(f, Places(ps), place, c); }
    } else if length > n {
      LongSegmentFails(f, offset, stride, length, n, Zeros(n), b);
      assert !SegmentsTaken(offset, stride, length, n) by { NotCut(offset, stride, length, n); }
    } else {
      NotCut(offset, stride, length, n);
    }
  }

  lemma NotCut(offset: u64, stride: u64, length: u64, n: u64)
    requires !Cut(length, n)
    ensures !SegmentsTaken(offset, stride, length, n)
  {
  }

  /** A strided read succeeds exactly when the kernel takes every offset and every place lies in the file. */
  lemma {:induction false} ExactReads(f: seq<byte>, ps: seq<Piece>, b: seq<byte>, at: nat)
    requires at + |Places(ps)| <= |b|
    ensures var (c, r) := ReadExactly(f, ps, b, at);
            && (r.Good? <==> AllReachable(ps) && Below(Places(ps), |f|))
            && (r.Good? ==> |c| == |b| && c[..at] == b[..at] && c[at + |Places(ps)|..] == b[at + |Places(ps)|..]
                            && Fetched(f, Places(ps), c, at))
    decreases ps
  {
    hide Reachable, PRead, Splice, Fetched, Below;
    if ps == [] {
      assert Fetched(f, [], b, at) && Below([], |f|) by { NothingFetched(f, b, at); }
    } else {
      var got, r, rest := PRead(f, ps[0].len, ps[0].at), Range(ps[0].at, ps[0].len), Places(ps[1..]);
      AllReachableCons(ps);
      BelowAppend(r, rest, |f|);
      RangeBelow(f, ps[0], b, at);
      if Reachable(ps[0].at, ps[0].len) && |got| == ps[0].len {
        var d := Splice(b, at, got);
        ExactReads(f, ps[1..], d, at + |got|);
        var (c, s) := ReadExactly(f, ps[1..], d, at + |got|);
        if s.Good? {
          SpliceKeeps(b, at, got, c, |rest|);
          FetchedKept(f, r, d, c, at);
          FetchedAppend(f, r, rest, c, at);
        }
      }
    }
  }

  lemma NothingFetched(f: seq<byte>, b: seq<byte>, at: nat)
    requires at <= |b|
    ensures Fetched(f, [], b, at) && Below([], |f|)
  {
  }

  /** The bytes from position at on are those of the places. */
  ghost predicate Fetched(f: seq<byte>, places: seq<nat>, c: seq<byte>, at: nat)
    requires at + |places| <= |c|
  {
    forall i :: 0 <= i < |places| ==> places[i] < |f| && c[at + i] == f[places[i]]
  }

  lemma FetchedAppend(f: seq<byte>, r: seq<nat>, rest: seq<nat>, c: seq<byte>, at: nat)
    requires at + |r| + |rest| <= |c| && Fetched(f, r, c, at) && Fetched(f, rest, c, at + |r|)
    ensures Fetched(f, r + rest, c, at)
  {
    forall i | 0 <= i < |r + rest| ensures (r + rest)[i] < |f| && c[at + i] == f[(r + rest)[i]] {
      if i >= |r| { assert (r + rest)[i] == rest[i - |r|] && c[at + |r| + (i - |r|)] == f[rest[i - |r|]]; }
    }
  }

  /** A read that comes in full has found all its places in the file. */
  lemma RangeBelow(f: seq<byte>, p: Piece, b: seq<byte>, at: nat)
    requires at + p.len <= |b|
    ensures |PRead(f, p.len, p.at)| == p.len <==> Below(Range(p.at, p.len), |f|)
    ensures |PRead(f, p.len, p.at)| == p.len ==> Fetched(f, Range(p.at, p.len), Splice(b, at, PRead(f, p.len, p.at)), at)
  {
    if p.len > 0 && Below(Range(p.at, p.len), |f|) { assert Range(p.at, p.len)[p.len - 1] < |f|; }
  }

  lemma FetchedKept(f: seq<byte>, r: seq<nat>, d: seq<byte>, c: seq<byte>, at: nat)
    requires at + |r| <= |d| == |c| && Fetched(f, r, d, at) && c[..at + |r|] == d[..at + |r|]
    ensures Fetched(f, r, c, at)
  {
    forall i | 0 <= i < |r| ensures r[i] < |f| && c[at + i] == f[r[i]] {
      assert c[..at + |r|][at + i] == d[..at + |r|][at + i];
    }
  }

  /** What lies in front of a splice and behind it is kept, also through another one that starts behind it. */
  lemma SpliceKeeps(b: seq<byte>, at: nat, got: seq<byte>, c: seq<byte>, n: nat)
    requires at + |got| + n <= |b| == |c|
    requires var (d, m) := (Splice(b, at, got), at + |got|); c[..m] == d[..m] && c[m + n..] == d[m + n..]
    ensures c[..at] == b[..at] && c[at + |got| + n..] == b[at + |got| + n..]
  {
    hide Splice;
    var d, m := Splice(b, at, got), at + |got|;
    SpliceWindow(b, at, at, got, m);
    SpliceWindow(b, at, at, got, m + n);
    assert c[..at] == c[..m][..at] && d[..at] == d[..m][..at];
  }

  lemma FetchedPlaced(f: seq<byte>, s: seq<nat>, place: nat -> nat, c: seq<byte>)
    requires |s| <= |c| && PlacedBy(s, place) && Fetched(f, s, c, 0)
    ensures forall i :: 0 <= i < |s| ==> place(i) < |f| && c[i] == f[place(i)]
  {
    forall i | 0 <= i < |s| ensures place(i) < |f| && c[i] == f[place(i)] {
      assert s[i] == place(i) && c[0 + i] == f[s[i]];
    }
  }

  lemma BelowPlaced(s: seq<nat>, place: nat -> nat, m: nat)
    requires PlacedBy(s, place)
    ensures Below(s, m) <==> forall i :: 0 <= i < |s| ==> place(i) < m
  {
    if Below(s, m) {
      forall i | 0 <= i < |s| ensures place(i) < m { assert s[i] < m; }
    }
  }

  /** A transfer of n bytes can be cut into segments of this length. */
  predicate Cut(length: u64, n: u64) { n == 0 || 0 < length <= n }

  /** The pieces that the loop transfers. A segment longer than the transfer makes the bytes left over wrap, and the loop
      goes on. */
  function Segments(at: u64, stride: u64, length: u64, n: u64): seq<Piece>
    requires n == 0 || length > 0
  {
    if n == 0 then []
    else
      var rest := Sub64(n, length);
      [Piece(at, length)] + Strides(Add64(at, stride), stride, if rest < length then rest else length, rest)
  }

  lemma SegmentsAreStrides(at: u64, stride: u64, length: u64, n: u64)
    requires Cut(length, n)
    ensures Segments(at, stride, length, n) == Strides(at, stride, length, n)
  {
    SmallSub(n, length);
  }

  /** Segments of length 0: the loop either comes to an offset that the kernel refuses or, with stride 0, stays where it
      is; WhenLoopIsEndless says that it then never ends. */
  function EmptySegments(offset: u64, stride: u64): Status {
    if stride == 0 && Reachable(offset, 0) then Endless else Fault
  }

  /** The outcome Endless stands for a loop that does not end, and for no other. */
  lemma EndlessIsNeverEnding(offset: u64, stride: u64, length: u64, n: u64)
    ensures n > 0 && length == 0 && EmptySegments(offset, stride) == Endless
            <==> NeverEnds(Running(n, 0, length), offset, stride)
  {
    hide NeverEnds;
    WhenLoopIsEndless(n, offset, stride, length);
  }

  /** Length 0: nothing is transferred, and the loop is where it started unless the stride has moved it. */
  ghost predicate Idle(offsetVal: u64, offset: u64, stride: u64, length: u64, bytes: u64, n: u64) {
    length == 0 && bytes == n > 0 && (stride == 0 ==> Add64(offsetVal, offset) == offset)
  }

  method VecWrite(d: OsdDevice, pid: u64, oid: u64, offset: u64, din: seq<byte>) returns (r: Status)
    requires |din| < TWO64
    modifies d`files
    ensures |din| < STRIDE_HEADER ==> r == Overrun && d.files == old(d.files)
    ensures |din| >= STRIDE_HEADER && !CanOpen(old(d.files), pid, oid) ==> r == BadField && d.files == old(d.files)
    ensures |din| >= STRIDE_HEADER && CanOpen(old(d.files), pid, oid) ==>
              var n := |din| - STRIDE_HEADER;
              if n > 0 && SegmentLength(din) == 0
              then r == EmptySegments(offset, Stride(din)) && d.files == old(d.files)
              else
                var w := WriteAll(old(d.files[(pid, oid)]), Segments(offset, Stride(din), SegmentLength(din), n), din[16..]);
                r == w.1 && OnlyFile(old(d.files), d.files, pid, oid, w.0)
    ensures r.Good? <==>
              && |din| >= 16 && CanOpen(old(d.files), pid, oid)
              && SegmentsTaken(offset, FromBe(din[..8]), FromBe(din[8..16]), |din| - 16)
    ensures r.Good? ==>
              && |din| >= 16 && (pid, oid) in old(d.files) && (pid, oid) in d.files
              && Lands(old(d.files)[(pid, oid)], d.files[(pid, oid)], din[16..],
                       (i: nat) => SegmentPlace(offset, FromBe(din[..8]), FromBe(din[8..16]), i))
  {
    hide WriteAll, PWrite, Strides, Segments, Reachable, Add64, Sub64, Fuel, FromBe, SegmentsTaken, Lands, SegmentPlace;
    if |din| < STRIDE_HEADER { return Overrun; }
    var stride: u64, length: u64 := Stride(din), SegmentLength(din);
    if !CanOpen(d.files, pid, oid) { return BadField; }
    HeaderReads(din);
    StridedWriteLands(d.files[(pid, oid)], offset, stride, length, din[16..]);
    var dataOffset: nat, bytes: u64, offsetVal: u64 := STRIDE_HEADER, |din| - STRIDE_HEADER, 0;
    ghost var n, f, empty := bytes, d.files[(pid, oid)], bytes > 0 && length == 0;
    ghost var w := if empty then (f, Fault) else WriteAll(f, Segments(offset, stride, length, n), din[16..]);
    AddZero(offset);
    while bytes > 0
      invariant dataOffset + bytes == |din|
      invariant (pid, oid) in d.files && OnlyFile(old(d.files), d.files, pid, oid, d.files[(pid, oid)])
      invariant empty ==> Idle(offsetVal, offset, stride, length, bytes, n) && d.files == old(d.files)
      invariant !empty ==>
                  && (bytes == 0 || length > 0)
                  && WriteAll(d.files[(pid, oid)], Segments(Add64(offsetVal, offset), stride, length, bytes), din[dataOffset..])
                     == w
      decreases bytes, if length == 0 then Fuel(Add64(offsetVal, offset), stride) else 0
    {
      var at := Add64(offsetVal, offset);
      if length > 0 { SegmentNext(d.files[(pid, oid)], offsetVal, offset, stride, length, bytes, din, dataOffset); }
      if !Reachable(at, length) {
        if length == 0 { StuckOrFault(at, offset, stride); }
        return Fault;
      }
      if length == 0 && stride == 0 { return Endless; }
      if length > bytes { return Overrun; }
      WriteNothing(d.files[(pid, oid)], din[dataOffset..dataOffset + length], at);
      d.files := d.files[(pid, oid) := PWrite(d.files[(pid, oid)], din[dataOffset..dataOffset + length], at)];
      dataOffset := dataOffset + length;
      PassMoves(offsetVal, offset, stride, at, length);
      SmallSub(bytes, length);
      offsetVal := Add64(offsetVal, stride);
      bytes := Sub64(bytes, length);
      if bytes < length { length := bytes; }
    }
    NoSegments(Add64(offsetVal, offset), stride, length);
    WriteAllNothing(d.files[(pid, oid)], [], din[dataOffset..]);
    r := Good;
  }

  lemma AddZero(offset: u64)
    ensures Add64(0, offset) == offset
  {
  }

  lemma NoSegments(at: u64, stride: u64, length: u64)
    ensures Segments(at, stride, length, 0) == []
  {
  }

  lemma WriteNothing(f: seq<byte>, data: seq<byte>, at: nat)
    ensures data == [] ==> PWrite(f, data, at) == f
  {
  }

  /** An idle loop that meets a refused offset does not count as endless. */
  lemma StuckOrFault(at: u64, offset: u64, stride: u64)
    requires !Reachable(at, 0) && (stride == 0 ==> at == offset)
    ensures EmptySegments(offset, stride) == Fault
  {
  }

  /** A pass of length 0 comes nearer to a refused offset. */
  lemma PassMoves(offsetVal: u64, offset: u64, stride: u64, at: u64, length: u64)
    requires at == Add64(offsetVal, offset) && Reachable(at, length) && (length == 0 ==> stride != 0)
    ensures length == 0 ==> Fuel(Add64(Add64(offsetVal, stride), offset), stride) < Fuel(at, stride)
  {
    hide Add64;
    AddSwap(offsetVal, offset, stride);
    if length == 0 { FuelDrops(at, stride); }
  }

  lemma SegmentsNext(offsetVal: u64, offset: u64, stride: u64, length: u64, bytes: u64)
    requires 0 < length && 0 < bytes
    ensures var rest := Sub64(bytes, length);
            var next := if rest < length then rest else length;
            && Cut(next, rest)
            && Segments(Add64(offsetVal, offset), stride, length, bytes)
               == [Piece(Add64(offsetVal, offset), length)]
                  + Segments(Add64(Add64(offsetVal, stride), offset), stride, next, rest)
  {
    hide Add64, Strides;
    AddSwap(offsetVal, offset, stride);
    var rest := Sub64(bytes, length);
    SegmentsAreStrides(Add64(Add64(offsetVal, stride), offset), stride, if rest < length then rest else length, rest);
  }

  lemma SegmentNext(f: seq<byte>, offsetVal: u64, offset: u64, stride: u64, length: u64, bytes: u64, din: seq<byte>, k: nat)
    requires 0 < length && 0 < bytes && k + bytes == |din|
    ensures var at, rest := Add64(offsetVal, offset), Sub64(bytes, length);
            var next := if rest < length then rest else length;
            var w := WriteAll(f, Segments(at, stride, length, bytes), din[k..]);
            && (rest > 0 ==> next > 0)
            && (!Reachable(at, length) ==> w == (f, Fault))
            && (Reachable(at, length) && length > bytes ==> w == (f, Overrun))
            && (Reachable(at, length) && length <= bytes ==>
                  w == WriteAll(PWrite(f, din[k..k + length], at),
                                Segments(Add64(Add64(offsetVal, stride), offset), stride, next, rest), din[k + length..]))
  {
    hide WriteAll, Segments, PWrite, Reachable;
    SegmentsNext(offsetVal, offset, stride, length, bytes);
    var ps := Segments(Add64(offsetVal, offset), stride, length, bytes);
    WriteAllNext(f, ps, 0, din, k);
    assert ps[0..] == ps;
  }

  method VecRead(d: OsdDevice, pid: u64, oid: u64, len: u64, offset: u64, indata: seq<byte>, out: array<byte>)
    returns (r: Status, used: u64)
    requires len <= out.Length < TWO64
    modifies out
    ensures |indata| < STRIDE_HEADER ==> r == Overrun && out[..] == old(out[..])
    ensures |indata| >= STRIDE_HEADER && !CanOpen(d.files, pid, oid) ==> r == BadField && out[..] == old(out[..])
    ensures |indata| >= STRIDE_HEADER && CanOpen(d.files, pid, oid) ==>
              if len > 0 && SegmentLength(indata) == 0
              then r == EmptySegments(offset, Stride(indata)) && out[..] == old(out[..])
              else
                var ps := Segments(offset, Stride(indata), SegmentLength(indata), len);
                && (out[..], r) == ReadExactly(d.files[(pid, oid)], ps, old(out[..]), 0)
                && (r.Good? ==> used == len)
    ensures r.Good? <==>
              && |indata| >= 16 && CanOpen(d.files, pid, oid)
              && SegmentsTaken(offset, FromBe(indata[..8]), FromBe(indata[8..16]), len)
              && forall i :: 0 <= i < len ==>
                   SegmentPlace(offset, FromBe(indata[..8]), FromBe(indata[8..16]), i) < |d.files[(pid, oid)]|
    ensures r.Good? ==>
              && |indata| >= 16 && out[len..] == old(out[..])[len..]
              && forall i :: 0 <= i < len ==>
                   var q := SegmentPlace(offset, FromBe(indata[..8]), FromBe(indata[8..16]), i);
                   q < |d.files[(pid, oid)]| && out[i] == d.files[(pid, oid)][q]
  {
    hide ReadExactly, PRead, Segments, Splice, Reachable, Add64, Sub64, Fuel, FromBe, SegmentsTaken, SegmentPlace;
    used := 0;
    if |indata| < STRIDE_HEADER { return Overrun, 0; }
    var stride: u64, length: u64 := Stride(indata), SegmentLength(indata);
    if !CanOpen(d.files, pid, oid) { return BadField, 0; }
    var f := d.files[(pid, oid)];
    HeaderReads(indata);
    StridedReadLands(f, offset, stride, length, len, out[..]);
    var bytes: u64, offsetVal: u64 := len, 0;
    ghost var b, empty := out[..], len > 0 && length == 0;
    ghost var w := if empty then (b, Fault) else ReadExactly(f, Segments(offset, stride, length, len), b, 0);
    AddZero(offset);
    while bytes > 0
      invariant used <= out.Length && (length > bytes > 0 ==> used == 0 && bytes == len)
      invariant used + bytes == len || used + bytes == len + TWO64
      invariant empty ==> Idle(offsetVal, offset, stride, length, bytes, len) && out[..] == b
      invariant !empty ==>
                  && (bytes == 0 || length > 0)
                  && ReadExactly(f, Segments(Add64(offsetVal, offset), stride, length, bytes), out[..], used) == w
      decreases if length > bytes then 1 else 0, bytes, if length == 0 then Fuel(Add64(offsetVal, offset), stride) else 0
    {
      var at := Add64(offsetVal, offset);
      if length > 0 { ReadNext(f, offsetVal, offset, stride, length, bytes, out[..], used); }
      if !Reachable(at, length) {
        if length == 0 { StuckOrFault(at, offset, stride); }
        return Fault, used;
      }
      if length == 0 && stride == 0 { return Endless, used; }
      var got := PRead(f, length, at);
      if used + |got| > out.Length { return Overrun, used; }
      if got == [] { SpliceNothing(out[..], used, got); }
      Store(out, used, got);
      if |got| != length { return Fault, used; }
      used := used + length;
      PassMoves(offsetVal, offset, stride, at, length);
      SmallSub(bytes, length);
      offsetVal := Add64(offsetVal, stride);
      bytes := Sub64(bytes, length);
      if bytes < length { length := bytes; }
    }
    NoSegments(Add64(offsetVal, offset), stride, length);
    ReadNothing(f, out[..], used);
    r := Good;
  }

  lemma ReadNothing(f: seq<byte>, b: seq<byte>, at: nat)
    ensures ReadExactly(f, [], b, at) == (b, Good)
  {
  }

  lemma ReadNext(f: seq<byte>, offsetVal: u64, offset: u64, stride: u64, length: u64, bytes: u64, b: seq<byte>, k: nat)
    requires 0 < length && 0 < bytes
    ensures var at, rest, got := Add64(offsetVal, offset), Sub64(bytes, length), PRead(f, length, Add64(offsetVal, offset));
            var next := if rest < length then rest else length;
            var w := ReadExactly(f, Segments(at, stride, length, bytes), b, k);
            && (rest > 0 ==> next > 0)
            && (!Reachable(at, length) ==> w == (b, Fault))
            && (Reachable(at, length) && k + |got| > |b| ==> w == (b, Overrun))
            && (Reachable(at, length) && k + |got| <= |b| && |got| < length ==> w == (Splice(b, k, got), Fault))
            && (Reachable(at, length) && k + |got| <= |b| && |got| == length ==>
                  w == ReadExactly(f, Segments(Add64(Add64(offsetVal, stride), offset), stride, next, rest),
                                   Splice(b, k, got), k + length))
  {
    hide Segments, PRead, Splice, Reachable;
    SegmentsNext(offsetVal, offset, stride, length, bytes);
    var rest := Sub64(bytes, length);
    var next := if rest < length then rest else length;
    var ps := Segments(Add64(offsetVal, offset), stride, length, bytes);
    assert ps[1..] == Segments(Add64(Add64(offsetVal, stride), offset), stride, next, rest);
  }

  /** A segment that is longer than the whole transfer never succeeds: a write runs out of data, and a read, whose count
      wraps past 2^64, out of the file or of its buffer. */
  lemma LongSegmentFails(f: seq<byte>, offset: u64, stride: u64, length: u64, n: u64, din: seq<byte>, b: seq<byte>)
    requires 0 < n < length && |din| == n && |b| < TWO64
    ensures WriteAll(f, Segments(offset, stride, length, n), din) == (f, if Reachable(offset, length) then Overrun else Fault)
    ensures !ReadExactly(f, Segments(offset, stride, length, n), b, 0).1.Good?
  {
    hide WriteAll, ReadExactly, Segments, Reachable;
    AddZero(offset);
    SegmentNext(f, 0, offset, stride, length, n, din, 0);
    assert din[0..] == din;
    SegmentsTotal(offset, stride, length, n);
    ReadsWithin(f, Segments(offset, stride, length, n), b, 0);
  }

  lemma SegmentsTotal(at: u64, stride: u64, length: u64, n: u64)
    requires 0 < n < length
    ensures |Places(Segments(at, stride, length, n))| == n + TWO64
  {
    var rest := Sub64(n, length);
    SmallSub(n, length);
    StridesTotal(Add64(at, stride), stride, if rest < length then rest else length, rest);
  }

  /** What is read in full has fitted into the buffer. */
  lemma {:induction false} ReadsWithin(f: seq<byte>, ps: seq<Piece>, b: seq<byte>, at: nat)
    requires at <= |b|
    ensures ReadExactly(f, ps, b, at).1.Good? ==> at + |Places(ps)| <= |b|
    decreases ps
  {
    hide PRead, Splice, Reachable;
    if ps != [] && Reachable(ps[0].at, ps[0].len) {
      var got := PRead(f, ps[0].len, ps[0].at);
      if at + |got| <= |b| && |got| == ps[0].len { ReadsWithin(f, ps[1..], Splice(b, at, got), at + |got|); }
    }
  }

  // ---------- punch ----------

  method Punch(d: OsdDevice, pid: u64, oid: u64, len: u64, offset: u64) returns (r: Status)
    requires forall k :: k in d.files ==> |d.files[k]| < TWO63
    modifies d`files
    ensures r == BadField <==> !CanOpen(old(d.files), pid, oid) || offset > |old(d.files[(pid, oid)])|
    ensures r == BadField ==> d.files == old(d.files)
    ensures r != BadField ==>
              r == Good && OnlyFile(old(d.files), d.files, pid, oid, Punched(old(d.files[(pid, oid)]), len, offset))
  {
    if !CanOpen(d.files, pid, oid) { return BadField; }
    var f := d.files[(pid, oid)];
    var newOffset := Add64(len, offset);
    if offset > |f| { return BadField; }
    if newOffset > |f| {
      d.files := d.files[(pid, oid) := f[..offset]];
      return Good;
    }
    var newLen := |f| - newOffset;
    var buf := PRead(f, newLen, newOffset);
    var moved := PWrite(f, buf, offset);
    ShiftThenCut(f, newOffset, offset);
    d.files := d.files[(pid, oid) := moved[..offset + newLen]];
    r := Good;
  }

  /** Writing the tail at the offset and cutting the file behind it leaves the head and the tail. */
  lemma ShiftThenCut(f: seq<byte>, newOffset: nat, offset: nat)
    requires newOffset <= |f| && offset <= |f|
    ensures var (n, moved) := (|f| - newOffset, PWrite(f, PRead(f, |f| - newOffset, newOffset), offset));
            offset + n <= |moved| && moved[..offset + n] == f[..offset] + f[newOffset..]
  {
    var buf := PRead(f, |f| - newOffset, newOffset);
    var moved := PWrite(f, buf, offset);
    assert buf == f[newOffset..];
    forall q | 0 <= q < offset + |buf| ensures moved[q] == (f[..offset] + f[newOffset..])[q] {
      assert ByteAt(moved, q) == if offset <= q < offset + |buf| then buf[q - offset] else ByteAt(f, q);
    }
  }
}
