/** The CDB continuation segment: parse_cdb_continuation_segment and the descriptors it records. */
module Continuation {
  import opened Bytes

  const CONT_HEADER := 40
  const MIN_CONT_LEN := 48
  const DESC_HEADER := 8
  const CONT_FORMAT := 1

  const NO_MORE_DESCRIPTORS := 0x0000
  const SCATTER_GATHER_LIST := 0x0001
  const QUERY_LIST := 0x0002

  /** A recorded descriptor: its type and length, and where its header starts. */
  datatype Descriptor = Descriptor(kind: u16, length: u32, start: nat)

  /** Overrun: a field is read beyond the data that arrived. Endless: the walk never ends. */
  datatype Outcome = Parsed(list: seq<Descriptor>) | CdbError | Overrun | Endless

  function Prepend(ds: seq<Descriptor>, r: Outcome): Outcome {
    if r.Parsed? then Parsed(ds + r.list) else r
  }

  lemma PrependTwice(ds: seq<Descriptor>, d: Descriptor, r: Outcome)
    ensures Prepend(ds, Prepend([d], r)) == Prepend(ds + [d], r)
  {
    if r.Parsed? { Assoc(ds, [d], r.list); }
  }

  // ---------- one descriptor ----------

  function PadAt(b: seq<byte>, at: nat): nat
    requires at + DESC_HEADER <= |b|
  {
    b[at + 3] % 8
  }

  function HeaderAt(b: seq<byte>, at: nat): Descriptor
    requires at + DESC_HEADER <= |b|
  {
    Descriptor(U16At(b, at), U32At(b, at + 4), at)
  }

  /** The bytes a descriptor takes, and what 32-bit arithmetic makes of it. */
  function FullSize(b: seq<byte>, at: nat): nat
    requires at + DESC_HEADER <= |b|
  {
    DESC_HEADER + HeaderAt(b, at).length + PadAt(b, at)
  }

  function Advance(b: seq<byte>, at: nat): u32
    requires at + DESC_HEADER <= |b|
  {
    Low32(Low32(HeaderAt(b, at).length + PadAt(b, at)) + DESC_HEADER)
  }

  lemma AdvanceIsLow(b: seq<byte>, at: nat)
    requires at + DESC_HEADER <= |b|
    ensures Advance(b, at) == Low32(FullSize(b, at))
  {
    hide Low32;
    Low32Add(HeaderAt(b, at).length + PadAt(b, at), DESC_HEADER);
  }

  /** The checks on one descriptor, in whatever order they fail. */
  predicate Acceptable(b: seq<byte>, at: nat, len: u32)
    requires at + DESC_HEADER <= |b|
  {
    var kind := HeaderAt(b, at).kind;
    && Aligned(Low32(HeaderAt(b, at).length + PadAt(b, at)))
    && at + Advance(b, at) <= len
    && (kind == NO_MORE_DESCRIPTORS || ((kind == SCATTER_GATHER_LIST || kind == QUERY_LIST) && PadAt(b, at) == 0))
  }

  // ---------- the walk ----------

  /** The walk from at to the end of the segment. Nobody compares its length with the data that arrived. */
  function Walk(b: seq<byte>, at: nat, len: u32): Outcome
    decreases len - at
  {
    if at >= len then Parsed([])
    else if at + DESC_HEADER > |b| then Overrun
    else if !Acceptable(b, at, len) then CdbError
    else if Advance(b, at) == 0 then Endless
    else Prepend([HeaderAt(b, at)], Walk(b, at + Advance(b, at), len))
  }

  /** The whole command: the fields of the header are read before anything is checked. */
  function Segment(indata: seq<byte>, len: u32, action: u16): Outcome {
    if |indata| < 4 then Overrun
    else if !Aligned(len) || len < MIN_CONT_LEN || U16At(indata, 2) != action || indata[0] != CONT_FORMAT then CdbError
    else Walk(indata, CONT_HEADER, len)
  }

  /** Every header that is read lies inside the segment. */
  lemma HeaderInside(at: nat, len: nat)
    requires Aligned(at) && Aligned(len) && at < len
    ensures at + DESC_HEADER <= len
  {
  }

  lemma AdvanceAligned(b: seq<byte>, at: nat)
    requires at + DESC_HEADER <= |b| && Aligned(at) && Aligned(Low32(HeaderAt(b, at).length + PadAt(b, at)))
    ensures Aligned(at + Advance(b, at))
  {
    hide HeaderAt, PadAt, Aligned, Low32;
    HeaderAligned();
    var n := Low32(HeaderAt(b, at).length + PadAt(b, at));
    AlignedAdd(n, DESC_HEADER);
    LowAligned(n + DESC_HEADER);
    AlignedAdd(at, Advance(b, at));
  }

  /** struct cdb_continuation, grown by eight descriptors at a time. */
  class Continuation {
    var count: nat
    var descriptors: array<Descriptor>

    ghost predicate Valid()
      reads this
    {
      descriptors.Length == RoundUp8(count)
    }

    function Contents(): seq<Descriptor>
      requires Valid()
      reads this, descriptors
    {
      descriptors[..count]
    }

    constructor ()
      ensures Valid() && fresh(descriptors) && Contents() == []
    {
      count, descriptors := 0, new Descriptor[0];
    }

    /** Room for eight more when the count is a multiple of eight, and one entry filled. */
    method Record(d: Descriptor)
      requires Valid()
      modifies this, descriptors
      ensures Valid() && Contents() == old(Contents()) + [d]
      ensures descriptors == old(descriptors) || fresh(descriptors)
    {
      ghost var was := Contents();
      RoomForOne(count);
      if Aligned(count) {
        var larger := new Descriptor[count + 8];
        forall i | 0 <= i < count { larger[i] := descriptors[i]; }
        assert larger[..count] == was;
        descriptors := larger;
      }
      descriptors[count] := d;
      count := count + 1;
      assert descriptors[..count] == was + [d];
    }

    /** len is cdb_cont_len, action the service action of the CDB. */
    method Parse(indata: seq<byte>, len: u32, action: u16) returns (r: Outcome)
      requires Valid() && count == 0
      modifies this, descriptors
      ensures Valid() && r == Segment(indata, len, action) && (r.Parsed? ==> r.list == Contents())
    {
      hide Walk, Acceptable, Advance, Aligned, U16At, HeaderAt;
      if |indata| < 4 { return Overrun; }
      if !Aligned(len) || len < MIN_CONT_LEN { return CdbError; }
      if U16At(indata, 2) != action { return CdbError; }
      if indata[0] != CONT_FORMAT { return CdbError; }
      var at := CONT_HEADER;
      ghost var w := Walk(indata, CONT_HEADER, len);
      while at < len
        invariant at <= len && Valid() && (descriptors == old(descriptors) || fresh(descriptors))
        invariant w == Prepend(Contents(), Walk(indata, at, len))
        decreases len - at
      {
        WalkNext(indata, at, len);
        if at + DESC_HEADER > |indata| { return Overrun; }
        ghost var was := Contents();
        var d := HeaderAt(indata, at);
        Record(d);
        if !Acceptable(indata, at, len) { return CdbError; }
        var step := Advance(indata, at);
        if step == 0 { return Endless; }
        PrependTwice(was, d, Walk(indata, at + step, len));
        at := at + step;
      }
      WalkEnd(indata, at, len);
      assert Contents() + [] == Contents();
      r := Parsed(Contents());
    }
  }

  lemma HeaderAligned()
    ensures Aligned(CONT_HEADER) && Aligned(DESC_HEADER)
  {
  }

  lemma RoomForOne(count: nat)
    ensures RoundUp8(count + 1) == (if Aligned(count) then count + 8 else RoundUp8(count)) && count < RoundUp8(count + 1)
  {
  }

  lemma WalkEnd(b: seq<byte>, at: nat, len: u32)
    requires at >= len
    ensures Walk(b, at, len) == Parsed([])
  {
  }

  lemma WalkNext(b: seq<byte>, at: nat, len: u32)
    requires at < len
    ensures at + DESC_HEADER > |b| ==> Walk(b, at, len) == Overrun
    ensures at + DESC_HEADER <= |b| && !Acceptable(b, at, len) ==> Walk(b, at, len) == CdbError
    ensures at + DESC_HEADER <= |b| && Acceptable(b, at, len) && Advance(b, at) == 0 ==> Walk(b, at, len) == Endless
    ensures at + DESC_HEADER <= |b| && Acceptable(b, at, len) && Advance(b, at) != 0 ==>
              && at + Advance(b, at) <= len
              && Walk(b, at, len) == Prepend([HeaderAt(b, at)], Walk(b, at + Advance(b, at), len))
  {
  }

  // ---------- the passes of the loop ----------

  /** The loop between two passes: the cursor and what is recorded, or how it has ended. */
  datatype Loop = Running(at: nat, list: seq<Descriptor>) | Ended(r: Outcome)

  /** One pass, down to the cursor's advance. */
  function Pass(b: seq<byte>, len: u32, l: Loop): Loop {
    match l
    case Ended(_) => l
    case Running(at, list) =>
      if at >= len then Ended(Parsed(list))
      else if at + DESC_HEADER > |b| then Ended(Overrun)
      else if !Acceptable(b, at, len) then Ended(CdbError)
      else Running(at + Advance(b, at), list + [HeaderAt(b, at)])
  }

  function Passes(b: seq<byte>, len: u32, l: Loop, k: nat): Loop
    decreases k
  {
    if k == 0 then l else Passes(b, len, Pass(b, len, l), k - 1)
  }

  ghost predicate NeverEnds(b: seq<byte>, len: u32, l: Loop) { forall k: nat :: Passes(b, len, l, k).Running? }

  lemma {:induction false} PassesEnd(b: seq<byte>, at: nat, len: u32, list: seq<Descriptor>) returns (k: nat)
    requires !Walk(b, at, len).Endless?
    ensures Passes(b, len, Running(at, list), k) == Ended(Prepend(list, Walk(b, at, len)))
    decreases len - at
  {
    hide Walk, Acceptable, Advance, HeaderAt;
    k := 1;
    if at >= len {
      WalkEnd(b, at, len);
      assert list + [] == list;
    } else {
      WalkNext(b, at, len);
      if at + DESC_HEADER <= |b| && Acceptable(b, at, len) {
        var d, next := HeaderAt(b, at), at + Advance(b, at);
        k := PassesEnd(b, next, len, list + [d]);
        PrependTwice(list, d, Walk(b, next, len));
        k := k + 1;
      }
    }
    if k == 1 { PassOnce(b, len, Running(at, list)); }
  }

  lemma PassOnce(b: seq<byte>, len: u32, l: Loop)
    ensures Passes(b, len, l, 1) == Pass(b, len, l)
  {
    assert Passes(b, len, Pass(b, len, l), 0) == Pass(b, len, l);
  }

  lemma {:induction false} PassesGoOn(b: seq<byte>, at: nat, len: u32, list: seq<Descriptor>, k: nat)
    requires Walk(b, at, len).Endless?
    ensures Passes(b, len, Running(at, list), k).Running?
    decreases k
  {
    hide Walk, Acceptable, Advance, HeaderAt;
    if at >= len { WalkEnd(b, at, len); } else { WalkNext(b, at, len); }
    if k > 0 { PassesGoOn(b, at + Advance(b, at), len, list + [HeaderAt(b, at)], k - 1); }
  }

  /** The walk is called endless when no number of passes ends the loop, and any other outcome is what some number of
      passes arrives at. */
  lemma EndlessIsNeverEnding(b: seq<byte>, at: nat, len: u32)
    ensures Walk(b, at, len).Endless? <==> NeverEnds(b, len, Running(at, []))
    ensures !Walk(b, at, len).Endless? ==> exists k: nat :: Passes(b, len, Running(at, []), k) == Ended(Walk(b, at, len))
  {
    hide Walk, Passes;
    if Walk(b, at, len).Endless? {
      forall k: nat ensures Passes(b, len, Running(at, []), k).Running? { PassesGoOn(b, at, len, [], k); }
    } else {
      var k := PassesEnd(b, at, len, []);
      assert Prepend([], Walk(b, at, len)) == Walk(b, at, len);
    }
  }

  // ---------- tiling ----------

  /** The descriptors follow one another from at to len without gap or overlap. */
  ghost predicate Tile(b: seq<byte>, ds: seq<Descriptor>, at: nat, len: nat)
    decreases ds
  {
    if ds == [] then at == len
    else
      && at + DESC_HEADER <= |b| && ds[0] == HeaderAt(b, at)
      && Tile(b, ds[1..], at + FullSize(b, at), len)
  }

  /** Positions at which a walk from at has looked for a header. */
  ghost predicate Visits(b: seq<byte>, at: nat, len: u32, p: nat)
    decreases len - at
  {
    at < len &&
    (p == at || (at + DESC_HEADER <= |b| && Acceptable(b, at, len) && Advance(b, at) != 0 &&
                 Visits(b, at + Advance(b, at), len, p)))
  }

  lemma VisitsNext(b: seq<byte>, at: nat, len: u32)
    requires at < len && at + DESC_HEADER <= |b| && Acceptable(b, at, len) && Advance(b, at) != 0
    ensures forall p: nat :: Visits(b, at, len, p) <==> p == at || Visits(b, at + Advance(b, at), len, p)
  {
    hide Advance, HeaderAt, PadAt;
  }

  /** The size of every descriptor that the walk comes to fits into 32 bits. */
  ghost predicate NoneWraps(b: seq<byte>, at: nat, len: u32) {
    forall p: nat :: Visits(b, at, len, p) && p + DESC_HEADER <= |b| ==> FullSize(b, p) < TWO32
  }

  lemma NoneWrapsNext(b: seq<byte>, at: nat, len: u32)
    requires at < len && at + DESC_HEADER <= |b| && Acceptable(b, at, len) && Advance(b, at) != 0
    ensures NoneWraps(b, at, len) <==> FullSize(b, at) < TWO32 && NoneWraps(b, at + Advance(b, at), len)
  {
    hide Acceptable, Advance, FullSize, Visits;
    VisitsNext(b, at, len);
  }

  /** Every header that the walk comes to has arrived. */
  ghost predicate Inside(b: seq<byte>, at: nat, len: u32) {
    forall p: nat :: Visits(b, at, len, p) ==> p + DESC_HEADER <= |b|
  }

  /** The walk reads beyond the data that arrived exactly when it comes to a header that is not all there; in a segment
      that has arrived whole it never does. */
  lemma {:induction false} WhenWalkOverruns(b: seq<byte>, at: nat, len: u32)
    requires Aligned(at) && Aligned(len)
    ensures Walk(b, at, len).Overrun? <==> !Inside(b, at, len)
    ensures |b| >= len ==> !Walk(b, at, len).Overrun?
    decreases len - at
  {
    hide Walk, Acceptable, Advance, Aligned, Inside;
    if at >= len {
      WalkEnd(b, at, len);
      NothingOutside(b, at, len);
    } else {
      HeaderInside(at, len);
      WalkNext(b, at, len);
      if at + DESC_HEADER > |b| {
        FirstOutside(b, at, len);
      } else {
        InsideNext(b, at, len);
        if Acceptable(b, at, len) && Advance(b, at) != 0 {
          AcceptedAligned(b, at, len);
          WhenWalkOverruns(b, at + Advance(b, at), len);
        }
      }
    }
  }

  lemma NothingOutside(b: seq<byte>, at: nat, len: u32)
    requires at >= len
    ensures Inside(b, at, len)
  {
  }

  lemma FirstOutside(b: seq<byte>, at: nat, len: u32)
    requires at < len && at + DESC_HEADER > |b|
    ensures !Inside(b, at, len)
  {
    assert Visits(b, at, len, at);
  }

  lemma InsideNext(b: seq<byte>, at: nat, len: u32)
    requires at < len && at + DESC_HEADER <= |b|
    ensures Inside(b, at, len)
            <==> (Acceptable(b, at, len) && Advance(b, at) != 0 ==> Inside(b, at + Advance(b, at), len))
  {
    hide Acceptable, Advance, Visits;
    if Acceptable(b, at, len) && Advance(b, at) != 0 {
      var next := at + Advance(b, at);
      VisitsNext(b, at, len);
      if Inside(b, at, len) {
        forall p: nat | Visits(b, next, len, p) ensures p + DESC_HEADER <= |b| { assert Visits(b, at, len, p); }
        assert Inside(b, next, len);
      }
      if Inside(b, next, len) {
        forall p: nat | Visits(b, at, len, p) ensures p + DESC_HEADER <= |b| { assert p == at || Visits(b, next, len, p); }
        assert Inside(b, at, len);
      }
    } else { VisitsLast(b, at, len); }
  }

  lemma VisitsLast(b: seq<byte>, at: nat, len: u32)
    requires at < len && !(at + DESC_HEADER <= |b| && Acceptable(b, at, len) && Advance(b, at) != 0)
    ensures forall p: nat :: Visits(b, at, len, p) <==> p == at
  {
    hide Acceptable, Advance;
  }

  lemma AcceptedAligned(b: seq<byte>, at: nat, len: u32)
    requires at + DESC_HEADER <= |b| && Aligned(at) && Acceptable(b, at, len)
    ensures Aligned(at + Advance(b, at))
  {
    hide Advance, HeaderAt, PadAt, Aligned;
    AdvanceAligned(b, at);
  }

  /** The type NO_MORE_DESCRIPTORS does not end the walk: what follows is read and judged like any other descriptor. */
  lemma NoMoreDoesNotEnd(b: seq<byte>, at: nat, len: u32)
    requires at < len && at + DESC_HEADER <= |b| && Acceptable(b, at, len) && 0 != Advance(b, at) < len - at
    requires HeaderAt(b, at).kind == NO_MORE_DESCRIPTORS
    ensures var next := at + Advance(b, at);
            && (next + DESC_HEADER > |b| ==> Walk(b, at, len).Overrun?)
            && (next + DESC_HEADER <= |b| && !Acceptable(b, next, len) ==> Walk(b, at, len).CdbError?)
            && (Walk(b, at, len).Parsed? ==>
                  next + DESC_HEADER <= |b| && [HeaderAt(b, at), HeaderAt(b, next)] <= Walk(b, at, len).list)
  {
    hide Walk, Acceptable, Advance;
    WalkNext(b, at, len);
    WalkNext(b, at + Advance(b, at), len);
  }

  /** On success the recorded descriptors cover the segment exactly if and only if no descriptor that the walk comes to
      has a size that wraps past 32 bits. */
  lemma {:induction false} WhenDescriptorsTile(b: seq<byte>, at: nat, len: u32)
    requires at <= len && Walk(b, at, len).Parsed?
    ensures Tile(b, Walk(b, at, len).list, at, len) <==> NoneWraps(b, at, len)
    decreases len - at
  {
    hide Walk, Acceptable, Advance, FullSize, HeaderAt, NoneWraps;
    if at == len {
      WalkEnd(b, at, len);
      NothingWraps(b, at, len);
    } else {
      WalkNext(b, at, len);
      var ds, step := Walk(b, at, len).list, Advance(b, at);
      var rest := Walk(b, at + step, len).list;
      assert ds[1..] == rest;
      HeaderStart(b, at);
      NoneWrapsNext(b, at, len);
      AdvanceIsLow(b, at);
      if FullSize(b, at) < TWO32 {
        SmallIsLow(FullSize(b, at));
        WhenDescriptorsTile(b, at + step, len);
      } else if Tile(b, ds, at, len) {
        TileInside(b, rest, at + FullSize(b, at), len);
      }
    }
  }

  lemma NothingWraps(b: seq<byte>, at: nat, len: u32)
    requires at >= len
    ensures NoneWraps(b, at, len)
  {
  }

  /** A descriptor whose size has wrapped is accepted: 8 header bytes stand for 2^32 + 8 bytes. */
  lemma WrappedDescriptorParses(front: seq<byte>)
    requires |front| == CONT_HEADER
    ensures var b := front + [0, 0, 0, 1, 255, 255, 255, 255];
            && Walk(b, CONT_HEADER, MIN_CONT_LEN) == Parsed([Descriptor(NO_MORE_DESCRIPTORS, 0xFFFF_FFFF, CONT_HEADER)])
            && !Tile(b, Walk(b, CONT_HEADER, MIN_CONT_LEN).list, CONT_HEADER, MIN_CONT_LEN)
  {
    hide Walk, Tile, U16At, U32At, Low32, Aligned;
    var b := front + [0, 0, 0, 1, 255, 255, 255, 255];
    WrappedHeader(front);
    HeaderAligned();
    WalkNext(b, CONT_HEADER, MIN_CONT_LEN);
    WalkEnd(b, MIN_CONT_LEN, MIN_CONT_LEN);
    TileOne(b);
  }

  lemma WrappedHeader(front: seq<byte>)
    requires |front| == CONT_HEADER
    ensures var b := front + [0, 0, 0, 1, 255, 255, 255, 255];
            && HeaderAt(b, CONT_HEADER) == Descriptor(NO_MORE_DESCRIPTORS, 0xFFFF_FFFF, CONT_HEADER)
            && PadAt(b, CONT_HEADER) == 1 && FullSize(b, CONT_HEADER) == TWO32 + 8 && Advance(b, CONT_HEADER) == 8
            && Acceptable(b, CONT_HEADER, MIN_CONT_LEN)
  {
    var b := front + [0, 0, 0, 1, 255, 255, 255, 255];
    assert b[CONT_HEADER..CONT_HEADER + 2] == [0, 0];
    assert b[CONT_HEADER + 4..CONT_HEADER + 8] == [255, 255, 255, 255];
    SmallFields();
  }

  lemma SmallFields()
    ensures FromBe([0, 0]) == 0 && FromBe([255, 255, 255, 255]) == 0xFFFF_FFFF
  {
    assert [0, 0][..1] == [0] && [0][..0] == [];
    assert [255, 255, 255, 255][..3] == [255, 255, 255] && [255, 255, 255][..2] == [255, 255] && [255, 255][..1] == [255];
    assert [255][..0] == [];
    assert FromBe([255]) == 255;
    assert FromBe([255, 255]) == 65535;
    assert FromBe([255, 255, 255]) == 16777215;
  }

  lemma TileOne(b: seq<byte>)
    requires |b| == MIN_CONT_LEN && FullSize(b, CONT_HEADER) == TWO32 + 8
    ensures !Tile(b, [HeaderAt(b, CONT_HEADER)], CONT_HEADER, MIN_CONT_LEN)
  {
    assert [HeaderAt(b, CONT_HEADER)][1..] == [];
  }

  lemma HeaderStart(b: seq<byte>, at: nat)
    requires at + DESC_HEADER <= |b|
    ensures HeaderAt(b, at).start == at && FullSize(b, at) >= DESC_HEADER
  {
  }

  lemma {:induction false} TileInside(b: seq<byte>, ds: seq<Descriptor>, at: nat, len: nat)
    requires Tile(b, ds, at, len)
    ensures at <= len
    decreases ds
  {
    hide FullSize, HeaderAt;
    if ds != [] { TileInside(b, ds[1..], at + FullSize(b, at), len); }
  }

  /** No number of passes ends the walk exactly when it comes to an acceptable descriptor whose size is 2^32. */
  lemma WhenWalkIsEndless(b: seq<byte>, at: nat, len: u32)
    ensures NeverEnds(b, len, Running(at, []))
            <==> exists p: nat :: Visits(b, at, len, p) && p + DESC_HEADER <= |b| && Acceptable(b, p, len)
                                  && FullSize(b, p) == TWO32
  {
    EndlessIsNeverEnding(b, at, len);
    WhenEndless(b, at, len);
  }

  lemma {:induction false} WhenEndless(b: seq<byte>, at: nat, len: u32)
    ensures Walk(b, at, len).Endless?
            <==> exists p: nat :: Visits(b, at, len, p) && p + DESC_HEADER <= |b| && Acceptable(b, p, len)
                                  && FullSize(b, p) == TWO32
    decreases len - at
  {
    hide Walk, Acceptable, Advance, FullSize;
    if at >= len {
      WalkEnd(b, at, len);
    } else {
      WalkNext(b, at, len);
      if at + DESC_HEADER <= |b| {
        AdvanceZero(b, at);
        if Acceptable(b, at, len) && Advance(b, at) != 0 {
          WhenEndless(b, at + Advance(b, at), len);
          VisitsNext(b, at, len);
        } else {
          assert Visits(b, at, len, at);
        }
      }
    }
  }

  lemma AdvanceZero(b: seq<byte>, at: nat)
    requires at + DESC_HEADER <= |b|
    ensures Advance(b, at) == 0 <==> FullSize(b, at) == TWO32
  {
    AdvanceIsLow(b, at);
    var n := FullSize(b, at);
    assert DESC_HEADER <= n < 2 * TWO32;
    if n >= TWO32 { ModUnique(n, TWO32, 1, n - TWO32); } else { SmallIsLow(n); }
  }

  // ---------- parsing what was built ----------

  /** A descriptor as an initiator builds it, its reserved byte and bits being whatever they are. */
  datatype Section = Section(kind: u16, reserved: byte, bits: nat, body: seq<byte>, padding: seq<byte>) {
    predicate Fits() { bits < 32 && |padding| < 8 && |body| < TWO32 }

    function Image(): (b: seq<byte>)
      requires Fits()
      ensures |b| == DESC_HEADER + |body| + |padding|
    {
      Be(kind, 2) + [reserved, 8 * bits + |padding|] + Be(|body|, 4) + (body + padding)
    }

    predicate Legal() {
      && Aligned(|body| + |padding|)
      && (kind == 0 || ((kind == 1 || kind == 2) && padding == []))
    }
  }

  predicate Encodable(ss: seq<Section>) { forall i :: 0 <= i < |ss| ==> ss[i].Fits() }

  ghost predicate AllLegal(ss: seq<Section>) { forall i :: 0 <= i < |ss| ==> ss[i].Legal() }

  function Image(ss: seq<Section>): seq<byte>
    requires Encodable(ss)
  {
    if ss == [] then [] else ss[0].Image() + Image(ss[1..])
  }

  function Recorded(ss: seq<Section>, at: nat): seq<Descriptor>
    requires Encodable(ss)
  {
    if ss == [] then []
    else [Descriptor(ss[0].kind, |ss[0].body|, at)] + Recorded(ss[1..], at + 8 + |ss[0].body| + |ss[0].padding|)
  }

  /** The bytes of a section: its type, the reserved byte, the pad length in the low three bits, the length of the body, the
      body, and the padding. */
  lemma SectionLayout(s: Section)
    requires s.Fits()
    ensures var (b, end) := (s.Image(), 8 + |s.body|);
            && |b| == end + |s.padding| && U16At(b, 0) == s.kind && b[2] == s.reserved && b[3] == 8 * s.bits + |s.padding|
            && U32At(b, 4) == |s.body| && b[8..end] == s.body && b[end..] == s.padding
  {
    hide Be, FromBe;
    var b, k, n := s.Image(), Be(s.kind, 2), Be(|s.body|, 4);
    Widths();
    FieldRoundTrip(s.kind, 2);
    FieldRoundTrip(|s.body|, 4);
    assert b[0..2] == k && b[4..8] == n && b[8..8 + |s.body|] == s.body;
  }

  lemma SectionReads(pre: seq<byte>, s: Section, tail: seq<byte>)
    requires s.Fits()
    ensures var b, at := pre + s.Image() + tail, |pre|;
            && at + DESC_HEADER <= |b| && HeaderAt(b, at) == Descriptor(s.kind, |s.body|, at)
            && PadAt(b, at) == |s.padding|
  {
    hide Be, U16At, U32At;
    var k, n, rest := Be(s.kind, 2), Be(|s.body|, 4), s.body + s.padding;
    var pad: seq<byte> := [s.reserved, 8 * s.bits + |s.padding|];
    assert [] + k == k;
    Assoc(k + pad, n, rest);
    Assoc(k, pad, n + rest);
    Assoc(k, pad + n, rest);
    Assoc(pad, n, rest);
    ReadsU16(pre, [], s.kind, pad + n + rest, tail);
    ReadsU32(pre, k + pad, |s.body|, rest, tail);
    MoveFront(pre, k, pad, n + rest, tail);
    Middle(pre + k, pad, n + rest + tail);
    PadReads(pre + s.Image() + tail, |pre|, s.reserved, s.bits, |s.padding|);
  }

  lemma PadReads(b: seq<byte>, at: nat, reserved: byte, bits: nat, pad: nat)
    requires at + DESC_HEADER <= |b| && bits < 32 && pad < 8 && b[at + 2..at + 4] == [reserved, 8 * bits + pad]
    ensures PadAt(b, at) == pad
  {
    assert b[at + 3] == b[at + 2..at + 4][1];
  }

  /** Sections that stand one behind the other are parsed into exactly these if all of them are legal, and refused
      otherwise, whatever lies behind them. */
  lemma {:induction false} WhenSectionsParse(pre: seq<byte>, ss: seq<Section>, tail: seq<byte>)
    requires Encodable(ss) && |pre + Image(ss)| < TWO32
    ensures Walk(pre + Image(ss) + tail, |pre|, |pre + Image(ss)|)
            == if AllLegal(ss) then Parsed(Recorded(ss, |pre|)) else CdbError
    decreases ss
  {
    hide Walk, Acceptable, Advance, HeaderAt, PadAt, Section.Image, Section.Legal;
    if ss == [] {
      assert pre + Image(ss) == pre;
      WalkEnd(pre + tail, |pre|, |pre|);
    } else {
      var s, rest := ss[0], Image(ss[1..]);
      Assoc(pre, s.Image(), rest);
      Assoc(pre + s.Image(), rest, tail);
      var b, at, len := pre + Image(ss) + tail, |pre|, |pre + Image(ss)|;
      LegalCons(ss);
      WhenSectionsParse(pre + s.Image(), ss[1..], tail);
      SectionReads(pre, s, rest + tail);
      WhenSectionAccepted(b, at, len, s);
      WalkNext(b, at, len);
    }
  }

  lemma LegalCons(ss: seq<Section>)
    requires ss != []
    ensures AllLegal(ss) <==> ss[0].Legal() && AllLegal(ss[1..])
  {
    hide Section.Legal;
    if AllLegal(ss[1..]) {
      assert forall i :: 0 < i < |ss| ==> ss[i] == ss[1..][i - 1];
    }
  }

  lemma WhenSectionAccepted(b: seq<byte>, at: nat, len: u32, s: Section)
    requires s.Fits() && at + DESC_HEADER <= |b| && at + DESC_HEADER + |s.body| + |s.padding| <= len
    requires HeaderAt(b, at) == Descriptor(s.kind, |s.body|, at) && PadAt(b, at) == |s.padding|
    ensures Acceptable(b, at, len) <==> s.Legal()
    ensures Advance(b, at) == DESC_HEADER + |s.body| + |s.padding|
  {
    hide HeaderAt, PadAt;
    SmallIsLow(|s.body| + |s.padding|);
    SmallIsLow(|s.body| + |s.padding| + DESC_HEADER);
  }

  /** A whole segment, header and sections: it is parsed into exactly its sections if the header has format 1 and the
      service action of the command, and there are sections and all are legal; otherwise it is refused. */
  lemma WhenSegmentParses(header: seq<byte>, ss: seq<Section>, tail: seq<byte>, action: u16)
    requires |header| == 40 && Encodable(ss) && |header + Image(ss)| < TWO32
    ensures Segment(header + Image(ss) + tail, |header + Image(ss)|, action)
            == if header[0] == 1 && U16At(header, 2) == action && ss != [] && AllLegal(ss)
               then Parsed(Recorded(ss, 40)) else CdbError
  {
    hide Walk, FromBe, Image, Section.Image, Section.Legal;
    var b := header + Image(ss) + tail;
    assert b[2..4] == header[2..4] && b[0] == header[0];
    WhenSectionsParse(header, ss, tail);
    SegmentSize(header, ss);
  }

  lemma SegmentSize(header: seq<byte>, ss: seq<Section>)
    requires |header| == 40 && Encodable(ss)
    ensures |header + Image(ss)| < MIN_CONT_LEN <==> ss == []
    ensures AllLegal(ss) ==> Aligned(|header + Image(ss)|)
  {
    hide Section.Legal, Section.Image;
    if AllLegal(ss) { LegalAligned(ss); AlignedAdd(|header|, |Image(ss)|); }
  }

  lemma {:induction false} LegalAligned(ss: seq<Section>)
    requires Encodable(ss) && AllLegal(ss)
    ensures Aligned(|Image(ss)|)
  {
    hide Section.Image;
    if ss != [] {
      LegalAligned(ss[1..]);
      AlignedAdd(DESC_HEADER + |ss[0].body| + |ss[0].padding|, |Image(ss[1..])|);
    }
  }

  /** A segment is refused for its header in every case when the length is not a multiple of 8 or below 48, or the format
      or the service action is another one. */
  lemma WhenHeaderIsRefused(indata: seq<byte>, len: u32, action: u16)
    ensures |indata| < 4 ==> Segment(indata, len, action) == Overrun
    ensures |indata| >= 4 && (len % 8 != 0 || len < 48 || indata[0] != 1 || U16At(indata, 2) != action) ==>
              Segment(indata, len, action) == CdbError
    ensures |indata| >= 4 && len % 8 == 0 && len >= 48 && indata[0] == 1 && U16At(indata, 2) == action ==>
              Segment(indata, len, action) == Walk(indata, 40, len)
  {
    hide Walk, U16At;
  }
}
