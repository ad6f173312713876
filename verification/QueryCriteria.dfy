/** The criteria list of a QUERY command: parse_query_criteria and the growing tables it fills. */
module QueryCriteria {
  import opened Bytes
  import opened Pages

  const FIRST_LIMIT := 16

  type Bound = v: seq<byte> | |v| < TWO16

  /** A query criteria entry. Its own length is only compared with 0; an empty bound is no bound. */
  datatype Criterion = Criterion(len: u16, page: u32, number: u32, min: Bound, max: Bound) {
    function Image(): (b: seq<byte>)
      ensures |b| == Size()
    {
      Head() + min + Be(|max|, 2) + max
    }

    function Head(): (b: seq<byte>)
      ensures |b| == 14
    {
      Zeros(2) + Be(len, 2) + Be(page, 4) + Be(number, 4) + Be(|min|, 2)
    }

    function Size(): nat { 16 + |min| + |max| }
  }

  /** Overrun: the parser would read behind the memory it was given. */
  datatype Outcome = Criteria(list: seq<Criterion>) | BadPage | Overrun

  function Prepend(cs: seq<Criterion>, r: Outcome): Outcome {
    if r.Criteria? then Criteria(cs + r.list) else r
  }

  lemma PrependTwice(cs: seq<Criterion>, c: Criterion, r: Outcome)
    ensures Prepend(cs, Prepend([c], r)) == Prepend(cs + [c], r)
  {
    if r.Criteria? { Assoc(cs, [c], r.list); }
  }

  // ---------- parsing ----------

  /** Where the criterion at position at ends, if its bytes and bounds lie in b. */
  function CriterionEnd(b: seq<byte>, at: nat): Option<nat> {
    if at + 14 > |b| then None
    else
      var mid := at + 14 + U16At(b, at + 12);
      if mid + 2 > |b| || mid + 2 + U16At(b, mid) > |b| then None else Some(mid + 2 + U16At(b, mid))
  }

  function CriterionAt(b: seq<byte>, at: nat): Criterion
    requires CriterionEnd(b, at).Some?
  {
    var lo := U16At(b, at + 12);
    var hi := U16At(b, at + 14 + lo);
    Criterion(U16At(b, at + 2), U32At(b, at + 4), U32At(b, at + 8),
              b[at + 14..at + 14 + lo], b[at + 16 + lo..at + 16 + lo + hi])
  }

  /** What the loop of parse_query_criteria makes of the bytes from at on, with qll bytes to go in 32 bits. */
  function ParseFrom(b: seq<byte>, at: nat, qll: u32): Outcome
    requires at <= |b|
    decreases |b| - at
  {
    if qll == 0 then Criteria([])
    else if at + 4 > |b| then Overrun
    else if U16At(b, at + 2) == 0 then Criteria([])
    else if at + 8 > |b| then Overrun
    else if U32At(b, at + 4) >= PARTITION_PG then BadPage
    else
      match CriterionEnd(b, at)
      case None => Overrun
      case Some(next) => Prepend([CriterionAt(b, at)], ParseFrom(b, next, Sub32(qll, Low32(next - at))))
  }

  /** struct query_criteria, its parallel arrays as one array of records. */
  class Table {
    var queryType: byte
    var count: nat
    var entries: array<Criterion>

    ghost predicate Valid()
      reads this
    {
      count < entries.Length
    }

    /** The entries below qc_cnt. */
    function Contents(): seq<Criterion>
      requires Valid()
      reads this, entries
    {
      entries[..count]
    }

    /** Before the first alloc_qc. */
    constructor ()
      ensures count == 0 && entries.Length == 0 && fresh(entries)
    {
      queryType, count, entries := 0, 0, new Criterion[0];
    }

    /** alloc_qc: 16 entries at first, then twice as many; realloc keeps those in use. */
    method Alloc()
      requires count <= entries.Length
      modifies this`entries
      ensures fresh(entries) && Valid()
      ensures entries.Length == (if old(entries.Length) == 0 then 16 else 2 * old(entries.Length))
      ensures Contents() == old(entries[..count])
    {
      var limit := if entries.Length == 0 then FIRST_LIMIT else 2 * entries.Length;
      var larger := new Criterion[limit];
      forall i | 0 <= i < count { larger[i] := entries[i]; }
      assert larger[..count] == entries[..count];
      entries := larger;
    }

    method Append(c: Criterion)
      requires Valid()
      modifies this`count, this`entries, entries
      ensures Valid() && Contents() == old(Contents()) + [c]
      ensures entries == old(entries) || fresh(entries)
    {
      entries[count] := c;
      count := count + 1;
      assert entries[..count] == old(Contents()) + [c];
      if count == entries.Length { Alloc(); }
    }

    /** b is the memory that starts with the query list, qll the length of the list. */
    method Parse(b: seq<byte>, qll: u32) returns (ok: bool, overrun: bool)
      requires Valid() && qll >= 4 && |b| >= 4
      modifies this, entries
      ensures var r := ParseFrom(b, 4, qll - 4);
              ok == r.Criteria? && overrun == r.Overrun? && (ok ==> Valid() && Contents() == r.list)
      ensures queryType == b[0] % 16
    {
      hide ParseFrom, CriterionEnd, CriterionAt, U16At, U32At;
      queryType := b[0] % 16;
      count := 0;
      var at, left: u32 := 4, qll - 4;
      ghost var r := ParseFrom(b, 4, qll - 4);
      while left > 0
        invariant at <= |b| && Valid() && (entries == old(entries) || fresh(entries))
        invariant queryType == b[0] % 16
        invariant r == Prepend(Contents(), ParseFrom(b, at, left))
        decreases |b| - at
      {
        ParseStep(b, at, left);
        if at + 4 > |b| { return false, true; }
        if U16At(b, at + 2) == 0 { return true, false; }
        if at + 8 > |b| { return false, true; }
        if U32At(b, at + 4) >= PARTITION_PG { return false, false; }
        var end := CriterionEnd(b, at);
        if end.None? { return false, true; }
        PrependTwice(Contents(), CriterionAt(b, at), ParseFrom(b, end.value, Sub32(left, Low32(end.value - at))));
        Append(CriterionAt(b, at));
        left := Sub32(left, Low32(end.value - at));
        at := end.value;
      }
      ParseNone(b, at);
      ok, overrun := true, false;
    }
  }

  lemma ParseNone(b: seq<byte>, at: nat)
    requires at <= |b|
    ensures ParseFrom(b, at, 0) == Criteria([])
  {
  }

  lemma ParseStep(b: seq<byte>, at: nat, qll: u32)
    requires at <= |b| && qll > 0
    ensures at + 4 > |b| ==> ParseFrom(b, at, qll) == Overrun
    ensures at + 4 <= |b| && U16At(b, at + 2) == 0 ==> ParseFrom(b, at, qll) == Criteria([])
    ensures at + 4 <= |b| < at + 8 && U16At(b, at + 2) != 0 ==> ParseFrom(b, at, qll) == Overrun
    ensures at + 8 <= |b| && U16At(b, at + 2) != 0 && U32At(b, at + 4) >= PARTITION_PG ==>
              ParseFrom(b, at, qll) == BadPage
    ensures at + 8 <= |b| && U16At(b, at + 2) != 0 && U32At(b, at + 4) < PARTITION_PG ==>
              match CriterionEnd(b, at)
              case None => ParseFrom(b, at, qll) == Overrun
              case Some(next) =>
                && at < next <= |b|
                && ParseFrom(b, at, qll) == Prepend([CriterionAt(b, at)], ParseFrom(b, next, Sub32(qll, Low32(next - at))))
  {
    hide U16At, U32At;
  }

  // ---------- parsing what was serialised ----------

  function ListImage(cs: seq<Criterion>): seq<byte> {
    if cs == [] then [] else cs[0].Image() + ListImage(cs[1..])
  }

  /** What the criteria of a list mean to the target: an entry of length 0 ends the list, a page outside the user
      object pages makes it invalid. */
  function Meaning(cs: seq<Criterion>): Outcome {
    if cs == [] || cs[0].len == 0 then Criteria([])
    else if cs[0].page >= PARTITION_PG then BadPage
    else Prepend([cs[0]], Meaning(cs[1..]))
  }

  lemma CriterionReads(pre: seq<byte>, c: Criterion, tail: seq<byte>)
    ensures var b, at := pre + c.Image() + tail, |pre|;
            && |b| >= at + 8
            && U16At(b, at + 2) == c.len && U32At(b, at + 4) == c.page
            && CriterionEnd(b, at) == Some(at + c.Size()) && CriterionAt(b, at) == c
  {
    hide *;
    var b, at, bounds := pre + c.Image() + tail, |pre|, c.min + Be(|c.max|, 2) + c.max;
    CriterionLayout(pre, c, tail);
    HeadReads(pre, c, bounds + tail);
    BoundsRead(pre + c.Head(), c.min, c.max, tail);
    CriterionFrom(b, at, c);
  }

  /** The bytes of a criterion: two zeros, its length, page and number, and the two bounds behind their lengths. */
  lemma ImageLayout(c: Criterion)
    ensures var (b, mid) := (c.Image(), 14 + |c.min|);
            && b[..2] == [0, 0] && U16At(b, 2) == c.len && U32At(b, 4) == c.page && U32At(b, 8) == c.number
            && U16At(b, 12) == |c.min| && b[14..mid] == c.min && U16At(b, mid) == |c.max| && b[mid + 2..] == c.max
  {
    hide U16At, U32At, Be, CriterionEnd;
    var b := c.Image();
    CriterionLayout([], c, []);
    HeadReads([], c, c.min + Be(|c.max|, 2) + c.max);
    BoundsRead(c.Head(), c.min, c.max, []);
    assert [] + b + [] == b && [] + c.Head() == c.Head();
    assert c.min + Be(|c.max|, 2) + c.max + [] == c.min + Be(|c.max|, 2) + c.max;
    assert b[14 + |c.min| + 2..14 + |c.min| + 2 + |c.max|] == b[14 + |c.min| + 2..];
  }

  /** The image as head and bounds. */
  lemma CriterionLayout(pre: seq<byte>, c: Criterion, tail: seq<byte>)
    ensures var b, bounds := pre + c.Image() + tail, c.min + Be(|c.max|, 2) + c.max;
            && b == pre + c.Head() + (bounds + tail) == (pre + c.Head()) + bounds + tail
            && |b| >= |pre| + c.Size() && c.Size() == 16 + |c.min| + |c.max|
  {
    hide Criterion.Head, Be;
    var bounds := c.min + Be(|c.max|, 2) + c.max;
    assert c.Image() == c.Head() + bounds by { Regroup(c.Head(), c.min, Be(|c.max|, 2), c.max); }
    Assoc(pre, c.Head(), bounds);
    Assoc(pre + c.Head(), bounds, tail);
  }

  /** A criterion is known by its fields. */
  lemma CriterionFrom(b: seq<byte>, at: nat, c: Criterion)
    requires at + 16 + |c.min| + |c.max| <= |b|
    requires U16At(b, at + 2) == c.len && U32At(b, at + 4) == c.page && U32At(b, at + 8) == c.number
    requires U16At(b, at + 12) == |c.min| && U16At(b, at + 14 + |c.min|) == |c.max|
    requires b[at + 14..at + 14 + |c.min|] == c.min && b[at + 16 + |c.min|..at + 16 + |c.min| + |c.max|] == c.max
    ensures CriterionEnd(b, at) == Some(at + c.Size()) && CriterionAt(b, at) == c
  {
    hide U16At, U32At, Criterion.Image, Criterion.Head;
  }

  lemma Regroup(a: seq<byte>, b: seq<byte>, c: seq<byte>, d: seq<byte>)
    ensures a + b + c + d == a + (b + c + d)
  {
    Assoc(a, b, c);
    Assoc(a, b + c, d);
  }

  lemma BoundsRead(pre: seq<byte>, min: Bound, max: Bound, tail: seq<byte>)
    ensures var b, at := pre + (min + Be(|max|, 2) + max) + tail, |pre|;
            && U16At(b, at + |min|) == |max| && b[at..at + |min|] == min
            && b[at + |min| + 2..at + |min| + 2 + |max|] == max
  {
    var field := Be(|max|, 2);
    Widths();
    FieldRoundTrip(|max|, 2);
    Middle(pre, min, field + max + tail);
    Middle(pre + min, field, max + tail);
    Middle(pre + min + field, max, tail);
    Assoc(pre + min, field, max + tail);
    Assoc(pre + min + field, max, tail);
    Assoc(field, max, tail);
    Assoc(pre, min, field);
    Assoc(pre, min + field, max);
  }

  lemma HeadReads(pre: seq<byte>, c: Criterion, tail: seq<byte>)
    ensures var b, at := pre + c.Head() + tail, |pre|;
            && U16At(b, at + 2) == c.len && U32At(b, at + 4) == c.page
            && U32At(b, at + 8) == c.number && U16At(b, at + 12) == |c.min|
  {
    hide Be, U16At, U32At;
    var z, l, p, n, m := Zeros(2), Be(c.len, 2), Be(c.page, 4), Be(c.number, 4), Be(|c.min|, 2);
    ReadsU16(pre, z, c.len, p + n + m, tail);
    ReadsU32(pre, z + l, c.page, n + m, tail);
    ReadsU32(pre, z + l + p, c.number, m, tail);
    ReadsU16(pre, z + l + p + n, |c.min|, [], tail);
    assert c.Head() + [] == c.Head();
    Assoc(z + l + p, n, m);
    Assoc(z + l, p, n + m);
    Assoc(p, n, m);
  }

  /** Serialising criteria and parsing them gives their meaning, whatever follows the list in memory. */
  lemma {:induction false} ParseSerialised(pre: seq<byte>, cs: seq<Criterion>, tail: seq<byte>)
    requires |ListImage(cs)| < TWO32
    ensures ParseFrom(pre + ListImage(cs) + tail, |pre|, |ListImage(cs)|) == Meaning(cs)
    decreases cs
  {
    hide CriterionEnd, CriterionAt, U16At, U32At, Sub32, Low32, Criterion.Image;
    var b, at, qll := pre + ListImage(cs) + tail, |pre|, |ListImage(cs)|;
    if cs == [] {
    } else {
      var c, rest := cs[0], ListImage(cs[1..]);
      CriterionReads(pre, c, rest + tail);
      Assoc(pre, c.Image(), rest);
      Assoc(pre + c.Image(), rest, tail);
      assert qll == c.Size() + |rest|;
      ParseStep(b, at, qll);
      if c.len != 0 && c.page < PARTITION_PG {
        var next := at + c.Size();
        LeftAfter(c.Size(), |rest|);
        ParseSerialised(pre + c.Image(), cs[1..], tail);
      }
    }
  }

  lemma LeftAfter(size: nat, rest: nat)
    requires size + rest < TWO32
    ensures Sub32(size + rest, Low32(size)) == rest
  {
  }

  ghost predicate AllLegal(cs: seq<Criterion>) {
    forall i :: 0 <= i < |cs| ==> cs[i].len != 0 && cs[i].page < PARTITION_PG
  }

  /** A serialised list comes back exactly when every entry has a length and a user object page. */
  lemma {:induction false} WhenMeaningIsList(cs: seq<Criterion>)
    ensures Meaning(cs) == Criteria(cs) <==> AllLegal(cs)
  {
    if cs != [] {
      WhenMeaningIsList(cs[1..]);
      assert AllLegal(cs) ==> AllLegal(cs[1..]);
      if AllLegal(cs[1..]) && cs[0].len != 0 && cs[0].page < PARTITION_PG {
        assert [cs[0]] + cs[1..] == cs;
        assert AllLegal(cs) by {
          forall i | 0 <= i < |cs| ensures cs[i].len != 0 && cs[i].page < PARTITION_PG {
            if i > 0 { assert cs[i] == cs[1..][i - 1]; }
          }
        }
      }
    }
  }

  lemma RoundTrip(pre: seq<byte>, cs: seq<Criterion>, tail: seq<byte>)
    requires |ListImage(cs)| < TWO32
    ensures ParseFrom(pre + ListImage(cs) + tail, |pre|, |ListImage(cs)|) == Criteria(cs) <==> AllLegal(cs)
  {
    ParseSerialised(pre, cs, tail);
    WhenMeaningIsList(cs);
  }
}
