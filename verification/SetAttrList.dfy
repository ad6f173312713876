/** The set-attributes list of a command: parse_setattr_list of cdb.c. */
module SetAttrList {
  import opened Bytes
  import opened ListEntry

  const LIST_HDR_LEN := 8
  const RTRVD_SET_ATTR_LIST := 0x09

  /** Overrun: the list is not all there, or an entry runs past its end, where the list length wraps and parsing goes on
      behind it. */
  datatype Outcome = Parsed(entries: seq<Entry>) | ParamListError | Overrun

  /** Nobody compares the place of the list with the data that arrived. */
  function Check(indata: seq<byte>, listLen: u32, listOff: u32): Outcome {
    if listLen == 0 then Parsed([])
    else if listLen < LIST_HDR_LEN then ParamListError
    else if listOff >= |indata| then Overrun
    else if indata[listOff] % 16 != RTRVD_SET_ATTR_LIST || !Aligned(listLen) then ParamListError
    else if listOff + listLen > |indata| then Overrun
    else
      var (es, rest) := Walk(indata[listOff + 8..listOff + listLen]);
      if rest == [] then Parsed(es) else Overrun
  }

  /** Entries are stored into an array allocated for list_len / 16 of them; every store is within its bounds. */
  method ParseSetattrList(indata: seq<byte>, listLen: u32, listOff: u32) returns (r: Outcome)
    ensures r == Check(indata, listLen, listOff)
  {
    hide Walk, FromBe, RoundUp8, Aligned;
    if listLen == 0 { return Parsed([]); }
    if listLen < LIST_HDR_LEN { return ParamListError; }
    if listOff >= |indata| { return Overrun; }
    if indata[listOff] % 16 != RTRVD_SET_ATTR_LIST { return ParamListError; }
    var left := listLen - 8;
    BodyAligned(listLen);
    if !Aligned(left) { return ParamListError; }
    if listOff + listLen > |indata| { return Overrun; }
    var le := new Entry[left / 16](_ => Entry(0, 0, 0, []));
    var hdr, i, end := listOff + 8, 0, listOff + listLen;
    ghost var body := indata[hdr..end];
    WalkFrom(indata, hdr, end, le[..0]);
    while left > 0
      invariant listOff + 8 <= hdr <= end && left == end - hdr && Aligned(left)
      invariant 16 * i + left <= |body| && le.Length == |body| / 16 && i <= le.Length
      invariant Walk(body) == (le[..i] + Walk(indata[hdr..end]).0, Walk(indata[hdr..end]).1)
    {
      if left < LE_VAL_OFF { WalkShort(indata, hdr, end); return Overrun; }
      HeadFields(indata, hdr, end);
      var len := FromBe(indata[hdr + LE_LEN_OFF..hdr + LE_VAL_OFF]);
      var pad := (8 - (LE_VAL_OFF + len) % 8) % 8;
      PadIsRoundUp(LE_VAL_OFF + len);
      var step := LE_VAL_OFF + len + pad;
      if step > left { WalkNext(indata, hdr, end); return Overrun; }
      ghost var before := le[..i];
      le[i] := Entry(FromBe(indata[hdr..hdr + 4]), FromBe(indata[hdr + 4..hdr + 8]), len,
                     indata[hdr + LE_VAL_OFF..hdr + LE_VAL_OFF + len]);
      WalkNext(indata, hdr, end);
      assert le[..i + 1] == before + [le[i]];
      Assoc(before, [le[i]], Walk(indata[hdr + step..end]).0);
      AlignedRest(left, step, LE_VAL_OFF + len);
      hdr, left, i := hdr + step, left - step, i + 1;
    }
    WalkEnd(indata, hdr, end);
    assert le[..i] + [] == le[..i];
    r := Parsed(le[..i]);
  }

  lemma WalkFrom(b: seq<byte>, hdr: nat, end: nat, none: seq<Entry>)
    requires hdr <= end <= |b| && none == []
    ensures var w := Walk(b[hdr..end]); w == (none + w.0, w.1)
  {
    assert none + Walk(b[hdr..end]).0 == Walk(b[hdr..end]).0;
  }

  lemma WalkEnd(b: seq<byte>, hdr: nat, end: nat)
    requires hdr == end <= |b|
    ensures Walk(b[hdr..end]) == ([], [])
  {
  }

  lemma WalkShort(b: seq<byte>, hdr: nat, end: nat)
    requires hdr <= end <= |b| && end - hdr < LE_VAL_OFF
    ensures Walk(b[hdr..end]) == ([], b[hdr..end])
  {
  }

  lemma BodyAligned(listLen: nat)
    requires listLen >= 8
    ensures Aligned(listLen) <==> Aligned(listLen - 8)
  {
  }

  lemma PadIsRoundUp(n: nat)
    ensures n + (8 - n % 8) % 8 == RoundUp8(n)
  {
  }

  lemma AlignedRest(left: nat, step: nat, n: nat)
    requires Aligned(left) && step <= left && step == RoundUp8(n)
    ensures Aligned(left - step)
  {
  }

  lemma HeadFields(b: seq<byte>, hdr: nat, end: nat)
    requires hdr + LE_VAL_OFF <= end <= |b|
    ensures FromBe(b[hdr..hdr + 4]) < TWO32 && FromBe(b[hdr + 4..hdr + 8]) < TWO32
    ensures FromBe(b[hdr + LE_LEN_OFF..hdr + LE_VAL_OFF]) < TWO16
  {
    Widths();
    FieldBound(b[hdr..hdr + 4]);
    FieldBound(b[hdr + 4..hdr + 8]);
    FieldBound(b[hdr + LE_LEN_OFF..hdr + LE_VAL_OFF]);
  }

  /** The entry at hdr, and the walk from behind it. */
  lemma WalkNext(b: seq<byte>, hdr: nat, end: nat)
    requires hdr + LE_VAL_OFF <= end <= |b|
    ensures FromBe(b[hdr..hdr + 4]) < TWO32 && FromBe(b[hdr + 4..hdr + 8]) < TWO32
    ensures var len := FromBe(b[hdr + LE_LEN_OFF..hdr + LE_VAL_OFF]);
            && len < TWO16
            && (hdr + RoundUp8(LE_VAL_OFF + len) > end ==> Walk(b[hdr..end]) == ([], b[hdr..end]))
            && (hdr + RoundUp8(LE_VAL_OFF + len) <= end ==>
                  var e := Entry(FromBe(b[hdr..hdr + 4]), FromBe(b[hdr + 4..hdr + 8]), len,
                                 b[hdr + LE_VAL_OFF..hdr + LE_VAL_OFF + len]);
                  var (es, rest) := Walk(b[hdr + RoundUp8(LE_VAL_OFF + len)..end]);
                  Walk(b[hdr..end]) == ([e] + es, rest))
  {
    hide FromBe, HeadEntry;
    HeadFields(b, hdr, end);
    HeadAt(b, hdr, end);
    var step := RoundUp8(LE_VAL_OFF + FromBe(b[hdr + LE_LEN_OFF..hdr + LE_VAL_OFF]));
    if hdr + step <= end { SubSlice(b, hdr, end, step, end - hdr); }
  }

  lemma HeadAt(b: seq<byte>, hdr: nat, end: nat)
    requires hdr + LE_VAL_OFF <= end <= |b|
    ensures FromBe(b[hdr..hdr + 4]) < TWO32 && FromBe(b[hdr + 4..hdr + 8]) < TWO32
    ensures var len := FromBe(b[hdr + LE_LEN_OFF..hdr + LE_VAL_OFF]);
            && len < TWO16 && HeadEntry(b[hdr..end]).len == len
            && (hdr + LE_VAL_OFF + len <= end ==>
                  HeadEntry(b[hdr..end]) == Entry(FromBe(b[hdr..hdr + 4]), FromBe(b[hdr + 4..hdr + 8]), len,
                                                  b[hdr + LE_VAL_OFF..hdr + LE_VAL_OFF + len]))
  {
    hide FromBe;
    HeadFields(b, hdr, end);
    SubSlice(b, hdr, end, 0, 4);
    SubSlice(b, hdr, end, 4, 8);
    SubSlice(b, hdr, end, 14, 16);
    var len := FromBe(b[hdr + LE_LEN_OFF..hdr + LE_VAL_OFF]);
    if hdr + LE_VAL_OFF + len <= end { SubSlice(b, hdr, end, 16, 16 + len); }
  }

  /** Which lists are refused, and which make the parser read past their end or that of the data. */
  lemma WhenRefused(indata: seq<byte>, listLen: u32, listOff: u32)
    ensures var c := Check(indata, listLen, listOff);
            && (c.ParamListError? <==>
                  || 0 < listLen < 8
                  || (listLen >= 8 && listOff < |indata| && (indata[listOff] % 16 != 9 || listLen % 8 != 0)))
            && (c.Overrun? <==>
                  listLen >= 8 && (listOff >= |indata|
                                   || (indata[listOff] % 16 == 9 && listLen % 8 == 0
                                       && (listOff + listLen > |indata|
                                           || Walk(indata[listOff + 8..listOff + listLen]).1 != []))))
            && (c.Parsed? && listLen > 0 ==> Walk(indata[listOff + 8..listOff + listLen]) == (c.entries, []))
  {
    hide Walk;
  }

  /** The list with these entries stands at this place, as a client builds it. */
  ghost predicate Lists(indata: seq<byte>, listOff: u32, es: seq<Entry>) {
    && listOff + 8 + |ListImage(es)| <= |indata| && 8 + |ListImage(es)| < TWO32
    && indata[listOff] % 16 == 9 && indata[listOff + 8..listOff + 8 + |ListImage(es)|] == ListImage(es)
  }

  /** Pack and parse are inverse: a list whose body is the packed image of any whole entries parses to exactly those
      entries, at least 16 bytes each. */
  lemma PackParse(es: seq<Entry>, indata: seq<byte>, listOff: u32)
    requires AllWhole(es) && Lists(indata, listOff, es)
    ensures Check(indata, 8 + |ListImage(es)|, listOff) == Parsed(es)
    ensures Walk(indata[listOff + 8..listOff + 8 + |ListImage(es)|]) == (es, [])
    ensures 16 * |es| <= |ListImage(es)|
  {
    hide Walk, ListImage, Aligned;
    BodyAligned(8 + |ListImage(es)|);
    WalkOfImage(es, []);
    WalkEnd([], 0, 0);
    assert ListImage(es) + [] == ListImage(es) && es + [] == es;
    ListImageSize(es);
  }

  lemma {:induction false} ListImageSize(es: seq<Entry>)
    ensures 16 * |es| <= |ListImage(es)|
  {
    if es != [] { ListImageSize(es[1..]); }
  }
}
