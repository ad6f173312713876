/** The attribute list entry: a 16-byte head, the value, and padding to 8 bytes. */
module ListEntry {
  import opened Bytes

  const EINVAL := 22
  const EOVERFLOW := 75
  const LE_LEN_OFF := 14
  const LE_VAL_OFF := 16

  /** One packed entry. The length field keeps the attribute's own length even when fewer value bytes are shown. */
  datatype Entry = Entry(page: u32, number: u32, len: u16, shown: seq<byte>) {
    predicate Whole() { |shown| == len }

    function Size(): (n: nat)
      ensures Aligned(n) && n >= LE_VAL_OFF + |shown|
    {
      RoundUp8(LE_VAL_OFF + |shown|)
    }

    function Image(): (b: seq<byte>)
      ensures |b| == Size()
    {
      Head() + shown + Zeros(Size() - LE_VAL_OFF - |shown|)
    }

    function Head(): (b: seq<byte>)
      ensures |b| == LE_VAL_OFF
      ensures b[..4] == Be(page, 4) && b[4..8] == Be(number, 4) && b[8..14] == Zeros(6) && b[14..] == Be(len, 2)
    {
      Be(page, 4) + Be(number, 4) + Zeros(6) + Be(len, 2)
    }
  }

  type Value = v: seq<byte> | |v| < TWO16

  function WholeEntry(page: u32, number: u32, v: Value): (e: Entry) { Entry(page, number, |v|, v) }

  /** The entry le_pack_attr leaves in a buffer of buflen bytes. */
  function Packed(page: u32, number: u32, valen: u16, val: Option<seq<byte>>, buflen: nat): (e: Entry)
    requires buflen >= LE_VAL_OFF
    requires val.Some? ==> valen <= |val.value|
    ensures Aligned(buflen) ==> e.Size() <= buflen
  {
    var room := buflen - LE_VAL_OFF;
    Entry(page, number, valen,
          match val case None => [] case Some(v) => v[..if valen > room then room else valen])
  }

  /** The negative errno of le_pack_attr for a buffer at this address and length, or 0. */
  function PackError(address: nat, buflen: nat): (r: int) {
    if !Aligned(buflen) || !Aligned(address) then -EINVAL
    else if buflen < LE_VAL_OFF then -EOVERFLOW
    else 0
  }

  lemma WhenRefused(address: nat, buflen: nat)
    ensures PackError(address, buflen) == -22 <==> buflen % 8 != 0 || address % 8 != 0
    ensures PackError(address, buflen) == -75 <==> buflen % 8 == 0 && address % 8 == 0 && buflen < 16
    ensures PackError(address, buflen) == 0 <==> buflen % 8 == 0 && address % 8 == 0 && buflen >= 16
  {
  }

  /** The bytes of an entry: page, number, six zeros, the length, what is shown of the value, and zeros up to the next
      multiple of 8. */
  lemma EntryLayout(e: Entry)
    ensures var (b, end) := (e.Image(), 16 + |e.shown|);
            && |b| % 8 == 0 && end <= |b| < end + 8
            && U32At(b, 0) == e.page && U32At(b, 4) == e.number && b[8..14] == Zeros(6) && U16At(b, 14) == e.len
            && b[16..end] == e.shown && forall i :: end <= i < |b| ==> b[i] == 0
  {
    hide Be, FromBe;
    Widths();
    FieldRoundTrip(e.page, 4);
    FieldRoundTrip(e.number, 4);
    FieldRoundTrip(e.len, 2);
    HeadInFront(e);
  }

  lemma HeadInFront(e: Entry)
    ensures var b := e.Image();
            b[0..4] == Be(e.page, 4) && b[4..8] == Be(e.number, 4) && b[8..14] == Zeros(6) && b[14..16] == Be(e.len, 2)
  {
    hide Be;
    var b, h := e.Image(), e.Head();
    assert b[..16] == h;
    assert b[0..4] == h[..4] && b[4..8] == h[4..8] && b[8..14] == h[8..14] && b[14..16] == h[14..];
  }

  /** The buffer's first byte has an 8-aligned address, so off decides the alignment. */
  method LePackAttr(buf: array<byte>, off: nat, buflen: u32, page: u32, number: u32, valen: u16,
                    val: Option<seq<byte>>) returns (ret: int)
    requires off + buflen <= buf.Length
    requires val.Some? ==> valen <= |val.value|
    modifies buf
    ensures PackError(off, buflen) != 0 ==> ret == PackError(off, buflen) && buf[..] == old(buf[..])
    ensures PackError(off, buflen) == 0 ==>
              var e := Packed(page, number, valen, val, buflen);
              ret == e.Size() && 0 < ret <= buflen && buf[..] == Splice(old(buf[..]), off, e.Image())
  {
    if !Aligned(buflen) || !Aligned(off) { return -EINVAL; }
    if buflen < LE_VAL_OFF { return -EOVERFLOW; }
    ghost var e := Packed(page, number, valen, val, buflen);
    StoreHead(buf, off, page, number, valen, e);
    var shown: seq<byte> := [];
    if val.Some? {
      shown := val.value[..if valen > buflen - LE_VAL_OFF then buflen - LE_VAL_OFF else valen];
    }
    ret := StoreValue(buf, off, shown, old(buf[..]), e);
  }

  /** Lines 71 to 77: the value bytes and the padding behind them. */
  method StoreValue(buf: array<byte>, off: nat, shown: seq<byte>, ghost b: seq<byte>, ghost e: Entry) returns (ret: int)
    requires |b| == buf.Length && off + e.Size() <= buf.Length && shown == e.shown
    requires buf[..] == Splice(b, off, e.Head())
    modifies buf
    ensures ret == e.Size() && buf[..] == Splice(b, off, e.Image())
  {
    Store(buf, off + LE_VAL_OFF, shown);
    var len := |shown| + LE_VAL_OFF;
    var pad := RoundUp8(len) - len;
    Store(buf, off + len, Zeros(pad));
    ret := len + pad;
    ValueStores(b, off, e);
  }

  /** Lines 54 to 59: the fixed fields. */
  method StoreHead(buf: array<byte>, off: nat, page: u32, number: u32, valen: u16, ghost e: Entry)
    requires off + LE_VAL_OFF <= buf.Length
    requires (page, number, valen) == (e.page, e.number, e.len)
    modifies buf
    ensures buf[..] == Splice(old(buf[..]), off, e.Head())
  {
    Store(buf, off, Be(page, 4));
    Store(buf, off + 4, Be(number, 4));
    Store(buf, off + LE_LEN_OFF, Be(valen, 2));
    Store(buf, off + 8, Zeros(6));
    HeadStores(old(buf[..]), off, e);
  }

  lemma ValueStores(b: seq<byte>, off: nat, e: Entry)
    requires off + e.Size() <= |b|
    ensures Splice(Splice(Splice(b, off, e.Head()), off + LE_VAL_OFF, e.shown), off + LE_VAL_OFF + |e.shown|,
                   Zeros(e.Size() - LE_VAL_OFF - |e.shown|)) == Splice(b, off, e.Image())
  {
    SpliceJoin(b, off, e.Head(), e.shown);
    SpliceJoin(b, off, e.Head() + e.shown, Zeros(e.Size() - LE_VAL_OFF - |e.shown|));
  }

  lemma HeadStores(b: seq<byte>, off: nat, e: Entry)
    requires off + LE_VAL_OFF <= |b|
    ensures Splice(Splice(Splice(Splice(b, off, Be(e.page, 4)), off + 4, Be(e.number, 4)),
                          off + LE_LEN_OFF, Be(e.len, 2)), off + 8, Zeros(6)) == Splice(b, off, e.Head())
  {
    var pn := Be(e.page, 4) + Be(e.number, 4);
    SpliceJoin(b, off, Be(e.page, 4), Be(e.number, 4));
    SpliceSwap(Splice(b, off, pn), off + 8, Zeros(6), off + LE_LEN_OFF, Be(e.len, 2));
    SpliceJoin(b, off, pn, Zeros(6));
    SpliceJoin(b, off, pn + Zeros(6), Be(e.len, 2));
  }

  /** An empty value reads back as a null pointer, which makes no difference. */
  lemma PackedEmpty(page: u32, number: u32, buflen: nat)
    requires buflen >= LE_VAL_OFF
    ensures Packed(page, number, 0, None, buflen) == Packed(page, number, 0, Some([]), buflen)
  {
  }

  // ---------- truncation ----------

  /** A short buffer receives a byte prefix of the whole entry: the whole entry exactly when it fits,
      and otherwise every byte of the buffer is used. */
  lemma PackedIsPrefix(page: u32, number: u32, v: Value, buflen: nat)
    requires buflen >= LE_VAL_OFF && Aligned(buflen)
    ensures var e := Packed(page, number, |v|, Some(v), buflen);
            var w := WholeEntry(page, number, v);
            && e.Image() <= w.Image()
            && (e == w <==> w.Size() <= buflen)
            && (e != w ==> e.Size() == buflen)
  {
    var e := Packed(page, number, |v|, Some(v), buflen);
    if |v| <= buflen - LE_VAL_OFF {
      assert e.shown == v;
    } else {
      assert Zeros(0) == [];
    }
  }

  // ---------- lists of entries ----------

  function ListImage(es: seq<Entry>): (b: seq<byte>)
    ensures Aligned(|b|)
  {
    if es == [] then [] else es[0].Image() + ListImage(es[1..])
  }

  lemma {:induction false} ListImageAppend(es: seq<Entry>, fs: seq<Entry>)
    ensures ListImage(es + fs) == ListImage(es) + ListImage(fs)
  {
    if es == [] {
      assert es + fs == fs;
    } else {
      ListImageAppend(es[1..], fs);
      assert (es + fs)[1..] == es[1..] + fs;
      Assoc(es[0].Image(), ListImage(es[1..]), ListImage(fs));
    }
  }

  lemma ListImageOne(e: Entry)
    ensures ListImage([e]) == e.Image()
  {
    assert ListImage([e]) == e.Image() + ListImage([e][1..]);
  }

  predicate AllWhole(es: seq<Entry>) { forall i :: 0 <= i < |es| ==> es[i].Whole() }

  /** The entry whose head starts b, its value cut at the end of b. */
  function HeadEntry(b: seq<byte>): (e: Entry)
    requires |b| >= LE_VAL_OFF
  {
    FieldBound(b[..4]); FieldBound(b[4..8]); FieldBound(b[14..16]); Widths();
    var len := FromBe(b[14..16]);
    Entry(FromBe(b[..4]), FromBe(b[4..8]), len, b[16..if 16 + len <= |b| then 16 + len else |b|])
  }

  /** Entries read one after the other while the next one is complete, and the bytes then left over. */
  function Walk(b: seq<byte>): (r: (seq<Entry>, seq<byte>)) {
    if |b| < LE_VAL_OFF then ([], b)
    else
      var step := RoundUp8(LE_VAL_OFF + HeadEntry(b).len);
      if step > |b| then ([], b)
      else
        var (es, rest) := Walk(b[step..]);
        ([HeadEntry(b)] + es, rest)
  }

  lemma HeadOfImage(e: Entry, tail: seq<byte>)
    requires |e.shown| <= e.len
    requires e.Whole() || (tail == [] && Aligned(|e.shown|))
    ensures |e.Image() + tail| >= LE_VAL_OFF && HeadEntry(e.Image() + tail) == e
    ensures (e.Image() + tail)[e.Size()..] == tail
  {
    var b := e.Image() + tail;
    FieldRoundTrip(e.page, 4); FieldRoundTrip(e.number, 4); FieldRoundTrip(e.len, 2); Widths();
    assert b[..4] == Be(e.page, 4);
    assert b[4..8] == Be(e.number, 4);
    assert b[14..16] == Be(e.len, 2);
    assert b[16..16 + |e.shown|] == e.shown;
  }

  lemma WalkCons(e: Entry, b: seq<byte>)
    requires e.Whole()
    ensures Walk(e.Image() + b) == ([e] + Walk(b).0, Walk(b).1)
  {
    HeadOfImage(e, b);
    var c := e.Image() + b;
    assert |c| >= LE_VAL_OFF && RoundUp8(LE_VAL_OFF + HeadEntry(c).len) == e.Size() && c[e.Size()..] == b;
  }

  /** Reading back what was packed returns the same entries in the same order. */
  lemma {:induction false} WalkOfImage(es: seq<Entry>, tail: seq<byte>)
    requires AllWhole(es)
    ensures Walk(ListImage(es) + tail) == (es + Walk(tail).0, Walk(tail).1)
  {
    if es == [] {
      assert ListImage(es) + tail == tail;
      assert es + Walk(tail).0 == Walk(tail).0;
    } else {
      WalkOfImage(es[1..], tail);
      WalkCons(es[0], ListImage(es[1..]) + tail);
      Assoc(es[0].Image(), ListImage(es[1..]), tail);
      Assoc([es[0]], es[1..], Walk(tail).0);
      assert [es[0]] + es[1..] == es;
    }
  }
}
