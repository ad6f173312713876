/** Data files as byte sequences: scattered writes, gathered reads, and when the one undoes the other. */
module FileBytes {
  import opened Bytes

  /** A byte of the file; a file reads as zero behind its end. */
  function ByteAt(f: seq<byte>, q: nat): byte { if q < |f| then f[q] else 0 }

  /** pwrite: the file grows as needed, a hole reading as zeros. Writing nothing changes nothing. */
  function PWrite(f: seq<byte>, data: seq<byte>, at: nat): (g: seq<byte>)
    ensures |g| == if data == [] then |f| else Max(|f|, at + |data|)
    ensures forall q: nat :: ByteAt(g, q) == if at <= q < at + |data| then data[q - at] else ByteAt(f, q)
  {
    if data == [] then f
    else seq(Max(|f|, at + |data|), q requires 0 <= q => if at <= q < at + |data| then data[q - at] else ByteAt(f, q))
  }

  /** The data stands at its place, the rest of the file is as it was, and a gap between the two is filled with zeros. */
  lemma PWriteMeans(f: seq<byte>, data: seq<byte>, at: nat)
    requires data != []
    ensures var g, end := PWrite(f, data, at), at + |data|;
            && |g| == Max(|f|, end)
            && forall q :: 0 <= q < |g| ==>
                 g[q] == if at <= q < end then data[q - at] else if q < |f| then f[q] else 0
  {
    hide PWrite;
    var g, end := PWrite(f, data, at), at + |data|;
    forall q | 0 <= q < |g| ensures g[q] == if at <= q < end then data[q - at] else if q < |f| then f[q] else 0 {
      assert ByteAt(g, q) == if at <= q < end then data[q - at] else ByteAt(f, q);
    }
  }

  /** pread: short at the end of the file. */
  function PRead(f: seq<byte>, len: nat, at: nat): (s: seq<byte>)
    ensures |s| <= len
  {
    if at >= |f| then [] else f[at..Min(at + len, |f|)]
  }

  lemma ContigReadsBack(f: seq<byte>, data: seq<byte>, at: nat)
    ensures PRead(PWrite(f, data, at), |data|, at) == data
  {
    var g := PWrite(f, data, at);
    if data != [] {
      forall i | 0 <= i < |data| ensures g[at + i] == data[i] {
        assert ByteAt(g, at + i) == data[i];
      }
    }
  }

  /** A range of file positions. */
  datatype Piece = Piece(at: u64, len: u64)

  function Range(at: nat, len: nat): (r: seq<nat>)
    ensures |r| == len && forall i :: 0 <= i < len ==> r[i] == at + i
  {
    seq(len, i requires 0 <= i => at + i)
  }

  /** The position of each data byte. */
  function Places(ps: seq<Piece>): seq<nat> {
    if ps == [] then [] else Range(ps[0].at, ps[0].len) + Places(ps[1..])
  }

  /** The pieces written one after the other. */
  function Scatter(f: seq<byte>, ps: seq<Piece>, data: seq<byte>): seq<byte>
    requires |data| == |Places(ps)|
    decreases ps
  {
    if ps == [] then f else Scatter(PWrite(f, data[..ps[0].len], ps[0].at), ps[1..], data[ps[0].len..])
  }

  function Gather(f: seq<byte>, ps: seq<Piece>): (s: seq<byte>)
    ensures |s| == |Places(ps)|
  {
    seq(|Places(ps)|, i requires 0 <= i < |Places(ps)| => ByteAt(f, Places(ps)[i]))
  }

  // ---------- the last writer ----------

  /** The last index that holds q, or -1. */
  function Last(s: seq<nat>, q: nat): (i: int)
    ensures -1 <= i < |s|
    ensures i >= 0 ==> s[i] == q
    ensures forall j :: i < j < |s| ==> s[j] != q
  {
    if s == [] then -1
    else if s[|s| - 1] == q then |s| - 1
    else Last(s[..|s| - 1], q)
  }

  lemma LastIs(s: seq<nat>, q: nat, i: int)
    requires -1 <= i < |s| && (i >= 0 ==> s[i] == q) && forall j :: i < j < |s| ==> s[j] != q
    ensures Last(s, q) == i
  {
  }

  lemma LastAppend(a: seq<nat>, b: seq<nat>, q: nat)
    ensures Last(a + b, q) == if Last(b, q) >= 0 then |a| + Last(b, q) else Last(a, q)
  {
    LastIs(a + b, q, if Last(b, q) >= 0 then |a| + Last(b, q) else Last(a, q));
  }

  lemma LastRange(at: nat, len: nat, q: nat)
    ensures Last(Range(at, len), q) == if at <= q < at + len then q - at else -1
  {
    LastIs(Range(at, len), q, if at <= q < at + len then q - at else -1);
  }

  /** After a scattered write every position holds what was written to it last, and a position that was not written
      what it held before. */
  lemma {:induction false} LastWriterWins(f: seq<byte>, ps: seq<Piece>, data: seq<byte>, q: nat)
    requires |data| == |Places(ps)|
    ensures var i := Last(Places(ps), q);
            ByteAt(Scatter(f, ps, data), q) == if i >= 0 then data[i] else ByteAt(f, q)
    decreases ps
  {
    hide PWrite, ByteAt, Last;
    if ps == [] {
      assert Last(Places(ps), q) == -1;
    } else {
      var p, n := ps[0], ps[0].len;
      LastWriterWins(PWrite(f, data[..n], p.at), ps[1..], data[n..], q);
      LastAppend(Range(p.at, n), Places(ps[1..]), q);
      LastRange(p.at, n, q);
    }
  }

  /** The file's length after writing: as far as the furthest piece that is not empty. */
  function Extent(n: nat, ps: seq<Piece>): nat
    decreases ps
  {
    if ps == [] then n else Extent(if ps[0].len == 0 then n else Max(n, ps[0].at + ps[0].len), ps[1..])
  }

  lemma {:induction false} ScatterLength(f: seq<byte>, ps: seq<Piece>, data: seq<byte>)
    requires |data| == |Places(ps)|
    ensures |Scatter(f, ps, data)| == Extent(|f|, ps)
    decreases ps
  {
    hide PWrite;
    if ps != [] {
      var n := ps[0].len;
      ScatterLength(PWrite(f, data[..n], ps[0].at), ps[1..], data[n..]);
    }
  }

  lemma {:induction false} ExtentCovers(n: nat, ps: seq<Piece>)
    ensures Extent(n, ps) >= n
    ensures forall i :: 0 <= i < |ps| && ps[i].len > 0 ==> ps[i].at + ps[i].len <= Extent(n, ps)
    decreases ps
  {
    if ps != [] {
      var m := if ps[0].len == 0 then n else Max(n, ps[0].at + ps[0].len);
      ExtentCovers(m, ps[1..]);
      forall i | 0 <= i < |ps| && ps[i].len > 0 ensures ps[i].at + ps[i].len <= Extent(n, ps) {
        if i > 0 { assert ps[i] == ps[1..][i - 1]; }
      }
    }
  }

  // ---------- reading back ----------

  ghost predicate Distinct(s: seq<nat>) { forall i, j :: 0 <= i < j < |s| ==> s[i] != s[j] }

  lemma GatherScatter(f: seq<byte>, ps: seq<Piece>, data: seq<byte>, i: nat)
    requires |data| == |Places(ps)| && i < |data|
    ensures Last(Places(ps), Places(ps)[i]) >= i
    ensures Gather(Scatter(f, ps, data), ps)[i] == data[Last(Places(ps), Places(ps)[i])]
  {
    hide Scatter, ByteAt;
    LastWriterWins(f, ps, data, Places(ps)[i]);
  }

  /** A scattered write is undone by the gathered read for every payload exactly when no position is written twice. */
  lemma WhenReadBack(f: seq<byte>, ps: seq<Piece>)
    ensures (forall data: seq<byte> :: |data| == |Places(ps)| ==> Gather(Scatter(f, ps, data), ps) == data)
            <==> Distinct(Places(ps))
  {
    hide Scatter, Gather, Places;
    var s := Places(ps);
    if Distinct(s) {
      forall data: seq<byte> | |data| == |s| ensures Gather(Scatter(f, ps, data), ps) == data {
        ReadsBack(f, ps, data);
      }
    } else {
      var i, j :| 0 <= i < j < |s| && s[i] == s[j];
      var data: seq<byte> := Zeros(|s|)[i := 1];
      GatherScatter(f, ps, data, i);
      assert Last(s, s[i]) >= j;
      assert Gather(Scatter(f, ps, data), ps)[i] == 0 && data[i] == 1;
    }
  }

  lemma ReadsBack(f: seq<byte>, ps: seq<Piece>, data: seq<byte>)
    requires |data| == |Places(ps)| && Distinct(Places(ps))
    ensures Gather(Scatter(f, ps, data), ps) == data
  {
    hide Scatter, Gather, Places;
    forall i | 0 <= i < |data| ensures Gather(Scatter(f, ps, data), ps)[i] == data[i] {
      GatherScatter(f, ps, data, i);
    }
  }

  // ---------- disjoint pieces ----------

  predicate Apart(p: Piece, r: Piece) {
    p.len == 0 || r.len == 0 || p.at + p.len <= r.at || r.at + r.len <= p.at
  }

  ghost predicate Disjoint(ps: seq<Piece>) { forall i, j :: 0 <= i < j < |ps| ==> Apart(ps[i], ps[j]) }

  ghost predicate Covers(p: Piece, q: nat) { p.at <= q < p.at + p.len }

  lemma {:induction false} PlacesCover(ps: seq<Piece>, q: nat)
    ensures q in Places(ps) <==> exists i :: 0 <= i < |ps| && Covers(ps[i], q)
  {
    if ps != [] {
      PlacesCover(ps[1..], q);
      assert q in Range(ps[0].at, ps[0].len) <==> Covers(ps[0], q) by {
        if Covers(ps[0], q) { assert Range(ps[0].at, ps[0].len)[q - ps[0].at] == q; }
      }
      if i :| 0 <= i < |ps| && Covers(ps[i], q) {
        if i > 0 { assert Covers(ps[1..][i - 1], q); }
      }
      if i :| 0 <= i < |ps[1..]| && Covers(ps[1..][i], q) {
        assert Covers(ps[i + 1], q);
      }
    }
  }

  lemma DistinctAppend(a: seq<nat>, b: seq<nat>)
    ensures Distinct(a + b) <==> Distinct(a) && Distinct(b) && forall q :: q in a ==> q !in b
  {
    var s := a + b;
    if Distinct(s) {
      forall i, j | 0 <= i < j < |a| ensures a[i] != a[j] { assert s[i] == a[i] && s[j] == a[j]; }
      forall i, j | 0 <= i < j < |b| ensures b[i] != b[j] { assert s[|a| + i] == b[i] && s[|a| + j] == b[j]; }
      forall i, j | 0 <= i < |a| && 0 <= j < |b| ensures a[i] != b[j] { assert s[i] == a[i] && s[|a| + j] == b[j]; }
    } else {
      var i, j :| 0 <= i < j < |s| && s[i] == s[j];
      if i < |a| <= j { assert s[i] in a && b[j - |a|] in b; }
    }
  }

  /** No position is written twice exactly when the pieces are pairwise disjoint. */
  lemma {:induction false} DistinctIffDisjoint(ps: seq<Piece>)
    ensures Distinct(Places(ps)) <==> Disjoint(ps)
  {
    hide Apart, Covers;
    if ps != [] {
      var p, rest := ps[0], ps[1..];
      DistinctIffDisjoint(rest);
      DistinctAppend(Range(p.at, p.len), Places(rest));
      HeadApart(p, rest);
      assert forall i :: 0 <= i < |rest| ==> rest[i] == ps[i + 1];
      if Disjoint(rest) && forall i :: 0 <= i < |rest| ==> Apart(p, rest[i]) {
        forall i, j | 0 <= i < j < |ps| ensures Apart(ps[i], ps[j]) {
          if i > 0 { assert Apart(rest[i - 1], rest[j - 1]); } else { assert Apart(p, rest[j - 1]); }
        }
      }
    }
  }

  lemma HeadApart(p: Piece, ps: seq<Piece>)
    ensures (forall q :: q in Range(p.at, p.len) ==> q !in Places(ps)) <==> forall i :: 0 <= i < |ps| ==> Apart(p, ps[i])
  {
    hide Places;
    if i :| 0 <= i < |ps| && !Apart(p, ps[i]) {
      var q := Max(p.at, ps[i].at);
      assert Range(p.at, p.len)[q - p.at] == q && Covers(ps[i], q);
      PlacesCover(ps, q);
    } else {
      forall q | q in Range(p.at, p.len) ensures q !in Places(ps) {
        PlacesCover(ps, q);
        assert Covers(p, q);
      }
    }
  }

  // ---------- strided pieces ----------

  /** The pieces of a strided transfer of n bytes: the loop of vec_write and vec_read, the last piece being short. */
  function Strides(at: u64, stride: u64, length: u64, n: u64): seq<Piece>
    requires n == 0 || 0 < length <= n
    decreases n
  {
    if n == 0 then []
    else
      var rest := n - length;
      [Piece(at, length)] + Strides(Add64(at, stride), stride, if rest < length then rest else length, rest)
  }

  lemma {:induction false} StridesTotal(at: u64, stride: u64, length: u64, n: u64)
    requires n == 0 || 0 < length <= n
    ensures |Places(Strides(at, stride, length, n))| == n
    decreases n
  {
    if n > 0 {
      var rest := n - length;
      StridesTotal(Add64(at, stride), stride, if rest < length then rest else length, rest);
    }
  }

  /** File offsets the kernel takes: off_t is signed. */
  predicate Reachable(at: nat, len: nat) { at + len < TWO63 }

  ghost predicate AllReachable(ps: seq<Piece>) { forall i :: 0 <= i < |ps| ==> Reachable(ps[i].at, ps[i].len) }

  /** Where the next segment starts: a stride from 2^63 on steps backwards, since the kernel takes no offset that has
      wrapped forwards past 2^63. */
  lemma StepsBack(at: u64, stride: u64)
    requires stride >= TWO63 && at < TWO63 && Add64(at, stride) < TWO63
    ensures Add64(at, stride) == at - (TWO64 - stride)
  {
    if at + stride >= TWO64 { ModUnique(at + stride, TWO64, 1, at + stride - TWO64); }
  }

  /** The first segment and the rest. */
  lemma StridesCons(at: u64, stride: u64, length: u64, n: u64)
    requires 0 < length < n && AllReachable(Strides(at, stride, length, n))
    ensures var ps, rest := Strides(at, stride, length, n), n - length;
            var tail := Strides(Add64(at, stride), stride, Min(length, rest), rest);
            && ps == [Piece(at, length)] + tail && tail != [] && tail[0] == Piece(Add64(at, stride), Min(length, rest))
            && at < TWO63 && Add64(at, stride) < TWO63 && AllReachable(tail)
  {
    var ps, rest := Strides(at, stride, length, n), n - length;
    var tail := Strides(Add64(at, stride), stride, Min(length, rest), rest);
    assert ps[0] == Piece(at, length) && ps[1] == tail[0];
    assert Reachable(ps[0].at, ps[0].len) && Reachable(ps[1].at, ps[1].len);
    forall i | 0 <= i < |tail| ensures Reachable(tail[i].at, tail[i].len) {
      assert tail[i] == ps[i + 1];
    }
  }

  /** All segments lie on one side of the first, and none is longer. */
  ghost predicate OneWay(ps: seq<Piece>, at: nat, length: nat, forwards: bool) {
    forall i :: 0 <= i < |ps| ==> ps[i].len <= length && if forwards then at <= ps[i].at else ps[i].at <= at
  }

  lemma OneWayCons(p: Piece, ps: seq<Piece>, at: nat, length: nat, forwards: bool)
    requires OneWay(ps, at, length, forwards)
    requires p.len >= length && if forwards then p.at <= at else at <= p.at
    ensures OneWay([p] + ps, p.at, p.len, forwards)
  {
  }

  lemma {:induction false} StridesOneWay(at: u64, stride: u64, length: u64, n: u64)
    requires 0 < length <= n && AllReachable(Strides(at, stride, length, n))
    ensures OneWay(Strides(at, stride, length, n), at, length, stride < TWO63)
    decreases n
  {
    hide Strides, AllReachable, OneWay, Add64;
    if length == n {
      LastStride(at, stride, length);
    } else {
      StridesCons(at, stride, length, n);
      var rest := n - length;
      StridesOneWay(Add64(at, stride), stride, Min(length, rest), rest);
      if stride >= TWO63 { StepsBack(at, stride); } else { StepsForward(at, stride); }
      OneWayCons(Piece(at, length), Strides(Add64(at, stride), stride, Min(length, rest), rest), Add64(at, stride),
                 Min(length, rest), stride < TWO63);
    }
  }

  lemma LastStride(at: u64, stride: u64, length: u64)
    requires length > 0
    ensures Strides(at, stride, length, length) == [Piece(at, length)]
    ensures OneWay(Strides(at, stride, length, length), at, length, stride < TWO63)
  {
  }

  lemma StepsForward(at: u64, stride: u64)
    requires stride < TWO63 && at < TWO63
    ensures Add64(at, stride) == at + stride
  {
  }

  /** Segments of a stride that the 64-bit addition keeps apart: forwards the segment has to fit into the stride,
      backwards the segment that follows has to fit into the distance. */
  predicate KeepsApart(stride: u64, length: u64, n: u64) {
    n <= length || if stride < TWO63 then stride >= length else TWO64 - stride >= Min(length, n - length)
  }

  lemma HeadStaysApart(at: u64, next: u64, stride: u64, length: u64, short: u64, tail: seq<Piece>)
    requires short <= length && OneWay(tail, next, short, stride < TWO63)
    requires if stride < TWO63 then next == at + stride && stride >= length else next + short <= at
    ensures forall i :: 0 <= i < |tail| ==> Apart(Piece(at, length), tail[i])
  {
  }

  lemma DisjointCons(p: Piece, tail: seq<Piece>)
    ensures Disjoint([p] + tail) <==> Disjoint(tail) && forall i :: 0 <= i < |tail| ==> Apart(p, tail[i])
  {
    hide Apart;
    var ps := [p] + tail;
    forall i | 0 <= i < |tail| ensures ps[i + 1] == tail[i] {}
    if Disjoint(ps) {
      forall i, j | 0 <= i < j < |tail| ensures Apart(tail[i], tail[j]) { assert Apart(ps[i + 1], ps[j + 1]); }
      forall i | 0 <= i < |tail| ensures Apart(p, tail[i]) { assert Apart(ps[0], ps[i + 1]); }
    }
  }

  /** Strided segments are disjoint exactly when the stride keeps them apart, over all 64-bit strides. */
  lemma {:induction false} WhenStridesDisjoint(at: u64, stride: u64, length: u64, n: u64)
    requires n == 0 || 0 < length <= n
    requires AllReachable(Strides(at, stride, length, n))
    ensures Disjoint(Strides(at, stride, length, n)) <==> KeepsApart(stride, length, n)
    decreases n
  {
    hide Strides, AllReachable, OneWay, Add64, Disjoint;
    if n <= length {
      FewStrides(at, stride, length, n);
    } else {
      StridesCons(at, stride, length, n);
      if stride >= TWO63 { StepsBack(at, stride); } else { StepsForward(at, stride); }
      var next, short, rest := Add64(at, stride), Min(length, n - length), n - length;
      var tail := Strides(next, stride, short, rest);
      DisjointCons(Piece(at, length), tail);
      if KeepsApart(stride, length, n) {
        StridesOneWay(next, stride, short, rest);
        WhenStridesDisjoint(next, stride, short, rest);
        HeadStaysApart(at, next, stride, length, short, tail);
      } else {
        assert !Apart(Piece(at, length), tail[0]);
      }
    }
  }

  lemma FewStrides(at: u64, stride: u64, length: u64, n: u64)
    requires n == 0 || 0 < length == n
    ensures Disjoint(Strides(at, stride, length, n))
  {
    if n > 0 { LastStride(at, stride, n); }
  }

  /** A stride of 2^64 - 4 is far larger than a length of 8, and yet its segments overlap. */
  lemma BackwardsStrideOverlaps()
    ensures var ps := Strides(100, TWO64 - 4, 8, 16);
            ps == [Piece(100, 8), Piece(96, 8)] && AllReachable(ps) && !Disjoint(ps)
  {
    var ps := Strides(100, TWO64 - 4, 8, 16);
    StepsBack(100, TWO64 - 4);
    assert Strides(92, TWO64 - 4, 0, 0) == [];
    assert Strides(96, TWO64 - 4, 8, 8) == [Piece(96, 8)];
    assert ps == [Piece(100, 8), Piece(96, 8)];
    assert !Apart(ps[0], ps[1]);
  }

  // ---------- the strided loop ----------

  /** The variables of the loop in vec_write and vec_read, or that a transfer of the loop has failed. */
  datatype Loop = Running(bytes: u64, offsetVal: u64, length: u64) | Failed {
    predicate Ended() { Failed? || bytes == 0 }
  }

  /** One pass, in the arithmetic of uint64_t. */
  function Iterate(l: Loop, offset: u64, stride: u64): Loop {
    if l.Ended() then l
    else if !Reachable(Add64(l.offsetVal, offset), l.length) then Failed
    else
      var rest := Sub64(l.bytes, l.length);
      Running(rest, Add64(l.offsetVal, stride), if rest < l.length then rest else l.length)
  }

  function Iterated(l: Loop, offset: u64, stride: u64, k: nat): Loop
    decreases k
  {
    if k == 0 then l else Iterated(Iterate(l, offset, stride), offset, stride, k - 1)
  }

  /** Passes of length 0 that a stride allows before it leaves the offsets that the kernel takes. */
  function Fuel(at: u64, stride: u64): nat {
    if at >= TWO63 then 0 else if stride < TWO63 then TWO63 - at else at + 1
  }

  lemma FuelDrops(at: u64, stride: u64)
    requires at < TWO63 && stride != 0
    ensures Fuel(Add64(at, stride), stride) < Fuel(at, stride)
  {
    if stride >= TWO63 && Add64(at, stride) < TWO63 { StepsBack(at, stride); }
  }

  lemma AddSwap(offsetVal: u64, offset: u64, stride: u64)
    ensures Add64(Add64(offsetVal, offset), stride) == Add64(Add64(offsetVal, stride), offset)
  {
    Add64Sum(offsetVal, offset, stride);
    Add64Sum(offsetVal, stride, offset);
  }

  lemma {:induction false} SegmentsEnd(l: Loop, offset: u64, stride: u64) returns (k: nat)
    requires l.Running? && (l.bytes == 0 || 0 < l.length <= l.bytes)
    ensures Iterated(l, offset, stride, k).Ended()
    decreases l.bytes
  {
    hide Reachable;
    if l.bytes == 0 { return 0; }
    var m := Iterate(l, offset, stride);
    if m.Failed? {
      k := 1;
      assert Iterated(m, offset, stride, 0) == m;
    } else {
      SmallSub(l.bytes, l.length);
      var j := SegmentsEnd(m, offset, stride);
      k := j + 1;
    }
  }

  lemma SmallSub(a: u64, b: u64)
    ensures b <= a ==> Sub64(a, b) == a - b
    ensures b > a ==> 0 < Sub64(a, b) == a - b + TWO64
  {
  }

  lemma {:induction false} EmptySegmentsEnd(l: Loop, offset: u64, stride: u64) returns (k: nat)
    requires l.Running? && l.length == 0 && stride != 0
    ensures Iterated(l, offset, stride, k).Ended()
    decreases Fuel(Add64(l.offsetVal, offset), stride)
  {
    if l.bytes == 0 { return 0; }
    var m := Iterate(l, offset, stride);
    if m.Failed? {
      k := 1;
      assert Iterated(m, offset, stride, 0) == m;
    } else {
      SmallSub(l.bytes, 0);
      AddSwap(l.offsetVal, offset, stride);
      FuelDrops(Add64(l.offsetVal, offset), stride);
      var j := EmptySegmentsEnd(m, offset, stride);
      k := j + 1;
    }
  }

  lemma {:induction false} NothingMoves(n: u64, offset: u64, k: nat)
    requires n > 0 && Reachable(offset, 0)
    ensures Iterated(Running(n, 0, 0), offset, 0, k) == Running(n, 0, 0)
  {
    SmallSub(n, 0);
    assert Iterate(Running(n, 0, 0), offset, 0) == Running(n, 0, 0);
    if k > 0 { NothingMoves(n, offset, k - 1); }
  }

  /** However often the loop is passed, it does not end. */
  ghost predicate NeverEnds(l: Loop, offset: u64, stride: u64) {
    forall k: nat :: !Iterated(l, offset, stride, k).Ended()
  }

  /** The loop does not end exactly when there are bytes to transfer in segments of length
      0 and stride 0 at an offset that the kernel takes. */
  lemma WhenLoopIsEndless(n: u64, offset: u64, stride: u64, length: u64)
    ensures NeverEnds(Running(n, 0, length), offset, stride) <==>
              n > 0 && length == 0 && stride == 0 && Reachable(offset, 0)
  {
    hide Iterate, Reachable;
    var l := Running(n, 0, length);
    if n > 0 && length == 0 && stride == 0 && Reachable(offset, 0) {
      forall k: nat ensures !Iterated(l, offset, stride, k).Ended() { NothingMoves(n, offset, k); }
    } else {
      var k := LoopEnds(n, offset, stride, length);
      assert Iterated(l, offset, stride, k).Ended();
    }
  }

  lemma LoopEnds(n: u64, offset: u64, stride: u64, length: u64) returns (k: nat)
    requires !(n > 0 && length == 0 && stride == 0 && Reachable(offset, 0))
    ensures Iterated(Running(n, 0, length), offset, stride, k).Ended()
  {
    var l := Running(n, 0, length);
    if n == 0 || 0 < length <= n {
      k := SegmentsEnd(l, offset, stride);
    } else if length == 0 && stride != 0 {
      k := EmptySegmentsEnd(l, offset, stride);
    } else {
      var m := Iterate(l, offset, stride);
      if m.Failed? {
        k := 1;
        assert Iterated(m, offset, stride, 0) == m;
      } else {
        SmallSub(n, length);
        var j := SegmentsEnd(m, offset, stride);
        k := j + 1;
      }
    }
  }

  // ---------- punch ----------

  /** The file after osd_punch for an offset within it. */
  function Punched(f: seq<byte>, len: u64, offset: u64): seq<byte>
    requires offset <= |f| < TWO63
  {
    var newOffset := Add64(len, offset);
    if newOffset > |f| then f[..offset] else f[..offset] + f[newOffset..]
  }

  /** Punching takes out the len bytes at offset, or all there are, exactly when the end of the range does not wrap
      past 2^64. */
  lemma WhenPunchRemoves(f: seq<byte>, len: u64, offset: u64)
    requires offset <= |f| < TWO63
    ensures Punched(f, len, offset) == f[..offset] + f[Min(offset + len, |f|)..] <==> offset + len < TWO64
  {
    if offset + len >= TWO64 {
      ModUnique(len + offset, TWO64, 1, len + offset - TWO64);
      var cut := len + offset - TWO64;
      assert cut < offset;
      assert |Punched(f, len, offset)| == offset + |f| - cut > |f|;
    } else if offset + len > |f| {
      assert f[|f|..] == [];
    }
  }
}
