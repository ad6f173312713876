/** Where in the data file each byte of a transfer stands, for strided and for scatter/gather transfers. */
module FilePlaces {
  import opened Bytes
  import opened FileBytes

  /** Where payload byte i of a strided transfer stands: segment i / length starts that many strides behind the offset, in
      the arithmetic of uint64_t. */
  function SegmentPlace(offset: nat, stride: nat, length: nat, i: nat): nat {
    if length == 0 then offset else (offset + i / length * stride) % TWO64 + i % length
  }

  /** g is f with the bytes of the payload at their places, later ones over earlier ones, and nothing else changed; it has
      grown no further than to the last of them, and where it has grown in between, by zeros. */
  ghost predicate Lands(f: seq<byte>, g: seq<byte>, payload: seq<byte>, place: nat -> nat) {
    && (forall i :: 0 <= i < |payload| && (forall j :: i < j < |payload| ==> place(j) != place(i)) ==>
          place(i) < |g| && g[place(i)] == payload[i])
    && (forall q :: 0 <= q < |g| && (forall i :: 0 <= i < |payload| ==> place(i) != q) ==>
          g[q] == if q < |f| then f[q] else 0)
    && |f| <= |g| && (|g| > |f| ==> exists i :: 0 <= i < |payload| && place(i) == |g| - 1)
  }

  ghost predicate PlacedBy(s: seq<nat>, place: nat -> nat) { forall i :: 0 <= i < |s| ==> s[i] == place(i) }

  lemma RangeReached(at: nat, len: nat, n: nat)
    ensures var m := if len == 0 then n else Max(n, at + len);
            && m >= n && (forall i :: 0 <= i < len ==> Range(at, len)[i] < m)
            && (m > n ==> len > 0 && Range(at, len)[len - 1] == m - 1)
  {
  }

  /** The file reaches up to the furthest place. */
  lemma {:induction false} ExtentReached(n: nat, ps: seq<Piece>)
    ensures Extent(n, ps) >= n && forall i :: 0 <= i < |Places(ps)| ==> Places(ps)[i] < Extent(n, ps)
    ensures Extent(n, ps) > n ==> exists i :: 0 <= i < |Places(ps)| && Places(ps)[i] == Extent(n, ps) - 1
    decreases ps
  {
    if ps != [] {
      var r, rest := Range(ps[0].at, ps[0].len), Places(ps[1..]);
      var m := if ps[0].len == 0 then n else Max(n, ps[0].at + ps[0].len);
      RangeReached(ps[0].at, ps[0].len, n);
      ExtentReached(m, ps[1..]);
      assert forall i :: 0 <= i < |rest| ==> (r + rest)[|r| + i] == rest[i];
      if Extent(n, ps) > n {
        if Extent(n, ps) > m {
          var i :| 0 <= i < |rest| && rest[i] == Extent(m, ps[1..]) - 1;
          assert Places(ps)[|r| + i] == Extent(n, ps) - 1;
        } else {
          assert Places(ps)[|r| - 1] == Extent(n, ps) - 1;
        }
      }
    }
  }

  lemma ScatterLands(f: seq<byte>, ps: seq<Piece>, payload: seq<byte>, place: nat -> nat)
    requires |payload| == |Places(ps)| && PlacedBy(Places(ps), place)
    ensures Lands(f, Scatter(f, ps, payload), payload, place)
  {
    hide Scatter, Places, Extent, Last;
    var g, s := Scatter(f, ps, payload), Places(ps);
    ScatterLength(f, ps, payload);
    ExtentReached(|f|, ps);
    forall i | 0 <= i < |payload| && (forall j :: i < j < |payload| ==> place(j) != place(i))
      ensures place(i) < |g| && g[place(i)] == payload[i]
    {
      LastIs(s, place(i), i);
      LastWriterWins(f, ps, payload, place(i));
    }
    forall q | 0 <= q < |g| && (forall i :: 0 <= i < |payload| ==> place(i) != q)
      ensures g[q] == if q < |f| then f[q] else 0
    {
      LastIs(s, q, -1);
      LastWriterWins(f, ps, payload, q);
    }
    if |g| > |f| {
      var i :| 0 <= i < |s| && s[i] == |g| - 1;
      assert place(i) == |g| - 1;
    }
  }

  // ---------- strided transfers ----------

  /** One stride further. */
  lemma StrideOn(at: u64, stride: u64, q: nat)
    ensures (Add64(at, stride) + q * stride) % TWO64 == (at + (q + 1) * stride) % TWO64
  {
    var k, m, r := (at + stride) / TWO64, (Add64(at, stride) + q * stride) / TWO64, (Add64(at, stride) + q * stride) % TWO64;
    assert (q + 1) * stride == q * stride + stride;
    ModUnique(at + (q + 1) * stride, TWO64, k + m, r);
  }

  lemma QuotientOn(i: nat, length: nat)
    requires 0 < length <= i
    ensures i / length == (i - length) / length + 1 && i % length == (i - length) % length
  {
    var q, r := (i - length) / length, (i - length) % length;
    assert i == length * (q + 1) + r;
    ModUnique(i, length, q + 1, r);
    assert length * (i / length) == length * (q + 1);
    SameFactor(length, i / length, q + 1);
  }

  lemma SameFactor(m: nat, a: nat, b: nat)
    requires m > 0 && m * a == m * b
    ensures a == b
  {
    if a < b { MulSign(b - a, m); } else if b < a { MulSign(a - b, m); }
  }

  lemma SmallQuotient(i: nat, length: nat)
    requires i < length
    ensures i / length == 0 && i % length == i
  {
  }

  lemma {:induction false} StridePlaceAt(at: u64, stride: u64, length: u64, n: u64, i: nat)
    requires 0 < length <= n && i < n
    ensures |Places(Strides(at, stride, length, n))| == n
    ensures Places(Strides(at, stride, length, n))[i] == SegmentPlace(at, stride, length, i)
    decreases n
  {
    hide Add64;
    StridesTotal(at, stride, length, n);
    var ps, rest := Strides(at, stride, length, n), n - length;
    var next := if rest < length then rest else length;
    var tail := Strides(Add64(at, stride), stride, next, rest);
    assert ps[1..] == tail;
    if i < length {
      SmallQuotient(i, length);
      FirstPlace(at, stride, length, i);
    } else {
      StridesTotal(Add64(at, stride), stride, next, rest);
      StridePlaceAt(Add64(at, stride), stride, next, rest, i - length);
      NextPlace(at, stride, length, next, rest, i);
      assert Places(ps)[i] == Places(tail)[i - length];
    }
  }

  lemma FirstPlace(at: u64, stride: u64, length: u64, i: nat)
    requires i < length && i / length == 0 && i % length == i
    ensures SegmentPlace(at, stride, length, i) == at + i
  {
    assert i / length * stride == 0;
  }

  lemma NextPlace(at: u64, stride: u64, length: u64, next: u64, rest: u64, i: nat)
    requires 0 < length <= i < length + rest && next == (if rest < length then rest else length)
    ensures SegmentPlace(Add64(at, stride), stride, next, i - length) == SegmentPlace(at, stride, length, i)
  {
    hide Add64;
    QuotientOn(i, length);
    if rest < length {
      SmallQuotient(i - length, next);
      SmallQuotient(i - length, length);
    }
    StrideOn(at, stride, (i - length) / length);
  }

  predicate Below(s: seq<nat>, m: nat) { forall i :: 0 <= i < |s| ==> s[i] < m }

  lemma NothingBelow()
    ensures Below([], TWO63 - 1) && AllReachable([])
  {
  }

  /** The kernel takes all pieces exactly when it takes all places. */
  lemma {:induction false} WhenPlacesReachable(ps: seq<Piece>)
    requires forall i :: 0 <= i < |ps| ==> ps[i].len > 0
    ensures AllReachable(ps) <==> Below(Places(ps), TWO63 - 1)
    decreases ps
  {
    hide Reachable, Below;
    if ps == [] {
      NothingBelow();
    } else {
      var r, rest := Range(ps[0].at, ps[0].len), Places(ps[1..]);
      assert forall i :: 0 <= i < |ps[1..]| ==> ps[1..][i] == ps[i + 1];
      WhenPlacesReachable(ps[1..]);
      ReachableOne(ps[0]);
      AllReachableCons(ps);
      BelowAppend(r, rest, TWO63 - 1);
    }
  }

  lemma BelowAppend(a: seq<nat>, b: seq<nat>, m: nat)
    ensures Below(a + b, m) <==> Below(a, m) && Below(b, m)
  {
    if Below(a + b, m) {
      forall i | 0 <= i < |a| ensures a[i] < m { assert (a + b)[i] == a[i]; }
      forall i | 0 <= i < |b| ensures b[i] < m { assert (a + b)[|a| + i] == b[i]; }
    }
  }

  lemma ReachableOne(p: Piece)
    requires p.len > 0
    ensures Reachable(p.at, p.len) <==> Below(Range(p.at, p.len), TWO63 - 1)
  {
    assert Range(p.at, p.len)[p.len - 1] == p.at + p.len - 1;
  }

  lemma AllReachableCons(ps: seq<Piece>)
    requires ps != []
    ensures AllReachable(ps) <==> Reachable(ps[0].at, ps[0].len) && AllReachable(ps[1..])
  {
    hide Reachable;
    forall i | 0 < i < |ps| ensures ps[i] == ps[1..][i - 1] {}
    if Reachable(ps[0].at, ps[0].len) && AllReachable(ps[1..]) {
      forall i | 0 <= i < |ps| ensures Reachable(ps[i].at, ps[i].len) {
        if i > 0 { assert Reachable(ps[1..][i - 1].at, ps[1..][i - 1].len); }
      }
    }
    if AllReachable(ps) {
      forall i | 0 <= i < |ps[1..]| ensures Reachable(ps[1..][i].at, ps[1..][i].len) { assert ps[1..][i] == ps[i + 1]; }
    }
  }

  lemma {:induction false} StridesNotEmpty(at: u64, stride: u64, length: u64, n: u64)
    requires n == 0 || 0 < length <= n
    ensures forall i :: 0 <= i < |Strides(at, stride, length, n)| ==> Strides(at, stride, length, n)[i].len > 0
    decreases n
  {
    if n > 0 {
      var rest := n - length;
      StridesNotEmpty(Add64(at, stride), stride, if rest < length then rest else length, rest);
    }
  }
}
