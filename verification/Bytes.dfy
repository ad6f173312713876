/** Fixed-width integers, big-endian fields and in-place stores into a byte buffer. */
module Bytes {
  const TWO16 := 0x1_0000
  const TWO32 := 0x1_0000_0000
  const TWO63 := 0x8000_0000_0000_0000
  const TWO64 := 0x1_0000_0000_0000_0000

  type byte = x: int | 0 <= x < 256
  type u16 = x: int | 0 <= x < TWO16
  type u32 = x: int | 0 <= x < TWO32
  type u64 = x: int | 0 <= x < TWO64

  function Max(a: nat, b: nat): nat { if a >= b then a else b }

  function Min(a: nat, b: nat): nat { if a <= b then a else b }

  datatype Option<+T> = None | Some(value: T)

  /** uint64_t addition. */
  function Add64(x: u64, y: u64): u64 { (x + y) % TWO64 }

  lemma Add64Sum(a: u64, b: u64, c: u64)
    ensures Add64(Add64(a, b), c) == (a + b + c) % TWO64
  {
    var k := if a + b < TWO64 then 0 else 1;
    ModUnique(a + b, TWO64, k, a + b - k * TWO64);
    var s := Add64(a, b) + c;
    var j := if s < TWO64 then 0 else 1;
    ModUnique(s, TWO64, j, s - j * TWO64);
    ModUnique(a + b + c, TWO64, k + j, s - j * TWO64);
  }

  /** uint32_t subtraction. */
  function Sub32(x: u32, y: u32): u32 { (x - y) % TWO32 }

  /** uint64_t subtraction. */
  function Sub64(x: u64, y: u64): u64 { (x - y) % TWO64 }

  /** Conversion to uint32_t. */
  function Low32(n: nat): u32 { n % TWO32 }

  lemma SmallIsLow(n: nat)
    requires n < TWO32
    ensures Low32(n) == n
  {
  }

  lemma Low32Add(m: nat, n: nat)
    ensures Low32(Low32(m) + n) == Low32(m + n)
  {
    var q, k, z := m / TWO32, (m % TWO32 + n) / TWO32, (m % TWO32 + n) % TWO32;
    assert m + n == TWO32 * (q + k) + z;
    ModUnique(m + n, TWO32, q + k, z);
  }

  predicate Aligned(n: nat) { n % 8 == 0 }

  lemma AlignedAdd(m: nat, n: nat)
    requires Aligned(m) && Aligned(n)
    ensures Aligned(m + n)
  {
  }

  lemma LowAligned(n: nat)
    requires Aligned(n)
    ensures Aligned(Low32(n))
  {
    var k := n / 8 - 0x2000_0000 * (n / TWO32);
    assert Low32(n) == n - TWO32 * (n / TWO32) == 8 * k;
    ModUnique(8 * k, 8, k, 0);
  }

  function RoundUp8(x: nat): (r: nat)
    ensures Aligned(r) && x <= r < x + 8
  {
    (x + 7) / 8 * 8
  }

  function Zeros(n: nat): (s: seq<byte>)
    ensures |s| == n && forall i :: 0 <= i < n ==> s[i] == 0
  {
    seq(n, _ => 0)
  }

  lemma Assoc<T>(a: seq<T>, b: seq<T>, c: seq<T>)
    ensures a + b + c == a + (b + c)
  {
  }

  // ---------- big-endian fields ----------

  function Pow256(w: nat): (p: nat)
    ensures p > 0
  {
    if w == 0 then 1 else 256 * Pow256(w - 1)
  }

  /** The w-byte big-endian image of v, higher bytes dropped: set_htons, set_htonl, set_htonll. */
  function Be(v: nat, w: nat): (s: seq<byte>)
    ensures |s| == w
    decreases w, v
  {
    if w == 0 then [] else Be(v / 256, w - 1) + [v % 256]
  }

  /** The number a big-endian field stands for: get_ntohs, get_ntohl, get_ntohll. */
  function FromBe(s: seq<byte>): nat {
    if s == [] then 0 else FromBe(s[..|s| - 1]) * 256 + s[|s| - 1]
  }

  lemma {:induction false} FieldRoundTrip(v: nat, w: nat)
    requires v < Pow256(w)
    ensures FromBe(Be(v, w)) == v
  {
    if w > 0 {
      FieldRoundTrip(v / 256, w - 1);
      assert Be(v, w)[..w - 1] == Be(v / 256, w - 1);
    }
  }

  lemma {:induction false} FieldBound(s: seq<byte>)
    ensures FromBe(s) < Pow256(|s|)
  {
    if s != [] { FieldBound(s[..|s| - 1]); }
  }

  /** Every w-byte field is the image of its own value, so both directions are inverses. */
  lemma {:induction false} FieldImage(s: seq<byte>)
    ensures Be(FromBe(s), |s|) == s
  {
    if s != [] { FieldImage(s[..|s| - 1]); }
  }

  lemma Widths()
    ensures Pow256(2) == TWO16 && Pow256(4) == TWO32 && Pow256(8) == TWO64
  {
    assert Pow256(2) == 256 * Pow256(1) == 65536;
    assert Pow256(4) == 256 * Pow256(3) == 256 * (256 * Pow256(2));
    assert Pow256(6) == 256 * Pow256(5) == 256 * (256 * Pow256(4));
    assert Pow256(8) == 256 * Pow256(7) == 256 * (256 * Pow256(6));
  }

  function U16At(b: seq<byte>, at: nat): u16
    requires at + 2 <= |b|
  {
    FieldBound(b[at..at + 2]); Widths();
    FromBe(b[at..at + 2])
  }

  function U32At(b: seq<byte>, at: nat): u32
    requires at + 4 <= |b|
  {
    FieldBound(b[at..at + 4]); Widths();
    FromBe(b[at..at + 4])
  }

  /** A field keeps only the low bytes of its number. */
  lemma {:induction false} LowBits(n: nat, w: nat)
    ensures Be(n, w) == Be(n % Pow256(w), w)
  {
    if w > 0 {
      LowDigits(n, Pow256(w - 1));
      LowBits(n / 256, w - 1);
    }
  }

  lemma LowDigits(n: nat, p: nat)
    requires p > 0
    ensures n % (256 * p) / 256 == n / 256 % p && n % (256 * p) % 256 == n % 256
  {
    var q, r, d := n / 256 / p, n / 256 % p, n % 256;
    var m := p * q;
    assert n / 256 == m + r;
    assert n == 256 * m + (256 * r + d);
    assert 256 * m == 256 * p * q;
    ModUnique(n, 256 * p, q, 256 * r + d);
  }

  lemma ModUnique(n: nat, m: nat, q: nat, r: nat)
    requires m > 0 && n == m * q + r && r < m
    ensures n % m == r
  {
    var d := n / m - q;
    assert d * m == r - n % m;
    MulSign(d, m);
  }

  lemma MulSign(d: int, m: int)
    requires m > 0
    ensures d >= 1 ==> d * m >= m
    ensures d <= -1 ==> d * m <= -m
  {
  }

  /** Bytewise (memcmp) order, a proper prefix being smaller. */
  predicate LexLe(a: seq<byte>, b: seq<byte>) {
    a == [] || (b != [] && (a[0] < b[0] || (a[0] == b[0] && LexLe(a[1..], b[1..]))))
  }

  lemma {:induction false} LexSnoc(a: seq<byte>, b: seq<byte>, x: byte, y: byte)
    requires |a| == |b|
    ensures LexLe(a + [x], b + [y]) <==> (a != b && LexLe(a, b)) || (a == b && x <= y)
  {
    if a == [] {
      assert [x][1..] == [] && [y][1..] == [];
    } else {
      LexSnoc(a[1..], b[1..], x, y);
      assert (a + [x])[1..] == a[1..] + [x] && (b + [y])[1..] == b[1..] + [y];
      assert a == [a[0]] + a[1..] && b == [b[0]] + b[1..];
    }
  }

  /** On fields of one width, bytewise order is numeric order. */
  lemma {:induction false} LexIsNumeric(v: nat, u: nat, w: nat)
    requires v < Pow256(w) && u < Pow256(w)
    ensures LexLe(Be(v, w), Be(u, w)) <==> v <= u
  {
    if w > 0 {
      var p, q, x, y := v / 256, u / 256, v % 256, u % 256;
      LexIsNumeric(p, q, w - 1);
      LexSnoc(Be(p, w - 1), Be(q, w - 1), x, y);
      assert Be(p, w - 1) == Be(q, w - 1) <==> p == q by {
        FieldRoundTrip(p, w - 1);
        FieldRoundTrip(q, w - 1);
      }
      assert v == 256 * p + x && u == 256 * q + y;
    }
  }

  // ---------- slices and stores ----------

  lemma Middle(pre: seq<byte>, s: seq<byte>, tail: seq<byte>)
    ensures (pre + s + tail)[|pre|..|pre| + |s|] == s
  {
  }

  /** A field between x and y, wherever these stand. */
  lemma ReadsU16(pre: seq<byte>, x: seq<byte>, v: u16, y: seq<byte>, tail: seq<byte>)
    ensures |pre| + |x| + 2 <= |pre + (x + Be(v, 2) + y) + tail|
    ensures U16At(pre + (x + Be(v, 2) + y) + tail, |pre| + |x|) == v
  {
    hide Be, FromBe;
    Widths();
    FieldRoundTrip(v, 2);
    Middle(pre + x, Be(v, 2), y + tail);
    MoveFront(pre, x, Be(v, 2), y, tail);
  }

  lemma ReadsU32(pre: seq<byte>, x: seq<byte>, v: u32, y: seq<byte>, tail: seq<byte>)
    ensures |pre| + |x| + 4 <= |pre + (x + Be(v, 4) + y) + tail|
    ensures U32At(pre + (x + Be(v, 4) + y) + tail, |pre| + |x|) == v
  {
    hide Be, FromBe;
    Widths();
    FieldRoundTrip(v, 4);
    Middle(pre + x, Be(v, 4), y + tail);
    MoveFront(pre, x, Be(v, 4), y, tail);
  }

  lemma MoveFront(pre: seq<byte>, x: seq<byte>, f: seq<byte>, y: seq<byte>, tail: seq<byte>)
    ensures pre + (x + f + y) + tail == (pre + x) + f + (y + tail)
  {
    Assoc(pre, x + f, y);
    Assoc(pre, x, f);
    Assoc(pre + x + f, y, tail);
  }

  lemma SubSlice(b: seq<byte>, p: nat, end: nat, i: nat, j: nat)
    requires i <= j && p + j <= end <= |b|
    ensures b[p..end][i..j] == b[p + i..p + j]
  {
    forall k | 0 <= k < j - i ensures b[p..end][i..j][k] == b[p + i..p + j][k] {
      assert b[p..end][i + k] == b[p + i + k];
    }
  }

  /** b with the bytes from off on replaced by s. */
  function Splice(b: seq<byte>, off: nat, s: seq<byte>): (r: seq<byte>)
    requires off + |s| <= |b|
    ensures |r| == |b|
  {
    seq(|b|, i requires 0 <= i < |b| => if off <= i < off + |s| then s[i - off] else b[i])
  }

  lemma SpliceJoin(b: seq<byte>, off: nat, s: seq<byte>, t: seq<byte>)
    requires off + |s| + |t| <= |b|
    ensures Splice(Splice(b, off, s), off + |s|, t) == Splice(b, off, s + t)
  {
  }

  lemma SpliceNothing(b: seq<byte>, off: nat, s: seq<byte>)
    requires s == [] && off <= |b|
    ensures Splice(b, off, s) == b
  {
  }

  lemma SpliceSwap(b: seq<byte>, i: nat, s: seq<byte>, j: nat, t: seq<byte>)
    requires i + |s| <= j && j + |t| <= |b|
    ensures Splice(Splice(b, i, s), j, t) == Splice(Splice(b, j, t), i, s)
  {
  }

  lemma SpliceWindow(b: seq<byte>, lo: nat, at: nat, s: seq<byte>, hi: nat)
    requires lo <= at && at + |s| <= hi <= |b|
    ensures Splice(b, at, s)[lo..hi] == b[lo..at] + s + b[at + |s|..hi]
    ensures Splice(b, at, s)[..lo] == b[..lo] && Splice(b, at, s)[hi..] == b[hi..]
  {
  }

  method Store(buf: array<byte>, off: nat, s: seq<byte>)
    requires off + |s| <= buf.Length
    modifies buf
    ensures buf[..] == Splice(old(buf[..]), off, s)
  {
    forall i | 0 <= i < |s| { buf[off + i] := s[i]; }
  }
}
