/** The randomised selection of osd-util.c, over the reals: partition, selectmedian and median. */
module Median {

  // ---------- sorting as the specification ----------

  predicate Sorted(s: seq<real>) { forall i, j :: 0 <= i <= j < |s| ==> s[i] <= s[j] }

  function Insert(x: real, s: seq<real>): (r: seq<real>)
    requires Sorted(s)
    ensures Sorted(r) && multiset(r) == multiset(s) + multiset{x}
  {
    if s == [] || x <= s[0] then [x] + s
    else
      var r := Insert(x, s[1..]);
      assert s == [s[0]] + s[1..];
      assert forall i :: 0 <= i < |r| ==> s[0] <= r[i] by { InsertAbove(s[0], x, s[1..], r); }
      [s[0]] + r
  }

  lemma InsertAbove(low: real, x: real, s: seq<real>, r: seq<real>)
    requires multiset(r) == multiset(s) + multiset{x} && low <= x && forall i :: 0 <= i < |s| ==> low <= s[i]
    ensures forall i :: 0 <= i < |r| ==> low <= r[i]
  {
    forall i | 0 <= i < |r| ensures low <= r[i] {
      assert r[i] in multiset(r);
    }
  }

  function Sorting(s: seq<real>): (r: seq<real>)
    ensures Sorted(r) && multiset(r) == multiset(s) && |r| == |s|
  {
    if s == [] then [] else
      assert s == [s[0]] + s[1..];
      var r := Insert(s[0], Sorting(s[1..]));
      assert |r| == |multiset(r)| == |multiset(s)|;
      r
  }

  /** The middle value, or the mean of the two middle values. */
  function MiddleOf(s: seq<real>): real {
    if s == [] then 0.0
    else if |s| % 2 == 1 then s[|s| / 2]
    else (s[|s| / 2] + s[|s| / 2 - 1]) / 2.0
  }

  /** Whatever the length, it is half-way between the values at (n - 1) / 2 and n / 2 of the n sorted ones; so at least half
      of them are no larger, and at least half no smaller. */
  lemma MiddleMeans(s: seq<real>)
    requires s != [] && Sorted(s)
    ensures MiddleOf(s) + MiddleOf(s) == s[(|s| - 1) / 2] + s[|s| / 2]
    ensures forall i :: 0 <= i < (|s| + 1) / 2 ==> s[i] <= MiddleOf(s)
    ensures forall i :: |s| / 2 <= i < |s| ==> MiddleOf(s) <= s[i]
  {
  }

  // ---------- order statistics ----------

  function Below(s: seq<real>, x: real): nat {
    if s == [] then 0 else (if s[0] < x then 1 else 0) + Below(s[1..], x)
  }

  lemma {:induction false} BelowConcat(s: seq<real>, t: seq<real>, x: real)
    ensures Below(s + t, x) == Below(s, x) + Below(t, x)
  {
    if s == [] {
      assert s + t == t;
    } else {
      BelowConcat(s[1..], t, x);
      assert (s + t)[1..] == s[1..] + t;
    }
  }

  /** The count depends on the elements only, not on their order. */
  lemma {:induction false} BelowPermutes(s: seq<real>, t: seq<real>, x: real)
    requires multiset(s) == multiset(t)
    ensures Below(s, x) == Below(t, x)
    decreases |s|
  {
    hide Below;
    if s == [] {
      assert |t| == |multiset(t)| == 0;
      assert t == s;
    } else {
      var j := IndexOf(t, s[0], multiset(s));
      RemoveAt(s, 0);
      RemoveAt(t, j);
      BelowPermutes(s[..0] + s[1..], t[..j] + t[j + 1..], x);
      BelowRemoved(s, 0, x);
      BelowRemoved(t, j, x);
    }
  }

  lemma IndexOf(t: seq<real>, y: real, m: multiset<real>) returns (j: nat)
    requires m == multiset(t) && y in m
    ensures j < |t| && t[j] == y
  {
    j :| 0 <= j < |t| && t[j] == y;
  }

  lemma RemoveAt(t: seq<real>, j: nat)
    requires j < |t|
    ensures multiset(t[..j] + t[j + 1..]) == multiset(t) - multiset{t[j]}
  {
    assert t == t[..j] + [t[j]] + t[j + 1..];
  }

  lemma BelowRemoved(t: seq<real>, j: nat, x: real)
    requires j < |t|
    ensures Below(t, x) == Below(t[..j] + t[j + 1..], x) + (if t[j] < x then 1 else 0)
  {
    BelowConcat(t[..j], t[j + 1..], x);
    BelowConcat(t[..j], t[j..], x);
    assert t == t[..j] + t[j..] && t[j..][1..] == t[j + 1..];
  }

  lemma {:induction false} BelowAll(s: seq<real>, x: real)
    ensures Below(s, x) <= |s|
    ensures (forall i :: 0 <= i < |s| ==> s[i] < x) ==> Below(s, x) == |s|
    ensures (forall i :: 0 <= i < |s| ==> s[i] >= x) ==> Below(s, x) == 0
  {
    if s != [] { BelowAll(s[1..], x); }
  }

  /** Position k splits s: nothing before it is larger, nothing behind it smaller. */
  predicate SplitAt(s: seq<real>, k: nat) {
    k < |s| && (forall i :: 0 <= i < k ==> s[i] <= s[k]) && forall i :: k <= i < |s| ==> s[k] <= s[i]
  }

  lemma SplitLow(s: seq<real>, k: nat, x: real)
    requires SplitAt(s, k)
    ensures x <= s[k] ==> Below(s, x) <= k
    ensures s[k] < x ==> Below(s, x) > k
  {
    assert s == s[..k] + s[k..] == s[..k + 1] + s[k + 1..];
    BelowConcat(s[..k], s[k..], x);
    BelowConcat(s[..k + 1], s[k + 1..], x);
    BelowAll(s[..k], x); BelowAll(s[k..], x); BelowAll(s[..k + 1], x);
  }

  /** Two permutations split at k hold the same value there, so a split at k selects the k-th order statistic. */
  lemma SplitsAgree(s: seq<real>, t: seq<real>, k: nat)
    requires multiset(s) == multiset(t) && SplitAt(s, k) && SplitAt(t, k)
    ensures s[k] == t[k]
  {
    BelowPermutes(s, t, s[k]); BelowPermutes(s, t, t[k]);
    SplitLow(s, k, s[k]); SplitLow(s, k, t[k]);
    SplitLow(t, k, s[k]); SplitLow(t, k, t[k]);
  }

  lemma SplitSelects(s: seq<real>, t: seq<real>, k: nat)
    requires multiset(s) == multiset(t) && SplitAt(s, k)
    ensures |t| == |s| && s[k] == Sorting(t)[k]
  {
    assert |t| == |multiset(t)| == |multiset(s)| == |s|;
    SplitsAgree(s, Sorting(t), k);
  }

  // ---------- in place ----------

  /** t is s with the elements of [left..right] in another order. */
  ghost predicate Shuffled(s: seq<real>, t: seq<real>, left: nat, right: nat) {
    && left <= right < |s| == |t|
    && multiset(s) == multiset(t) && s[..left] == t[..left] && s[right + 1..] == t[right + 1..]
  }

  method Swap(a: array<real>, i: nat, j: nat, ghost s: seq<real>, ghost left: nat, ghost right: nat)
    requires Shuffled(s, a[..], left, right) && left <= i <= right && left <= j <= right
    modifies a
    ensures Shuffled(s, a[..], left, right)
    ensures a[i] == old(a[j]) && a[j] == old(a[i])
    ensures forall k :: 0 <= k < a.Length && k != i && k != j ==> a[k] == old(a[k])
  {
    ghost var t := a[..];
    a[i], a[j] := a[j], a[i];
    assert a[..] == t[i := t[j]][j := t[i]];
    assert a[..left] == t[..left] && a[right + 1..] == t[right + 1..];
  }

  method Partition(a: array<real>, left: nat, right: nat, pi: nat) returns (ind: nat)
    requires left <= pi <= right < a.Length
    modifies a
    ensures left <= ind <= right && Shuffled(old(a[..]), a[..], left, right) && a[ind] == old(a[pi])
    ensures forall i :: left <= i < ind ==> a[i] < a[ind]
    ensures forall i :: ind <= i <= right ==> a[ind] <= a[i]
  {
    hide Shuffled;
    ghost var s := a[..];
    ShuffledSame(s, left, right);
    var pv := a[pi];
    Swap(a, right, pi, s, left, right);
    ind := left;
    for i := left to right + 1
      invariant left <= ind <= i && ind <= right && a[right] == pv
      invariant Shuffled(s, a[..], left, right)
      invariant forall j :: left <= j < ind ==> a[j] < pv
      invariant forall j :: ind <= j < i ==> pv <= a[j]
    {
      if a[i] < pv {
        Swap(a, ind, i, s, left, right);
        ind := ind + 1;
      }
    }
    Swap(a, right, ind, s, left, right);
  }

  lemma ShuffledSame(s: seq<real>, left: nat, right: nat)
    requires left <= right < |s|
    ensures Shuffled(s, s, left, right)
  {
  }

  /** What a partition leaves in place: a split of the whole range narrows to one side of it. */
  ghost predicate Bounded(a: seq<real>, lo: nat, left: nat, right: int, hi: nat) {
    && lo <= left <= right + 1 <= hi + 1 <= |a|
    && (forall i, j :: lo <= i < left <= j <= hi ==> a[i] <= a[j])
    && (forall i, j :: lo <= i <= right < j <= hi ==> a[i] <= a[j])
  }

  lemma MiddleSame(s: seq<real>, t: seq<real>, left: nat, right: nat)
    requires Shuffled(s, t, left, right)
    ensures multiset(s[left..right + 1]) == multiset(t[left..right + 1])
  {
    assert s == s[..left] + s[left..right + 1] + s[right + 1..];
    assert t == t[..left] + t[left..right + 1] + t[right + 1..];
    Cancel(multiset(s[..left]), multiset(s[left..right + 1]), multiset(t[left..right + 1]), multiset(s[right + 1..]));
  }

  lemma Cancel(a: multiset<real>, b: multiset<real>, c: multiset<real>, d: multiset<real>)
    requires a + b + d == a + c + d
    ensures b == c
  {
    assert b == a + b + d - a - d && c == a + c + d - a - d;
  }

  /** Where the element now at j stood before. */
  lemma SourceOf(s: seq<real>, t: seq<real>, left: nat, right: nat, j: nat) returns (k: nat)
    requires Shuffled(s, t, left, right) && j < |t|
    ensures k < |s| && t[j] == s[k]
    ensures if left <= j <= right then left <= k <= right else k == j
  {
    if left <= j <= right {
      MiddleSame(s, t, left, right);
      assert t[j] == t[left..right + 1][j - left];
      k := IndexOf(s[left..right + 1], t[j], multiset(t[left..right + 1]));
      k := left + k;
    } else if j < left {
      assert t[..left][j] == s[..left][j];
      k := j;
    } else {
      assert t[right + 1..][j - right - 1] == s[right + 1..][j - right - 1];
      k := j;
    }
  }

  lemma ShuffledSize(s: seq<real>, t: seq<real>, left: nat, right: nat)
    requires Shuffled(s, t, left, right)
    ensures |s| == |t|
  {
  }

  lemma ShuffleKeepsBounds(s: seq<real>, t: seq<real>, lo: nat, left: nat, right: nat, hi: nat)
    requires Bounded(s, lo, left, right, hi) && Shuffled(s, t, left, right)
    ensures Bounded(t, lo, left, right, hi)
  {
    hide Shuffled;
    ShuffledSize(s, t, left, right);
    forall i, j | lo <= i < left <= j <= hi ensures t[i] <= t[j] {
      var k := SourceOf(s, t, left, right, i);
      var m := SourceOf(s, t, left, right, j);
    }
    forall i, j | lo <= i <= right < j <= hi ensures t[i] <= t[j] {
      var k := SourceOf(s, t, left, right, i);
      var m := SourceOf(s, t, left, right, j);
    }
  }

  lemma ShuffledWider(s: seq<real>, t: seq<real>, u: seq<real>, lo: nat, left: nat, right: nat, hi: nat)
    requires Shuffled(s, t, lo, hi) && Shuffled(t, u, left, right) && lo <= left <= right <= hi
    ensures Shuffled(s, u, lo, hi)
  {
    assert u[..lo] == u[..left][..lo] == t[..lo];
    assert u[hi + 1..] == u[right + 1..][hi - right..] == t[hi + 1..];
  }

  /** selectmedian. Any pivot of the segment may be drawn. */
  method SelectMedian(a: array<real>, k: nat, lo: nat, hi: nat) returns (r: real)
    requires lo <= k <= hi < a.Length
    modifies a
    ensures Shuffled(old(a[..]), a[..], lo, hi) && r == a[k]
    ensures forall i :: lo <= i < k ==> a[i] <= r
    ensures forall i :: k <= i <= hi ==> r <= a[i]
  {
    hide Shuffled;
    ghost var s := a[..];
    ShuffledSame(s, lo, hi);
    var left, right := lo, hi;
    while true
      invariant lo <= left <= k <= right <= hi
      invariant Shuffled(s, a[..], lo, hi) && Bounded(a[..], lo, left, right, hi)
      decreases right - left
    {
      ghost var t := a[..];
      var pi :| left <= pi <= right;
      var ind := Partition(a, left, right, pi);
      ShuffledWider(s, t, a[..], lo, left, right, hi);
      ShuffleKeepsBounds(t, a[..], lo, left, right, hi);
      Narrow(a[..], lo, left, right, hi, ind);
      if ind == k { return a[k]; }
      if ind < k { left := ind + 1; } else { right := ind - 1; }
    }
  }

  lemma Narrow(a: seq<real>, lo: nat, left: nat, right: nat, hi: nat, ind: nat)
    requires Bounded(a, lo, left, right, hi) && left <= ind <= right
    requires forall i :: left <= i < ind ==> a[i] < a[ind]
    requires forall i :: ind <= i <= right ==> a[ind] <= a[i]
    ensures Bounded(a, lo, ind + 1, right, hi) && Bounded(a, lo, left, ind - 1, hi)
    ensures forall i :: lo <= i < ind ==> a[i] <= a[ind]
    ensures forall i :: ind <= i <= hi ==> a[ind] <= a[i]
  {
  }

  /** median: the middle of the sorted values, found by one or two selections over a copy. */
  method Median(v: array<real>) returns (m: real)
    ensures m == MiddleOf(Sorting(v[..]))
    ensures v[..] == old(v[..])
  {
    hide Sorting;
    var a := new real[v.Length](i requires 0 <= i < v.Length reads v => v[i]);
    assert a[..] == v[..];
    var n := v.Length;
    if n == 0 { return 0.0; }
    if n % 2 == 1 {
      m := Select(a, (n + 1) / 2 - 1, v[..]);
    } else {
      var m1 := Select(a, n / 2, v[..]);
      var m2 := Select(a, n / 2 - 1, v[..]);
      m := (m1 + m2) / 2.0;
    }
  }

  /** Selection over a whole array that holds some permutation of s. */
  method Select(a: array<real>, k: nat, ghost s: seq<real>) returns (r: real)
    requires k < a.Length && multiset(a[..]) == multiset(s)
    modifies a
    ensures multiset(a[..]) == multiset(s) && |s| == a.Length && r == Sorting(s)[k]
  {
    r := SelectMedian(a, k, 0, a.Length - 1);
    SplitSelects(a[..], s, k);
  }
}
