/** QUERY: criteria compiled into a chain of SELECTs, what the chain means over the tables, and the reply. */
module Query {
  import opened Bytes
  import opened Pages
  import opened Namespace
  import opened QueryCriteria
  import opened Sql

  type Key = (u64, u64, u32, u32)

  // ---------- the statement ----------

  /** The pieces of the statement text. Select joins the members of the collection with the attribute rows; the
      comparisons stand for a parameter each. */
  datatype Token = Select | Attribute(page: u32, number: u32) | AtLeast | AtMost | Union | Intersect | GroupOrder

  function Comparisons(c: Criterion): seq<Token> {
    (if c.min != [] then [AtLeast] else []) + (if c.max != [] then [AtMost] else [])
  }

  function Conditions(c: Criterion): seq<Token> { [Attribute(c.page, c.number)] + Comparisons(c) }

  function Parameters(c: Criterion): seq<seq<byte>> {
    (if c.min != [] then [c.min] else []) + (if c.max != [] then [c.max] else [])
  }

  /** The statement from the conditions of the first criterion on. */
  function Chain(cs: seq<Criterion>, op: Token): seq<Token> {
    if cs == [] then [GroupOrder]
    else Conditions(cs[0]) + (if |cs| > 1 then [op, Select] else []) + Chain(cs[1..], op)
  }

  function AllParameters(cs: seq<Criterion>): seq<seq<byte>> {
    if cs == [] then [] else Parameters(cs[0]) + AllParameters(cs[1..])
  }

  /** Lines 86 to 126. */
  method BuildStatement(cs: seq<Criterion>, op: Token) returns (sql: seq<Token>)
    ensures sql == [Select] + Chain(cs, op)
  {
    sql := [Select];
    var i := 0;
    while i < |cs|
      invariant i <= |cs| && sql + Chain(cs[i..], op) == [Select] + Chain(cs, op)
    {
      ghost var before := sql;
      sql := sql + [Attribute(cs[i].page, cs[i].number)];
      if |cs[i].min| > 0 { sql := sql + [AtLeast]; }
      if |cs[i].max| > 0 { sql := sql + [AtMost]; }
      assert sql == before + Conditions(cs[i]);
      if i + 1 < |cs| { sql := sql + [op, Select]; }
      ChainNext(before, cs, i, op, sql);
      i := i + 1;
    }
    sql := sql + [GroupOrder];
  }

  lemma ChainNext(before: seq<Token>, cs: seq<Criterion>, i: nat, op: Token, sql: seq<Token>)
    requires i < |cs| && sql == before + Conditions(cs[i]) + (if i + 1 < |cs| then [op, Select] else [])
    ensures sql + Chain(cs[i + 1..], op) == before + Chain(cs[i..], op)
  {
    hide Conditions;
    assert cs[i..][1..] == cs[i + 1..] && cs[i..][0] == cs[i];
    var link := if i + 1 < |cs| then [op, Select] else [];
    Assoc(before, Conditions(cs[i]), link);
    Assoc(before, Conditions(cs[i]) + link, Chain(cs[i + 1..], op));
  }

  /** Lines 136 to 162: the values bound to the positions of the statement. */
  method BindValues(cs: seq<Criterion>) returns (values: seq<seq<byte>>)
    ensures values == AllParameters(cs)
  {
    values := [];
    var i := 0;
    while i < |cs|
      invariant i <= |cs| && values + AllParameters(cs[i..]) == AllParameters(cs)
    {
      ghost var before := values;
      if |cs[i].min| > 0 { values := values + [cs[i].min]; }
      if |cs[i].max| > 0 { values := values + [cs[i].max]; }
      assert values == before + Parameters(cs[i]);
      ParametersNext(before, cs, i);
      i := i + 1;
    }
    assert values + [] == values;
  }

  lemma ParametersNext(before: seq<seq<byte>>, cs: seq<Criterion>, i: nat)
    requires i < |cs|
    ensures before + Parameters(cs[i]) + AllParameters(cs[i + 1..]) == before + AllParameters(cs[i..])
  {
    hide Parameters;
    assert cs[i..][1..] == cs[i + 1..] && cs[i..][0] == cs[i];
    Assoc(before, Parameters(cs[i]), AllParameters(cs[i + 1..]));
  }

  // ---------- what SQLite makes of it ----------

  predicate IsMember(coll: set<Member>, pid: u64, cid: u64, oid: u64) {
    exists m <- coll :: m.pid == pid && m.cid == cid && m.oid == oid
  }

  /** The members by the text of the statement. */
  predicate InJoin(coll: set<Member>, pid: u64, cid: u64, oid: u64) {
    exists m <- coll :: Equals64(m.pid, pid) && Equals64(m.cid, cid) && m.oid == oid
  }

  lemma WhenInJoin(coll: set<Member>, pid: u64, cid: u64, oid: u64)
    ensures InJoin(coll, pid, cid, oid) <==> pid < TWO63 && cid < TWO63 && IsMember(coll, pid, cid, oid)
  {
    hide Equals64;
    forall m <- coll ensures Equals64(m.pid, pid) && Equals64(m.cid, cid) <==> m.pid == pid < TWO63 && m.cid == cid < TWO63 {
      WhenEquals64(m.pid, pid);
      WhenEquals64(m.cid, cid);
    }
  }

  /** The rows of the join: the partition of the attribute row is not looked at. */
  function Joined(s: State, pid: u64, cid: u64): set<Key> { set k | k in s.attr && InJoin(s.coll, pid, cid, k.1) }

  /** attr.page = %u AND attr.number = %u. */
  predicate Named(k: Key, page: u32, number: u32) { Equals32(k.2, page) && Equals32(k.3, number) }

  lemma WhenNamed(k: Key, page: u32, number: u32)
    ensures Named(k, page, number) <==> k.2 == page < TWO31 && k.3 == number < TWO31
  {
    hide Equals32;
    WhenEquals32(k.2, page);
    WhenEquals32(k.3, number);
  }

  function Oids(arm: set<Key>): set<u64> { set k | k in arm :: k.1 }

  /** The result so far, the operator and the rows of the SELECT in progress, and the values not yet used. */
  datatype Machine = Machine(result: set<u64>, join: Token, arm: set<Key>, values: seq<seq<byte>>)

  function Joining(m: Machine): set<u64> {
    if m.join == Intersect then m.result * Oids(m.arm) else m.result + Oids(m.arm)
  }

  function ExecToken(s: State, pid: u64, cid: u64, m: Machine, t: Token): Machine {
    match t
    case Select => m.(arm := Joined(s, pid, cid))
    case Attribute(page, number) => m.(arm := set k | k in m.arm && Named(k, page, number))
    case AtLeast =>
      if m.values == [] then m
      else m.(arm := (set k | k in m.arm && k in s.attr && LexLe(m.values[0], s.attr[k])), values := m.values[1..])
    case AtMost =>
      if m.values == [] then m
      else m.(arm := (set k | k in m.arm && k in s.attr && LexLe(s.attr[k], m.values[0])), values := m.values[1..])
    case Union => Machine(Joining(m), Union, {}, m.values)
    case Intersect => Machine(Joining(m), Intersect, {}, m.values)
    case GroupOrder => m.(result := Joining(m), arm := {})
  }

  function Exec(s: State, pid: u64, cid: u64, m: Machine, sql: seq<Token>): Machine
    decreases sql
  {
    if sql == [] then m else Exec(s, pid, cid, ExecToken(s, pid, cid, m, sql[0]), sql[1..])
  }

  function Answer(s: State, pid: u64, cid: u64, sql: seq<Token>, values: seq<seq<byte>>): set<u64> {
    Exec(s, pid, cid, Machine({}, Union, {}, values), sql).result
  }

  // ---------- what a query means ----------

  predicate InRange(c: Criterion, v: seq<byte>) {
    (c.min == [] || LexLe(c.min, v)) && (c.max == [] || LexLe(v, c.max))
  }

  /** Some partition gives the object a value of the wanted attribute in the wanted range, and the attribute is one that
      the statement can name. */
  ghost predicate Satisfies(s: State, oid: u64, c: Criterion) {
    c.page < TWO31 && c.number < TWO31 &&
    exists p: u64 :: (p, oid, c.page, c.number) in s.attr && InRange(c, s.attr[(p, oid, c.page, c.number)])
  }

  ghost predicate HasAttribute(s: State, oid: u64) {
    exists p: u64, page: u32, number: u32 :: (p, oid, page, number) in s.attr
  }

  /** Query type 0 asks for some criterion, type 1 for all; without any criterion both ask for any attribute. */
  ghost predicate Selected(s: State, queryType: byte, cs: seq<Criterion>, oid: u64) {
    if cs == [] then HasAttribute(s, oid)
    else if queryType == 0 then exists i :: 0 <= i < |cs| && Satisfies(s, oid, cs[i])
    else forall i :: 0 <= i < |cs| ==> Satisfies(s, oid, cs[i])
  }

  function Operator(queryType: byte): Token { if queryType == 0 then Union else Intersect }

  function Matching(s: State, pid: u64, cid: u64, c: Criterion): set<Key> {
    set k | k in Joined(s, pid, cid) && Named(k, c.page, c.number) && InRange(c, s.attr[k])
  }

  lemma {:induction false} ExecAppend(s: State, pid: u64, cid: u64, m: Machine, a: seq<Token>, b: seq<Token>)
    ensures Exec(s, pid, cid, m, a + b) == Exec(s, pid, cid, Exec(s, pid, cid, m, a), b)
    decreases a
  {
    hide ExecToken;
    if a == [] {
      assert a + b == b;
    } else {
      ExecAppend(s, pid, cid, ExecToken(s, pid, cid, m, a[0]), a[1..], b);
      assert (a + b)[1..] == a[1..] + b;
    }
  }

  lemma ExecOne(s: State, pid: u64, cid: u64, m: Machine, t: Token)
    ensures Exec(s, pid, cid, m, [t]) == ExecToken(s, pid, cid, m, t)
  {
  }

  /** The conditions of a criterion consume its own values and leave the rows in its range. */
  lemma ExecConditions(s: State, pid: u64, cid: u64, c: Criterion, m: Machine, rest: seq<seq<byte>>)
    requires m.arm == Joined(s, pid, cid) && m.values == Parameters(c) + rest
    ensures Exec(s, pid, cid, m, Conditions(c)) == m.(arm := Matching(s, pid, cid, c), values := rest)
  {
    hide Exec, LexLe, InJoin, Named;
    var attribute := [Attribute(c.page, c.number)];
    var lo := if c.min != [] then [AtLeast] else [];
    var hi := if c.max != [] then [AtMost] else [];
    ExecAppend(s, pid, cid, m, attribute, lo + hi);
    ExecOne(s, pid, cid, m, Attribute(c.page, c.number));
    var m1 := ExecToken(s, pid, cid, m, Attribute(c.page, c.number));
    ExecAppend(s, pid, cid, m1, lo, hi);
    var m2 := Lower(s, pid, cid, c, m1, lo, (if c.max != [] then [c.max] else []) + rest);
    var m3 := Upper(s, pid, cid, c, m2, hi, rest);
    assert m3.arm == Matching(s, pid, cid, c);
  }

  lemma Lower(s: State, pid: u64, cid: u64, c: Criterion, m: Machine, lo: seq<Token>, rest: seq<seq<byte>>) returns (n: Machine)
    requires lo == (if c.min != [] then [AtLeast] else []) && m.values == (if c.min != [] then [c.min] else []) + rest
    requires forall k <- m.arm :: k in s.attr
    ensures n == Exec(s, pid, cid, m, lo) && n == m.(arm := n.arm, values := rest)
    ensures forall k :: k in n.arm <==> k in m.arm && (c.min == [] || LexLe(c.min, s.attr[k]))
  {
    hide LexLe;
    n := Exec(s, pid, cid, m, lo);
    if c.min != [] {
      ExecOne(s, pid, cid, m, AtLeast);
      assert m.values[0] == c.min && m.values[1..] == rest;
    } else {
      assert m.values == rest;
    }
  }

  lemma Upper(s: State, pid: u64, cid: u64, c: Criterion, m: Machine, hi: seq<Token>, rest: seq<seq<byte>>) returns (n: Machine)
    requires hi == (if c.max != [] then [AtMost] else []) && m.values == (if c.max != [] then [c.max] else []) + rest
    requires forall k <- m.arm :: k in s.attr
    ensures n == Exec(s, pid, cid, m, hi) && n == m.(arm := n.arm, values := rest)
    ensures forall k :: k in n.arm <==> k in m.arm && (c.max == [] || LexLe(s.attr[k], c.max))
  {
    hide LexLe;
    n := Exec(s, pid, cid, m, hi);
    if c.max != [] {
      ExecOne(s, pid, cid, m, AtMost);
      assert m.values[0] == c.max && m.values[1..] == rest;
    } else {
      assert m.values == rest;
    }
  }

  lemma MatchingMeans(s: State, pid: u64, cid: u64, c: Criterion, oid: u64)
    ensures oid in Oids(Matching(s, pid, cid, c)) <==> Hit(s, pid, cid, oid, c)
  {
    hide InRange, InJoin, Named;
    if Hit(s, pid, cid, oid, c) {
      var p: u64 :| (p, oid, c.page, c.number) in s.attr && InRange(c, s.attr[(p, oid, c.page, c.number)]);
      WhenNamed((p, oid, c.page, c.number), c.page, c.number);
      assert (p, oid, c.page, c.number) in Matching(s, pid, cid, c);
    }
    if oid in Oids(Matching(s, pid, cid, c)) {
      var k :| k in Matching(s, pid, cid, c) && k.1 == oid;
      WhenNamed(k, c.page, c.number);
      assert k == (k.0, oid, c.page, c.number);
    }
  }

  ghost predicate Hit(s: State, pid: u64, cid: u64, oid: u64, c: Criterion) {
    InJoin(s.coll, pid, cid, oid) && Satisfies(s, oid, c)
  }

  /** What a chain makes of the result before it. */
  ghost predicate Joins(s: State, pid: u64, cid: u64, op: Token, before: bool, oid: u64, cs: seq<Criterion>) {
    if op == Intersect then before && forall i :: 0 <= i < |cs| ==> Hit(s, pid, cid, oid, cs[i])
    else before || exists i :: 0 <= i < |cs| && Hit(s, pid, cid, oid, cs[i])
  }

  lemma JoinsNext(s: State, pid: u64, cid: u64, op: Token, before: bool, oid: u64, cs: seq<Criterion>)
    requires cs != []
    ensures var one := Hit(s, pid, cid, oid, cs[0]);
            Joins(s, pid, cid, op, before, oid, cs)
            <==> Joins(s, pid, cid, op, (if op == Intersect then before && one else before || one), oid, cs[1..])
  {
    hide Hit;
    if op == Intersect {
      if Joins(s, pid, cid, op, before && Hit(s, pid, cid, oid, cs[0]), oid, cs[1..]) {
        forall i | 0 <= i < |cs| ensures Hit(s, pid, cid, oid, cs[i]) {
          if i > 0 { assert Hit(s, pid, cid, oid, cs[1..][i - 1]); }
        }
      }
    } else if i :| 0 <= i < |cs| && Hit(s, pid, cid, oid, cs[i]) {
      if i > 0 { assert Hit(s, pid, cid, oid, cs[1..][i - 1]); }
    }
  }

  /** Executing the chain folds the criteria into the result, whatever operator joined the first of them. */
  lemma {:induction false} ExecChain(s: State, pid: u64, cid: u64, m: Machine, cs: seq<Criterion>, op: Token, oid: u64)
    requires cs != [] && (op == Union || op == Intersect)
    requires m.arm == Joined(s, pid, cid) && m.values == AllParameters(cs)
    ensures var (one, was) := (Hit(s, pid, cid, oid, cs[0]), oid in m.result);
            oid in Exec(s, pid, cid, m, Chain(cs, op)).result
            <==> Joins(s, pid, cid, op, (if m.join == Intersect then was && one else was || one), oid, cs[1..])
    decreases cs
  {
    hide Exec, Joined, Matching, Hit, Conditions, Parameters, Oids, Joins;
    var c, link := cs[0], if |cs| > 1 then [op, Select] else [];
    Assoc(Conditions(c), link, Chain(cs[1..], op));
    ExecAppend(s, pid, cid, m, Conditions(c), link + Chain(cs[1..], op));
    ExecConditions(s, pid, cid, c, m, AllParameters(cs[1..]));
    MatchingMeans(s, pid, cid, c, oid);
    var n := Exec(s, pid, cid, m, Conditions(c));
    if |cs| == 1 {
      LastArm(s, pid, cid, n, op, link + Chain(cs[1..], op));
      JoinsNothing(s, pid, cid, op, oid in Joining(n), oid, cs[1..]);
    } else {
      NextArm(s, pid, cid, n, op, Chain(cs[1..], op));
      var next := Machine(Joining(n), op, Joined(s, pid, cid), n.values);
      ExecChain(s, pid, cid, next, cs[1..], op, oid);
      JoinsNext(s, pid, cid, op, oid in Joining(n), oid, cs[1..]);
    }
  }

  lemma LastArm(s: State, pid: u64, cid: u64, n: Machine, op: Token, sql: seq<Token>)
    requires sql == [GroupOrder]
    ensures Exec(s, pid, cid, n, sql).result == Joining(n)
  {
    ExecOne(s, pid, cid, n, GroupOrder);
  }

  lemma NextArm(s: State, pid: u64, cid: u64, n: Machine, op: Token, rest: seq<Token>)
    requires op == Union || op == Intersect
    ensures Exec(s, pid, cid, n, [op, Select] + rest)
            == Exec(s, pid, cid, Machine(Joining(n), op, Joined(s, pid, cid), n.values), rest)
  {
    assert ([op, Select] + rest)[1..][1..] == rest;
  }

  lemma JoinsNothing(s: State, pid: u64, cid: u64, op: Token, before: bool, oid: u64, cs: seq<Criterion>)
    requires cs == []
    ensures Joins(s, pid, cid, op, before, oid, cs) <==> before
  {
  }

  function Compiled(queryType: byte, cs: seq<Criterion>): seq<Token> { [Select] + Chain(cs, Operator(queryType)) }

  /** The statement compiled from the criteria, executed. */
  function Reply(s: State, pid: u64, cid: u64, queryType: byte, cs: seq<Criterion>): set<u64> {
    Answer(s, pid, cid, Compiled(queryType, cs), AllParameters(cs))
  }

  /** The compiled statement selects exactly the members that the query is about, as long as both ids are below 2^63. */
  lemma AnswerMeans(s: State, pid: u64, cid: u64, queryType: byte, cs: seq<Criterion>, oid: u64)
    requires queryType <= 1
    ensures oid in Reply(s, pid, cid, queryType, cs)
            <==> pid < TWO63 && cid < TWO63 && IsMember(s.coll, pid, cid, oid) && Selected(s, queryType, cs, oid)
  {
    hide Joined, Satisfies, IsMember, InJoin, AllParameters;
    var op := Operator(queryType);
    var m := Machine({}, Union, {}, AllParameters(cs));
    var n := m.(arm := Joined(s, pid, cid));
    assert ([Select] + Chain(cs, op))[1..] == Chain(cs, op);
    WhenInJoin(s.coll, pid, cid, oid);
    if cs == [] {
      NoCriteria(s, pid, cid, n, oid);
    } else {
      ExecChain(s, pid, cid, n, cs, op, oid);
      AllOrSome(s, pid, cid, op, queryType, cs, oid);
    }
  }

  lemma NoCriteria(s: State, pid: u64, cid: u64, n: Machine, oid: u64)
    requires n.result == {} && n.join == Union && n.arm == Joined(s, pid, cid)
    ensures oid in Exec(s, pid, cid, n, [GroupOrder]).result <==> InJoin(s.coll, pid, cid, oid) && HasAttribute(s, oid)
  {
    hide InJoin;
    ExecOne(s, pid, cid, n, GroupOrder);
    if InJoin(s.coll, pid, cid, oid) && HasAttribute(s, oid) {
      var p: u64, page: u32, number: u32 :| (p, oid, page, number) in s.attr;
      assert (p, oid, page, number) in Joined(s, pid, cid);
    }
    if oid in Oids(n.arm) {
      var k :| k in n.arm && k.1 == oid;
      assert (k.0, oid, k.2, k.3) in s.attr;
    }
  }

  lemma AllOrSome(s: State, pid: u64, cid: u64, op: Token, queryType: byte, cs: seq<Criterion>, oid: u64)
    requires cs != [] && queryType <= 1 && op == Operator(queryType)
    ensures Joins(s, pid, cid, op, Hit(s, pid, cid, oid, cs[0]), oid, cs[1..])
            <==> InJoin(s.coll, pid, cid, oid) && Selected(s, queryType, cs, oid)
  {
    hide Satisfies, InJoin;
    forall i | 0 <= i < |cs| ensures i > 0 ==> cs[1..][i - 1] == cs[i] {}
    if op == Union && InJoin(s.coll, pid, cid, oid) && Selected(s, queryType, cs, oid) {
      var i :| 0 <= i < |cs| && Satisfies(s, oid, cs[i]);
      if i > 0 { assert Hit(s, pid, cid, oid, cs[1..][i - 1]); }
    }
  }

  /** On values of eight bytes the ranges are ranges of numbers. */
  lemma NumericRange(c: Criterion, lo: u64, hi: u64, v: u64)
    requires c.min == Be(lo, 8) && c.max == Be(hi, 8)
    ensures InRange(c, Be(v, 8)) <==> lo <= v <= hi
  {
    Widths();
    LexIsNumeric(lo, v, 8);
    LexIsNumeric(v, hi, 8);
  }

  // ---------- what a query should mean ----------

  /** The object has in the partition that is queried a value of the wanted attribute in the wanted range. */
  ghost predicate SatisfiesIn(s: State, pid: u64, oid: u64, c: Criterion) {
    (pid, oid, c.page, c.number) in s.attr && InRange(c, s.attr[(pid, oid, c.page, c.number)])
  }

  ghost predicate HasOwn(s: State, pid: u64, oid: u64) {
    exists page: u32, number: u32 :: (pid, oid, page, number) in s.attr
  }

  ghost predicate SelectedIn(s: State, pid: u64, queryType: byte, cs: seq<Criterion>, oid: u64) {
    if cs == [] then HasOwn(s, pid, oid)
    else if queryType == 0 then exists i :: 0 <= i < |cs| && SatisfiesIn(s, pid, oid, cs[i])
    else forall i :: 0 <= i < |cs| ==> SatisfiesIn(s, pid, oid, cs[i])
  }

  /** The reply holds just the members with the wanted attributes in the partition that is queried. */
  ghost predicate Faithful(s: State, pid: u64, cid: u64, queryType: byte, cs: seq<Criterion>) {
    forall oid: u64 :: oid in Reply(s, pid, cid, queryType, cs)
                       <==> IsMember(s.coll, pid, cid, oid) && SelectedIn(s, pid, queryType, cs, oid)
  }

  /** What stands in the way of one attribute row of a member on a page that a query can name: a value under a number
      below 2^31 that the member does not have in its own partition, or one of its own under a number from 2^31 on. */
  predicate Astray(s: State, pid: u64, cid: u64, k: Key)
    requires k in s.attr
  {
    && k.2 < PARTITION_PG && IsMember(s.coll, pid, cid, k.1)
    && if k.3 < TWO31 then !((pid, k.1, k.2, k.3) in s.attr && s.attr[(pid, k.1, k.2, k.3)] == s.attr[k]) else k.0 == pid
  }

  /** No row is astray, and a member with any attribute at all has one in its own partition. */
  ghost predicate NoStrays(s: State, pid: u64, cid: u64) {
    && (forall k :: k in s.attr ==> !Astray(s, pid, cid, k))
    && (forall oid: u64 :: IsMember(s.coll, pid, cid, oid) && HasAttribute(s, oid) ==> HasOwn(s, pid, oid))
  }

  ghost predicate NothingToFind(s: State, pid: u64, cid: u64) {
    forall oid: u64 :: IsMember(s.coll, pid, cid, oid) ==> !HasOwn(s, pid, oid)
  }

  /** The queries that get past the parser and the choice of the operator. */
  ghost predicate Receivable(queryType: byte, cs: seq<Criterion>) { queryType <= 1 && AllLegal(cs) }

  /** Attribute values as the set command leaves them: not empty, and short enough for a 16-bit length. */
  ghost predicate Valued(s: State) { forall k :: k in s.attr ==> 0 < |s.attr[k]| < TWO16 }

  /** Every query that the target can receive is answered as it should be exactly when both ids are below 2^63 and no
      attribute is astray; from 2^63 on, exactly when no member has any attribute to be found by. */
  lemma WhenPartitionsDoNotMatter(s: State, pid: u64, cid: u64)
    requires Valued(s)
    ensures (forall queryType: byte, cs: seq<Criterion> :: Receivable(queryType, cs) ==> Faithful(s, pid, cid, queryType, cs))
            <==> if pid < TWO63 && cid < TWO63 then NoStrays(s, pid, cid) else NothingToFind(s, pid, cid)
  {
    hide IsMember, Faithful, HasAttribute, HasOwn, Astray, Receivable;
    var good := if pid < TWO63 && cid < TWO63 then NoStrays(s, pid, cid) else NothingToFind(s, pid, cid);
    if good {
      forall queryType: byte, cs: seq<Criterion> | Receivable(queryType, cs) ensures Faithful(s, pid, cid, queryType, cs) {
        if pid < TWO63 && cid < TWO63 {
          NoStraysAgree(s, pid, cid, queryType, cs);
        } else {
          NothingIsFound(s, pid, cid, queryType, cs);
        }
      }
    } else if k :| pid < TWO63 && cid < TWO63 && k in s.attr && Astray(s, pid, cid, k) {
      var c := StrayMatters(s, pid, cid, k);
    } else {
      var oid: u64 :| IsMember(s.coll, pid, cid, oid)
                      && if pid < TWO63 && cid < TWO63 then HasAttribute(s, oid) && !HasOwn(s, pid, oid)
                         else HasOwn(s, pid, oid);
      AnyMatters(s, pid, cid, oid);
    }
  }

  lemma NoStraysAgree(s: State, pid: u64, cid: u64, queryType: byte, cs: seq<Criterion>)
    requires pid < TWO63 && cid < TWO63 && NoStrays(s, pid, cid) && Receivable(queryType, cs)
    ensures Faithful(s, pid, cid, queryType, cs)
  {
    hide InRange, IsMember, NoStrays, HasAttribute, HasOwn, Satisfies, SatisfiesIn, Reply;
    forall oid: u64
      ensures oid in Reply(s, pid, cid, queryType, cs)
              <==> IsMember(s.coll, pid, cid, oid) && SelectedIn(s, pid, queryType, cs, oid)
    {
      AnswerMeans(s, pid, cid, queryType, cs, oid);
      if IsMember(s.coll, pid, cid, oid) {
        forall i | 0 <= i < |cs| ensures Satisfies(s, oid, cs[i]) <==> SatisfiesIn(s, pid, oid, cs[i]) {
          SameWithin(s, pid, cid, oid, cs[i]);
        }
        SameAny(s, pid, cid, oid);
      }
    }
  }

  lemma SameWithin(s: State, pid: u64, cid: u64, oid: u64, c: Criterion)
    requires NoStrays(s, pid, cid) && IsMember(s.coll, pid, cid, oid) && c.page < PARTITION_PG
    ensures Satisfies(s, oid, c) <==> SatisfiesIn(s, pid, oid, c)
  {
    hide InRange, IsMember;
    if p: u64 :| (p, oid, c.page, c.number) in s.attr && InRange(c, s.attr[(p, oid, c.page, c.number)]) {
      assert !Astray(s, pid, cid, (p, oid, c.page, c.number));
    }
    if SatisfiesIn(s, pid, oid, c) { assert !Astray(s, pid, cid, (pid, oid, c.page, c.number)); }
  }

  lemma SameAny(s: State, pid: u64, cid: u64, oid: u64)
    requires NoStrays(s, pid, cid) && IsMember(s.coll, pid, cid, oid)
    ensures HasAttribute(s, oid) <==> HasOwn(s, pid, oid)
  {
    hide IsMember;
  }

  lemma NothingIsFound(s: State, pid: u64, cid: u64, queryType: byte, cs: seq<Criterion>)
    requires (pid >= TWO63 || cid >= TWO63) && NothingToFind(s, pid, cid) && Receivable(queryType, cs)
    ensures Faithful(s, pid, cid, queryType, cs)
  {
    hide InRange, IsMember, HasOwn, Selected, SelectedIn, Reply;
    forall oid: u64
      ensures oid !in Reply(s, pid, cid, queryType, cs)
      ensures IsMember(s.coll, pid, cid, oid) ==> !SelectedIn(s, pid, queryType, cs, oid)
    {
      AnswerMeans(s, pid, cid, queryType, cs, oid);
      if SelectedIn(s, pid, queryType, cs, oid) { OwnBySelection(s, pid, queryType, cs, oid); }
    }
  }

  lemma OwnBySelection(s: State, pid: u64, queryType: byte, cs: seq<Criterion>, oid: u64)
    requires SelectedIn(s, pid, queryType, cs, oid)
    ensures HasOwn(s, pid, oid)
  {
    hide InRange;
    if cs != [] {
      var i := if queryType == 0 then var j :| 0 <= j < |cs| && SatisfiesIn(s, pid, oid, cs[j]); j else 0;
      assert SatisfiesIn(s, pid, oid, cs[i]);
      assert (pid, oid, cs[i].page, cs[i].number) in s.attr;
    }
  }

  lemma AnyMatters(s: State, pid: u64, cid: u64, oid: u64)
    requires IsMember(s.coll, pid, cid, oid)
    requires if pid < TWO63 && cid < TWO63 then HasAttribute(s, oid) && !HasOwn(s, pid, oid) else HasOwn(s, pid, oid)
    ensures Receivable(0, []) && !Faithful(s, pid, cid, 0, [])
  {
    hide IsMember, HasAttribute, HasOwn, Reply;
    AnswerMeans(s, pid, cid, 0, [], oid);
  }

  /** A row astray matters to the query for just its value. */
  lemma StrayMatters(s: State, pid: u64, cid: u64, k: Key) returns (c: Criterion)
    requires pid < TWO63 && cid < TWO63 && Valued(s) && k in s.attr && Astray(s, pid, cid, k)
    ensures Receivable(0, [c]) && !Faithful(s, pid, cid, 0, [c])
  {
    hide LexLe, IsMember, Reply;
    var v := s.attr[k];
    c := Criterion(1, k.2, k.3, v, v);
    LexReflexive(v);
    AnswerMeans(s, pid, cid, 0, [c], k.1);
    OnlyCriterion(s, pid, c, k.1);
    if k.3 < TWO31 {
      assert (k.0, k.1, c.page, c.number) == k;
      assert Satisfies(s, k.1, c);
      if SatisfiesIn(s, pid, k.1, c) { LexAntisymmetric(v, s.attr[(pid, k.1, k.2, k.3)]); }
    } else {
      assert (pid, k.1, k.2, k.3) == k;
      assert SatisfiesIn(s, pid, k.1, c);
    }
  }

  lemma OnlyCriterion(s: State, pid: u64, c: Criterion, oid: u64)
    ensures Selected(s, 0, [c], oid) <==> Satisfies(s, oid, c)
    ensures SelectedIn(s, pid, 0, [c], oid) <==> SatisfiesIn(s, pid, oid, c)
  {
    hide Satisfies, SatisfiesIn;
    assert [c][0] == c;
  }

  /** An attribute number from 2^31 on can be set, but no query that asks for it finds the object. */
  lemma LargeNumberIsNotFound()
    ensures var s := State(map[(LB, 0) := Partition, (LB, LB) := UserObject, (LB, LB + 1) := Collection], map[],
                           {Member(LB, LB + 1, LB, 1)}, map[(LB, LB) := []], NO_CACHE);
            var c := Criterion(1, LUN_PG_LB, TWO31, [7], [7]);
            var (t, r) := SetAttr(s, LB, LB, LUN_PG_LB, TWO31, [7]);
            r.Done? && AllLegal([c]) && SelectedIn(t, LB, 0, [c], LB) && LB !in Reply(t, LB, LB + 1, 0, [c])
  {
    hide Reply;
    var s := State(map[(LB, 0) := Partition, (LB, LB) := UserObject, (LB, LB + 1) := Collection], map[],
                   {Member(LB, LB + 1, LB, 1)}, map[(LB, LB) := []], NO_CACHE);
    var c := Criterion(1, LUN_PG_LB, TWO31, [7], [7]);
    var t := SetAttr(s, LB, LB, LUN_PG_LB, TWO31, [7]).0;
    LexReflexive([7]);
    OnlyCriterion(t, LB, c, LB);
    AnswerMeans(t, LB, LB + 1, 0, [c], LB);
  }

  /** In a partition or a collection with an id from 2^63 on, no query finds anything. */
  lemma LargeIdsAnswerNothing(s: State, pid: u64, cid: u64, queryType: byte, cs: seq<Criterion>)
    requires queryType <= 1 && (pid >= TWO63 || cid >= TWO63)
    ensures Reply(s, pid, cid, queryType, cs) == {}
  {
    hide Reply, IsMember, Selected;
    forall oid: u64 ensures oid !in Reply(s, pid, cid, queryType, cs) { AnswerMeans(s, pid, cid, queryType, cs, oid); }
  }

  lemma {:induction false} LexReflexive(a: seq<byte>)
    ensures LexLe(a, a)
  {
    if a != [] { LexReflexive(a[1..]); }
  }

  lemma {:induction false} LexAntisymmetric(a: seq<byte>, b: seq<byte>)
    requires LexLe(a, b) && LexLe(b, a)
    ensures a == b
  {
    if a != [] {
      LexAntisymmetric(a[1..], b[1..]);
      assert a == [a[0]] + a[1..] && b == [b[0]] + b[1..];
    }
  }
}
