/** The bundle load-order solver: a stable Kahn scan with in-place removal, and
    the violation report it is meant to clear. */
module LoadOrder {

  /** `(from, to)`: `from` loads before `to`. */
  type Edge = (string, string)

  /** One bundle's `dsh.bundle.order` lists, in the order the map is walked. */
  datatype Constraint = Constraint(name: string, before: seq<string>, after: seq<string>)

  datatype Violation = MustPrecede(name: string, other: string) | MustFollow(name: string, other: string)

  // ----- edges -----

  function BeforeEdges(known: seq<string>, name: string, bs: seq<string>): seq<Edge> {
    if bs == [] then [] else (if bs[0] in known then [(name, bs[0])] else []) + BeforeEdges(known, name, bs[1..])
  }

  function AfterEdges(known: seq<string>, name: string, as_: seq<string>): seq<Edge> {
    if as_ == [] then [] else (if as_[0] in known then [(as_[0], name)] else []) + AfterEdges(known, name, as_[1..])
  }

  function Edges(known: seq<string>, cs: seq<Constraint>): seq<Edge> {
    if cs == [] then []
    else
      BeforeEdges(known, cs[0].name, cs[0].before) + AfterEdges(known, cs[0].name, cs[0].after) + Edges(known, cs[1..])
  }

  /** The constraints state that `f` loads before `t`. */
  predicate States(cs: seq<Constraint>, f: string, t: string) {
    exists c :: c in cs && ((c.name == f && t in c.before) || (c.name == t && f in c.after))
  }

  lemma {:induction false} BeforeEdgesIff(known: seq<string>, name: string, bs: seq<string>, e: Edge)
    ensures e in BeforeEdges(known, name, bs) <==> e.0 == name && e.1 in bs && e.1 in known
  {
    if bs != [] { BeforeEdgesIff(known, name, bs[1..], e); }
  }

  lemma {:induction false} AfterEdgesIff(known: seq<string>, name: string, as_: seq<string>, e: Edge)
    ensures e in AfterEdges(known, name, as_) <==> e.1 == name && e.0 in as_ && e.0 in known
  {
    if as_ != [] { AfterEdgesIff(known, name, as_[1..], e); }
  }

  /** Between known names the edges are exactly the stated constraints. */
  lemma {:induction false} EdgesIff(known: seq<string>, cs: seq<Constraint>, f: string, t: string)
    requires f in known && t in known
    ensures (f, t) in Edges(known, cs) <==> States(cs, f, t)
  {
    if cs != [] {
      BeforeEdgesIff(known, cs[0].name, cs[0].before, (f, t));
      AfterEdgesIff(known, cs[0].name, cs[0].after, (f, t));
      EdgesIff(known, cs[1..], f, t);
      assert cs == [cs[0]] + cs[1..];
      if States(cs, f, t) {
        var c :| c in cs && ((c.name == f && t in c.before) || (c.name == t && f in c.after));
        if c in cs[1..] { assert States(cs[1..], f, t); }
      }
      if States(cs[1..], f, t) {
        var c :| c in cs[1..] && ((c.name == f && t in c.before) || (c.name == t && f in c.after));
        assert c in cs;
      }
    }
  }

  // ----- violations -----

  /** `idx`: the position a name maps to, the last one it stands at. */
  function Pos(order: seq<string>, n: string): (p: nat)
    requires n in order
    ensures p < |order| && order[p] == n
    ensures forall q :: p < q < |order| ==> order[q] != n
  {
    var last := |order| - 1;
    if order[last] == n then last else Pos(order[..last], n)
  }

  function BeforeViolations(order: seq<string>, name: string, bs: seq<string>): seq<Violation> {
    if bs == [] then []
    else
      (if name in order && bs[0] in order && Pos(order, name) >= Pos(order, bs[0])
       then [MustPrecede(name, bs[0])] else [])
      + BeforeViolations(order, name, bs[1..])
  }

  function AfterViolations(order: seq<string>, name: string, as_: seq<string>): seq<Violation> {
    if as_ == [] then []
    else
      (if name in order && as_[0] in order && Pos(order, name) <= Pos(order, as_[0])
       then [MustFollow(name, as_[0])] else [])
      + AfterViolations(order, name, as_[1..])
  }

  /** `order_violations`, for one way of walking the constraint map. */
  function Violations(order: seq<string>, cs: seq<Constraint>): seq<Violation> {
    if cs == [] then []
    else BeforeViolations(order, cs[0].name, cs[0].before)
         + AfterViolations(order, cs[0].name, cs[0].after)
         + Violations(order, cs[1..])
  }

  /** Every stated constraint between names of the order is met. */
  ghost predicate Satisfies(order: seq<string>, cs: seq<Constraint>) {
    forall f, t :: f in order && t in order && States(cs, f, t) ==> Pos(order, f) < Pos(order, t)
  }

  lemma {:induction false} BeforeViolationsIff(order: seq<string>, name: string, bs: seq<string>)
    ensures BeforeViolations(order, name, bs) == []
       <==> forall b :: b in bs && name in order && b in order ==> Pos(order, name) < Pos(order, b)
  {
    if bs != [] {
      BeforeViolationsIff(order, name, bs[1..]);
      assert forall b :: b in bs <==> b == bs[0] || b in bs[1..];
    }
  }

  lemma {:induction false} AfterViolationsIff(order: seq<string>, name: string, as_: seq<string>)
    ensures AfterViolations(order, name, as_) == []
       <==> forall a :: a in as_ && name in order && a in order ==> Pos(order, a) < Pos(order, name)
  {
    if as_ != [] {
      AfterViolationsIff(order, name, as_[1..]);
      assert forall a :: a in as_ <==> a == as_[0] || a in as_[1..];
    }
  }

  predicate Meets(order: seq<string>, c: Constraint) {
    && (forall b :: b in c.before && c.name in order && b in order ==> Pos(order, c.name) < Pos(order, b))
    && (forall a :: a in c.after && c.name in order && a in order ==> Pos(order, a) < Pos(order, c.name))
  }

  lemma {:induction false} ConstraintMeets(order: seq<string>, c: Constraint)
    ensures Meets(order, c)
       <==> BeforeViolations(order, c.name, c.before) == [] && AfterViolations(order, c.name, c.after) == []
  {
    BeforeViolationsIff(order, c.name, c.before);
    AfterViolationsIff(order, c.name, c.after);
  }

  lemma {:induction false} ViolationsMeet(order: seq<string>, cs: seq<Constraint>)
    ensures Violations(order, cs) == [] <==> forall c :: c in cs ==> Meets(order, c)
  {
    if cs != [] {
      ConstraintMeets(order, cs[0]);
      ViolationsMeet(order, cs[1..]);
      var a, b := BeforeViolations(order, cs[0].name, cs[0].before), AfterViolations(order, cs[0].name, cs[0].after);
      assert Violations(order, cs) == [] <==> a == [] && b == [] && Violations(order, cs[1..]) == [];
      assert forall c :: c in cs <==> c == cs[0] || c in cs[1..];
    }
  }

  /** The report is empty exactly when every stated constraint is met, in whatever order the map is walked. */
  lemma {:induction false} ViolationsIff(order: seq<string>, cs: seq<Constraint>)
    ensures Violations(order, cs) == [] <==> Satisfies(order, cs)
  {
    ViolationsMeet(order, cs);
    if Satisfies(order, cs) {
      forall c | c in cs ensures Meets(order, c) {
        forall b | b in c.before && c.name in order && b in order ensures Pos(order, c.name) < Pos(order, b) {
          assert States(cs, c.name, b);
        }
        forall a | a in c.after && c.name in order && a in order ensures Pos(order, a) < Pos(order, c.name) {
          assert States(cs, a, c.name);
        }
      }
    }
    if forall c :: c in cs ==> Meets(order, c) {
      forall f, t | f in order && t in order && States(cs, f, t) ensures Pos(order, f) < Pos(order, t) {
        var c :| c in cs && ((c.name == f && t in c.before) || (c.name == t && f in c.after));
        assert Meets(order, c);
      }
    }
  }

  /** What the report says is so of the order: both stand in it, and in the wrong order. */
  predicate Broken(order: seq<string>, v: Violation) {
    && v.name in order && v.other in order
    && match v
       case MustPrecede(n, o) => Pos(order, n) >= Pos(order, o)
       case MustFollow(n, o) => Pos(order, n) <= Pos(order, o)
  }

  /** The bundle itself states the constraint the report names. */
  predicate StatedBy(c: Constraint, v: Violation) {
    c.name == v.name && match v case MustPrecede(_, o) => o in c.before case MustFollow(_, o) => o in c.after
  }

  /** How often the bundles state it. */
  function TimesStated(cs: seq<Constraint>, v: Violation): nat {
    if cs == [] then 0
    else
      (if cs[0].name != v.name then 0
       else match v
            case MustPrecede(_, o) => multiset(cs[0].before)[o]
            case MustFollow(_, o) => multiset(cs[0].after)[o])
      + TimesStated(cs[1..], v)
  }

  lemma {:induction false} TimesStatedIff(cs: seq<Constraint>, v: Violation)
    ensures TimesStated(cs, v) > 0 <==> exists c :: c in cs && StatedBy(c, v)
  {
    if cs != [] {
      TimesStatedIff(cs[1..], v);
      assert cs == [cs[0]] + cs[1..];
      assert cs[0] in cs && forall c :: c in cs[1..] ==> c in cs;
      match v
      case MustPrecede(_, o) => assert o in cs[0].before <==> o in multiset(cs[0].before);
      case MustFollow(_, o) => assert o in cs[0].after <==> o in multiset(cs[0].after);
    }
  }

  lemma {:induction false} BeforeReported(order: seq<string>, name: string, bs: seq<string>, v: Violation)
    ensures multiset(BeforeViolations(order, name, bs))[v]
         == if v.MustPrecede? && v.name == name && Broken(order, v) then multiset(bs)[v.other] else 0
  {
    if bs != [] {
      BeforeReported(order, name, bs[1..], v);
      assert bs == [bs[0]] + bs[1..];
    }
  }

  lemma {:induction false} AfterReported(order: seq<string>, name: string, as_: seq<string>, v: Violation)
    ensures multiset(AfterViolations(order, name, as_))[v]
         == if v.MustFollow? && v.name == name && Broken(order, v) then multiset(as_)[v.other] else 0
  {
    if as_ != [] {
      AfterReported(order, name, as_[1..], v);
      assert as_ == [as_[0]] + as_[1..];
    }
  }

  /** A broken constraint is reported as often as its own bundle states it, and nothing else is reported. */
  lemma {:induction false} ReportedAsStated(order: seq<string>, cs: seq<Constraint>, v: Violation)
    ensures multiset(Violations(order, cs))[v] == if Broken(order, v) then TimesStated(cs, v) else 0
  {
    hide Broken, BeforeViolations, AfterViolations;
    if cs != [] {
      ReportedAsStated(order, cs[1..], v);
      BeforeReported(order, cs[0].name, cs[0].before, v);
      AfterReported(order, cs[0].name, cs[0].after, v);
    }
  }

  /** A violation is reported exactly when both names stand in the order the wrong way round and the bundle it is
      blamed on states the constraint. */
  lemma ReportIff(order: seq<string>, cs: seq<Constraint>, v: Violation)
    ensures v in Violations(order, cs) <==> Broken(order, v) && exists c :: c in cs && StatedBy(c, v)
  {
    hide Broken, Violations, TimesStated;
    ReportedAsStated(order, cs, v);
    TimesStatedIff(cs, v);
    assert v in Violations(order, cs) <==> v in multiset(Violations(order, cs));
  }

  // ----- the scan -----

  predicate Blocked(edges: seq<Edge>, n: string, remaining: seq<string>) {
    exists e :: e in edges && e.1 == n && e.0 in remaining
  }

  /** One pass over `done + rest`: what it emits and what it leaves. */
  function Pass(edges: seq<Edge>, done: seq<string>, rest: seq<string>): (r: (seq<string>, seq<string>))
    ensures |r.0| + |r.1| == |done| + |rest|
    ensures r.0 == [] ==> r.1 == done + rest
    decreases |rest|
  {
    if rest == [] then ([], done)
    else if Blocked(edges, rest[0], done + rest) then
      assert done + [rest[0]] + rest[1..] == done + rest;
      Pass(edges, done + [rest[0]], rest[1..])
    else
      var r := Pass(edges, done, rest[1..]);
      ([rest[0]] + r.0, r.1)
  }

  /** All passes: the resolved names, then the tail no pass can advance. */
  function Solve(edges: seq<Edge>, names: seq<string>): (r: (seq<string>, seq<string>))
    decreases |names|
  {
    var (emitted, left) := Pass(edges, [], names);
    if emitted == [] then ([], names)
    else
      var (more, tail) := Solve(edges, left);
      (emitted + more, tail)
  }

  /** `suggest_order` */
  function Suggest(names: seq<string>, cs: seq<Constraint>): seq<string> {
    var (out, tail) := Solve(Edges(names, cs), names);
    out + tail
  }

  // ----- each emitted name is free of the names still there -----

  /** Every name of `out` is unblocked by what follows it, `tail` included. */
  ghost predicate Ordered(edges: seq<Edge>, out: seq<string>, tail: seq<string>) {
    forall i :: 0 <= i < |out| ==> !Blocked(edges, out[i], out[i..] + tail)
  }

  /** Every name of `s` has a predecessor in `s`. */
  ghost predicate Stuck(edges: seq<Edge>, s: seq<string>) {
    forall n :: n in s ==> Blocked(edges, n, s)
  }

  predicate SameElements(a: seq<string>, b: seq<string>) {
    multiset(a) == multiset(b)
  }

  lemma BlockedSame(edges: seq<Edge>, n: string, a: seq<string>, b: seq<string>)
    requires SameElements(a, b)
    ensures Blocked(edges, n, a) <==> Blocked(edges, n, b)
  {
    assert forall x :: x in a <==> x in multiset(a);
    assert forall x :: x in b <==> x in multiset(b);
  }

  lemma {:induction false} EmitOrdered(edges: seq<Edge>, n: string, more: seq<string>, left: seq<string>)
    requires Ordered(edges, more, left) && !Blocked(edges, n, [n] + more + left)
    ensures Ordered(edges, [n] + more, left)
  {
    var out := [n] + more;
    forall i | 0 <= i < |out| ensures !Blocked(edges, out[i], out[i..] + left) {
      if i == 0 {
        assert out[0..] == out;
      } else {
        assert out[i..] == more[i - 1..] && out[i] == more[i - 1];
      }
    }
  }

  lemma {:induction false} PassOrdered(edges: seq<Edge>, done: seq<string>, rest: seq<string>)
    ensures var (out, left) := Pass(edges, done, rest);
            SameElements(out + left, done + rest) && Ordered(edges, out, left)
    decreases |rest|
  {
    if rest == [] {
      assert [] + done == done + rest;
    } else if Blocked(edges, rest[0], done + rest) {
      assert done + [rest[0]] + rest[1..] == done + rest;
      PassOrdered(edges, done + [rest[0]], rest[1..]);
    } else {
      PassOrdered(edges, done, rest[1..]);
      var n, r := rest[0], Pass(edges, done, rest[1..]);
      assert rest == [n] + rest[1..];
      assert [n] + r.0 + r.1 == [n] + (r.0 + r.1);
      assert multiset(done + rest) == multiset{n} + multiset(done + rest[1..]);
      BlockedSame(edges, n, [n] + r.0 + r.1, done + rest);
      EmitOrdered(edges, n, r.0, r.1);
    }
  }

  lemma {:induction false} OrderedConcat(edges: seq<Edge>, a: seq<string>, b: seq<string>, tail: seq<string>,
                                         left: seq<string>)
    requires Ordered(edges, a, left) && Ordered(edges, b, tail) && SameElements(b + tail, left)
    ensures Ordered(edges, a + b, tail)
  {
    var out := a + b;
    forall i | 0 <= i < |out| ensures !Blocked(edges, out[i], out[i..] + tail) {
      if i < |a| {
        assert out[i..] + tail == a[i..] + (b + tail);
        assert multiset(a[i..] + (b + tail)) == multiset(a[i..]) + multiset(b + tail);
        assert multiset(a[i..] + left) == multiset(a[i..]) + multiset(left);
        BlockedSame(edges, out[i], a[i..] + (b + tail), a[i..] + left);
      } else {
        assert out[i..] == b[i - |a|..];
      }
    }
  }

  lemma {:induction false} PassStuck(edges: seq<Edge>, done: seq<string>, rest: seq<string>)
    requires Pass(edges, done, rest).0 == []
    requires forall n :: n in done ==> Blocked(edges, n, done + rest)
    ensures Stuck(edges, done + rest)
    decreases |rest|
  {
    if rest != [] {
      assert done + [rest[0]] + rest[1..] == done + rest;
      PassStuck(edges, done + [rest[0]], rest[1..]);
    } else {
      assert done + rest == done;
    }
  }

  /** The solver emits an unblocked order and leaves a tail in which every name waits for another. */
  lemma {:induction false} SolveOrdered(edges: seq<Edge>, names: seq<string>)
    ensures var (out, tail) := Solve(edges, names);
            && SameElements(out + tail, names)
            && Ordered(edges, out, tail)
            && Stuck(edges, tail)
    decreases |names|
  {
    hide Pass, Stuck, Ordered;
    var (emitted, left) := Pass(edges, [], names);
    PassOrdered(edges, [], names);
    assert [] + names == names;
    if emitted == [] {
      PassStuck(edges, [], names);
      NothingOrdered(edges, names);
    } else {
      SolveOrdered(edges, left);
      var (more, tail) := Solve(edges, left);
      OrderedConcat(edges, emitted, more, tail, left);
      SameConcat(emitted, more, tail, left);
    }
  }

  lemma NothingOrdered(edges: seq<Edge>, names: seq<string>)
    ensures Ordered(edges, [], names) && SameElements([] + names, names)
  {
    assert [] + names == names;
  }

  lemma SameConcat(a: seq<string>, b: seq<string>, tail: seq<string>, left: seq<string>)
    requires SameElements(b + tail, left)
    ensures SameElements((a + b) + tail, a + left)
  {
    assert (a + b) + tail == a + (b + tail);
    assert multiset(a + (b + tail)) == multiset(a) + multiset(b + tail);
    assert multiset(a + left) == multiset(a) + multiset(left);
  }

  /** The suggestion is a permutation of the names. */
  lemma {:induction false} SuggestPermutes(names: seq<string>, cs: seq<Constraint>)
    ensures multiset(Suggest(names, cs)) == multiset(names)
  {
    SolveOrdered(Edges(names, cs), names);
  }

  // ----- completeness -----

  lemma {:induction false} OrderedPositions(edges: seq<Edge>, out: seq<string>, f: string, t: string)
    requires Ordered(edges, out, []) && (f, t) in edges && f in out && t in out
    ensures Pos(out, f) < Pos(out, t)
  {
    var q := Pos(out, t);
    var after := out[q..] + [];
    assert !Blocked(edges, out[q], after);
    assert f !in after;
    assert forall j :: q <= j < |out| ==> out[j] == after[j - q];
  }

  /** A non-empty set of names each waiting for another in it cannot be ordered. */
  lemma {:induction false} StuckIsUnsatisfiable(edges: seq<Edge>, s: seq<string>, order: seq<string>)
    returns (f: string, t: string)
    requires s != [] && Stuck(edges, s)
    requires forall n :: n in s ==> n in order
    ensures (f, t) in edges && f in s && t in s && Pos(order, f) >= Pos(order, t)
  {
    t := Earliest(s, order);
    assert Blocked(edges, t, s);
    var e :| e in edges && e.1 == t && e.0 in s;
    f := e.0;
    assert e == (f, t);
  }

  lemma {:induction false} Earliest(s: seq<string>, order: seq<string>) returns (n: string)
    requires s != [] && forall x :: x in s ==> x in order
    ensures n in s && forall x :: x in s ==> Pos(order, n) <= Pos(order, x)
  {
    if |s| == 1 {
      n := s[0];
    } else {
      assert forall x :: x in s <==> x == s[0] || x in s[1..];
      n := Earliest(s[1..], order);
      if Pos(order, s[0]) < Pos(order, n) { n := s[0]; }
    }
  }

  lemma SameMembers(a: seq<string>, b: seq<string>)
    requires multiset(a) == multiset(b)
    ensures forall x :: x in a <==> x in b
    ensures a == [] <==> b == []
  {
    assert forall x :: x in a <==> x in multiset(a);
    assert forall x :: x in b <==> x in multiset(b);
    assert |multiset(a)| == |a| && |multiset(b)| == |b|;
  }

  /** The suggested order clears every violation exactly when some order of the same bundles does. */
  lemma {:induction false} SuggestComplete(names: seq<string>, cs: seq<Constraint>)
    ensures Violations(Suggest(names, cs), cs) == []
       <==> exists order :: multiset(order) == multiset(names) && Violations(order, cs) == []
  {
    var s := Suggest(names, cs);
    SuggestPermutes(names, cs);
    if exists order :: multiset(order) == multiset(names) && Violations(order, cs) == [] {
      var order :| multiset(order) == multiset(names) && Violations(order, cs) == [];
      SolvableIsSolved(names, cs, order);
    }
    if Violations(s, cs) == [] {
      assert multiset(s) == multiset(names);
    }
  }

  lemma {:induction false} SolvableIsSolved(names: seq<string>, cs: seq<Constraint>, order: seq<string>)
    requires multiset(order) == multiset(names) && Violations(order, cs) == []
    ensures Solve(Edges(names, cs), names).1 == []
    ensures Violations(Suggest(names, cs), cs) == []
  {
    var edges := Edges(names, cs);
    var (out, tail) := Solve(edges, names);
    SolveOrdered(edges, names);
    ViolationsIff(order, cs);
    SameMembers(order, names);
    SameMembers(out + tail, names);
    if tail != [] {
      forall n | n in tail ensures n in order { assert n in out + tail; }
      var f, t := StuckIsUnsatisfiable(edges, tail, order);
      EdgesIff(names, cs, f, t);
      assert false;
    }
    assert out + tail == out;
    forall f, t | f in out && t in out && States(cs, f, t) ensures Pos(out, f) < Pos(out, t) {
      EdgesIff(names, cs, f, t);
      OrderedPositions(edges, out, f, t);
    }
    ViolationsIff(out, cs);
  }

  // ----- what is left keeps its order -----

  /** `a` is `b` with some names left out. */
  predicate Subsequence(a: seq<string>, b: seq<string>)
    decreases |b|
  {
    a == [] || (b != [] && ((a[0] == b[0] && Subsequence(a[1..], b[1..])) || Subsequence(a, b[1..])))
  }

  lemma {:induction false} SubsequenceTrans(a: seq<string>, b: seq<string>, c: seq<string>)
    requires Subsequence(a, b) && Subsequence(b, c)
    ensures Subsequence(a, c)
    decreases |b| + |c|
  {
    if a != [] {
      if b[0] == c[0] && Subsequence(b[1..], c[1..]) {
        if a[0] == b[0] && Subsequence(a[1..], b[1..]) {
          SubsequenceTrans(a[1..], b[1..], c[1..]);
        } else {
          SubsequenceTrans(a, b[1..], c[1..]);
        }
      } else {
        SubsequenceTrans(a, b, c[1..]);
      }
    }
  }

  lemma {:induction false} SubsequenceBehind(front: seq<string>, a: seq<string>, b: seq<string>)
    requires Subsequence(a, b)
    ensures Subsequence(front + a, front + b)
  {
    if front == [] {
      assert front + a == a && front + b == b;
    } else {
      SubsequenceBehind(front[1..], a, b);
      assert (front + a)[1..] == front[1..] + a && (front + b)[1..] == front[1..] + b;
    }
  }

  lemma {:induction false} PassKeepsOrder(edges: seq<Edge>, done: seq<string>, rest: seq<string>)
    ensures Subsequence(Pass(edges, done, rest).1, done + rest)
    decreases |rest|
  {
    hide Blocked;
    if rest == [] {
      SubsequenceBehind(done, [], []);
      assert done + [] == done;
    } else if Blocked(edges, rest[0], done + rest) {
      assert done + [rest[0]] + rest[1..] == done + rest;
      PassKeepsOrder(edges, done + [rest[0]], rest[1..]);
    } else {
      PassKeepsOrder(edges, done, rest[1..]);
      SubsequenceItself(rest[1..]);
      SubsequenceBehind(done, rest[1..], rest);
      SubsequenceTrans(Pass(edges, done, rest[1..]).1, done + rest[1..], done + rest);
    }
  }

  lemma {:induction false} SubsequenceItself(s: seq<string>)
    ensures Subsequence(s, s)
  {
    SubsequenceBehind(s, [], []);
    assert s + [] == s;
  }

  /** The unresolved names stay in their original order. */
  lemma {:induction false} TailKeepsOrder(edges: seq<Edge>, names: seq<string>)
    ensures Subsequence(Solve(edges, names).1, names)
    decreases |names|
  {
    hide Pass, Subsequence;
    var (emitted, left) := Pass(edges, [], names);
    if emitted == [] {
      SubsequenceItself(names);
    } else {
      PassKeepsOrder(edges, [], names);
      assert [] + names == names;
      TailKeepsOrder(edges, left);
      SubsequenceTrans(Solve(edges, left).1, left, names);
    }
  }

  /** The unresolved tail is the greatest self-blocking part, in its original order: any names each waiting for
      another of them are all left in it. */
  lemma {:induction false} TailIsGreatest(names: seq<string>, cs: seq<Constraint>, s: seq<string>)
    requires Stuck(Edges(names, cs), s) && forall n :: n in s ==> n in names
    ensures Stuck(Edges(names, cs), Solve(Edges(names, cs), names).1)
    ensures Subsequence(Solve(Edges(names, cs), names).1, names)
    ensures forall n :: n in s ==> n in Solve(Edges(names, cs), names).1 && n !in Solve(Edges(names, cs), names).0
  {
    hide Subsequence;
    var edges := Edges(names, cs);
    var (out, tail) := Solve(edges, names);
    SolveOrdered(edges, names);
    TailKeepsOrder(edges, names);
    SameMembers(out + tail, names);
    NotEmitted(edges, s, out, tail, |out|);
    forall n | n in s ensures n in tail { assert n in out + tail; }
  }

  lemma BlockedByMore(edges: seq<Edge>, n: string, a: seq<string>, b: seq<string>)
    requires Blocked(edges, n, a) && forall x :: x in a ==> x in b
    ensures Blocked(edges, n, b)
  {
  }

  /** No member of a self-blocking set is ever emitted: the first one would have been blocked. */
  lemma {:induction false} NotEmitted(edges: seq<Edge>, s: seq<string>, out: seq<string>, tail: seq<string>, k: nat)
    requires Ordered(edges, out, tail) && Stuck(edges, s) && k <= |out|
    requires forall n :: n in s ==> n in out + tail
    ensures forall j :: 0 <= j < k ==> out[j] !in s
  {
    if k > 0 {
      NotEmitted(edges, s, out, tail, k - 1);
      var i := k - 1;
      var after := out[i..] + tail;
      assert out + tail == out[..i] + after;
      assert forall n :: n in s ==> n in after;
      assert !Blocked(edges, out[i], after);
      if Blocked(edges, out[i], s) { BlockedByMore(edges, out[i], s, after); }
    }
  }

  // ----- stability -----

  lemma {:induction false} PassAllBlocked(edges: seq<Edge>, done: seq<string>, rest: seq<string>)
    requires Stuck(edges, done + rest)
    ensures Pass(edges, done, rest) == ([], done + rest)
    decreases |rest|
  {
    if rest == [] {
      assert done + rest == done;
    } else {
      assert rest[0] in done + rest;
      assert done + [rest[0]] + rest[1..] == done + rest;
      PassAllBlocked(edges, done + [rest[0]], rest[1..]);
    }
  }

  /** An unblocked order in front of a self-blocking tail passes through as it stands. */
  lemma {:induction false} PassOfOrdered(edges: seq<Edge>, out: seq<string>, tail: seq<string>)
    requires Ordered(edges, out, tail) && Stuck(edges, tail)
    ensures Pass(edges, [], out + tail) == (out, tail)
  {
    if out == [] {
      assert [] + tail == tail && out + tail == tail;
      PassAllBlocked(edges, [], tail);
    } else {
      var rest := out + tail;
      assert out[0..] == out && [] + rest == rest;
      assert !Blocked(edges, out[0], out[0..] + tail);
      assert rest[1..] == out[1..] + tail;
      forall i | 0 <= i < |out[1..]| ensures !Blocked(edges, out[1..][i], out[1..][i..] + tail) {
        assert out[1..][i..] == out[i + 1..];
        assert !Blocked(edges, out[i + 1], out[i + 1..] + tail);
      }
      PassOfOrdered(edges, out[1..], tail);
      assert [out[0]] + out[1..] == out;
    }
  }

  lemma {:induction false} SolveOfOrdered(edges: seq<Edge>, out: seq<string>, tail: seq<string>)
    requires Ordered(edges, out, tail) && Stuck(edges, tail)
    ensures Solve(edges, out + tail) == (out, tail)
  {
    PassOfOrdered(edges, out, tail);
    if out == [] {
      assert out + tail == tail;
    } else {
      assert [] + tail == tail;
      PassAllBlocked(edges, [], tail);
      assert Solve(edges, tail) == ([], tail);
      assert out + [] == out;
    }
  }

  // ----- the order in which the constraints are walked -----

  lemma {:induction false} EdgesFrom(known: seq<string>, cs: seq<Constraint>, e: Edge)
    ensures e in Edges(known, cs)
       <==> exists c :: c in cs
                     && (e in BeforeEdges(known, c.name, c.before) || e in AfterEdges(known, c.name, c.after))
  {
    if cs != [] {
      EdgesFrom(known, cs[1..], e);
      assert cs == [cs[0]] + cs[1..];
      assert cs[0] in cs && forall c :: c in cs[1..] ==> c in cs;
    }
  }

  ghost predicate SameEdges(a: seq<Edge>, b: seq<Edge>) {
    forall e :: e in a <==> e in b
  }

  lemma {:induction false} PassSame(a: seq<Edge>, b: seq<Edge>, done: seq<string>, rest: seq<string>)
    requires SameEdges(a, b)
    ensures Pass(a, done, rest) == Pass(b, done, rest)
    decreases |rest|
  {
    if rest != [] {
      PassSame(a, b, done + [rest[0]], rest[1..]);
      PassSame(a, b, done, rest[1..]);
      assert Blocked(a, rest[0], done + rest) <==> Blocked(b, rest[0], done + rest);
    }
  }

  lemma {:induction false} SolveSame(a: seq<Edge>, b: seq<Edge>, names: seq<string>)
    requires SameEdges(a, b)
    ensures Solve(a, names) == Solve(b, names)
    decreases |names|
  {
    hide Pass, SameEdges;
    PassSame(a, b, [], names);
    var (emitted, left) := Pass(a, [], names);
    if emitted != [] { SolveSame(a, b, left); }
  }

  /** The suggestion does not depend on the order in which the constraint map is walked. */
  lemma {:induction false} SuggestAnyWalk(names: seq<string>, cs: seq<Constraint>, ds: seq<Constraint>)
    requires forall c :: c in cs <==> c in ds
    ensures Suggest(names, cs) == Suggest(names, ds)
  {
    hide Solve, Edges;
    forall e ensures e in Edges(names, cs) <==> e in Edges(names, ds) {
      EdgesFrom(names, cs, e);
      EdgesFrom(names, ds, e);
    }
    SolveSame(Edges(names, cs), Edges(names, ds), names);
  }

  lemma {:induction false} EdgesSame(a: seq<string>, b: seq<string>, cs: seq<Constraint>)
    requires forall x :: x in a <==> x in b
    ensures Edges(a, cs) == Edges(b, cs)
  {
    if cs != [] {
      BeforeEdgesSame(a, b, cs[0].name, cs[0].before);
      AfterEdgesSame(a, b, cs[0].name, cs[0].after);
      EdgesSame(a, b, cs[1..]);
    }
  }

  lemma {:induction false} BeforeEdgesSame(a: seq<string>, b: seq<string>, name: string, bs: seq<string>)
    requires forall x :: x in a <==> x in b
    ensures BeforeEdges(a, name, bs) == BeforeEdges(b, name, bs)
  {
    if bs != [] { BeforeEdgesSame(a, b, name, bs[1..]); }
  }

  lemma {:induction false} AfterEdgesSame(a: seq<string>, b: seq<string>, name: string, as_: seq<string>)
    requires forall x :: x in a <==> x in b
    ensures AfterEdges(a, name, as_) == AfterEdges(b, name, as_)
  {
    if as_ != [] { AfterEdgesSame(a, b, name, as_[1..]); }
  }

  /** Suggesting twice is suggesting once, cycles or not. */
  lemma {:induction false} SuggestIdempotent(names: seq<string>, cs: seq<Constraint>)
    ensures Suggest(Suggest(names, cs), cs) == Suggest(names, cs)
  {
    var edges, s := Edges(names, cs), Suggest(names, cs);
    SolveOrdered(edges, names);
    SuggestPermutes(names, cs);
    SameMembers(s, names);
    EdgesSame(s, names, cs);
    var (out, tail) := Solve(edges, names);
    SolveOfOrdered(edges, out, tail);
  }

  /** The first `k` names are unblocked and the rest wait for each other. */
  ghost predicate SettledAt(edges: seq<Edge>, names: seq<string>, k: nat) {
    k <= |names| && Ordered(edges, names[..k], names[k..]) && Stuck(edges, names[k..])
  }

  lemma SettledStays(names: seq<string>, cs: seq<Constraint>, k: nat)
    requires SettledAt(Edges(names, cs), names, k)
    ensures Suggest(names, cs) == names
  {
    hide Solve, Edges, Ordered, Stuck;
    SolveOfOrdered(Edges(names, cs), names[..k], names[k..]);
    assert names[..k] + names[k..] == names;
  }

  /** The order is kept exactly when it is an unblocked front followed by names that wait for each other. */
  lemma {:induction false} UnchangedIff(names: seq<string>, cs: seq<Constraint>)
    ensures Suggest(names, cs) == names <==> exists k :: SettledAt(Edges(names, cs), names, k)
  {
    hide Solve, Edges, Ordered, Stuck;
    var (out, tail) := Solve(Edges(names, cs), names);
    SolveOrdered(Edges(names, cs), names);
    if Suggest(names, cs) == names {
      assert names[..|out|] == out && names[|out|..] == tail;
      assert SettledAt(Edges(names, cs), names, |out|);
    }
    if exists k :: SettledAt(Edges(names, cs), names, k) {
      var k :| SettledAt(Edges(names, cs), names, k);
      SettledStays(names, cs, k);
    }
  }

  predicate Distinct(names: seq<string>) {
    forall i, j :: 0 <= i < j < |names| ==> names[i] != names[j]
  }

  /** Distinct bundles that violate nothing are returned as they stand. */
  lemma {:induction false} ValidOrderKept(names: seq<string>, cs: seq<Constraint>)
    requires Distinct(names) && Violations(names, cs) == []
    ensures Suggest(names, cs) == names
  {
    var edges := Edges(names, cs);
    ViolationsIff(names, cs);
    forall i | 0 <= i < |names| ensures !Blocked(edges, names[i], names[i..] + []) {
      assert names[i..] + [] == names[i..];
      assert Pos(names, names[i]) == i;
      forall e | e in edges && e.1 == names[i] ensures e.0 !in names[i..] {
        if e.0 in names {
          assert e == (e.0, names[i]);
          EdgesIff(names, cs, e.0, names[i]);
          assert forall j :: 0 <= j < |names[i..]| ==> names[i..][j] == names[i + j];
        }
      }
    }
    SolveOfOrdered(edges, names, []);
    assert names + [] == names;
  }

  /** No known bundle has to load before `n`. */
  predicate Free(edges: seq<Edge>, names: seq<string>, n: string) {
    !Blocked(edges, n, names)
  }

  function FreeOnes(edges: seq<Edge>, names: seq<string>, s: seq<string>): seq<string> {
    if s == [] then []
    else (if Free(edges, names, s[0]) then [s[0]] else []) + FreeOnes(edges, names, s[1..])
  }

  lemma {:induction false} FreeOnesConcat(edges: seq<Edge>, names: seq<string>, a: seq<string>, b: seq<string>)
    ensures FreeOnes(edges, names, a + b) == FreeOnes(edges, names, a) + FreeOnes(edges, names, b)
  {
    if a == [] {
      assert a + b == b;
    } else {
      assert (a + b)[1..] == a[1..] + b;
      FreeOnesConcat(edges, names, a[1..], b);
    }
  }

  /** A pass emits the free names it meets, in order, and leaves none. */
  lemma {:induction false} PassEmitsFree(edges: seq<Edge>, names: seq<string>, done: seq<string>, rest: seq<string>)
    requires forall x :: x in done + rest ==> x in names
    requires FreeOnes(edges, names, done) == []
    ensures FreeOnes(edges, names, Pass(edges, done, rest).0) == FreeOnes(edges, names, rest)
    ensures FreeOnes(edges, names, Pass(edges, done, rest).1) == []
    decreases |rest|
  {
    if rest != [] {
      var n := rest[0];
      assert n in done + rest;
      if Blocked(edges, n, done + rest) {
        BlockedByMore(edges, n, done + rest, names);
        assert done + [n] + rest[1..] == done + rest;
        FreeOnesConcat(edges, names, done, [n]);
        assert [n][1..] == [];
        assert FreeOnes(edges, names, [n]) == [];
        PassEmitsFree(edges, names, done + [n], rest[1..]);
      } else {
        assert forall x :: x in done + rest[1..] ==> x in done + rest;
        PassEmitsFree(edges, names, done, rest[1..]);
        var more := Pass(edges, done, rest[1..]).0;
        assert ([n] + more)[1..] == more;
      }
    }
  }

  lemma {:induction false} NoFreeSolve(edges: seq<Edge>, names: seq<string>, left: seq<string>)
    requires FreeOnes(edges, names, left) == []
    ensures var (out, tail) := Solve(edges, left); FreeOnes(edges, names, out + tail) == []
  {
    var (out, tail) := Solve(edges, left);
    SolveOrdered(edges, left);
    SameMembers(out + tail, left);
    NoneFree(edges, names, left);
    AllTaken(edges, names, out + tail);
  }

  lemma {:induction false} NoneFree(edges: seq<Edge>, names: seq<string>, s: seq<string>)
    requires FreeOnes(edges, names, s) == []
    ensures forall x :: x in s ==> !Free(edges, names, x)
  {
    if s != [] { NoneFree(edges, names, s[1..]); }
  }

  lemma {:induction false} AllTaken(edges: seq<Edge>, names: seq<string>, s: seq<string>)
    requires forall x :: x in s ==> !Free(edges, names, x)
    ensures FreeOnes(edges, names, s) == []
  {
    if s != [] {
      assert s[0] in s;
      assert forall x :: x in s[1..] ==> x in s;
      AllTaken(edges, names, s[1..]);
    }
  }

  lemma {:induction false} SuggestUnfold(names: seq<string>, cs: seq<Constraint>)
    requires Pass(Edges(names, cs), [], names).0 != []
    ensures var edges := Edges(names, cs);
            var (emitted, left) := Pass(edges, [], names);
            Suggest(names, cs) == emitted + (Solve(edges, left).0 + Solve(edges, left).1)
  {
    var edges := Edges(names, cs);
    var (emitted, left) := Pass(edges, [], names);
    var rest := Solve(edges, left);
    assert (emitted + rest.0) + rest.1 == emitted + (rest.0 + rest.1);
  }

  /** Bundles nothing has to precede keep their relative order. */
  lemma {:induction false} FreeKeepOrder(names: seq<string>, cs: seq<Constraint>)
    ensures var edges := Edges(names, cs);
            FreeOnes(edges, names, Suggest(names, cs)) == FreeOnes(edges, names, names)
  {
    var edges := Edges(names, cs);
    assert [] + names == names;
    PassEmitsFree(edges, names, [], names);
    var (emitted, left) := Pass(edges, [], names);
    if emitted == [] {
      assert Suggest(names, cs) == names;
    } else {
      NoFreeSolve(edges, names, left);
      var rest := Solve(edges, left);
      SuggestUnfold(names, cs);
      FreeOnesConcat(edges, names, emitted, rest.0 + rest.1);
    }
  }

  // ----- the loops -----

  method PushBefore(edges0: seq<Edge>, names: seq<string>, name: string, bs: seq<string>) returns (edges: seq<Edge>)
    ensures edges == edges0 + BeforeEdges(names, name, bs)
  {
    edges := edges0;
    for j := 0 to |bs|
      invariant edges + BeforeEdges(names, name, bs[j..]) == edges0 + BeforeEdges(names, name, bs)
    {
      assert bs[j..][0] == bs[j] && bs[j..][1..] == bs[j + 1..];
      if bs[j] in names { edges := edges + [(name, bs[j])]; }
    }
    assert bs[|bs|..] == [] && edges + [] == edges;
  }

  method PushAfter(edges0: seq<Edge>, names: seq<string>, name: string, as_: seq<string>) returns (edges: seq<Edge>)
    ensures edges == edges0 + AfterEdges(names, name, as_)
  {
    edges := edges0;
    for j := 0 to |as_|
      invariant edges + AfterEdges(names, name, as_[j..]) == edges0 + AfterEdges(names, name, as_)
    {
      assert as_[j..][0] == as_[j] && as_[j..][1..] == as_[j + 1..];
      if as_[j] in names { edges := edges + [(as_[j], name)]; }
    }
    assert as_[|as_|..] == [] && edges + [] == edges;
  }

  lemma EdgesStep(done: seq<Edge>, names: seq<string>, cs: seq<Constraint>, i: nat)
    requires i < |cs|
    ensures done + Edges(names, cs[i..])
         == done + BeforeEdges(names, cs[i].name, cs[i].before) + AfterEdges(names, cs[i].name, cs[i].after)
            + Edges(names, cs[i + 1..])
  {
    hide BeforeEdges, AfterEdges;
    assert cs[i..][0] == cs[i] && cs[i..][1..] == cs[i + 1..];
  }

  /** The edge list `suggest_order` builds from the constraint map. */
  method BuildEdges(names: seq<string>, cs: seq<Constraint>) returns (edges: seq<Edge>)
    ensures edges == Edges(names, cs)
  {
    hide BeforeEdges, AfterEdges;
    edges := [];
    for i := 0 to |cs|
      invariant edges + Edges(names, cs[i..]) == Edges(names, cs)
    {
      EdgesStep(edges, names, cs, i);
      edges := PushBefore(edges, names, cs[i].name, cs[i].before);
      edges := PushAfter(edges, names, cs[i].name, cs[i].after);
    }
    assert cs[|cs|..] == [] && edges + [] == edges;
  }

  /** One turn of the sweep. */
  lemma {:induction false} PassStep(edges: seq<Edge>, done: seq<string>, rest: seq<string>)
    requires rest != []
    ensures Pass(edges, done, rest)
         == if Blocked(edges, rest[0], done + rest) then Pass(edges, done + [rest[0]], rest[1..])
            else ([rest[0]] + Pass(edges, done, rest[1..]).0, Pass(edges, done, rest[1..]).1)
  {
  }

  lemma PassEnds(edges: seq<Edge>, done: seq<string>)
    ensures Pass(edges, done, []) == ([], done)
  {
  }

  /** One sweep over `remaining`, removing what is not blocked. */
  method Sweep(edges: seq<Edge>, before: seq<string>)
    returns (emitted: seq<string>, remaining: seq<string>, advanced: bool)
    ensures (emitted, remaining) == Pass(edges, [], before)
    ensures advanced <==> emitted != []
  {
    hide Pass, Blocked;
    remaining := before;
    emitted := [];
    var idx := 0;
    advanced := false;
    ghost var first := Pass(edges, [], before);
    assert remaining[..0] == [] && remaining[0..] == before;
    assert emitted + first.0 == first.0;
    while idx < |remaining|
      invariant 0 <= idx <= |remaining|
      invariant advanced <==> emitted != []
      invariant Pass(edges, [], before)
             == (emitted + Pass(edges, remaining[..idx], remaining[idx..]).0,
                 Pass(edges, remaining[..idx], remaining[idx..]).1)
      decreases |remaining| - idx
    {
      var n := remaining[idx];
      ghost var done, rest := remaining[..idx], remaining[idx..];
      assert done + rest == remaining && rest[0] == n;
      PassStep(edges, done, rest);
      if Blocked(edges, n, remaining) {
        assert remaining[..idx + 1] == done + [n] && remaining[idx + 1..] == rest[1..];
        idx := idx + 1;
      } else {
        ghost var r := Pass(edges, done, rest[1..]);
        assert emitted + ([n] + r.0) == (emitted + [n]) + r.0;
        emitted := emitted + [n];
        remaining := remaining[..idx] + remaining[idx + 1..];
        assert remaining[..idx] == done && remaining[idx..] == rest[1..];
        advanced := true;
      }
    }
    assert remaining[..idx] == remaining && remaining[idx..] == [];
    PassEnds(edges, remaining);
    assert emitted + [] == emitted;
  }

  /** `suggest_order` */
  method SuggestOrder(names: seq<string>, cs: seq<Constraint>) returns (out: seq<string>)
    ensures out == Suggest(names, cs)
    ensures multiset(out) == multiset(names)
  {
    hide Pass;
    var edges := BuildEdges(names, cs);
    var remaining := names;
    out := [];
    while true
      invariant out + (Solve(edges, remaining).0 + Solve(edges, remaining).1) == Suggest(names, cs)
      decreases |remaining|
    {
      var emitted, left, advanced := Sweep(edges, remaining);
      if !advanced { break; }
      ghost var r := Solve(edges, left);
      assert out + ((emitted + r.0) + r.1) == (out + emitted) + (r.0 + r.1);
      out := out + emitted;
      remaining := left;
    }
    assert [] + remaining == remaining;
    out := out + remaining;
    SuggestPermutes(names, cs);
  }

  ghost predicate Indexes(idx: map<string, nat>, order: seq<string>) {
    && (forall n :: n in idx <==> n in order)
    && (forall n :: n in idx ==> idx[n] == Pos(order, n))
  }

  /** The index map of `order_violations` keeps the last position of each name. */
  method IndexOrder(order: seq<string>) returns (idx: map<string, nat>)
    ensures Indexes(idx, order)
  {
    idx := map[];
    for i := 0 to |order|
      invariant Indexes(idx, order[..i])
    {
      assert order[..i + 1] == order[..i] + [order[i]];
      PosSnoc(order[..i], order[i]);
      idx := idx[order[i] := i];
    }
    assert order[..|order|] == order;
  }

  method PushBeforeViolations(out0: seq<Violation>, order: seq<string>, idx: map<string, nat>, name: string,
                              bs: seq<string>)
    returns (out: seq<Violation>)
    requires Indexes(idx, order)
    ensures out == out0 + BeforeViolations(order, name, bs)
  {
    out := out0;
    for j := 0 to |bs|
      invariant out + BeforeViolations(order, name, bs[j..]) == out0 + BeforeViolations(order, name, bs)
    {
      assert bs[j..][0] == bs[j] && bs[j..][1..] == bs[j + 1..];
      if name in idx && bs[j] in idx && idx[name] >= idx[bs[j]] { out := out + [MustPrecede(name, bs[j])]; }
    }
    assert bs[|bs|..] == [] && out + [] == out;
  }

  method PushAfterViolations(out0: seq<Violation>, order: seq<string>, idx: map<string, nat>, name: string,
                             as_: seq<string>)
    returns (out: seq<Violation>)
    requires Indexes(idx, order)
    ensures out == out0 + AfterViolations(order, name, as_)
  {
    out := out0;
    for j := 0 to |as_|
      invariant out + AfterViolations(order, name, as_[j..]) == out0 + AfterViolations(order, name, as_)
    {
      assert as_[j..][0] == as_[j] && as_[j..][1..] == as_[j + 1..];
      if name in idx && as_[j] in idx && idx[name] <= idx[as_[j]] { out := out + [MustFollow(name, as_[j])]; }
    }
    assert as_[|as_|..] == [] && out + [] == out;
  }

  lemma Assoc4<T>(a: seq<T>, b: seq<T>, c: seq<T>, d: seq<T>)
    ensures a + (b + c + d) == a + b + c + d
  {
  }

  /** `order_violations` */
  method OrderViolations(order: seq<string>, cs: seq<Constraint>) returns (out: seq<Violation>)
    ensures out == Violations(order, cs)
    ensures out == [] <==> Satisfies(order, cs)
    ensures forall v :: v in out <==> Broken(order, v) && exists c :: c in cs && StatedBy(c, v)
    ensures forall v :: multiset(out)[v] == if Broken(order, v) then TimesStated(cs, v) else 0
  {
    hide Broken, StatedBy, TimesStated, Satisfies;
    var idx := IndexOrder(order);
    out := [];
    for i := 0 to |cs|
      invariant out + Violations(order, cs[i..]) == Violations(order, cs)
    {
      assert cs[i..][0] == cs[i] && cs[i..][1..] == cs[i + 1..];
      Assoc4(out, BeforeViolations(order, cs[i].name, cs[i].before),
             AfterViolations(order, cs[i].name, cs[i].after), Violations(order, cs[i + 1..]));
      out := PushBeforeViolations(out, order, idx, cs[i].name, cs[i].before);
      out := PushAfterViolations(out, order, idx, cs[i].name, cs[i].after);
    }
    assert cs[|cs|..] == [] && out + [] == out;
    ViolationsIff(order, cs);
    forall v
      ensures v in out <==> Broken(order, v) && exists c :: c in cs && StatedBy(c, v)
      ensures multiset(out)[v] == if Broken(order, v) then TimesStated(cs, v) else 0
    {
      ReportIff(order, cs, v);
      ReportedAsStated(order, cs, v);
    }
  }

  lemma {:induction false} PosSnoc(order: seq<string>, x: string)
    ensures Pos(order + [x], x) == |order|
    ensures forall n :: n in order && n != x ==> Pos(order + [x], n) == Pos(order, n)
  {
    assert (order + [x])[..|order|] == order;
  }

  lemma {:induction false} OneConstraint(f: string, t: string, a: string, b: string)
    ensures States([Constraint(f, [t], [])], a, b) <==> a == f && b == t
  {
    var c := Constraint(f, [t], []);
    assert [c][0] in [c];
  }

  lemma {:induction false} RepeatedNameValid(f: string, t: string)
    requires f != t
    ensures Violations([t, f, t], [Constraint(f, [t], [])]) == []
  {
    var names, cs := [t, f, t], [Constraint(f, [t], [])];
    assert [t, f] + [t] == names && [t] + [f] == [t, f];
    PosSnoc([t, f], t);
    PosSnoc([t, f], f);
    PosSnoc([t], f);
    assert Pos(names, f) < Pos(names, t);
    forall a, b | States(cs, a, b) ensures a == f && b == t { OneConstraint(f, t, a, b); }
    ViolationsIff(names, cs);
  }

  /** With a name listed twice a violation-free order need not be kept: `t` stands on both sides of
      the `f` it must follow, and only its last place is checked. */
  lemma {:induction false} RepeatedNameMoves(f: string, t: string)
    requires f != t
    ensures Violations([t, f, t], [Constraint(f, [t], [])]) == []
    ensures Suggest([t, f, t], [Constraint(f, [t], [])]) != [t, f, t]
  {
    RepeatedNameValid(f, t);
    var names, cs := [t, f, t], [Constraint(f, [t], [])];
    var edges := Edges(names, cs);
    var (out, tail) := Solve(edges, names);
    SolveOrdered(edges, names);
    assert names[1] == f && f in names;
    OneConstraint(f, t, f, t);
    EdgesIff(names, cs, f, t);
    assert Blocked(edges, t, names);
    assert !Blocked(edges, f, names) by {
      forall e | e in edges && e.1 == f && e.0 in names ensures false {
        assert e == (e.0, f);
        OneConstraint(f, t, e.0, f);
        EdgesIff(names, cs, e.0, f);
      }
    }
    if out != [] {
      assert out[0..] == out && (out + tail)[0] == out[0];
      assert !Blocked(edges, out[0], out + tail);
    }
  }
}
