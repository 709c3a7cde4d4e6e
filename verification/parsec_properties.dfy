/** What the usable combinators of parsec.py promise, proved about the model
    in module Parsec. */
module ParsecProperties {
  import opened Common
  import opened Parsec

  // ---------------------------------------------------------------------
  // Primitives and choice
  // ---------------------------------------------------------------------

  /** `string(t)` yields `(t, r)` exactly when the input is `t + r`, and
      nothing else. */
  lemma LitOutcomes(t: string, s: string, r: string)
    ensures |Run(Lit(t), s)| == (if t <= s then 1 else 0)
    ensures Outcome(VStr(t), r) in Run(Lit(t), s) <==> t + r == s
    ensures forall o | o in Run(Lit(t), s) :: o.value == VStr(t)
  {
    if t <= s {
      assert t + s[|t|..] == s[..|t|] + s[|t|..] == s;
    }
    if t + r == s {
      assert s[..|t|] == t && s[|t|..] == r;
    }
  }

  /** `regex(pattern)` yields the matched prefix and the rest of the input
      when the pattern matches, and nothing otherwise. */
  lemma ReOutcomes(m: Matcher, s: string)
    ensures |Run(Re(m), s)| == (if m(s).MatchEnd? then 1 else 0)
    ensures forall o | o in Run(Re(m), s) ::
      o.value.VStr? && |o.value.str| == m(s).end && o.value.str + o.rest == s
  {
    match m(s)
    case NoMatch =>
    case MatchEnd(n) =>
      assert s[..n] + s[n..] == s;
  }

  /** `empty` yields exactly `(None, s)`. */
  lemma EmptyYieldsNone(s: string)
    ensures Run(Empty, s) == [Outcome(VNone, s)]
  {
  }

  /** `choice(p1, p2)(s)` is `p1(s)` followed by `p2(s)`. */
  lemma ChoiceConcatenates(a: Parser, b: Parser, s: string)
    requires WellFormed(a) && WellFormed(b)
    ensures Run(Choice(a, b), s) == Run(a, s) + Run(b, s)
    ensures |Run(Choice(a, b), s)| == |Run(a, s)| + |Run(b, s)|
  {
  }

  // ---------------------------------------------------------------------
  // pair
  // ---------------------------------------------------------------------

  /** `o` is the tuple of `o1` with an outcome of `b` run on `o1`'s
      remainder. */
  ghost predicate PairedWith(b: Parser, o1: Outcome, o: Outcome)
    requires WellFormed(b)
  {
    exists o2 | o2 in Run(b, o1.rest) :: o == Outcome(VPair(o1.value, o2.value), o2.rest)
  }

  lemma {:induction false} PairInnerMembers(v1: Value, rs: seq<Outcome>, o: Outcome)
    ensures o in PairInner(v1, rs) <==> exists o2 | o2 in rs :: o == Outcome(VPair(v1, o2.value), o2.rest)
    decreases |rs|
  {
    if rs != [] {
      var front, last := rs[..|rs| - 1], rs[|rs| - 1];
      PairInnerMembers(v1, front, o);
      assert PairInner(v1, rs) == PairInner(v1, front) + [Outcome(VPair(v1, last.value), last.rest)];
      if o in PairInner(v1, rs) {
        if o in PairInner(v1, front) {
          var o2 :| o2 in front && o == Outcome(VPair(v1, o2.value), o2.rest);
          assert o2 in rs;
        } else {
          assert last in rs;
        }
      }
      if exists o2 | o2 in rs :: o == Outcome(VPair(v1, o2.value), o2.rest) {
        var o2 :| o2 in rs && o == Outcome(VPair(v1, o2.value), o2.rest);
        if o2 != last {
          InFront(o2, rs);
        }
      }
    }
  }

  lemma {:induction false} PairLoopSound(p: Parser, s: string, rs: seq<Outcome>, o: Outcome)
    requires p.Pair? && WellFormed(p) && RestsWithin(rs, s, Consuming(p.first))
    requires o in PairLoop(p, s, rs)
    ensures exists o1 | o1 in rs :: PairedWith(p.second, o1, o)
    decreases |rs|
  {
    var r1 := rs[|rs| - 1];
    var front := rs[..|rs| - 1];
    if o in PairLoop(p, s, front) {
      PairLoopSound(p, s, front, o);
      var o1 :| o1 in front && PairedWith(p.second, o1, o);
      assert o1 in rs;
    } else {
      PairInnerMembers(r1.value, Run(p.second, r1.rest), o);
      assert PairedWith(p.second, r1, o);
    }
  }

  lemma {:induction false} PairLoopComplete(p: Parser, s: string, rs: seq<Outcome>, o1: Outcome, o: Outcome)
    requires p.Pair? && WellFormed(p) && RestsWithin(rs, s, Consuming(p.first))
    requires o1 in rs && PairedWith(p.second, o1, o)
    ensures o in PairLoop(p, s, rs)
    decreases |rs|
  {
    var r1 := rs[|rs| - 1];
    var front := rs[..|rs| - 1];
    assert rs == front + [r1];
    if o1 == r1 {
      PairInnerMembers(r1.value, Run(p.second, r1.rest), o);
    } else {
      PairLoopComplete(p, s, front, o1, o);
    }
  }

  /** `pair(p1, p2)` yields `((v1, v2), r2)` exactly for the outcomes
      `(v1, r1)` of `p1` and `(v2, r2)` of `p2` run on `r1`. */
  lemma PairMembers(a: Parser, b: Parser, s: string, o: Outcome)
    requires WellFormed(a) && WellFormed(b)
    ensures o in Run(Pair(a, b), s) <==> exists o1 | o1 in Run(a, s) :: PairedWith(b, o1, o)
  {
    if o in Run(Pair(a, b), s) {
      PairLoopSound(Pair(a, b), s, Run(a, s), o);
    }
    if exists o1 | o1 in Run(a, s) :: PairedWith(b, o1, o) {
      var o1 :| o1 in Run(a, s) && PairedWith(b, o1, o);
      PairLoopComplete(Pair(a, b), s, Run(a, s), o1, o);
    }
  }

  // ---------------------------------------------------------------------
  // between
  // ---------------------------------------------------------------------

  /** The middle outcome `om` is closed by `pa`: the closing parser yields
      something on its remainder. */
  ghost predicate Closes(pa: Parser, om: Outcome)
    requires WellFormed(pa)
  {
    Run(pa, om.rest) != []
  }

  lemma {:induction false} BetweenMidSound(p: Parser, s: string, rs: seq<Outcome>, o: Outcome)
    requires p.Between? && WellFormed(p) && RestsWithin(rs, s, Consuming(p.middle))
    requires o in BetweenMid(p, s, rs)
    ensures o in rs && Closes(p.after, o)
    decreases |rs|
  {
    var r := rs[|rs| - 1];
    var front := rs[..|rs| - 1];
    if o in BetweenMid(p, s, front) {
      BetweenMidSound(p, s, front, o);
    }
  }

  lemma {:induction false} BetweenMidComplete(p: Parser, s: string, rs: seq<Outcome>, o: Outcome)
    requires p.Between? && WellFormed(p) && RestsWithin(rs, s, Consuming(p.middle))
    requires o in rs && Closes(p.after, o)
    ensures o in BetweenMid(p, s, rs)
    decreases |rs|
  {
    var r := rs[|rs| - 1];
    var front := rs[..|rs| - 1];
    assert rs == front + [r];
    if o == r {
      assert Copies(r, |Run(p.after, r.rest)|)[0] == o;
    } else {
      BetweenMidComplete(p, s, front, o);
    }
  }

  /** `o` is a middle outcome, obtained after the opening outcome `ob`, that
      the closing parser accepts. */
  ghost predicate BracketedAfter(pm: Parser, pa: Parser, ob: Outcome, o: Outcome)
    requires WellFormed(pm) && WellFormed(pa)
  {
    o in Run(pm, ob.rest) && Closes(pa, o)
  }

  lemma {:induction false} BetweenOuterSound(p: Parser, s: string, rs: seq<Outcome>, o: Outcome)
    requires p.Between? && WellFormed(p) && RestsWithin(rs, s, Consuming(p.before))
    requires o in BetweenOuter(p, s, rs)
    ensures exists ob | ob in rs :: BracketedAfter(p.middle, p.after, ob, o)
    decreases |rs|
  {
    var rb := rs[|rs| - 1];
    var front := rs[..|rs| - 1];
    if o in BetweenOuter(p, s, front) {
      BetweenOuterSound(p, s, front, o);
      var ob :| ob in front && BracketedAfter(p.middle, p.after, ob, o);
      assert ob in rs;
    } else {
      BetweenMidSound(p, rb.rest, Run(p.middle, rb.rest), o);
      assert BracketedAfter(p.middle, p.after, rb, o);
    }
  }

  lemma {:induction false} BetweenOuterComplete(p: Parser, s: string, rs: seq<Outcome>, ob: Outcome, o: Outcome)
    requires p.Between? && WellFormed(p) && RestsWithin(rs, s, Consuming(p.before))
    requires ob in rs && BracketedAfter(p.middle, p.after, ob, o)
    ensures o in BetweenOuter(p, s, rs)
    decreases |rs|
  {
    var rb := rs[|rs| - 1];
    var front := rs[..|rs| - 1];
    var rm := Run(p.middle, rb.rest);
    assert rs == front + [rb];
    assert BetweenOuter(p, s, rs) == BetweenOuter(p, s, front) + BetweenMid(p, rb.rest, rm);
    if ob == rb {
      BetweenMidComplete(p, rb.rest, rm, o);
    } else {
      BetweenOuterComplete(p, s, front, ob, o);
    }
  }

  /** `between(pb, p, pa)` yields `(v, r)` exactly for the outcomes `(vb, rb)`
      of `pb` and `(v, r)` of `p` run on `rb` on whose remainder `pa` yields
      something: the remainder is the middle parser's, not the closing
      parser's. */
  lemma BetweenMembers(pb: Parser, pm: Parser, pa: Parser, s: string, o: Outcome)
    requires WellFormed(pb) && WellFormed(pm) && WellFormed(pa)
    ensures o in Run(Between(pb, pm, pa), s) <==>
      exists ob | ob in Run(pb, s) :: BracketedAfter(pm, pa, ob, o)
  {
    var b := Between(pb, pm, pa);
    if o in Run(b, s) {
      BetweenOuterSound(b, s, Run(pb, s), o);
    }
    if exists ob | ob in Run(pb, s) :: BracketedAfter(pm, pa, ob, o) {
      var ob :| ob in Run(pb, s) && BracketedAfter(pm, pa, ob, o);
      BetweenOuterComplete(b, s, Run(pb, s), ob, o);
    }
  }

  /** The total number of outcomes the closing parser yields on the
      remainders of the middle outcomes `rs`. */
  function ClosingCount(pa: Parser, rs: seq<Outcome>): nat
    requires WellFormed(pa)
  {
    if rs == [] then 0
    else ClosingCount(pa, rs[..|rs| - 1]) + |Run(pa, rs[|rs| - 1].rest)|
  }

  /** `n` copies of `o` hold `o` exactly `n` times and nothing else. */
  lemma {:induction false} CopiesCount(o: Outcome, n: nat, x: Outcome)
    ensures multiset(Copies(o, n))[x] == if x == o then n else 0
    decreases n
  {
    if n > 0 {
      CopiesCount(o, n - 1, x);
      assert Copies(o, n) == Copies(o, n - 1) + [o];
    }
  }

  /** A count made of `a` and `b` copies of `k` outcomes is `m * k` for
      `m == a + b`. */
  lemma Scaled(x: nat, a: nat, b: nat, k: nat, m: nat)
    requires x == a * k + b * k && m == a + b
    ensures x == m * k
  {
  }

  /** Each middle outcome is yielded once per outcome of the closing parser
      on its remainder: an outcome `o` occurs in the middle loop's output as
      often as it occurs among the middle outcomes, times the number of
      outcomes `pa` yields on `o.rest`. In total the middle loop yields as
      many outcomes as the closing parser does over the middle outcomes. */
  lemma {:induction false} BetweenMidCount(p: Parser, s: string, rs: seq<Outcome>, o: Outcome)
    requires p.Between? && WellFormed(p) && RestsWithin(rs, s, Consuming(p.middle))
    ensures |BetweenMid(p, s, rs)| == ClosingCount(p.after, rs)
    ensures multiset(BetweenMid(p, s, rs))[o] == multiset(rs)[o] * |Run(p.after, o.rest)|
    decreases |rs|
  {
    if rs != [] {
      var front, r := rs[..|rs| - 1], rs[|rs| - 1];
      BetweenMidCount(p, s, front, o);
      var n, k := |Run(p.after, r.rest)|, |Run(p.after, o.rest)|;
      var a := multiset(front)[o];
      assert BetweenMid(p, s, rs) == BetweenMid(p, s, front) + Copies(r, n);
      assert multiset(BetweenMid(p, s, rs))[o] == a * k + multiset(Copies(r, n))[o];
      CopiesCount(r, n, o);
      MultisetSnoc(rs, o);
      if o == r {
        Scaled(multiset(BetweenMid(p, s, rs))[o], a, 1, k, multiset(rs)[o]);
      } else {
        assert multiset(rs)[o] == a;
      }
    }
  }

  /** How often `o` occurs among the middle outcomes that `pm` yields after
      each of the opening outcomes `rs`. */
  function MiddleCount(pm: Parser, rs: seq<Outcome>, o: Outcome): nat
    requires WellFormed(pm)
  {
    if rs == [] then 0
    else MiddleCount(pm, rs[..|rs| - 1], o) + multiset(Run(pm, rs[|rs| - 1].rest))[o]
  }

  /** The outer loop of `between`: `o` occurs once for each time it is a
      middle outcome after an opening outcome and each outcome the closing
      parser yields on its remainder. */
  lemma {:induction false} BetweenOuterCount(p: Parser, s: string, rs: seq<Outcome>, o: Outcome)
    requires p.Between? && WellFormed(p) && RestsWithin(rs, s, Consuming(p.before))
    ensures multiset(BetweenOuter(p, s, rs))[o] == MiddleCount(p.middle, rs, o) * |Run(p.after, o.rest)|
    decreases |rs|
  {
    if rs != [] {
      var front, rb := rs[..|rs| - 1], rs[|rs| - 1];
      BetweenOuterCount(p, s, front, o);
      var rm, k := Run(p.middle, rb.rest), |Run(p.after, o.rest)|;
      var a, b := MiddleCount(p.middle, front, o), multiset(rm)[o];
      assert BetweenOuter(p, s, rs) == BetweenOuter(p, s, front) + BetweenMid(p, rb.rest, rm);
      BetweenMidCount(p, rb.rest, rm, o);
      assert multiset(BetweenOuter(p, s, rs))[o] == a * k + b * k;
      assert MiddleCount(p.middle, rs, o) == a + b;
      Scaled(multiset(BetweenOuter(p, s, rs))[o], a, b, k, MiddleCount(p.middle, rs, o));
    }
  }

  /** `between(pb, pm, pa)` yields `o` exactly as often as `o` is a middle
      outcome after an opening outcome, times the number of outcomes `pa`
      yields on `o`'s remainder. */
  lemma BetweenCount(pb: Parser, pm: Parser, pa: Parser, s: string, o: Outcome)
    requires WellFormed(pb) && WellFormed(pm) && WellFormed(pa)
    ensures multiset(Run(Between(pb, pm, pa), s))[o] == MiddleCount(pm, Run(pb, s), o) * |Run(pa, o.rest)|
  {
    BetweenOuterCount(Between(pb, pm, pa), s, Run(pb, s), o);
  }

  /** On "ab", `between(empty, string("a"), string("b"))` yields `("a", "b")`:
      the "b" the closing parser matched is still in the remainder. */
  lemma BetweenKeepsMiddleRemainder()
    ensures Run(Between(Empty, Lit("a"), Lit("b")), "ab") == [Outcome(VStr("a"), "b")]
  {
    assert Run(Empty, "ab") == [Outcome(VNone, "ab")];
    assert "ab"[1..] == "b";
    assert Run(Lit("a"), "ab") == [Outcome(VStr("a"), "b")];
    assert "b"[1..] == "";
    assert Run(Lit("b"), "b") == [Outcome(VStr("b"), "")];
    BetweenSingle(Empty, Lit("a"), Lit("b"), "ab", Outcome(VNone, "ab"), Outcome(VStr("a"), "b"), Outcome(VStr("b"), ""));
  }

  /** When each of the three parsers yields a single outcome, `between`
      yields the middle one. */
  lemma BetweenSingle(pb: Parser, pm: Parser, pa: Parser, s: string, ob: Outcome, om: Outcome, oa: Outcome)
    requires WellFormed(pb) && WellFormed(pm) && WellFormed(pa)
    requires Run(pb, s) == [ob] && Run(pm, ob.rest) == [om] && Run(pa, om.rest) == [oa]
    ensures Run(Between(pb, pm, pa), s) == [om]
  {
    var b := Between(pb, pm, pa);
    assert [ob][..0] == [] && [om][..0] == [];
    assert Copies(om, 1) == [om] by {
      assert Copies(om, 0) == [];
    }
    assert BetweenMid(b, ob.rest, [om]) == BetweenMid(b, ob.rest, []) + Copies(om, 1);
    assert BetweenOuter(b, s, [ob]) == BetweenOuter(b, s, []) + BetweenMid(b, ob.rest, [om]);
  }

  // ---------------------------------------------------------------------
  // many
  // ---------------------------------------------------------------------

  /** Because `bt` recurses through `opts`, which starts over with an empty
      list, every list `many` yields holds exactly one value. */
  lemma {:induction false} ManyFromSingletons(q: Parser, s: string)
    requires WellFormed(Many(q))
    ensures forall o | o in ManyFrom(q, [], s) :: o.value.VList? && |o.value.items| == 1
    decreases |s|, 1, 0
  {
    ManyLoopSingletons(q, s, Run(q, s));
  }

  lemma {:induction false} ManyLoopSingletons(q: Parser, s: string, rs: seq<Outcome>)
    requires WellFormed(Many(q)) && RestsWithin(rs, s, true)
    ensures forall o | o in ManyLoop(q, [], s, rs) :: o.value.VList? && |o.value.items| == 1
    decreases |s|, 0, |rs|
  {
    if rs != [] {
      var r := rs[|rs| - 1];
      ManyLoopSingletons(q, s, rs[..|rs| - 1]);
      ManyFromSingletons(q, r.rest);
    }
  }

  /** `many(p)` yields only one-element lists, and nothing at all when `p`
      yields nothing. */
  lemma ManyYieldsSingletons(q: Parser, s: string)
    requires WellFormed(Many(q))
    ensures forall o | o in Run(Many(q), s) :: o.value.VList? && |o.value.items| == 1
    ensures Run(q, s) == [] ==> Run(Many(q), s) == []
  {
    ManyFromSingletons(q, s);
    assert Run(Many(q), s) == ManyLoop(q, [], s, Run(q, s));
  }

  /** A repetition: consecutive outcomes of `q`, each run on the previous
      one's remainder, the first on `s`. */
  ghost predicate Repetition(q: Parser, s: string, steps: seq<Outcome>)
    requires WellFormed(q)
    decreases |steps|
  {
    steps == [] || (steps[0] in Run(q, s) && Repetition(q, steps[0].rest, steps[1..]))
  }

  /** What `many` reports for a repetition: the one-element list of its last
      value, with the last remainder. */
  function LastAsSingleton(steps: seq<Outcome>): Outcome
    requires |steps| > 0
  {
    var last := steps[|steps| - 1];
    Outcome(VList([last.value]), last.rest)
  }

  /** A match followed by a repetition on its remainder is a repetition, and
      a non-empty tail keeps its last match. */
  lemma RepetitionCons(q: Parser, s: string, r: Outcome, steps: seq<Outcome>)
    requires WellFormed(q) && r in Run(q, s) && Repetition(q, r.rest, steps)
    ensures Repetition(q, s, [r] + steps)
    ensures LastAsSingleton([r] + steps) == if steps == [] then Outcome(VList([r.value]), r.rest) else LastAsSingleton(steps)
  {
    assert ([r] + steps)[1..] == steps;
    if steps != [] {
      assert ([r] + steps)[|[r] + steps| - 1] == steps[|steps| - 1];
    }
  }

  lemma {:induction false} ManyFromSound(q: Parser, s: string, o: Outcome)
    requires WellFormed(Many(q)) && o in ManyFrom(q, [], s)
    ensures exists steps :: Repetition(q, s, steps) && |steps| > 0 && o == LastAsSingleton(steps)
    decreases |s|, 1, 0
  {
    ManyLoopSound(q, s, Run(q, s), o);
  }

  /** The last step of `many.bt`'s loop, unfolded. */
  lemma ManyLoopLast(q: Parser, s: string, rs: seq<Outcome>)
    requires WellFormed(Many(q)) && RestsWithin(rs, s, true) && rs != []
    ensures var r := rs[|rs| - 1];
      ManyLoop(q, [], s, rs) ==
        ManyLoop(q, [], s, rs[..|rs| - 1]) + ManyFrom(q, [], r.rest) + [Outcome(VList([r.value]), r.rest)]
  {
    assert [] + [rs[|rs| - 1].value] == [rs[|rs| - 1].value];
  }

  lemma {:induction false} ManyLoopSound(q: Parser, s: string, rs: seq<Outcome>, o: Outcome)
    requires WellFormed(Many(q)) && RestsWithin(rs, s, true)
    requires forall x | x in rs :: x in Run(q, s)
    requires o in ManyLoop(q, [], s, rs)
    ensures exists steps :: Repetition(q, s, steps) && |steps| > 0 && o == LastAsSingleton(steps)
    decreases |s|, 0, |rs|
  {
    var r := rs[|rs| - 1];
    var front := rs[..|rs| - 1];
    ManyLoopLast(q, s, rs);
    if o in ManyLoop(q, [], s, front) {
      ManyLoopSound(q, s, front, o);
    } else {
      assert r in rs;
      ManyStepSound(q, s, r, o);
    }
  }

  /** Soundness for what one iteration of the loop yields: what `opts`
      yields on the match's remainder, then the one-element list of it. */
  lemma {:induction false} ManyStepSound(q: Parser, s: string, r: Outcome, o: Outcome)
    requires WellFormed(Many(q)) && r in Run(q, s) && |r.rest| < |s|
    requires o in ManyFrom(q, [], r.rest) + [Outcome(VList([r.value]), r.rest)]
    ensures exists steps :: Repetition(q, s, steps) && |steps| > 0 && o == LastAsSingleton(steps)
    decreases |s|, 0, 0
  {
    if o in ManyFrom(q, [], r.rest) {
      ManyFromSound(q, r.rest, o);
      var steps :| Repetition(q, r.rest, steps) && |steps| > 0 && o == LastAsSingleton(steps);
      RepetitionCons(q, s, r, steps);
    } else {
      RepetitionCons(q, s, r, []);
    }
  }

  lemma {:induction false} ManyFromComplete(q: Parser, s: string, steps: seq<Outcome>)
    requires WellFormed(Many(q)) && Repetition(q, s, steps) && |steps| > 0
    ensures LastAsSingleton(steps) in ManyFrom(q, [], s)
    decreases |s|, 1, 0
  {
    ManyLoopComplete(q, s, Run(q, s), steps);
  }

  lemma {:induction false} ManyLoopComplete(q: Parser, s: string, rs: seq<Outcome>, steps: seq<Outcome>)
    requires WellFormed(Many(q)) && RestsWithin(rs, s, true)
    requires Repetition(q, s, steps) && |steps| > 0 && steps[0] in rs
    ensures LastAsSingleton(steps) in ManyLoop(q, [], s, rs)
    decreases |s|, 0, |rs|
  {
    var m := steps[0];
    var r := rs[|rs| - 1];
    var front := rs[..|rs| - 1];
    ManyLoopLast(q, s, rs);
    if m in front {
      ManyLoopComplete(q, s, front, steps);
    } else {
      assert r == m && r in rs;
      ManyStepComplete(q, s, steps);
    }
  }

  /** Completeness for one iteration of the loop, the one over the first
      match of the repetition. */
  lemma {:induction false} ManyStepComplete(q: Parser, s: string, steps: seq<Outcome>)
    requires WellFormed(Many(q)) && Repetition(q, s, steps) && |steps| > 0 && |steps[0].rest| < |s|
    ensures var r := steps[0];
      LastAsSingleton(steps) in ManyFrom(q, [], r.rest) + [Outcome(VList([r.value]), r.rest)]
    decreases |s|, 0, 0
  {
    if |steps| > 1 {
      assert steps[1..][|steps| - 2] == steps[|steps| - 1];
      ManyFromComplete(q, steps[0].rest, steps[1..]);
    }
  }

  /** `many(q)` yields, for every non-empty repetition of `q`, the one-element
      list of its last value with its last remainder, and nothing else. In
      particular every outcome of `q` itself appears as a one-element list. */
  lemma ManyIsLastOfRepetition(q: Parser, s: string, o: Outcome)
    requires WellFormed(Many(q))
    ensures o in Run(Many(q), s) <==>
      exists steps :: Repetition(q, s, steps) && |steps| > 0 && o == LastAsSingleton(steps)
    ensures forall r | r in Run(q, s) :: Outcome(VList([r.value]), r.rest) in Run(Many(q), s)
  {
    if o in Run(Many(q), s) {
      ManyFromSound(q, s, o);
    }
    if exists steps :: Repetition(q, s, steps) && |steps| > 0 && o == LastAsSingleton(steps) {
      var steps :| Repetition(q, s, steps) && |steps| > 0 && o == LastAsSingleton(steps);
      ManyFromComplete(q, s, steps);
    }
    forall r | r in Run(q, s)
      ensures Outcome(VList([r.value]), r.rest) in Run(Many(q), s)
    {
      assert [r][1..] == [];
      assert Repetition(q, s, [r]);
      ManyFromComplete(q, s, [r]);
    }
  }

  /** On "aa", `many(string("a"))` yields `(["a"], "")` and then
      `(["a"], "a")`: the first match is not kept in the longer result. */
  lemma ManyForgetsEarlierMatches()
    ensures Run(Many(Lit("a")), "aa") == [Outcome(VList([VStr("a")]), ""), Outcome(VList([VStr("a")]), "a")]
  {
    var q := Lit("a");
    assert Run(q, "aa") == [Outcome(VStr("a"), "a")];
    assert Run(q, "a") == [Outcome(VStr("a"), "")];
    assert Run(q, "") == [];
    assert ManyFrom(q, [], "") == [];
    assert [] + [VStr("a")] == [VStr("a")];
    assert [Outcome(VStr("a"), "")][..0] == [];
    assert ManyFrom(q, [], "a") == [Outcome(VList([VStr("a")]), "")];
    assert [Outcome(VStr("a"), "a")][..0] == [];
    assert ManyFrom(q, [], "aa") == [Outcome(VList([VStr("a")]), ""), Outcome(VList([VStr("a")]), "a")];
  }
}
