/** `between` in parsec2.py builds its outcome from `v.value`, but no `v` is
    bound there (the loop variables are `rb`, `r` and `ra`, and the module has
    no global `v`). Evaluating the yield raises `NameError`, so the generator
    as written raises at its first would-be outcome. This module models that
    behaviour and relates it to the intended one, `Parsec2.BetweenOuter`,
    which yields `r.value`. */
module Parsec2Findings {
  import opened Common
  import opened Parsec2

  /** What running a generator to exhaustion gives: the outcomes it yielded,
      or a `NameError` raised before it finished. */
  datatype Generated = Yielded(outcomes: seq<Outcome>) | RaisedNameError

  /** Running `g1` and then `g2`: an error in either stops the whole. */
  function Then(g1: Generated, g2: Generated): (g: Generated)
    ensures g.RaisedNameError? <==> g1.RaisedNameError? || g2.RaisedNameError?
    ensures g.Yielded? ==> g.outcomes == g1.outcomes + g2.outcomes
  {
    if g1.RaisedNameError? || g2.RaisedNameError? then RaisedNameError
    else Yielded(g1.outcomes + g2.outcomes)
  }

  /** The innermost loop as written: each complete closing outcome reaches
      the yield and raises, so nothing is ever yielded. */
  function InnerAsWritten(rs: seq<Outcome>): (g: Generated)
    ensures g.Yielded? ==> g.outcomes == []
  {
    if rs == [] then Yielded([])
    else
      Then(InnerAsWritten(rs[..|rs| - 1]),
           if rs[|rs| - 1].Complete? then RaisedNameError else Yielded([]))
  }

  /** The middle loop as written: it reaches the innermost loop for each
      complete middle outcome, and never yields anything. */
  function MidAsWritten(p: Parser, s: string, rs: seq<Outcome>): (g: Generated)
    requires p.Between? && WellFormed(p) && RestsWithin(rs, s, Consuming(p.middle))
    ensures g.Yielded? ==> g.outcomes == []
    decreases |rs|
  {
    if rs == [] then Yielded([])
    else
      var r := rs[|rs| - 1];
      Then(MidAsWritten(p, s, rs[..|rs| - 1]),
           if r.Complete? then InnerAsWritten(Run(p.after, r.rest)) else Yielded([]))
  }

  /** The outer loop as written, over the opening outcomes; it never yields
      anything either. */
  function OuterAsWritten(p: Parser, s: string, rs: seq<Outcome>): (g: Generated)
    requires p.Between? && WellFormed(p) && RestsWithin(rs, s, Consuming(p.before))
    ensures g.Yielded? ==> g.outcomes == []
    decreases |rs|
  {
    if rs == [] then Yielded([])
    else
      var rb := rs[|rs| - 1];
      Then(OuterAsWritten(p, s, rs[..|rs| - 1]),
           if rb.Complete? then MidAsWritten(p, rb.rest, Run(p.middle, rb.rest)) else Yielded([]))
  }

  /** `between(pb, p, pa)(s)` as written in parsec2.py:112-121. */
  function BetweenAsWritten(pb: Parser, p: Parser, pa: Parser, s: string): (g: Generated)
    requires WellFormed(pb) && WellFormed(p) && WellFormed(pa)
    ensures g.Yielded? ==> g.outcomes == []
  {
    var b := Between(pb, p, pa);
    OuterAsWritten(b, s, Run(pb, s))
  }

  /** How the as-written generator ends, given what the intended one yields:
      it raises as soon as the intended one would yield something. */
  function RaisesIfAny(out: seq<Outcome>): Generated
  {
    if out == [] then Yielded([]) else RaisedNameError
  }

  lemma {:induction false} InnerAsWrittenRaises(v: Value, rs: seq<Outcome>)
    ensures InnerAsWritten(rs) == RaisesIfAny(BetweenInner(v, rs))
    decreases |rs|
  {
    if rs != [] {
      InnerAsWrittenRaises(v, rs[..|rs| - 1]);
    }
  }

  lemma {:induction false} MidAsWrittenRaises(p: Parser, s: string, rs: seq<Outcome>)
    requires p.Between? && WellFormed(p) && RestsWithin(rs, s, Consuming(p.middle))
    ensures MidAsWritten(p, s, rs) == RaisesIfAny(BetweenMid(p, s, rs))
    decreases |rs|
  {
    if rs != [] {
      var r := rs[|rs| - 1];
      MidAsWrittenRaises(p, s, rs[..|rs| - 1]);
      if r.Complete? {
        InnerAsWrittenRaises(r.value, Run(p.after, r.rest));
      }
    }
  }

  lemma {:induction false} OuterAsWrittenRaises(p: Parser, s: string, rs: seq<Outcome>)
    requires p.Between? && WellFormed(p) && RestsWithin(rs, s, Consuming(p.before))
    ensures OuterAsWritten(p, s, rs) == RaisesIfAny(BetweenOuter(p, s, rs))
    decreases |rs|
  {
    if rs != [] {
      var rb := rs[|rs| - 1];
      OuterAsWrittenRaises(p, s, rs[..|rs| - 1]);
      if rb.Complete? {
        MidAsWrittenRaises(p, rb.rest, Run(p.middle, rb.rest));
      }
    }
  }

  /** As written, `between` yields nothing when no bracketed match exists and
      raises `NameError` as soon as one does. */
  lemma BetweenAsWrittenRaisesIffMatch(pb: Parser, p: Parser, pa: Parser, s: string)
    requires WellFormed(pb) && WellFormed(p) && WellFormed(pa)
    ensures BetweenAsWritten(pb, p, pa, s).Yielded? ==> BetweenAsWritten(pb, p, pa, s).outcomes == []
    ensures BetweenAsWritten(pb, p, pa, s).RaisedNameError? <==> Run(Between(pb, p, pa), s) != []
  {
    OuterAsWrittenRaises(Between(pb, p, pa), s, Run(pb, s));
  }

  /** The input that shows it: `between(empty, string("x"), empty)` on "x".
      The intended parser yields `Complete("x", "")`; the code raises. */
  lemma BetweenAsWrittenCounterexample()
    ensures BetweenAsWritten(Empty, Lit("x"), Empty, "x") == RaisedNameError
    ensures Run(Between(Empty, Lit("x"), Empty), "x") == [Complete(VStr("x"), "")]
  {
    var b := Between(Empty, Lit("x"), Empty);
    var ob, om, oa := Complete(VNone, "x"), Complete(VStr("x"), ""), Complete(VNone, "");
    assert Run(Empty, "x") == [ob];
    assert "x"[1..] == "";
    assert Run(Lit("x"), "x") == [om];
    assert Run(Empty, "") == [oa];
    assert [ob][..0] == [] && [om][..0] == [] && [oa][..0] == [];
    assert BetweenInner(VStr("x"), [oa]) == BetweenInner(VStr("x"), []) + [om];
    assert BetweenMid(b, "x", [om]) == BetweenMid(b, "x", []) + BetweenInner(VStr("x"), [oa]);
    assert BetweenOuter(b, "x", [ob]) == BetweenOuter(b, "x", []) + BetweenMid(b, "x", [om]);
    BetweenAsWrittenRaisesIffMatch(Empty, Lit("x"), Empty, "x");
  }
}
