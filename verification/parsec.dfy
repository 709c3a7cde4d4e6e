/** parsec.py: the earliest version, in which every parser yields pairs
    `(value, remainder)`. `Run(p, s)` gives the finite sequence of pairs that
    the generator `p(s)` yields. Its `Compose` is not part of this model. */
module Parsec {
  import opened Common

  /** The pair `(value, remainder)`. */
  datatype Outcome = Outcome(value: Value, rest: string)

  /** The usable combinators of parsec.py. */
  datatype Parser =
    | Lit(text: string)
    | Re(matcher: Matcher)
    | Empty
    | Choice(left: Parser, right: Parser)
    | Many(body: Parser)
    | Pair(first: Parser, second: Parser)
    | Between(before: Parser, middle: Parser, after: Parser)

  /** Every outcome of `p` leaves a strictly shorter remainder (a syntactic
      sufficient condition). `between` yields the middle parser's remainder,
      so the closing parser does not count. */
  ghost predicate Consuming(p: Parser)
  {
    match p
    case Lit(t) => |t| > 0
    case Re(m) => forall t :: m(t).MatchEnd? ==> m(t).end > 0
    case Empty => false
    case Choice(a, b) => Consuming(a) && Consuming(b)
    case Many(q) => Consuming(q)
    case Pair(a, b) => Consuming(a) || Consuming(b)
    case Between(a, b, _) => Consuming(a) || Consuming(b)
  }

  /** The parsers whose generators terminate: the body of every `many`
      consumes input. */
  ghost predicate WellFormed(p: Parser)
  {
    match p
    case Choice(a, b) => WellFormed(a) && WellFormed(b)
    case Many(q) => Consuming(q) && WellFormed(q)
    case Pair(a, b) => WellFormed(a) && WellFormed(b)
    case Between(a, b, c) => WellFormed(a) && WellFormed(b) && WellFormed(c)
    case _ => true
  }

  /** Every remainder is a suffix of `s`, a strictly shorter one when `strict`
      holds. */
  ghost predicate RestsWithin(out: seq<Outcome>, s: string, strict: bool)
  {
    forall o | o in out :: IsSuffix(o.rest, s) && (strict ==> |o.rest| < |s|)
  }

  lemma RestsWithinTrans(out: seq<Outcome>, m: string, s: string, inner: bool, outer: bool)
    requires RestsWithin(out, m, inner) && IsSuffix(m, s) && (outer ==> |m| < |s|)
    ensures RestsWithin(out, s, inner || outer)
  {
    forall o | o in out
      ensures IsSuffix(o.rest, s) && (inner || outer ==> |o.rest| < |s|)
    {
      SuffixTrans(o.rest, m, s);
    }
  }

  /** The pairs that `p(s)` yields, in order. */
  function Run(p: Parser, s: string): (out: seq<Outcome>)
    requires WellFormed(p)
    ensures RestsWithin(out, s, Consuming(p))
    decreases p, 2, 0, 0, 0
  {
    match p
    case Lit(t) =>
      if t <= s then [Outcome(VStr(t), s[|t|..])] else []
    case Re(m) =>
      (match m(s)
       case NoMatch => []
       case MatchEnd(n) => [Outcome(VStr(s[..n]), s[n..])])
    case Empty => [Outcome(VNone, s)]
    case Choice(a, b) => Run(a, s) + Run(b, s)
    case Many(q) => ManyFrom(q, [], s)
    case Pair(a, _) => PairLoop(p, s, Run(a, s))
    case Between(b, _, _) => BetweenOuter(p, s, Run(b, s))
  }

  /** `many.bt(l, s)` with `l == vals`. */
  function ManyFrom(q: Parser, vals: seq<Value>, s: string): (out: seq<Outcome>)
    requires WellFormed(Many(q))
    ensures RestsWithin(out, s, true)
    decreases Many(q), 1, |s|, 1, 0
  {
    ManyLoop(q, vals, s, Run(q, s))
  }

  /** The loop of `many.bt` over the outcomes `rs` of the body: for each, what
      `opts` yields on its remainder (a fresh `bt` with an empty list), then
      the list `vals` with this value in the last slot. */
  function ManyLoop(q: Parser, vals: seq<Value>, s: string, rs: seq<Outcome>): (out: seq<Outcome>)
    requires WellFormed(Many(q)) && RestsWithin(rs, s, true)
    ensures RestsWithin(out, s, true)
    decreases Many(q), 1, |s|, 0, |rs|
  {
    if rs == [] then []
    else
      var r := rs[|rs| - 1];
      var deeper := ManyFrom(q, [], r.rest);
      RestsWithinTrans(deeper, r.rest, s, true, true);
      ManyLoop(q, vals, s, rs[..|rs| - 1]) + deeper + [Outcome(VList(vals + [r.value]), r.rest)]
  }

  /** The outer loop of `pair`, over the outcomes of the first parser. */
  function PairLoop(p: Parser, s: string, rs: seq<Outcome>): (out: seq<Outcome>)
    requires p.Pair? && WellFormed(p) && RestsWithin(rs, s, Consuming(p.first))
    ensures RestsWithin(out, s, Consuming(p))
    decreases p, 1, 0, 0, |rs|
  {
    if rs == [] then []
    else
      var r1 := rs[|rs| - 1];
      var inner := PairInner(r1.value, Run(p.second, r1.rest));
      RestsWithinTrans(inner, r1.rest, s, Consuming(p.second), Consuming(p.first));
      PairLoop(p, s, rs[..|rs| - 1]) + inner
  }

  /** The inner loop of `pair`: the tuple of the two values, with the second
      remainder. */
  function PairInner(v1: Value, rs: seq<Outcome>): (out: seq<Outcome>)
    ensures forall o | o in out :: exists r | r in rs :: r.rest == o.rest
  {
    if rs == [] then []
    else
      var r2 := rs[|rs| - 1];
      PairInner(v1, rs[..|rs| - 1]) + [Outcome(VPair(v1, r2.value), r2.rest)]
  }

  /** The outer loop of `between`, over the outcomes of the opening parser. */
  function BetweenOuter(p: Parser, s: string, rs: seq<Outcome>): (out: seq<Outcome>)
    requires p.Between? && WellFormed(p) && RestsWithin(rs, s, Consuming(p.before))
    ensures RestsWithin(out, s, Consuming(p))
    decreases p, 1, 0, 1, |rs|
  {
    if rs == [] then []
    else
      var rb := rs[|rs| - 1];
      var mid := BetweenMid(p, rb.rest, Run(p.middle, rb.rest));
      RestsWithinTrans(mid, rb.rest, s, Consuming(p.middle), Consuming(p.before));
      BetweenOuter(p, s, rs[..|rs| - 1]) + mid
  }

  /** The middle loop of `between`: for each middle outcome, one copy of it
      per outcome of the closing parser run on its remainder. */
  function BetweenMid(p: Parser, s: string, rs: seq<Outcome>): (out: seq<Outcome>)
    requires p.Between? && WellFormed(p) && RestsWithin(rs, s, Consuming(p.middle))
    ensures RestsWithin(out, s, Consuming(p.middle))
    decreases p, 1, 0, 0, |rs|
  {
    if rs == [] then []
    else
      var r := rs[|rs| - 1];
      BetweenMid(p, s, rs[..|rs| - 1]) + Copies(r, |Run(p.after, r.rest)|)
  }

  /** The innermost loop of `between`, which yields `(v, r)` once per closing
      outcome, whatever those outcomes are: `n` copies of `o`. */
  function Copies(o: Outcome, n: nat): (out: seq<Outcome>)
    ensures |out| == n
    ensures forall k :: 0 <= k < n ==> out[k] == o
  {
    if n == 0 then [] else Copies(o, n - 1) + [o]
  }

  /** One more iteration of the `many.bt` loop. */
  lemma ManyLoopSnoc(q: Parser, vals: seq<Value>, s: string, rs: seq<Outcome>, k: nat)
    requires WellFormed(Many(q)) && RestsWithin(rs, s, true) && k < |rs|
    ensures ManyLoop(q, vals, s, rs[..k + 1]) ==
            ManyLoop(q, vals, s, rs[..k]) + ManyFrom(q, [], rs[k].rest) + [Outcome(VList(vals + [rs[k].value]), rs[k].rest)]
  {
    assert rs[..k + 1][..k] == rs[..k];
  }
}
