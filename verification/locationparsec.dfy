/** locationparsec.py: the version in which every parser takes a location (a
    path of combinator names) besides the input, and yields triples
    `(value, location, remainder)`. `Run(p, loc, s)` gives the finite sequence
    of triples that the generator `p(loc, s)` yields. */
module LocationParsec {
  import opened Common

  /** The triple `(value, location, remainder)`. */
  datatype Outcome = Outcome(value: Value, loc: Path, rest: string)

  /** The combinators of locationparsec.py. `Compose(name, parts, combine)` is
      `Compose(*parts)(func)` for a `func` whose `__name__` is `name` and that
      maps the part values to `combine(values)`. */
  datatype Parser =
    | Lit(text: string)
    | Re(matcher: Matcher)
    | Empty
    | Unit(unit: Value)
    | Choice(left: Parser, right: Parser)
    | Compose(name: string, parts: seq<Parser>, combine: seq<Value> -> Value)
    | Some(body: Parser)
    | Pair(first: Parser, second: Parser)
    | Between(before: Parser, middle: Parser, after: Parser)

  /** `many(p)` is `choice(some(p), unit([]))`; it terminates exactly when
      `some(p)` does. */
  function Many(p: Parser): (m: Parser)
    ensures WellFormed(m) <==> WellFormed(Some(p))
  {
    Choice(Some(p), Unit(VList([])))
  }

  /** Every outcome of `p` leaves a strictly shorter remainder (a syntactic
      sufficient condition, as in module Parsec2). */
  ghost predicate Consuming(p: Parser)
  {
    match p
    case Lit(t) => |t| > 0
    case Re(m) => forall t :: m(t).MatchEnd? ==> m(t).end > 0
    case Empty => false
    case Unit(_) => false
    case Choice(a, b) => Consuming(a) && Consuming(b)
    case Compose(_, parts, _) => exists j :: 0 <= j < |parts| && Consuming(parts[j])
    case Some(q) => Consuming(q)
    case Pair(a, b) => Consuming(a) || Consuming(b)
    case Between(a, b, c) => Consuming(a) || Consuming(b) || Consuming(c)
  }

  ghost predicate ConsumingFrom(parts: seq<Parser>, i: nat)
  {
    exists j :: i <= j < |parts| && Consuming(parts[j])
  }

  /** The parsers whose generators terminate: the body of every `some`
      consumes input. */
  ghost predicate WellFormed(p: Parser)
  {
    match p
    case Choice(a, b) => WellFormed(a) && WellFormed(b)
    case Compose(_, parts, _) => forall j :: 0 <= j < |parts| ==> WellFormed(parts[j])
    case Some(q) => Consuming(q) && WellFormed(q)
    case Pair(a, b) => WellFormed(a) && WellFormed(b)
    case Between(a, b, c) => WellFormed(a) && WellFormed(b) && WellFormed(c)
    case _ => true
  }

  /** Every outcome extends the location `loc` and leaves a suffix of `s`, a
      strictly shorter one when `strict` holds. */
  ghost predicate Within(out: seq<Outcome>, loc: Path, s: string, strict: bool)
  {
    forall o | o in out :: loc <= o.loc && IsSuffix(o.rest, s) && (strict ==> |o.rest| < |s|)
  }

  lemma WithinTrans(out: seq<Outcome>, inLoc: Path, m: string, loc: Path, s: string, inner: bool, outer: bool)
    requires Within(out, inLoc, m, inner) && loc <= inLoc
    requires IsSuffix(m, s) && (outer ==> |m| < |s|)
    ensures Within(out, loc, s, inner || outer)
  {
    forall o | o in out
      ensures loc <= o.loc && IsSuffix(o.rest, s) && (inner || outer ==> |o.rest| < |s|)
    {
      SuffixTrans(o.rest, m, s);
      assert o.loc[..|loc|] == o.loc[..|inLoc|][..|loc|];
    }
  }

  /** The triples that `p(loc, s)` yields, in order. */
  function Run(p: Parser, loc: Path, s: string): (out: seq<Outcome>)
    requires WellFormed(p)
    ensures Within(out, loc, s, Consuming(p))
    decreases p, 2, 0, 0, 0
  {
    match p
    case Lit(t) =>
      if t <= s then [Outcome(VStr(t), loc, s[|t|..])] else []
    case Re(m) =>
      (match m(s)
       case NoMatch => []
       case MatchEnd(n) => [Outcome(VStr(s[..n]), loc, s[n..])])
    case Empty => [Outcome(VNone, loc, s)]
    case Unit(v) => [Outcome(v, loc, s)]
    case Choice(a, b) => Run(a, loc, s) + Run(b, loc, s)
    case Compose(name, _, _) =>
      var out := Step(p, 0, [], loc + [name], s);
      WithinTrans(out, loc + [name], s, loc, s, ConsumingFrom(p.parts, 0), false);
      out
    case Some(q) => SomeFrom(q, [], loc, s)
    case Pair(a, _) => PairLoop(p, loc, s, Run(a, loc, s))
    case Between(b, _, _) => BetweenOuter(p, loc, s, Run(b, loc, s))
  }

  /** `Compose.bt(l, i, loc, s)` with `l == vals`. */
  function Step(c: Parser, i: nat, vals: seq<Value>, loc: Path, s: string): (out: seq<Outcome>)
    requires c.Compose? && WellFormed(c) && i <= |c.parts|
    ensures Within(out, loc, s, ConsumingFrom(c.parts, i))
    decreases c, 1, |c.parts| - i, 1, 0
  {
    if i >= |c.parts| then [Outcome(c.combine(vals), loc, s)]
    else
      assert c.parts[i] in c.parts;
      StepLoop(c, i, vals, loc, s, Run(c.parts[i], loc, s))
  }

  /** The loop `for value, loc, remainder in self.parts[i](location, string)`
      of `Compose.bt`: each outcome continues with the next part, from that
      outcome's location and remainder. */
  function StepLoop(c: Parser, i: nat, vals: seq<Value>, loc: Path, s: string, rs: seq<Outcome>): (out: seq<Outcome>)
    requires c.Compose? && WellFormed(c) && i < |c.parts|
    requires Within(rs, loc, s, Consuming(c.parts[i]))
    ensures Within(out, loc, s, ConsumingFrom(c.parts, i))
    decreases c, 1, |c.parts| - i, 0, |rs|
  {
    if rs == [] then []
    else
      var r := rs[|rs| - 1];
      var deeper := Step(c, i + 1, vals + [r.value], r.loc, r.rest);
      WithinTrans(deeper, r.loc, r.rest, loc, s, ConsumingFrom(c.parts, i + 1), Consuming(c.parts[i]));
      StepLoop(c, i, vals, loc, s, rs[..|rs| - 1]) + deeper
  }

  /** One more iteration of the `Compose.bt` loop. */
  lemma StepLoopSnoc(c: Parser, i: nat, vals: seq<Value>, loc: Path, s: string, rs: seq<Outcome>, k: nat)
    requires c.Compose? && WellFormed(c) && i < |c.parts|
    requires Within(rs, loc, s, Consuming(c.parts[i])) && k < |rs|
    ensures StepLoop(c, i, vals, loc, s, rs[..k + 1]) ==
            StepLoop(c, i, vals, loc, s, rs[..k]) + Step(c, i + 1, vals + [rs[k].value], rs[k].loc, rs[k].rest)
  {
    assert rs[..k + 1][..k] == rs[..k];
  }

  /** `some.bt(vs, loc, s)` with `vs == vals`. */
  function SomeFrom(q: Parser, vals: seq<Value>, loc: Path, s: string): (out: seq<Outcome>)
    requires WellFormed(Some(q))
    ensures Within(out, loc, s, true)
    decreases Some(q), 1, |s|, 1, 0
  {
    SomeLoop(q, vals, loc, s, Run(q, loc, s))
  }

  /** The loop of `some.bt`: for each outcome of the body, the longer
      repetitions first, then the list so far, with that outcome's location
      and remainder. */
  function SomeLoop(q: Parser, vals: seq<Value>, loc: Path, s: string, rs: seq<Outcome>): (out: seq<Outcome>)
    requires WellFormed(Some(q)) && Within(rs, loc, s, true)
    ensures Within(out, loc, s, true)
    decreases Some(q), 1, |s|, 0, |rs|
  {
    if rs == [] then []
    else
      var r := rs[|rs| - 1];
      var deeper := SomeFrom(q, vals + [r.value], r.loc, r.rest);
      WithinTrans(deeper, r.loc, r.rest, loc, s, true, true);
      SomeLoop(q, vals, loc, s, rs[..|rs| - 1]) + deeper + [Outcome(VList(vals + [r.value]), r.loc, r.rest)]
  }

  /** One more iteration of the `some.bt` loop. */
  lemma SomeLoopSnoc(q: Parser, vals: seq<Value>, loc: Path, s: string, rs: seq<Outcome>, k: nat)
    requires WellFormed(Some(q)) && Within(rs, loc, s, true) && k < |rs|
    ensures SomeLoop(q, vals, loc, s, rs[..k + 1]) ==
            SomeLoop(q, vals, loc, s, rs[..k]) + SomeFrom(q, vals + [rs[k].value], rs[k].loc, rs[k].rest) +
            [Outcome(VList(vals + [rs[k].value]), rs[k].loc, rs[k].rest)]
  {
    assert rs[..k + 1][..k] == rs[..k];
  }

  /** The outer loop of `pair`, over the outcomes of the first parser. */
  function PairLoop(p: Parser, loc: Path, s: string, rs: seq<Outcome>): (out: seq<Outcome>)
    requires p.Pair? && WellFormed(p) && Within(rs, loc, s, Consuming(p.first))
    ensures Within(out, loc, s, Consuming(p))
    decreases p, 1, 0, 0, |rs|
  {
    if rs == [] then []
    else
      var r1 := rs[|rs| - 1];
      var rs2 := Run(p.second, r1.loc, r1.rest);
      var inner := PairInner(r1.value, rs2);
      WithinTrans(inner, r1.loc, r1.rest, loc, s, Consuming(p.second), Consuming(p.first));
      PairLoop(p, loc, s, rs[..|rs| - 1]) + inner
  }

  /** The inner loop of `pair`: the tuple of the two values, with the second
      outcome's location and remainder. */
  function PairInner(v1: Value, rs: seq<Outcome>): (out: seq<Outcome>)
    ensures forall o | o in out :: exists r | r in rs :: o.loc == r.loc && o.rest == r.rest
    ensures forall m, l, strict :: Within(rs, l, m, strict) ==> Within(out, l, m, strict)
  {
    if rs == [] then []
    else
      var r2 := rs[|rs| - 1];
      PairInner(v1, rs[..|rs| - 1]) + [Outcome(VPair(v1, r2.value), r2.loc, r2.rest)]
  }

  /** The outer loop of `between`, over the outcomes of the opening parser. */
  function BetweenOuter(p: Parser, loc: Path, s: string, rs: seq<Outcome>): (out: seq<Outcome>)
    requires p.Between? && WellFormed(p) && Within(rs, loc, s, Consuming(p.before))
    ensures Within(out, loc, s, Consuming(p))
    decreases p, 1, 0, 1, |rs|
  {
    if rs == [] then []
    else
      var rb := rs[|rs| - 1];
      var mid := BetweenMid(p, rb.loc, rb.rest, Run(p.middle, rb.loc, rb.rest));
      WithinTrans(mid, rb.loc, rb.rest, loc, s, Consuming(p.middle) || Consuming(p.after), Consuming(p.before));
      BetweenOuter(p, loc, s, rs[..|rs| - 1]) + mid
  }

  /** The middle loop of `between`, over the outcomes of the middle parser. */
  function BetweenMid(p: Parser, loc: Path, s: string, rs: seq<Outcome>): (out: seq<Outcome>)
    requires p.Between? && WellFormed(p) && Within(rs, loc, s, Consuming(p.middle))
    ensures Within(out, loc, s, Consuming(p.middle) || Consuming(p.after))
    decreases p, 1, 0, 0, |rs|
  {
    if rs == [] then []
    else
      var r := rs[|rs| - 1];
      var inner := BetweenInner(r.value, r.loc, Run(p.after, r.loc, r.rest));
      WithinTrans(inner, r.loc, r.rest, loc, s, Consuming(p.after), Consuming(p.middle));
      BetweenMid(p, loc, s, rs[..|rs| - 1]) + inner
  }

  /** The inner loop of `between`: the middle value and the middle parser's
      location `l`, with the remainder of each closing outcome. */
  function BetweenInner(v: Value, l: Path, rs: seq<Outcome>): (out: seq<Outcome>)
    ensures forall o | o in out :: o.loc == l && exists r | r in rs :: o.rest == r.rest
  {
    if rs == [] then []
    else
      var ra := rs[|rs| - 1];
      BetweenInner(v, l, rs[..|rs| - 1]) + [Outcome(v, l, ra.rest)]
  }

  /** `parse(parser, string)`: every outcome, from the empty location. */
  function Parse(p: Parser, s: string): (out: seq<Outcome>)
    requires WellFormed(p)
    ensures forall o | o in out :: IsSuffix(o.rest, s)
  {
    Run(p, [], s)
  }
}
