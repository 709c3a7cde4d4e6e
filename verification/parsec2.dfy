/** parsec2.py: the version whose outcomes are `Complete(value, remainder)` or
    `Partial(location)`. A parser is a value of the datatype `Parser`; `Run`
    gives the finite sequence that its generator yields on an input string. */
module Parsec2 {
  import opened Common

  datatype Outcome = Complete(value: Value, rest: string) | Partial(loc: Path)

  /** The combinators of parsec2.py. `Compose(name, parts, combine, partial)`
      is `Compose(*parts, partial=partial)(func)` for a `func` whose
      `__name__` is `name` and that maps the part values to `combine(values)`. */
  datatype Parser =
    | Lit(text: string)
    | Re(matcher: Matcher)
    | Empty
    | Unit(unit: Value)
    | Choice(left: Parser, right: Parser)
    | Compose(name: string, parts: seq<Parser>, combine: seq<Value> -> Value, partial: bool)
    | Some(body: Parser)
    | Pair(first: Parser, second: Parser)
    | Between(before: Parser, middle: Parser, after: Parser)

  /** `many(p)` is `choice(some(p), unit([]))`; it terminates exactly when
      `some(p)` does. */
  function Many(p: Parser): (m: Parser)
    ensures WellFormed(m) <==> WellFormed(Some(p))
  {
    Choice(Some(p), Unit(VList([])))
  }

  /** Every complete outcome of `p` leaves a strictly shorter remainder. This
      is a syntactic sufficient condition; for a regex it is the property of
      the pattern that it never matches the empty string. */
  ghost predicate Consuming(p: Parser)
  {
    match p
    case Lit(t) => |t| > 0
    case Re(m) => forall t :: m(t).MatchEnd? ==> m(t).end > 0
    case Empty => false
    case Unit(_) => false
    case Choice(a, b) => Consuming(a) && Consuming(b)
    case Compose(_, parts, _, _) => exists j :: 0 <= j < |parts| && Consuming(parts[j])
    case Some(q) => Consuming(q)
    case Pair(a, b) => Consuming(a) || Consuming(b)
    case Between(a, b, c) => Consuming(a) || Consuming(b) || Consuming(c)
  }

  /** Some part from index `i` on is consuming. */
  ghost predicate ConsumingFrom(parts: seq<Parser>, i: nat)
  {
    exists j :: i <= j < |parts| && Consuming(parts[j])
  }

  /** Some part from `i` on consumes iff part `i` does or one after it does. */
  lemma ConsumingFromStep(parts: seq<Parser>, i: nat)
    requires i < |parts|
    ensures ConsumingFrom(parts, i) <==> Consuming(parts[i]) || ConsumingFrom(parts, i + 1)
  {
    if ConsumingFrom(parts, i) {
      var j :| i <= j < |parts| && Consuming(parts[j]);
      assert j == i || i + 1 <= j;
    }
    if Consuming(parts[i]) {
      assert i <= i < |parts|;
    }
  }

  /** The parsers on which the Python generators terminate by construction:
      `some(q)` recurses on the remainder of each match of `q`, so `q` must
      consume input. */
  ghost predicate WellFormed(p: Parser)
  {
    match p
    case Choice(a, b) => WellFormed(a) && WellFormed(b)
    case Compose(_, parts, _, _) => forall j :: 0 <= j < |parts| ==> WellFormed(parts[j])
    case Some(q) => Consuming(q) && WellFormed(q)
    case Pair(a, b) => WellFormed(a) && WellFormed(b)
    case Between(a, b, c) => WellFormed(a) && WellFormed(b) && WellFormed(c)
    case _ => true
  }

  /** Every complete outcome's remainder is a suffix of `s`, and a strictly
      shorter one when `strict` holds. */
  ghost predicate RestsWithin(out: seq<Outcome>, s: string, strict: bool)
  {
    forall o | o in out && o.Complete? :: IsSuffix(o.rest, s) && (strict ==> |o.rest| < |s|)
  }

  lemma RestsWithinTrans(out: seq<Outcome>, m: string, s: string, inner: bool, outer: bool)
    requires RestsWithin(out, m, inner) && IsSuffix(m, s) && (outer ==> |m| < |s|)
    ensures RestsWithin(out, s, inner || outer)
  {
    forall o | o in out && o.Complete?
      ensures IsSuffix(o.rest, s) && (inner || outer ==> |o.rest| < |s|)
    {
      SuffixTrans(o.rest, m, s);
    }
  }

  /** No outcome in `rs` is complete. */
  predicate NoComplete(rs: seq<Outcome>)
  {
    forall k :: 0 <= k < |rs| ==> rs[k].Partial?
  }

  /** The locations of the partial outcomes in `rs`, in order: one per
      outcome exactly when none of them is complete. */
  function Locations(rs: seq<Outcome>): (paths: seq<Path>)
    ensures |paths| <= |rs|
    ensures |paths| == |rs| <==> NoComplete(rs)
  {
    if rs == [] then []
    else Locations(rs[..|rs| - 1]) + (if rs[|rs| - 1].Partial? then [rs[|rs| - 1].loc] else [])
  }

  /** `Partial(partial + [name])` for each collected path, in order. */
  function Tagged(name: string, paths: seq<Path>): (out: seq<Outcome>)
    ensures NoComplete(out)
  {
    if paths == [] then []
    else Tagged(name, paths[..|paths| - 1]) + [Partial(paths[|paths| - 1] + [name])]
  }

  /** What `Compose.bt` yields after its loop when part `i` produced the
      outcomes `rs`: nothing if one of them was complete or the combinator
      was built with `partial=False`, and otherwise each collected location
      extended by the combinator's name, or `Partial([name])` if there were
      none. */
  function Reported(c: Parser, rs: seq<Outcome>): (out: seq<Outcome>)
    requires c.Compose?
    ensures NoComplete(out)
  {
    if c.partial && NoComplete(rs) then
      var paths := Locations(rs);
      Tagged(c.name, paths) + (if paths == [] then [Partial([c.name])] else [])
    else []
  }

  /** The outcomes that parser `p` yields on input `s`, in order. */
  function Run(p: Parser, s: string): (out: seq<Outcome>)
    requires WellFormed(p)
    ensures RestsWithin(out, s, Consuming(p))
    decreases p, 2, 0, 0, 0
  {
    match p
    case Lit(t) =>
      if t <= s then [Complete(VStr(t), s[|t|..])] else []
    case Re(m) =>
      (match m(s)
       case NoMatch => []
       case MatchEnd(n) => [Complete(VStr(s[..n]), s[n..])])
    case Empty => [Complete(VNone, s)]
    case Unit(v) => [Complete(v, s)]
    case Choice(a, b) => Run(a, s) + Run(b, s)
    case Compose(_, _, _, _) => Step(p, 0, [], s)
    case Some(q) => SomeFrom(q, [], s)
    case Pair(a, _) => PairLoop(p, s, Run(a, s))
    case Between(b, _, _) => BetweenOuter(p, s, Run(b, s))
  }

  /** `Compose.bt(l, i, string)` with `l == vals`: part `i` onwards, the
      values of parts `0..i` already in `vals`. */
  function Step(c: Parser, i: nat, vals: seq<Value>, s: string): (out: seq<Outcome>)
    requires c.Compose? && WellFormed(c) && i <= |c.parts|
    ensures RestsWithin(out, s, ConsumingFrom(c.parts, i))
    decreases c, 1, |c.parts| - i, 1, 0
  {
    if i >= |c.parts| then [Complete(c.combine(vals), s)]
    else
      assert c.parts[i] in c.parts;
      var rs := Run(c.parts[i], s);
      StepLoop(c, i, vals, s, rs) + Reported(c, rs)
  }

  /** The `for result in self.parts[i](string)` loop of `Compose.bt`, over
      the outcomes `rs`: each complete one continues with the next part. */
  function StepLoop(c: Parser, i: nat, vals: seq<Value>, s: string, rs: seq<Outcome>): (out: seq<Outcome>)
    requires c.Compose? && WellFormed(c) && i < |c.parts|
    requires RestsWithin(rs, s, Consuming(c.parts[i]))
    ensures RestsWithin(out, s, ConsumingFrom(c.parts, i))
    decreases c, 1, |c.parts| - i, 0, |rs|
  {
    if rs == [] then []
    else
      var r := rs[|rs| - 1];
      ConsumingFromStep(c.parts, i);
      StepLoop(c, i, vals, s, rs[..|rs| - 1]) +
      if r.Complete? then
        var deeper := Step(c, i + 1, vals + [r.value], r.rest);
        RestsWithinTrans(deeper, r.rest, s, ConsumingFrom(c.parts, i + 1), Consuming(c.parts[i]));
        deeper
      else []
  }

  /** `some.bt(l, string)` with `l == vals`. */
  function SomeFrom(q: Parser, vals: seq<Value>, s: string): (out: seq<Outcome>)
    requires WellFormed(Some(q))
    ensures RestsWithin(out, s, true)
    decreases Some(q), 1, |s|, 1, 0
  {
    SomeLoop(q, vals, s, Run(q, s))
  }

  /** The loop of `some.bt` over the outcomes `rs` of the body: for each
      complete one, the longer repetitions first, then the list so far. */
  function SomeLoop(q: Parser, vals: seq<Value>, s: string, rs: seq<Outcome>): (out: seq<Outcome>)
    requires WellFormed(Some(q)) && RestsWithin(rs, s, true)
    ensures RestsWithin(out, s, true)
    decreases Some(q), 1, |s|, 0, |rs|
  {
    if rs == [] then []
    else
      var r := rs[|rs| - 1];
      SomeLoop(q, vals, s, rs[..|rs| - 1]) +
      if r.Complete? then
        var deeper := SomeFrom(q, vals + [r.value], r.rest);
        RestsWithinTrans(deeper, r.rest, s, true, true);
        deeper + [Complete(VList(vals + [r.value]), r.rest)]
      else []
  }

  /** The outer loop of `pair`, over the outcomes `rs` of the first parser. */
  function PairLoop(p: Parser, s: string, rs: seq<Outcome>): (out: seq<Outcome>)
    requires p.Pair? && WellFormed(p) && RestsWithin(rs, s, Consuming(p.first))
    ensures RestsWithin(out, s, Consuming(p))
    decreases p, 1, 0, 0, |rs|
  {
    if rs == [] then []
    else
      var r1 := rs[|rs| - 1];
      PairLoop(p, s, rs[..|rs| - 1]) +
      if r1.Complete? then
        var inner := PairInner(r1.value, Run(p.second, r1.rest));
        RestsWithinTrans(inner, r1.rest, s, Consuming(p.second), Consuming(p.first));
        inner
      else []
  }

  /** The inner loop of `pair`: each complete second outcome gives a tuple. */
  function PairInner(v1: Value, rs: seq<Outcome>): (out: seq<Outcome>)
    ensures forall o | o in out :: o.Complete? && exists r | r in rs :: r.Complete? && r.rest == o.rest
  {
    if rs == [] then []
    else
      var r2 := rs[|rs| - 1];
      PairInner(v1, rs[..|rs| - 1]) +
      if r2.Complete? then [Complete(VPair(v1, r2.value), r2.rest)] else []
  }

  /** The outer loop of `between`, over the outcomes of the opening parser. */
  function BetweenOuter(p: Parser, s: string, rs: seq<Outcome>): (out: seq<Outcome>)
    requires p.Between? && WellFormed(p) && RestsWithin(rs, s, Consuming(p.before))
    ensures RestsWithin(out, s, Consuming(p))
    decreases p, 1, 0, 1, |rs|
  {
    if rs == [] then []
    else
      var rb := rs[|rs| - 1];
      BetweenOuter(p, s, rs[..|rs| - 1]) +
      if rb.Complete? then
        var mid := BetweenMid(p, rb.rest, Run(p.middle, rb.rest));
        RestsWithinTrans(mid, rb.rest, s, Consuming(p.middle) || Consuming(p.after), Consuming(p.before));
        mid
      else []
  }

  /** The middle loop of `between`, over the outcomes of the middle parser. */
  function BetweenMid(p: Parser, s: string, rs: seq<Outcome>): (out: seq<Outcome>)
    requires p.Between? && WellFormed(p) && RestsWithin(rs, s, Consuming(p.middle))
    ensures RestsWithin(out, s, Consuming(p.middle) || Consuming(p.after))
    decreases p, 1, 0, 0, |rs|
  {
    if rs == [] then []
    else
      var r := rs[|rs| - 1];
      BetweenMid(p, s, rs[..|rs| - 1]) +
      if r.Complete? then
        var inner := BetweenInner(r.value, Run(p.after, r.rest));
        RestsWithinTrans(inner, r.rest, s, Consuming(p.after), Consuming(p.middle));
        inner
      else []
  }

  /** The inner loop of `between`: the middle value, with the remainder of
      each complete closing outcome. */
  function BetweenInner(v: Value, rs: seq<Outcome>): (out: seq<Outcome>)
    ensures forall o | o in out :: o.Complete? && exists r | r in rs :: r.Complete? && r.rest == o.rest
  {
    if rs == [] then []
    else
      var ra := rs[|rs| - 1];
      BetweenInner(v, rs[..|rs| - 1]) +
      if ra.Complete? then [Complete(v, ra.rest)] else []
  }

  /** One more iteration of the `Compose.bt` loop. */
  lemma StepLoopSnoc(c: Parser, i: nat, vals: seq<Value>, s: string, rs: seq<Outcome>, k: nat)
    requires c.Compose? && WellFormed(c) && i < |c.parts|
    requires RestsWithin(rs, s, Consuming(c.parts[i])) && k < |rs|
    ensures StepLoop(c, i, vals, s, rs[..k + 1]) ==
            StepLoop(c, i, vals, s, rs[..k]) +
            (if rs[k].Complete? then Step(c, i + 1, vals + [rs[k].value], rs[k].rest) else [])
  {
    assert rs[..k + 1][..k] == rs[..k];
  }

  /** One more iteration of the `some.bt` loop. */
  lemma SomeLoopSnoc(q: Parser, vals: seq<Value>, s: string, rs: seq<Outcome>, k: nat)
    requires WellFormed(Some(q)) && RestsWithin(rs, s, true) && k < |rs|
    ensures SomeLoop(q, vals, s, rs[..k + 1]) ==
            SomeLoop(q, vals, s, rs[..k]) +
            (if rs[k].Complete? then
               SomeFrom(q, vals + [rs[k].value], rs[k].rest) + [Complete(VList(vals + [rs[k].value]), rs[k].rest)]
             else [])
  {
    assert rs[..k + 1][..k] == rs[..k];
  }
}
