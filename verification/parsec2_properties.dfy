/** What the combinators of parsec2.py promise, proved about the model in
    module Parsec2. */
module Parsec2Properties {
  import opened Common
  import opened Parsec2

  // ---------------------------------------------------------------------
  // Primitives
  // ---------------------------------------------------------------------

  /** `string(t)` yields one complete outcome when the input starts with
      `t`, and nothing otherwise; what it consumes is `t` itself, and it
      never yields a partial outcome. */
  lemma LitOutcomes(t: string, s: string)
    ensures |Run(Lit(t), s)| == (if t <= s then 1 else 0)
    ensures forall o | o in Run(Lit(t), s) :: o.Complete? && o.value == VStr(t) && t + o.rest == s
  {
    if t <= s {
      assert t + s[|t|..] == s[..|t|] + s[|t|..] == s;
    }
  }

  /** An input that is a strict prefix of the literal is a decisive
      mismatch: nothing is yielded, in particular no partial outcome. */
  lemma LitOnStrictPrefixYieldsNothing(t: string, s: string)
    requires s < t
    ensures Run(Lit(t), s) == []
  {
  }

  /** `regex(pattern)` yields the matched prefix and the rest of the input
      when the pattern matches, and nothing otherwise. */
  lemma ReOutcomes(m: Matcher, s: string)
    ensures |Run(Re(m), s)| == (if m(s).MatchEnd? then 1 else 0)
    ensures forall o | o in Run(Re(m), s) ::
      o.Complete? && o.value.VStr? && |o.value.str| == m(s).end && o.value.str + o.rest == s
  {
    match m(s)
    case NoMatch =>
    case MatchEnd(n) =>
      assert s[..n] + s[n..] == s;
  }

  /** `empty` and `unit(v)` yield exactly one complete outcome that consumes
      nothing. */
  lemma EmptyAndUnitConsumeNothing(v: Value, s: string)
    ensures Run(Empty, s) == [Complete(VNone, s)]
    ensures Run(Unit(v), s) == [Complete(v, s)]
  {
  }

  // ---------------------------------------------------------------------
  // choice
  // ---------------------------------------------------------------------

  /** `choice(p1, p2)` yields all outcomes of `p1`, then all of `p2`, on the
      same input: nothing dropped, nothing added, nothing reordered. */
  lemma ChoiceConcatenates(a: Parser, b: Parser, s: string)
    requires WellFormed(a) && WellFormed(b)
    ensures Run(Choice(a, b), s) == Run(a, s) + Run(b, s)
    ensures |Run(Choice(a, b), s)| == |Run(a, s)| + |Run(b, s)|
  {
  }

  // ---------------------------------------------------------------------
  // Compose: the cross product of complete outcomes
  // ---------------------------------------------------------------------

  /** The values of one left-to-right choice of complete outcomes of the
      remaining parts, and the remainder after the last of them. */
  datatype Chain = Chain(values: seq<Value>, rest: string)

  ghost predicate AllWellFormed(parts: seq<Parser>)
  {
    forall j :: 0 <= j < |parts| ==> WellFormed(parts[j])
  }

  /** Reference definition of sequencing: every chain of complete outcomes of
      `parts[i..]`, each part run on the previous part's remainder, in nested
      order with the last part varying fastest. Partial outcomes play no
      part. */
  ghost function Chains(parts: seq<Parser>, i: nat, s: string): seq<Chain>
    requires i <= |parts| && AllWellFormed(parts)
    decreases |parts| - i, 1, 0
  {
    if i == |parts| then [Chain([], s)]
    else ChainsFrom(parts, i, Run(parts[i], s))
  }

  ghost function ChainsFrom(parts: seq<Parser>, i: nat, rs: seq<Outcome>): seq<Chain>
    requires i < |parts| && AllWellFormed(parts)
    decreases |parts| - i, 0, |rs|
  {
    if rs == [] then []
    else
      var r := rs[|rs| - 1];
      ChainsFrom(parts, i, rs[..|rs| - 1]) +
      (if r.Complete? then Prepend(r.value, Chains(parts, i + 1, r.rest)) else [])
  }

  function Prepend(v: Value, chains: seq<Chain>): (r: seq<Chain>)
    ensures |r| == |chains|
    ensures forall k :: 0 <= k < |r| ==> r[k] == Chain([v] + chains[k].values, chains[k].rest)
  {
    if chains == [] then []
    else
      var last := chains[|chains| - 1];
      Prepend(v, chains[..|chains| - 1]) + [Chain([v] + last.values, last.rest)]
  }

  /** `Complete(func(*(vals + chain values)), chain remainder)` per chain. */
  function Combined(f: seq<Value> -> Value, vals: seq<Value>, chains: seq<Chain>): (r: seq<Outcome>)
    ensures |r| == |chains|
    ensures forall k :: 0 <= k < |r| ==> r[k] == Complete(f(vals + chains[k].values), chains[k].rest)
  {
    if chains == [] then []
    else
      var last := chains[|chains| - 1];
      Combined(f, vals, chains[..|chains| - 1]) + [Complete(f(vals + last.values), last.rest)]
  }

  /** The complete outcomes of `out`, in order. */
  function Completes(out: seq<Outcome>): (r: seq<Outcome>)
    ensures forall o | o in r :: o.Complete? && o in out
    ensures forall o | o in out && o.Complete? :: o in r
  {
    if out == [] then []
    else Completes(out[..|out| - 1]) + (if out[|out| - 1].Complete? then [out[|out| - 1]] else [])
  }

  lemma {:induction false} CompletesAppend(a: seq<Outcome>, b: seq<Outcome>)
    ensures Completes(a + b) == Completes(a) + Completes(b)
    decreases |b|
  {
    if b != [] {
      assert (a + b)[..|a + b| - 1] == a + b[..|b| - 1];
      CompletesAppend(a, b[..|b| - 1]);
    } else {
      assert a + b == a;
    }
  }

  lemma {:induction false} CompletesOfPartials(out: seq<Outcome>)
    requires NoComplete(out)
    ensures Completes(out) == []
    decreases |out|
  {
    if out != [] {
      CompletesOfPartials(out[..|out| - 1]);
    }
  }

  lemma {:induction false} CombinedAppend(f: seq<Value> -> Value, vals: seq<Value>, a: seq<Chain>, b: seq<Chain>)
    ensures Combined(f, vals, a + b) == Combined(f, vals, a) + Combined(f, vals, b)
  {
  }

  lemma {:induction false} CombinedPrepend(f: seq<Value> -> Value, vals: seq<Value>, v: Value, chains: seq<Chain>)
    ensures Combined(f, vals, Prepend(v, chains)) == Combined(f, vals + [v], chains)
  {
    var pre := Prepend(v, chains);
    var l, r := Combined(f, vals, pre), Combined(f, vals + [v], chains);
    assert |l| == |chains| == |r|;
    forall k | 0 <= k < |chains|
      ensures l[k] == r[k]
    {
      var ch := chains[k];
      assert pre[k] == Chain([v] + ch.values, ch.rest);
      assert vals + ([v] + ch.values) == (vals + [v]) + ch.values;
      assert l[k] == Complete(f(vals + pre[k].values), pre[k].rest);
    }
    assert l == r;
  }

  /** `Compose` yields `Complete(func(v0, ..., vn-1), r)` for every chain of
      complete part outcomes, in nested order with the last part varying
      fastest, `r` being the last part's remainder; the frame at part `i`
      already holds the values `vals` of the earlier parts. */
  lemma {:induction false} StepCompletes(c: Parser, i: nat, vals: seq<Value>, s: string)
    requires c.Compose? && WellFormed(c) && i <= |c.parts|
    ensures Completes(Step(c, i, vals, s)) == Combined(c.combine, vals, Chains(c.parts, i, s))
    decreases |c.parts| - i, 1, 0
  {
    if i == |c.parts| {
      assert vals + [] == vals;
    } else {
      assert c.parts[i] in c.parts;
      var rs := Run(c.parts[i], s);
      CompletesAppend(StepLoop(c, i, vals, s, rs), Reported(c, rs));
      CompletesOfPartials(Reported(c, rs));
      StepLoopCompletes(c, i, vals, s, rs);
    }
  }

  lemma {:induction false} StepLoopCompletes(c: Parser, i: nat, vals: seq<Value>, s: string, rs: seq<Outcome>)
    requires c.Compose? && WellFormed(c) && i < |c.parts|
    requires RestsWithin(rs, s, Consuming(c.parts[i]))
    ensures Completes(StepLoop(c, i, vals, s, rs)) == Combined(c.combine, vals, ChainsFrom(c.parts, i, rs))
    decreases |c.parts| - i, 0, |rs|
  {
    if rs != [] {
      var r := rs[|rs| - 1];
      var front := rs[..|rs| - 1];
      StepLoopCompletes(c, i, vals, s, front);
      var tail := if r.Complete? then Step(c, i + 1, vals + [r.value], r.rest) else [];
      var tailChains := if r.Complete? then Prepend(r.value, Chains(c.parts, i + 1, r.rest)) else [];
      CompletesAppend(StepLoop(c, i, vals, s, front), tail);
      CombinedAppend(c.combine, vals, ChainsFrom(c.parts, i, front), tailChains);
      if r.Complete? {
        StepCompletes(c, i + 1, vals + [r.value], r.rest);
        CombinedPrepend(c.combine, vals, r.value, Chains(c.parts, i + 1, r.rest));
      }
    }
  }

  /** The cross-product property for a whole `Compose`. */
  lemma ComposeCompletes(c: Parser, s: string)
    requires c.Compose? && WellFormed(c)
    ensures Completes(Run(c, s)) == Combined(c.combine, [], Chains(c.parts, 0, s))
  {
    StepCompletes(c, 0, [], s);
  }

  // ---------------------------------------------------------------------
  // Compose: the partial rule
  // ---------------------------------------------------------------------

  lemma {:induction false} TaggedAt(name: string, paths: seq<Path>)
    ensures |Tagged(name, paths)| == |paths|
    ensures forall k :: 0 <= k < |paths| ==> Tagged(name, paths)[k] == Partial(paths[k] + [name])
    decreases |paths|
  {
    if paths != [] {
      TaggedAt(name, paths[..|paths| - 1]);
    }
  }

  lemma {:induction false} LocationsOfPartials(rs: seq<Outcome>)
    requires NoComplete(rs)
    ensures |Locations(rs)| == |rs|
    ensures forall k :: 0 <= k < |rs| ==> Locations(rs)[k] == rs[k].loc
    decreases |rs|
  {
    if rs != [] {
      LocationsOfPartials(rs[..|rs| - 1]);
    }
  }

  lemma {:induction false} StepLoopOfPartials(c: Parser, i: nat, vals: seq<Value>, s: string, rs: seq<Outcome>)
    requires c.Compose? && WellFormed(c) && i < |c.parts|
    requires RestsWithin(rs, s, Consuming(c.parts[i])) && NoComplete(rs)
    ensures StepLoop(c, i, vals, s, rs) == []
    decreases |rs|
  {
    if rs != [] {
      StepLoopOfPartials(c, i, vals, s, rs[..|rs| - 1]);
    }
  }

  /** Partial rule, case "part `i` yielded nothing at all": the frame yields
      the single outcome `Partial([name])`, or nothing with `partial=False`. */
  lemma PartialWhenPartYieldsNothing(c: Parser, i: nat, vals: seq<Value>, s: string)
    requires c.Compose? && WellFormed(c) && i < |c.parts|
    requires Run(c.parts[i], s) == []
    ensures Step(c, i, vals, s) == if c.partial then [Partial([c.name])] else []
  {
  }

  /** Partial rule, case "part `i` yielded only partial outcomes": each is
      re-yielded, in order, with the combinator's name appended to its
      location (nothing with `partial=False`). */
  lemma PartialsRetagged(c: Parser, i: nat, vals: seq<Value>, s: string)
    requires c.Compose? && WellFormed(c) && i < |c.parts|
    requires Run(c.parts[i], s) != [] && NoComplete(Run(c.parts[i], s))
    ensures var out, rs := Step(c, i, vals, s), Run(c.parts[i], s);
      |out| == (if c.partial then |rs| else 0) &&
      forall k :: 0 <= k < |out| ==> out[k] == Partial(rs[k].loc + [c.name])
  {
    assert c.parts[i] in c.parts;
    var rs := Run(c.parts[i], s);
    StepLoopOfPartials(c, i, vals, s, rs);
    LocationsOfPartials(rs);
    TaggedAt(c.name, Locations(rs));
  }

  lemma {:induction false} StepLoopFromDeeper(c: Parser, i: nat, vals: seq<Value>, s: string, rs: seq<Outcome>)
    requires c.Compose? && WellFormed(c) && i < |c.parts|
    requires RestsWithin(rs, s, Consuming(c.parts[i]))
    ensures forall o | o in StepLoop(c, i, vals, s, rs) ::
      exists k :: 0 <= k < |rs| && rs[k].Complete? && o in Step(c, i + 1, vals + [rs[k].value], rs[k].rest)
    decreases |rs|
  {
    if rs != [] {
      var front := rs[..|rs| - 1];
      StepLoopFromDeeper(c, i, vals, s, front);
      forall o | o in StepLoop(c, i, vals, s, rs)
        ensures exists k :: 0 <= k < |rs| && rs[k].Complete? && o in Step(c, i + 1, vals + [rs[k].value], rs[k].rest)
      {
        if o in StepLoop(c, i, vals, s, front) {
          var k :| 0 <= k < |front| && front[k].Complete? && o in Step(c, i + 1, vals + [front[k].value], front[k].rest);
          assert rs[k] == front[k];
        } else {
          assert rs[|rs| - 1].Complete?;
        }
      }
    }
  }

  /** Partial rule, case "part `i` yielded a complete outcome": none of its
      partial outcomes is reported, earlier or later ones alike; everything
      the frame yields comes from a deeper frame, entered with one of its
      complete outcomes. */
  lemma PartialsSuppressedByComplete(c: Parser, i: nat, vals: seq<Value>, s: string)
    requires c.Compose? && WellFormed(c) && i < |c.parts|
    requires !NoComplete(Run(c.parts[i], s))
    ensures var rs := Run(c.parts[i], s);
      forall o | o in Step(c, i, vals, s) ::
        exists k :: 0 <= k < |rs| && rs[k].Complete? && o in Step(c, i + 1, vals + [rs[k].value], rs[k].rest)
  {
    assert c.parts[i] in c.parts;
    StepLoopFromDeeper(c, i, vals, s, Run(c.parts[i], s));
  }

  /** A location path ends with the name of the combinator that reports it. */
  ghost predicate EndsWith(path: Path, name: string)
  {
    |path| > 0 && path[|path| - 1] == name
  }

  /** Every partial outcome of a frame of `Compose` ends with the
      combinator's name; with `partial=False` the frame yields no partial
      outcome at all. */
  lemma {:induction false} StepPartials(c: Parser, i: nat, vals: seq<Value>, s: string)
    requires c.Compose? && WellFormed(c) && i <= |c.parts|
    ensures forall o | o in Step(c, i, vals, s) && o.Partial? :: c.partial && EndsWith(o.loc, c.name)
    decreases |c.parts| - i, 1, 0
  {
    if i < |c.parts| {
      assert c.parts[i] in c.parts;
      var rs := Run(c.parts[i], s);
      StepLoopPartials(c, i, vals, s, rs);
      if c.partial && NoComplete(rs) {
        TaggedAt(c.name, Locations(rs));
      }
    }
  }

  lemma {:induction false} StepLoopPartials(c: Parser, i: nat, vals: seq<Value>, s: string, rs: seq<Outcome>)
    requires c.Compose? && WellFormed(c) && i < |c.parts|
    requires RestsWithin(rs, s, Consuming(c.parts[i]))
    ensures forall o | o in StepLoop(c, i, vals, s, rs) && o.Partial? :: c.partial && EndsWith(o.loc, c.name)
    decreases |c.parts| - i, 0, |rs|
  {
    if rs != [] {
      var r := rs[|rs| - 1];
      StepLoopPartials(c, i, vals, s, rs[..|rs| - 1]);
      if r.Complete? {
        StepPartials(c, i + 1, vals + [r.value], r.rest);
      }
    }
  }

  /** The partial outcomes of a `Compose` all end with its name. */
  lemma ComposePartialsEndWithName(c: Parser, s: string)
    requires c.Compose? && WellFormed(c)
    ensures forall o | o in Run(c, s) && o.Partial? :: EndsWith(o.loc, c.name)
  {
    StepPartials(c, 0, [], s);
  }

  /** With `partial=False`, `Compose` yields only complete outcomes. */
  lemma NoPartialsWhenDisabled(c: Parser, s: string)
    requires c.Compose? && WellFormed(c) && !c.partial
    ensures forall o | o in Run(c, s) :: o.Complete?
  {
    StepPartials(c, 0, [], s);
  }

  /** The combine function used in the examples below: the list of values. */
  function AsList(vs: seq<Value>): Value
  {
    VList(vs)
  }

  /** A sequence `seq` of the literals `a` and `b`, on the input `a`: `b` is
      starved of input after `a` completed. `string` yields nothing on the
      empty remainder, so `Compose` reports `Partial(["seq"])` and nothing
      else. */
  lemma StarvedSecondPart()
    ensures Run(Compose("seq", [Lit("a"), Lit("b")], AsList, true), "a") == [Partial(["seq"])]
  {
    var c := Compose("seq", [Lit("a"), Lit("b")], AsList, true);
    assert Run(Lit("a"), "a") == [Complete(VStr("a"), "")];
    assert Run(Lit("b"), "") == [];
    assert Step(c, 1, [VStr("a")], "") == [Partial(["seq"])];
    assert [] + [VStr("a")] == [VStr("a")];
    assert [Complete(VStr("a"), "")][..0] == [];
    assert StepLoop(c, 0, [], "a", [Complete(VStr("a"), "")]) == [Partial(["seq"])];
  }

  /** Paths read innermost to outermost: when the only part of an inner
      `Compose` named `a` yields nothing, an outer `Compose` named `b` around
      it yields the single partial outcome with path `[a, b]`. */
  lemma NestedPathOrder(a: string, b: string, p: Parser, f: seq<Value> -> Value, g: seq<Value> -> Value, s: string)
    requires WellFormed(p) && Run(p, s) == []
    ensures Run(Compose(b, [Compose(a, [p], f, true)], g, true), s) == [Partial([a, b])]
  {
    var inner := Compose(a, [p], f, true);
    var outer := Compose(b, [inner], g, true);
    assert inner.parts[0] == p;
    assert WellFormed(inner);
    assert outer.parts[0] == inner;
    assert WellFormed(outer);
    NestedStarved(outer, s);
  }

  /** A `Compose` whose only part is a `Compose` whose only part yields
      nothing: the outer yields the inner's partial with both names. */
  lemma NestedStarved(c: Parser, s: string)
    requires c.Compose? && WellFormed(c) && c.partial && |c.parts| == 1
    requires c.parts[0].Compose? && c.parts[0].partial && |c.parts[0].parts| == 1
    requires WellFormed(c.parts[0].parts[0]) && Run(c.parts[0].parts[0], s) == []
    ensures Run(c, s) == [Partial([c.parts[0].name, c.name])]
  {
    StarvedSinglePart(c.parts[0], s);
    RetaggedSinglePart(c, [c.parts[0].name], s);
    assert [c.parts[0].name] + [c.name] == [c.parts[0].name, c.name];
  }

  /** A `Compose` whose only part yields nothing yields `Partial([name])`. */
  lemma StarvedSinglePart(c: Parser, s: string)
    requires c.Compose? && WellFormed(c) && c.partial && |c.parts| == 1 && Run(c.parts[0], s) == []
    ensures Run(c, s) == [Partial([c.name])]
  {
    PartialWhenPartYieldsNothing(c, 0, [], s);
    assert Run(c, s) == Step(c, 0, [], s);
  }

  /** A `Compose` whose only part yields one partial outcome re-yields it,
      the name appended to its location. */
  lemma RetaggedSinglePart(c: Parser, loc: Path, s: string)
    requires c.Compose? && WellFormed(c) && c.partial && |c.parts| == 1 && Run(c.parts[0], s) == [Partial(loc)]
    ensures Run(c, s) == [Partial(loc + [c.name])]
  {
    assert NoComplete([Partial(loc)]);
    PartialsRetagged(c, 0, [], s);
    var out := Step(c, 0, [], s);
    assert Run(c, s) == out;
    assert |out| == 1 && out[0] == Partial(loc + [c.name]);
  }

  // ---------------------------------------------------------------------
  // some and many
  // ---------------------------------------------------------------------

  /** The outcomes of `some.bt(l, string)` with `l == vals` are complete
      lists that extend `vals` by at least one value. */
  lemma {:induction false} SomeFromLists(q: Parser, vals: seq<Value>, s: string)
    requires WellFormed(Some(q))
    ensures forall o | o in SomeFrom(q, vals, s) ::
      o.Complete? && o.value.VList? && |o.value.items| > |vals| && o.value.items[..|vals|] == vals
    decreases |s|, 1, 0
  {
    SomeLoopLists(q, vals, s, Run(q, s));
  }

  lemma {:induction false} SomeLoopLists(q: Parser, vals: seq<Value>, s: string, rs: seq<Outcome>)
    requires WellFormed(Some(q)) && RestsWithin(rs, s, true)
    ensures forall o | o in SomeLoop(q, vals, s, rs) ::
      o.Complete? && o.value.VList? && |o.value.items| > |vals| && o.value.items[..|vals|] == vals
    decreases |s|, 0, |rs|
  {
    if rs != [] {
      var r := rs[|rs| - 1];
      SomeLoopLists(q, vals, s, rs[..|rs| - 1]);
      if r.Complete? {
        SomeFromLists(q, vals + [r.value], r.rest);
        assert (vals + [r.value])[..|vals|] == vals;
        forall o | o in SomeFrom(q, vals + [r.value], r.rest)
          ensures o.value.items[..|vals|] == vals
        {
          assert o.value.items[..|vals|] == o.value.items[..|vals| + 1][..|vals|];
        }
      }
    }
  }

  /** `some(p)` yields only complete outcomes whose values are non-empty
      lists; the partial outcomes of `p` are dropped. */
  lemma SomeYieldsNonEmptyLists(q: Parser, s: string)
    requires WellFormed(Some(q))
    ensures forall o | o in Run(Some(q), s) :: o.Complete? && o.value.VList? && |o.value.items| > 0
  {
    SomeFromLists(q, [], s);
  }

  /** One match of the repeated parser: its value and remainder. */
  datatype Match = Match(value: Value, rest: string)

  /** A repetition: consecutive complete outcomes of `q`, each obtained on the
      previous one's remainder, the first on `s`. */
  ghost predicate Repetition(q: Parser, s: string, steps: seq<Match>)
    requires WellFormed(q)
    decreases |steps|
  {
    steps == [] ||
    (Complete(steps[0].value, steps[0].rest) in Run(q, s) && Repetition(q, steps[0].rest, steps[1..]))
  }

  function ValuesOf(steps: seq<Match>): (vs: seq<Value>)
    ensures |vs| == |steps|
    ensures forall k :: 0 <= k < |steps| ==> vs[k] == steps[k].value
  {
    if steps == [] then [] else ValuesOf(steps[..|steps| - 1]) + [steps[|steps| - 1].value]
  }

  /** The outcome a non-empty repetition gives to `some.bt(vals, s)`: the
      list of `vals` and the repeated values, with the last remainder. */
  function Repeated(vals: seq<Value>, steps: seq<Match>): Outcome
    requires |steps| > 0
  {
    Complete(VList(vals + ValuesOf(steps)), steps[|steps| - 1].rest)
  }

  lemma {:induction false} RepeatedCons(vals: seq<Value>, m: Match, steps: seq<Match>)
    requires |steps| > 0
    ensures Repeated(vals, [m] + steps) == Repeated(vals + [m.value], steps)
  {
    var l, r := vals + ValuesOf([m] + steps), (vals + [m.value]) + ValuesOf(steps);
    assert |l| == |r|;
    forall k | 0 <= k < |l|
      ensures l[k] == r[k]
    {
      if k == |vals| {
        assert ([m] + steps)[0] == m;
      } else if k > |vals| {
        assert ([m] + steps)[k - |vals|] == steps[k - |vals| - 1];
      }
    }
    assert l == r;
    assert ([m] + steps)[|[m] + steps| - 1] == steps[|steps| - 1];
  }

  /** Soundness of `some`: every outcome of `some.bt(vals, s)` is the list of
      `vals` followed by the values of a non-empty repetition of `q`, with
      the remainder after the last one. */
  lemma {:induction false} SomeFromSound(q: Parser, vals: seq<Value>, s: string, o: Outcome)
    requires WellFormed(Some(q)) && o in SomeFrom(q, vals, s)
    ensures exists steps :: Repetition(q, s, steps) && |steps| > 0 && o == Repeated(vals, steps)
    decreases |s|, 2, 0
  {
    SomeLoopSound(q, vals, s, Run(q, s), o);
  }

  lemma {:induction false} SomeLoopSound(q: Parser, vals: seq<Value>, s: string, rs: seq<Outcome>, o: Outcome)
    requires WellFormed(Some(q)) && RestsWithin(rs, s, true)
    requires forall x | x in rs :: x in Run(q, s)
    requires o in SomeLoop(q, vals, s, rs)
    ensures exists steps :: Repetition(q, s, steps) && |steps| > 0 && o == Repeated(vals, steps)
    decreases |s|, 1, |rs|
  {
    var k := |rs| - 1;
    var r, front := rs[k], rs[..k];
    SomeLoopSnoc(q, vals, s, rs, k);
    assert rs[..k + 1] == rs;
    if o in SomeLoop(q, vals, s, front) {
      SomeLoopSound(q, vals, s, front, o);
    } else {
      assert r in rs;
      SomeStepSound(q, vals, s, r, o);
    }
  }

  /** Soundness for what one iteration of the loop yields on a complete
      match `r`: the repetitions through `r`, then the list ending at `r`. */
  lemma {:induction false} SomeStepSound(q: Parser, vals: seq<Value>, s: string, r: Outcome, o: Outcome)
    requires WellFormed(Some(q)) && r in Run(q, s) && r.Complete? && |r.rest| < |s|
    requires o in SomeFrom(q, vals + [r.value], r.rest) + [Complete(VList(vals + [r.value]), r.rest)]
    ensures exists steps :: Repetition(q, s, steps) && |steps| > 0 && o == Repeated(vals, steps)
    decreases |s|, 0, 1
  {
    var m := Match(r.value, r.rest);
    assert r == Complete(m.value, m.rest);
    if o in SomeFrom(q, vals + [m.value], m.rest) {
      SomeDeeperSound(q, vals, s, m, o);
    } else {
      SingleRepetition(q, vals, s, m);
      assert Repetition(q, s, [m]) && o == Repeated(vals, [m]);
    }
  }

  /** Soundness for the outcomes of the recursive `bt` on the remainder of a
      complete match `m`: each is a repetition that starts with `m`. */
  lemma {:induction false} SomeDeeperSound(q: Parser, vals: seq<Value>, s: string, m: Match, o: Outcome)
    requires WellFormed(Some(q)) && Complete(m.value, m.rest) in Run(q, s) && |m.rest| < |s|
    requires o in SomeFrom(q, vals + [m.value], m.rest)
    ensures exists steps :: Repetition(q, s, steps) && |steps| > 0 && o == Repeated(vals, steps)
    decreases |s|, 0, 0
  {
    SomeFromSound(q, vals + [m.value], m.rest, o);
    var steps :| Repetition(q, m.rest, steps) && |steps| > 0 && o == Repeated(vals + [m.value], steps);
    RepetitionCons(q, vals, s, m, steps);
    assert Repetition(q, s, [m] + steps);
  }

  /** A complete match followed by a non-empty repetition from its remainder
      is a repetition, whose list starts with the match's value. */
  lemma RepetitionCons(q: Parser, vals: seq<Value>, s: string, m: Match, steps: seq<Match>)
    requires WellFormed(q) && Complete(m.value, m.rest) in Run(q, s)
    requires Repetition(q, m.rest, steps) && |steps| > 0
    ensures Repetition(q, s, [m] + steps)
    ensures Repeated(vals, [m] + steps) == Repeated(vals + [m.value], steps)
  {
    assert ([m] + steps)[0] == m && ([m] + steps)[1..] == steps;
    RepeatedCons(vals, m, steps);
  }

  /** A single complete match is a repetition. */
  lemma SingleRepetition(q: Parser, vals: seq<Value>, s: string, m: Match)
    requires WellFormed(q) && Complete(m.value, m.rest) in Run(q, s)
    ensures Repetition(q, s, [m])
    ensures Repeated(vals, [m]) == Complete(VList(vals + [m.value]), m.rest)
  {
    assert [m][1..] == [];
    assert ValuesOf([m]) == [m.value];
  }

  /** Completeness of `some`: every non-empty repetition of `q` is yielded. */
  lemma {:induction false} SomeFromComplete(q: Parser, vals: seq<Value>, s: string, steps: seq<Match>)
    requires WellFormed(Some(q)) && Repetition(q, s, steps) && |steps| > 0
    ensures Repeated(vals, steps) in SomeFrom(q, vals, s)
    decreases |s|, 1, 0
  {
    SomeLoopComplete(q, vals, s, Run(q, s), steps);
  }

  lemma {:induction false} SomeLoopComplete(q: Parser, vals: seq<Value>, s: string, rs: seq<Outcome>, steps: seq<Match>)
    requires WellFormed(Some(q)) && RestsWithin(rs, s, true)
    requires Repetition(q, s, steps) && |steps| > 0 && Complete(steps[0].value, steps[0].rest) in rs
    ensures Repeated(vals, steps) in SomeLoop(q, vals, s, rs)
    decreases |s|, 0, |rs|
  {
    var m := steps[0];
    var r := rs[|rs| - 1];
    var front := rs[..|rs| - 1];
    if Complete(m.value, m.rest) in front {
      SomeLoopComplete(q, vals, s, front, steps);
    } else {
      assert r == Complete(m.value, m.rest);
      if |steps| == 1 {
        assert ValuesOf(steps) == [r.value];
      } else {
        assert steps == [m] + steps[1..];
        RepeatedCons(vals, m, steps[1..]);
        SomeFromComplete(q, vals + [r.value], r.rest, steps[1..]);
      }
    }
  }

  /** `some(q)` yields exactly the non-empty repetitions of `q`: the list of
      their values, with the remainder after the last repetition. */
  lemma SomeIsRepetition(q: Parser, s: string, o: Outcome)
    requires WellFormed(Some(q))
    ensures o in Run(Some(q), s) <==>
      exists steps :: Repetition(q, s, steps) && |steps| > 0 && o == Repeated([], steps)
  {
    if o in Run(Some(q), s) {
      SomeFromSound(q, [], s, o);
    }
    if exists steps :: Repetition(q, s, steps) && |steps| > 0 && o == Repeated([], steps) {
      var steps :| Repetition(q, s, steps) && |steps| > 0 && o == Repeated([], steps);
      SomeFromComplete(q, [], s, steps);
    }
  }

  /** For the last outcome of `q`, when complete, the longer repetitions
      starting with it come first and its one-element list comes last: the
      final outcome of `some(q)` is that one-element list. */
  lemma SomeEndsWithLastMatch(q: Parser, s: string)
    requires WellFormed(Some(q))
    requires Run(q, s) != [] && Run(q, s)[|Run(q, s)| - 1].Complete?
    ensures var rs, out := Run(q, s), Run(Some(q), s);
      out != [] && out[|out| - 1] == Complete(VList([rs[|rs| - 1].value]), rs[|rs| - 1].rest)
  {
    var rs := Run(q, s);
    var k := |rs| - 1;
    SomeLoopSnoc(q, [], s, rs, k);
    assert rs[..k + 1] == rs;
    assert [] + [rs[k].value] == [rs[k].value];
  }

  /** The loop's output over a prefix of the body's outcomes is a prefix of
      its output over all of them: later matches only add outcomes after. */
  lemma {:induction false} SomeLoopPrefix(q: Parser, vals: seq<Value>, s: string, rs: seq<Outcome>, j: nat)
    requires WellFormed(Some(q)) && RestsWithin(rs, s, true) && j <= |rs|
    ensures SomeLoop(q, vals, s, rs[..j]) <= SomeLoop(q, vals, s, rs)
    decreases |rs| - j
  {
    if j < |rs| {
      SomeLoopPrefix(q, vals, s, rs, j + 1);
      SomeLoopSnoc(q, vals, s, rs, j);
    } else {
      assert rs[..j] == rs;
    }
  }

  /** The order of `some.bt` for every complete match `rs[k]` of the body:
      after what the earlier matches gave, the longer repetitions starting
      with `rs[k]` come first and the list ending at `rs[k]` comes last;
      everything from later matches follows. */
  lemma SomeOrder(q: Parser, vals: seq<Value>, s: string, k: nat)
    requires WellFormed(Some(q)) && k < |Run(q, s)| && Run(q, s)[k].Complete?
    ensures var rs := Run(q, s);
      SomeLoop(q, vals, s, rs[..k]) + SomeFrom(q, vals + [rs[k].value], rs[k].rest) +
      [Complete(VList(vals + [rs[k].value]), rs[k].rest)] <= SomeFrom(q, vals, s)
  {
    var rs := Run(q, s);
    SomeLoopSnoc(q, vals, s, rs, k);
    SomeLoopPrefix(q, vals, s, rs, k + 1);
  }

  /** `many(p)` always ends with `Complete([], s)`, and that is the only
      outcome whose value is the empty list. */
  lemma ManyEndsWithEmptyList(q: Parser, s: string)
    requires WellFormed(Many(q))
    ensures var out := Run(Many(q), s);
      out != [] && out[|out| - 1] == Complete(VList([]), s) &&
      forall k :: 0 <= k < |out| - 1 ==> out[k].Complete? && out[k].value != VList([])
  {
    SomeYieldsNonEmptyLists(q, s);
    var out := Run(Many(q), s);
    assert Many(q) == Choice(Some(q), Unit(VList([])));
    assert Run(Unit(VList([])), s) == [Complete(VList([]), s)];
    assert out == Run(Some(q), s) + [Complete(VList([]), s)];
    forall k | 0 <= k < |out| - 1
      ensures out[k].Complete? && out[k].value != VList([])
    {
      assert out[k] == Run(Some(q), s)[k];
    }
  }

  // ---------------------------------------------------------------------
  // pair and between as wrappers of Compose
  // ---------------------------------------------------------------------

  /** The combine function of `pair` seen as a `Compose`. */
  function PairOf(vs: seq<Value>): Value
  {
    if |vs| == 2 then VPair(vs[0], vs[1]) else VNone
  }

  /** The combine function of `between` seen as a `Compose`. */
  function MiddleOf(vs: seq<Value>): Value
  {
    if |vs| == 3 then vs[1] else VNone
  }

  lemma {:induction false} PairInnerIsStep(c: Parser, v: Value, s: string, rs: seq<Outcome>)
    requires c.Compose? && WellFormed(c) && |c.parts| == 2 && c.combine == PairOf && !c.partial
    requires RestsWithin(rs, s, Consuming(c.parts[1]))
    ensures StepLoop(c, 1, [v], s, rs) == PairInner(v, rs)
    decreases |rs|
  {
    if rs != [] {
      PairInnerIsStep(c, v, s, rs[..|rs| - 1]);
    }
  }

  lemma {:induction false} PairLoopIsStep(p: Parser, c: Parser, name: string, s: string, rs: seq<Outcome>)
    requires p.Pair? && WellFormed(p)
    requires c == Compose(name, [p.first, p.second], PairOf, false)
    requires RestsWithin(rs, s, Consuming(p.first))
    ensures WellFormed(c) && StepLoop(c, 0, [], s, rs) == PairLoop(p, s, rs)
    decreases |rs|
  {
    if rs != [] {
      var r := rs[|rs| - 1];
      PairLoopIsStep(p, c, name, s, rs[..|rs| - 1]);
      if r.Complete? {
        assert c.parts[1] == p.second && [] + [r.value] == [r.value];
        var rs2 := Run(p.second, r.rest);
        assert Reported(c, rs2) == [];
        assert Step(c, 1, [r.value], r.rest) == StepLoop(c, 1, [r.value], r.rest, rs2);
        PairInnerIsStep(c, r.value, r.rest, rs2);
      }
    }
  }

  /** `pair(p1, p2)` behaves as `Compose(p1, p2, partial=False)` with a
      function returning the tuple of the two values. */
  lemma PairIsCompose(a: Parser, b: Parser, name: string, s: string)
    requires WellFormed(a) && WellFormed(b)
    ensures WellFormed(Compose(name, [a, b], PairOf, false))
    ensures Run(Pair(a, b), s) == Run(Compose(name, [a, b], PairOf, false), s)
  {
    var c := Compose(name, [a, b], PairOf, false);
    PairLoopIsStep(Pair(a, b), c, name, s, Run(a, s));
    assert c.parts[0] == a;
  }

  lemma {:induction false} BetweenInnerIsStep(c: Parser, vb: Value, v: Value, s: string, rs: seq<Outcome>)
    requires c.Compose? && WellFormed(c) && |c.parts| == 3 && c.combine == MiddleOf && !c.partial
    requires RestsWithin(rs, s, Consuming(c.parts[2]))
    ensures StepLoop(c, 2, [vb, v], s, rs) == BetweenInner(v, rs)
    decreases |rs|
  {
    if rs != [] {
      BetweenInnerIsStep(c, vb, v, s, rs[..|rs| - 1]);
    }
  }

  lemma {:induction false} BetweenMidIsStep(p: Parser, c: Parser, name: string, vb: Value, s: string, rs: seq<Outcome>)
    requires p.Between? && WellFormed(p)
    requires c == Compose(name, [p.before, p.middle, p.after], MiddleOf, false)
    requires RestsWithin(rs, s, Consuming(p.middle))
    ensures WellFormed(c) && StepLoop(c, 1, [vb], s, rs) == BetweenMid(p, s, rs)
    decreases |rs|
  {
    if rs != [] {
      var r := rs[|rs| - 1];
      BetweenMidIsStep(p, c, name, vb, s, rs[..|rs| - 1]);
      if r.Complete? {
        assert c.parts[2] == p.after && [vb] + [r.value] == [vb, r.value];
        var rs3 := Run(p.after, r.rest);
        assert Reported(c, rs3) == [];
        assert Step(c, 2, [vb, r.value], r.rest) == StepLoop(c, 2, [vb, r.value], r.rest, rs3);
        BetweenInnerIsStep(c, vb, r.value, r.rest, rs3);
      }
    }
  }

  lemma {:induction false} BetweenOuterIsStep(p: Parser, c: Parser, name: string, s: string, rs: seq<Outcome>)
    requires p.Between? && WellFormed(p)
    requires c == Compose(name, [p.before, p.middle, p.after], MiddleOf, false)
    requires RestsWithin(rs, s, Consuming(p.before))
    ensures WellFormed(c) && StepLoop(c, 0, [], s, rs) == BetweenOuter(p, s, rs)
    decreases |rs|
  {
    if rs != [] {
      var r := rs[|rs| - 1];
      BetweenOuterIsStep(p, c, name, s, rs[..|rs| - 1]);
      if r.Complete? {
        assert c.parts[1] == p.middle && [] + [r.value] == [r.value];
        var rs2 := Run(p.middle, r.rest);
        assert Reported(c, rs2) == [];
        assert Step(c, 1, [r.value], r.rest) == StepLoop(c, 1, [r.value], r.rest, rs2);
        BetweenMidIsStep(p, c, name, r.value, r.rest, rs2);
      }
    }
  }

  /** `between(pb, p, pa)` behaves as `Compose(pb, p, pa, partial=False)`
      with a function keeping only the middle value: the remainder is the
      closing parser's. */
  lemma BetweenIsCompose(pb: Parser, p: Parser, pa: Parser, name: string, s: string)
    requires WellFormed(pb) && WellFormed(p) && WellFormed(pa)
    ensures WellFormed(Compose(name, [pb, p, pa], MiddleOf, false))
    ensures Run(Between(pb, p, pa), s) == Run(Compose(name, [pb, p, pa], MiddleOf, false), s)
  {
    var c := Compose(name, [pb, p, pa], MiddleOf, false);
    BetweenOuterIsStep(Between(pb, p, pa), c, name, s, Run(pb, s));
    assert c.parts[0] == pb;
  }
}
