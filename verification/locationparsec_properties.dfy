/** What the combinators of locationparsec.py promise, proved about the model
    in module LocationParsec. */
module LocationParsecProperties {
  import opened Common
  import opened LocationParsec

  // ---------------------------------------------------------------------
  // Primitives and choice
  // ---------------------------------------------------------------------

  /** `string(t)` yields `(t, loc, r)` exactly when the input is `t + r`, and
      nothing else. */
  lemma LitOutcomes(t: string, loc: Path, s: string, r: string)
    ensures |Run(Lit(t), loc, s)| == (if t <= s then 1 else 0)
    ensures Outcome(VStr(t), loc, r) in Run(Lit(t), loc, s) <==> t + r == s
    ensures forall o | o in Run(Lit(t), loc, s) :: o == Outcome(VStr(t), loc, o.rest)
  {
    if t <= s {
      assert t + s[|t|..] == s[..|t|] + s[|t|..] == s;
    }
    if t + r == s {
      assert s[..|t|] == t && s[|t|..] == r;
    }
  }

  /** `regex(pattern)` yields the matched prefix, the unchanged location and
      the rest of the input when the pattern matches, and nothing otherwise. */
  lemma ReOutcomes(m: Matcher, loc: Path, s: string)
    ensures |Run(Re(m), loc, s)| == (if m(s).MatchEnd? then 1 else 0)
    ensures forall o | o in Run(Re(m), loc, s) ::
      o.loc == loc && o.value.VStr? && |o.value.str| == m(s).end && o.value.str + o.rest == s
  {
    match m(s)
    case NoMatch =>
    case MatchEnd(n) =>
      assert s[..n] + s[n..] == s;
  }

  /** `string`, `regex`, `empty` and `unit` hand the location back
      unchanged; `empty` and `unit` consume nothing. */
  lemma PrimitivesKeepLocation(t: string, m: Matcher, v: Value, loc: Path, s: string)
    ensures forall o | o in Run(Lit(t), loc, s) + Run(Re(m), loc, s) :: o.loc == loc
    ensures Run(Empty, loc, s) == [Outcome(VNone, loc, s)]
    ensures Run(Unit(v), loc, s) == [Outcome(v, loc, s)]
  {
    ReOutcomes(m, loc, s);
  }

  /** `choice(p1, p2)` yields all outcomes of `p1`, then all of `p2`, both run
      on the same location and input. */
  lemma ChoiceConcatenates(a: Parser, b: Parser, loc: Path, s: string)
    requires WellFormed(a) && WellFormed(b)
    ensures Run(Choice(a, b), loc, s) == Run(a, loc, s) + Run(b, loc, s)
    ensures |Run(Choice(a, b), loc, s)| == |Run(a, loc, s)| + |Run(b, loc, s)|
  {
  }

  // ---------------------------------------------------------------------
  // Compose
  // ---------------------------------------------------------------------

  /** A left-to-right choice of outcomes of the remaining parts, each part run
      on the previous one's location and remainder: their values, and the
      location and remainder after the last. */
  datatype Chain = Chain(values: seq<Value>, loc: Path, rest: string)

  ghost predicate AllWellFormed(parts: seq<Parser>)
  {
    forall j :: 0 <= j < |parts| ==> WellFormed(parts[j])
  }

  /** Reference definition of threaded sequencing: every chain through
      `parts[i..]` from location `loc` and input `s`, in nested order with the
      last part varying fastest. */
  ghost function Chains(parts: seq<Parser>, i: nat, loc: Path, s: string): seq<Chain>
    requires i <= |parts| && AllWellFormed(parts)
    decreases |parts| - i, 1, 0
  {
    if i == |parts| then [Chain([], loc, s)]
    else ChainsFrom(parts, i, Run(parts[i], loc, s))
  }

  ghost function ChainsFrom(parts: seq<Parser>, i: nat, rs: seq<Outcome>): seq<Chain>
    requires i < |parts| && AllWellFormed(parts)
    decreases |parts| - i, 0, |rs|
  {
    if rs == [] then []
    else
      var r := rs[|rs| - 1];
      ChainsFrom(parts, i, rs[..|rs| - 1]) + Prepend(r.value, Chains(parts, i + 1, r.loc, r.rest))
  }

  function Prepend(v: Value, chains: seq<Chain>): (r: seq<Chain>)
    ensures |r| == |chains|
    ensures forall k :: 0 <= k < |r| ==> r[k] == Chain([v] + chains[k].values, chains[k].loc, chains[k].rest)
  {
    if chains == [] then []
    else
      var last := chains[|chains| - 1];
      Prepend(v, chains[..|chains| - 1]) + [Chain([v] + last.values, last.loc, last.rest)]
  }

  /** `(func(*(vals + chain values)), chain location, chain remainder)` per
      chain. */
  function Combined(f: seq<Value> -> Value, vals: seq<Value>, chains: seq<Chain>): (r: seq<Outcome>)
    ensures |r| == |chains|
    ensures forall k :: 0 <= k < |r| ==> r[k] == Outcome(f(vals + chains[k].values), chains[k].loc, chains[k].rest)
  {
    if chains == [] then []
    else
      var last := chains[|chains| - 1];
      Combined(f, vals, chains[..|chains| - 1]) + [Outcome(f(vals + last.values), last.loc, last.rest)]
  }

  lemma {:induction false} CombinedAppend(f: seq<Value> -> Value, vals: seq<Value>, a: seq<Chain>, b: seq<Chain>)
    ensures Combined(f, vals, a + b) == Combined(f, vals, a) + Combined(f, vals, b)
  {
  }

  lemma {:induction false} CombinedPrepend(f: seq<Value> -> Value, vals: seq<Value>, v: Value, chains: seq<Chain>)
    ensures Combined(f, vals, Prepend(v, chains)) == Combined(f, vals + [v], chains)
  {
    var pre := Prepend(v, chains);
    var l, r := Combined(f, vals, pre), Combined(f, vals + [v], chains);
    assert |l| == |chains| == |r|;
    forall k | 0 <= k < |chains|
      ensures l[k] == r[k]
    {
      var ch := chains[k];
      assert pre[k] == Chain([v] + ch.values, ch.loc, ch.rest);
      assert vals + ([v] + ch.values) == (vals + [v]) + ch.values;
      assert l[k] == Outcome(f(vals + pre[k].values), pre[k].loc, pre[k].rest);
    }
    assert l == r;
  }

  /** The frame of `Compose.bt` at part `i`, holding the values `vals` of the
      earlier parts, yields `func` of the values in part order for every
      threaded chain through the remaining parts. */
  lemma {:induction false} StepIsChains(c: Parser, i: nat, vals: seq<Value>, loc: Path, s: string)
    requires c.Compose? && WellFormed(c) && i <= |c.parts|
    ensures Step(c, i, vals, loc, s) == Combined(c.combine, vals, Chains(c.parts, i, loc, s))
    decreases |c.parts| - i, 1, 0
  {
    if i == |c.parts| {
      assert vals + [] == vals;
    } else {
      assert c.parts[i] in c.parts;
      StepLoopIsChains(c, i, vals, loc, s, Run(c.parts[i], loc, s));
    }
  }

  lemma {:induction false} StepLoopIsChains(c: Parser, i: nat, vals: seq<Value>, loc: Path, s: string, rs: seq<Outcome>)
    requires c.Compose? && WellFormed(c) && i < |c.parts|
    requires Within(rs, loc, s, Consuming(c.parts[i]))
    ensures StepLoop(c, i, vals, loc, s, rs) == Combined(c.combine, vals, ChainsFrom(c.parts, i, rs))
    decreases |c.parts| - i, 0, |rs|
  {
    if rs != [] {
      var r := rs[|rs| - 1];
      var front := rs[..|rs| - 1];
      StepLoopIsChains(c, i, vals, loc, s, front);
      var tailChains := Prepend(r.value, Chains(c.parts, i + 1, r.loc, r.rest));
      CombinedAppend(c.combine, vals, ChainsFrom(c.parts, i, front), tailChains);
      StepIsChains(c, i + 1, vals + [r.value], r.loc, r.rest);
      CombinedPrepend(c.combine, vals, r.value, Chains(c.parts, i + 1, r.loc, r.rest));
    }
  }

  /** The cross-product property of `Compose`: its outcomes are `func` of the
      values of every threaded chain of part outcomes, the first part run on
      the location extended by the combinator's name. */
  lemma ComposeIsChains(c: Parser, loc: Path, s: string)
    requires c.Compose? && WellFormed(c)
    ensures Run(c, loc, s) == Combined(c.combine, [], Chains(c.parts, 0, loc + [c.name], s))
  {
    StepIsChains(c, 0, [], loc + [c.name], s);
  }

  /** Every outcome of a `Compose` lies under the location extended by its
      name. */
  lemma ComposeExtendsLocation(c: Parser, loc: Path, s: string)
    requires c.Compose? && WellFormed(c)
    ensures forall o | o in Run(c, loc, s) :: loc + [c.name] <= o.loc
  {
    assert Run(c, loc, s) == Step(c, 0, [], loc + [c.name], s);
  }

  /** `parse` of a `Compose` starts from the empty location, so every outcome's
      location begins with the combinator's name. */
  lemma ParseComposeLocations(c: Parser, s: string)
    requires c.Compose? && WellFormed(c)
    ensures forall o | o in Parse(c, s) :: |o.loc| > 0 && o.loc[0] == c.name
  {
    ComposeExtendsLocation(c, [], s);
    forall o | o in Parse(c, s)
      ensures |o.loc| > 0 && o.loc[0] == c.name
    {
      assert [] + [c.name] <= o.loc;
      assert ([] + [c.name])[0] == c.name;
    }
  }

  function AsList(vs: seq<Value>): Value
  {
    VList(vs)
  }

  /** The name is appended at the end of the caller's location. */
  lemma NameAppendedAtEnd()
    ensures Run(Compose("f", [Empty], AsList), ["g"], "") == [Outcome(VList([VNone]), ["g", "f"], "")]
  {
    var c := Compose("f", [Empty], AsList);
    assert ["g"] + ["f"] == ["g", "f"];
    assert Run(Empty, ["g", "f"], "") == [Outcome(VNone, ["g", "f"], "")];
    assert [] + [VNone] == [VNone];
    assert Step(c, 1, [VNone], ["g", "f"], "") == [Outcome(VList([VNone]), ["g", "f"], "")];
    assert [Outcome(VNone, ["g", "f"], "")][..0] == [];
    assert c.parts[0] == Empty;
    assert StepLoop(c, 0, [], ["g", "f"], "", [Outcome(VNone, ["g", "f"], "")])
      == [Outcome(VList([VNone]), ["g", "f"], "")];
    assert Step(c, 0, [], ["g", "f"], "") == [Outcome(VList([VNone]), ["g", "f"], "")];
  }

  // ---------------------------------------------------------------------
  // some and many
  // ---------------------------------------------------------------------

  /** The outcomes of `some.bt(vs, loc, s)` with `vs == vals` are lists that
      extend `vals` by at least one value. */
  lemma {:induction false} SomeFromLists(q: Parser, vals: seq<Value>, loc: Path, s: string)
    requires WellFormed(Some(q))
    ensures forall o | o in SomeFrom(q, vals, loc, s) ::
      o.value.VList? && |o.value.items| > |vals| && o.value.items[..|vals|] == vals
    decreases |s|, 1, 0
  {
    SomeLoopLists(q, vals, loc, s, Run(q, loc, s));
  }

  lemma {:induction false} SomeLoopLists(q: Parser, vals: seq<Value>, loc: Path, s: string, rs: seq<Outcome>)
    requires WellFormed(Some(q)) && Within(rs, loc, s, true)
    ensures forall o | o in SomeLoop(q, vals, loc, s, rs) ::
      o.value.VList? && |o.value.items| > |vals| && o.value.items[..|vals|] == vals
    decreases |s|, 0, |rs|
  {
    if rs != [] {
      var r := rs[|rs| - 1];
      SomeLoopLists(q, vals, loc, s, rs[..|rs| - 1]);
      SomeFromLists(q, vals + [r.value], r.loc, r.rest);
      assert (vals + [r.value])[..|vals|] == vals;
      forall o | o in SomeFrom(q, vals + [r.value], r.loc, r.rest)
        ensures o.value.items[..|vals|] == vals
      {
        assert o.value.items[..|vals|] == o.value.items[..|vals| + 1][..|vals|];
      }
    }
  }

  /** `some(p)` yields only non-empty lists. */
  lemma SomeYieldsNonEmptyLists(q: Parser, loc: Path, s: string)
    requires WellFormed(Some(q))
    ensures forall o | o in Run(Some(q), loc, s) :: o.value.VList? && |o.value.items| > 0
  {
    SomeFromLists(q, [], loc, s);
  }

  /** A repetition: consecutive outcomes of `q`, each obtained from the
      previous one's location and remainder, the first from `loc` and `s`. */
  ghost predicate Repetition(q: Parser, loc: Path, s: string, steps: seq<Outcome>)
    requires WellFormed(q)
    decreases |steps|
  {
    steps == [] ||
    (steps[0] in Run(q, loc, s) && Repetition(q, steps[0].loc, steps[0].rest, steps[1..]))
  }

  function ValuesOf(steps: seq<Outcome>): (vs: seq<Value>)
    ensures |vs| == |steps|
    ensures forall k :: 0 <= k < |steps| ==> vs[k] == steps[k].value
  {
    if steps == [] then [] else ValuesOf(steps[..|steps| - 1]) + [steps[|steps| - 1].value]
  }

  /** The outcome a non-empty repetition gives to `some.bt(vals, ...)`: the
      list of `vals` and the repeated values, with the location and remainder
      of the last match. */
  function Repeated(vals: seq<Value>, steps: seq<Outcome>): Outcome
    requires |steps| > 0
  {
    var last := steps[|steps| - 1];
    Outcome(VList(vals + ValuesOf(steps)), last.loc, last.rest)
  }

  lemma {:induction false} RepeatedCons(vals: seq<Value>, m: Outcome, steps: seq<Outcome>)
    requires |steps| > 0
    ensures Repeated(vals, [m] + steps) == Repeated(vals + [m.value], steps)
  {
    var l, r := vals + ValuesOf([m] + steps), (vals + [m.value]) + ValuesOf(steps);
    assert |l| == |r|;
    forall k | 0 <= k < |l|
      ensures l[k] == r[k]
    {
      if k == |vals| {
        assert ([m] + steps)[0] == m;
      } else if k > |vals| {
        assert ([m] + steps)[k - |vals|] == steps[k - |vals| - 1];
      }
    }
    assert l == r;
    assert ([m] + steps)[|[m] + steps| - 1] == steps[|steps| - 1];
  }

  lemma {:induction false} SomeFromSound(q: Parser, vals: seq<Value>, loc: Path, s: string, o: Outcome)
    requires WellFormed(Some(q)) && o in SomeFrom(q, vals, loc, s)
    ensures exists steps :: Repetition(q, loc, s, steps) && |steps| > 0 && o == Repeated(vals, steps)
    decreases |s|, 2, 0
  {
    SomeLoopSound(q, vals, loc, s, Run(q, loc, s), o);
  }

  lemma {:induction false} SomeLoopSound(q: Parser, vals: seq<Value>, loc: Path, s: string, rs: seq<Outcome>, o: Outcome)
    requires WellFormed(Some(q)) && Within(rs, loc, s, true)
    requires forall x | x in rs :: x in Run(q, loc, s)
    requires o in SomeLoop(q, vals, loc, s, rs)
    ensures exists steps :: Repetition(q, loc, s, steps) && |steps| > 0 && o == Repeated(vals, steps)
    decreases |s|, 1, |rs|
  {
    var k := |rs| - 1;
    var r, front := rs[k], rs[..k];
    SomeLoopSnoc(q, vals, loc, s, rs, k);
    assert rs[..k + 1] == rs;
    if o in SomeLoop(q, vals, loc, s, front) {
      SomeLoopSound(q, vals, loc, s, front, o);
    } else {
      assert r in rs;
      SomeStepSound(q, vals, loc, s, r, o);
    }
  }

  /** Soundness for what one iteration of the loop yields: the repetitions
      through the match `r`, then the list ending at `r`. */
  lemma {:induction false} SomeStepSound(q: Parser, vals: seq<Value>, loc: Path, s: string, r: Outcome, o: Outcome)
    requires WellFormed(Some(q)) && r in Run(q, loc, s) && |r.rest| < |s|
    requires o in SomeFrom(q, vals + [r.value], r.loc, r.rest) + [Outcome(VList(vals + [r.value]), r.loc, r.rest)]
    ensures exists steps :: Repetition(q, loc, s, steps) && |steps| > 0 && o == Repeated(vals, steps)
    decreases |s|, 0, 1
  {
    if o in SomeFrom(q, vals + [r.value], r.loc, r.rest) {
      SomeDeeperSound(q, vals, loc, s, r, o);
    } else {
      SingleRepetition(q, vals, loc, s, r);
      assert Repetition(q, loc, s, [r]) && o == Repeated(vals, [r]);
    }
  }

  /** Soundness for the outcomes of the recursive `bt` from the location and
      remainder of a match `r`: each is a repetition that starts with `r`. */
  lemma {:induction false} SomeDeeperSound(q: Parser, vals: seq<Value>, loc: Path, s: string, r: Outcome, o: Outcome)
    requires WellFormed(Some(q)) && r in Run(q, loc, s) && |r.rest| < |s|
    requires o in SomeFrom(q, vals + [r.value], r.loc, r.rest)
    ensures exists steps :: Repetition(q, loc, s, steps) && |steps| > 0 && o == Repeated(vals, steps)
    decreases |s|, 0, 0
  {
    SomeFromSound(q, vals + [r.value], r.loc, r.rest, o);
    var steps :| Repetition(q, r.loc, r.rest, steps) && |steps| > 0 && o == Repeated(vals + [r.value], steps);
    RepetitionCons(q, vals, loc, s, r, steps);
    assert Repetition(q, loc, s, [r] + steps);
  }

  /** A match followed by a non-empty repetition from its location and
      remainder is a repetition, whose list starts with the match's value. */
  lemma RepetitionCons(q: Parser, vals: seq<Value>, loc: Path, s: string, r: Outcome, steps: seq<Outcome>)
    requires WellFormed(q) && r in Run(q, loc, s)
    requires Repetition(q, r.loc, r.rest, steps) && |steps| > 0
    ensures Repetition(q, loc, s, [r] + steps)
    ensures Repeated(vals, [r] + steps) == Repeated(vals + [r.value], steps)
  {
    assert ([r] + steps)[0] == r && ([r] + steps)[1..] == steps;
    RepeatedCons(vals, r, steps);
  }

  /** A single match is a repetition. */
  lemma SingleRepetition(q: Parser, vals: seq<Value>, loc: Path, s: string, r: Outcome)
    requires WellFormed(q) && r in Run(q, loc, s)
    ensures Repetition(q, loc, s, [r])
    ensures Repeated(vals, [r]) == Outcome(VList(vals + [r.value]), r.loc, r.rest)
  {
    assert [r][1..] == [];
    assert ValuesOf([r]) == [r.value];
  }

  lemma {:induction false} SomeFromComplete(q: Parser, vals: seq<Value>, loc: Path, s: string, steps: seq<Outcome>)
    requires WellFormed(Some(q)) && Repetition(q, loc, s, steps) && |steps| > 0
    ensures Repeated(vals, steps) in SomeFrom(q, vals, loc, s)
    decreases |s|, 1, 0
  {
    SomeLoopComplete(q, vals, loc, s, Run(q, loc, s), steps);
  }

  lemma {:induction false} SomeLoopComplete(q: Parser, vals: seq<Value>, loc: Path, s: string, rs: seq<Outcome>, steps: seq<Outcome>)
    requires WellFormed(Some(q)) && Within(rs, loc, s, true)
    requires Repetition(q, loc, s, steps) && |steps| > 0 && steps[0] in rs
    ensures Repeated(vals, steps) in SomeLoop(q, vals, loc, s, rs)
    decreases |s|, 0, |rs|
  {
    var m := steps[0];
    var r := rs[|rs| - 1];
    var front := rs[..|rs| - 1];
    if m in front {
      SomeLoopComplete(q, vals, loc, s, front, steps);
    } else {
      assert r == m;
      if |steps| == 1 {
        assert ValuesOf(steps) == [r.value];
      } else {
        assert steps == [m] + steps[1..];
        RepeatedCons(vals, m, steps[1..]);
        SomeFromComplete(q, vals + [r.value], r.loc, r.rest, steps[1..]);
      }
    }
  }

  /** `some(q)` yields exactly the non-empty repetitions of `q`: the list of
      their values, with the location and remainder of the last match. */
  lemma SomeIsRepetition(q: Parser, loc: Path, s: string, o: Outcome)
    requires WellFormed(Some(q))
    ensures o in Run(Some(q), loc, s) <==>
      exists steps :: Repetition(q, loc, s, steps) && |steps| > 0 && o == Repeated([], steps)
  {
    if o in Run(Some(q), loc, s) {
      SomeFromSound(q, [], loc, s, o);
    }
    if exists steps :: Repetition(q, loc, s, steps) && |steps| > 0 && o == Repeated([], steps) {
      var steps :| Repetition(q, loc, s, steps) && |steps| > 0 && o == Repeated([], steps);
      SomeFromComplete(q, [], loc, s, steps);
    }
  }

  /** The longer repetitions through the last outcome of `q` come before the
      one-element list ending at it, which is the final outcome of `some(q)`. */
  lemma SomeEndsWithLastMatch(q: Parser, loc: Path, s: string)
    requires WellFormed(Some(q)) && Run(q, loc, s) != []
    ensures var rs, out := Run(q, loc, s), Run(Some(q), loc, s);
      var r := rs[|rs| - 1];
      out != [] && out[|out| - 1] == Outcome(VList([r.value]), r.loc, r.rest)
  {
    var rs := Run(q, loc, s);
    var r := rs[|rs| - 1];
    assert [] + [r.value] == [r.value];
    assert Run(Some(q), loc, s) == SomeLoop(q, [], loc, s, rs);
    assert SomeLoop(q, [], loc, s, rs) == SomeLoop(q, [], loc, s, rs[..|rs| - 1]) +
      SomeFrom(q, [r.value], r.loc, r.rest) + [Outcome(VList([r.value]), r.loc, r.rest)];
  }

  /** The loop's output over a prefix of the body's outcomes is a prefix of
      its output over all of them: later matches only add outcomes after. */
  lemma {:induction false} SomeLoopPrefix(q: Parser, vals: seq<Value>, loc: Path, s: string, rs: seq<Outcome>, j: nat)
    requires WellFormed(Some(q)) && Within(rs, loc, s, true) && j <= |rs|
    ensures SomeLoop(q, vals, loc, s, rs[..j]) <= SomeLoop(q, vals, loc, s, rs)
    decreases |rs| - j
  {
    if j < |rs| {
      SomeLoopPrefix(q, vals, loc, s, rs, j + 1);
      SomeLoopSnoc(q, vals, loc, s, rs, j);
    } else {
      assert rs[..j] == rs;
    }
  }

  /** The order of `some.bt` for every match `rs[k]` of the body: after what
      the earlier matches gave, the longer repetitions starting with `rs[k]`
      come first and the list ending at `rs[k]` comes last; everything from
      later matches follows. */
  lemma SomeOrder(q: Parser, vals: seq<Value>, loc: Path, s: string, k: nat)
    requires WellFormed(Some(q)) && k < |Run(q, loc, s)|
    ensures var rs := Run(q, loc, s);
      SomeLoop(q, vals, loc, s, rs[..k]) + SomeFrom(q, vals + [rs[k].value], rs[k].loc, rs[k].rest) +
      [Outcome(VList(vals + [rs[k].value]), rs[k].loc, rs[k].rest)] <= SomeFrom(q, vals, loc, s)
  {
    var rs := Run(q, loc, s);
    SomeLoopSnoc(q, vals, loc, s, rs, k);
    SomeLoopPrefix(q, vals, loc, s, rs, k + 1);
  }


  /** `many(p)` always ends with `([], loc, s)`, and no earlier outcome has the
      empty list as its value. */
  lemma ManyEndsWithEmptyList(q: Parser, loc: Path, s: string)
    requires WellFormed(Many(q))
    ensures var out := Run(Many(q), loc, s);
      out != [] && out[|out| - 1] == Outcome(VList([]), loc, s) &&
      forall k :: 0 <= k < |out| - 1 ==> out[k].value != VList([])
  {
    SomeYieldsNonEmptyLists(q, loc, s);
    var out := Run(Many(q), loc, s);
    assert Many(q) == Choice(Some(q), Unit(VList([])));
    assert Run(Unit(VList([])), loc, s) == [Outcome(VList([]), loc, s)];
    assert out == Run(Some(q), loc, s) + [Outcome(VList([]), loc, s)];
    forall k | 0 <= k < |out| - 1
      ensures out[k].value != VList([])
    {
      assert out[k] == Run(Some(q), loc, s)[k];
    }
  }

  // ---------------------------------------------------------------------
  // pair and between
  // ---------------------------------------------------------------------

  /** `o` is the tuple of an outcome `o1` with an outcome of `b` run from
      `o1`'s location and remainder. */
  ghost predicate PairedWith(b: Parser, o1: Outcome, o: Outcome)
    requires WellFormed(b)
  {
    exists o2 | o2 in Run(b, o1.loc, o1.rest) :: o == Outcome(VPair(o1.value, o2.value), o2.loc, o2.rest)
  }

  lemma {:induction false} PairInnerMembers(v1: Value, rs: seq<Outcome>, o: Outcome)
    ensures o in PairInner(v1, rs) <==> exists o2 | o2 in rs :: o == Outcome(VPair(v1, o2.value), o2.loc, o2.rest)
    decreases |rs|
  {
    if rs != [] {
      var front, last := rs[..|rs| - 1], rs[|rs| - 1];
      PairInnerMembers(v1, front, o);
      assert PairInner(v1, rs) == PairInner(v1, front) + [Outcome(VPair(v1, last.value), last.loc, last.rest)];
      if o in PairInner(v1, rs) {
        if o in PairInner(v1, front) {
          var o2 :| o2 in front && o == Outcome(VPair(v1, o2.value), o2.loc, o2.rest);
          assert o2 in rs;
        } else {
          assert last in rs;
        }
      }
      if exists o2 | o2 in rs :: o == Outcome(VPair(v1, o2.value), o2.loc, o2.rest) {
        var o2 :| o2 in rs && o == Outcome(VPair(v1, o2.value), o2.loc, o2.rest);
        if o2 != last {
          InFront(o2, rs);
        }
      }
    }
  }

  lemma {:induction false} PairLoopSound(p: Parser, loc: Path, s: string, rs: seq<Outcome>, o: Outcome)
    requires p.Pair? && WellFormed(p) && Within(rs, loc, s, Consuming(p.first))
    requires o in PairLoop(p, loc, s, rs)
    ensures exists o1 | o1 in rs :: PairedWith(p.second, o1, o)
    decreases |rs|
  {
    var r1 := rs[|rs| - 1];
    var front := rs[..|rs| - 1];
    var rs2 := Run(p.second, r1.loc, r1.rest);
    if o in PairLoop(p, loc, s, front) {
      PairLoopSound(p, loc, s, front, o);
      var o1 :| o1 in front && PairedWith(p.second, o1, o);
      assert o1 in rs;
    } else {
      PairInnerMembers(r1.value, rs2, o);
      assert PairedWith(p.second, r1, o);
    }
  }

  lemma {:induction false} PairLoopComplete(p: Parser, loc: Path, s: string, rs: seq<Outcome>, o1: Outcome, o: Outcome)
    requires p.Pair? && WellFormed(p) && Within(rs, loc, s, Consuming(p.first))
    requires o1 in rs && PairedWith(p.second, o1, o)
    ensures o in PairLoop(p, loc, s, rs)
    decreases |rs|
  {
    var r1 := rs[|rs| - 1];
    var front := rs[..|rs| - 1];
    assert rs == front + [r1];
    if o1 == r1 {
      PairInnerMembers(r1.value, Run(p.second, r1.loc, r1.rest), o);
    } else {
      PairLoopComplete(p, loc, s, front, o1, o);
    }
  }

  /** `pair(p1, p2)` yields `((v1, v2), l2, r2)` exactly for the outcomes
      `(v1, l1, r1)` of `p1` and `(v2, l2, r2)` of `p2` run from `l1` and `r1`. */
  lemma PairMembers(a: Parser, b: Parser, loc: Path, s: string, o: Outcome)
    requires WellFormed(a) && WellFormed(b)
    ensures o in Run(Pair(a, b), loc, s) <==> exists o1 | o1 in Run(a, loc, s) :: PairedWith(b, o1, o)
  {
    if o in Run(Pair(a, b), loc, s) {
      PairLoopSound(Pair(a, b), loc, s, Run(a, loc, s), o);
    }
    if exists o1 | o1 in Run(a, loc, s) :: PairedWith(b, o1, o) {
      var o1 :| o1 in Run(a, loc, s) && PairedWith(b, o1, o);
      PairLoopComplete(Pair(a, b), loc, s, Run(a, loc, s), o1, o);
    }
  }

  /** `o` is the middle outcome `om`'s value and location with the remainder
      of an outcome of `pa` run from `om`'s location and remainder. */
  ghost predicate ClosedBy(pa: Parser, om: Outcome, o: Outcome)
    requires WellFormed(pa)
  {
    exists oa | oa in Run(pa, om.loc, om.rest) :: o == Outcome(om.value, om.loc, oa.rest)
  }

  /** `o` is bracketed after the opening outcome `ob`. */
  ghost predicate BracketedAfter(pm: Parser, pa: Parser, ob: Outcome, o: Outcome)
    requires WellFormed(pm) && WellFormed(pa)
  {
    exists om | om in Run(pm, ob.loc, ob.rest) :: ClosedBy(pa, om, o)
  }

  lemma {:induction false} BetweenInnerMembers(v: Value, l: Path, rs: seq<Outcome>, o: Outcome)
    ensures o in BetweenInner(v, l, rs) <==> exists oa | oa in rs :: o == Outcome(v, l, oa.rest)
    decreases |rs|
  {
    if rs != [] {
      BetweenInnerMembers(v, l, rs[..|rs| - 1], o);
      assert rs == rs[..|rs| - 1] + [rs[|rs| - 1]];
    }
  }

  lemma {:induction false} BetweenMidSound(p: Parser, loc: Path, s: string, rs: seq<Outcome>, o: Outcome)
    requires p.Between? && WellFormed(p) && Within(rs, loc, s, Consuming(p.middle))
    requires o in BetweenMid(p, loc, s, rs)
    ensures exists om | om in rs :: ClosedBy(p.after, om, o)
    decreases |rs|
  {
    var r := rs[|rs| - 1];
    var front := rs[..|rs| - 1];
    if o in BetweenMid(p, loc, s, front) {
      BetweenMidSound(p, loc, s, front, o);
      var om :| om in front && ClosedBy(p.after, om, o);
      assert om in rs;
    } else {
      BetweenInnerMembers(r.value, r.loc, Run(p.after, r.loc, r.rest), o);
      assert ClosedBy(p.after, r, o);
    }
  }

  lemma {:induction false} BetweenMidComplete(p: Parser, loc: Path, s: string, rs: seq<Outcome>, om: Outcome, o: Outcome)
    requires p.Between? && WellFormed(p) && Within(rs, loc, s, Consuming(p.middle))
    requires om in rs && ClosedBy(p.after, om, o)
    ensures o in BetweenMid(p, loc, s, rs)
    decreases |rs|
  {
    var r := rs[|rs| - 1];
    var front := rs[..|rs| - 1];
    assert rs == front + [r];
    if om == r {
      BetweenInnerMembers(r.value, r.loc, Run(p.after, r.loc, r.rest), o);
    } else {
      BetweenMidComplete(p, loc, s, front, om, o);
    }
  }

  /** The last iteration of `between`'s outer loop, unfolded. */
  lemma BetweenOuterLast(p: Parser, loc: Path, s: string, rs: seq<Outcome>)
    requires p.Between? && WellFormed(p) && Within(rs, loc, s, Consuming(p.before)) && rs != []
    ensures var rb := rs[|rs| - 1];
      BetweenOuter(p, loc, s, rs) ==
        BetweenOuter(p, loc, s, rs[..|rs| - 1]) + BetweenMid(p, rb.loc, rb.rest, Run(p.middle, rb.loc, rb.rest))
  {
  }

  lemma {:induction false} BetweenOuterSound(p: Parser, loc: Path, s: string, rs: seq<Outcome>, o: Outcome)
    requires p.Between? && WellFormed(p) && Within(rs, loc, s, Consuming(p.before))
    requires o in BetweenOuter(p, loc, s, rs)
    ensures exists ob | ob in rs :: BracketedAfter(p.middle, p.after, ob, o)
    decreases |rs|
  {
    var rb := rs[|rs| - 1];
    var front := rs[..|rs| - 1];
    if o in BetweenOuter(p, loc, s, front) {
      BetweenOuterSound(p, loc, s, front, o);
      var ob :| ob in front && BracketedAfter(p.middle, p.after, ob, o);
      assert ob in rs;
    } else {
      BetweenMidSound(p, rb.loc, rb.rest, Run(p.middle, rb.loc, rb.rest), o);
      assert BracketedAfter(p.middle, p.after, rb, o);
    }
  }

  /** The middle loop run after the opening outcome `ob` yields every
      outcome bracketed after it. */
  lemma BracketedComplete(p: Parser, ob: Outcome, o: Outcome)
    requires p.Between? && WellFormed(p) && BracketedAfter(p.middle, p.after, ob, o)
    ensures o in BetweenMid(p, ob.loc, ob.rest, Run(p.middle, ob.loc, ob.rest))
  {
    var om :| om in Run(p.middle, ob.loc, ob.rest) && ClosedBy(p.after, om, o);
    BetweenMidComplete(p, ob.loc, ob.rest, Run(p.middle, ob.loc, ob.rest), om, o);
  }

  lemma {:induction false} BetweenOuterComplete(p: Parser, loc: Path, s: string, rs: seq<Outcome>, ob: Outcome, o: Outcome)
    requires p.Between? && WellFormed(p) && Within(rs, loc, s, Consuming(p.before))
    requires ob in rs && BracketedAfter(p.middle, p.after, ob, o)
    ensures o in BetweenOuter(p, loc, s, rs)
    decreases |rs|
  {
    var rb := rs[|rs| - 1];
    var front := rs[..|rs| - 1];
    BetweenOuterLast(p, loc, s, rs);
    if ob == rb {
      BracketedComplete(p, rb, o);
    } else {
      InFront(ob, rs);
      BetweenOuterComplete(p, loc, s, front, ob, o);
    }
  }

  /** `between(pb, p, pa)` yields `(v, l, ra)` exactly for the outcomes
      `(vb, lb, rb)` of `pb`, `(v, l, r)` of `p` run from `lb` and `rb`, and
      `(va, la, ra)` of `pa` run from `l` and `r`: it keeps the middle value
      and location and the closing remainder. */
  lemma BetweenMembers(pb: Parser, pm: Parser, pa: Parser, loc: Path, s: string, o: Outcome)
    requires WellFormed(pb) && WellFormed(pm) && WellFormed(pa)
    ensures o in Run(Between(pb, pm, pa), loc, s) <==>
      exists ob | ob in Run(pb, loc, s) :: BracketedAfter(pm, pa, ob, o)
  {
    var b := Between(pb, pm, pa);
    if o in Run(b, loc, s) {
      BetweenOuterSound(b, loc, s, Run(pb, loc, s), o);
    }
    if exists ob | ob in Run(pb, loc, s) :: BracketedAfter(pm, pa, ob, o) {
      var ob :| ob in Run(pb, loc, s) && BracketedAfter(pm, pa, ob, o);
      BetweenOuterComplete(b, loc, s, Run(pb, loc, s), ob, o);
    }
  }
}
