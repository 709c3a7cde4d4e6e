/** The two generators of parsec2.py that work by mutating a shared list:
    `Compose.bt` and `some.bt`. Each is a method that appends a slot to the
    accumulator on entry, overwrites it with every complete value of the
    current sub-parser, recurses, and pops the slot on exit; each is proved to
    yield exactly what the specification functions of module Parsec2 say and
    to leave the accumulator as it found it. */
module Parsec2Generators {
  import opened Common
  import opened Parsec2

  /** The variable `partials` of `Compose.bt`: a list of collected
      locations, or None once a complete result has been seen. */
  datatype Partials = Collecting(paths: seq<Path>) | Discarded

  /** What `partials` holds once the loop has seen the outcomes `rs`: None
      exactly when one of them was complete, and otherwise one location per
      outcome seen. */
  ghost function Collected(rs: seq<Outcome>): (r: Partials)
    ensures r.Discarded? <==> exists k :: 0 <= k < |rs| && rs[k].Complete?
    ensures r.Collecting? ==> |r.paths| == |rs|
  {
    if NoComplete(rs) then Collecting(Locations(rs)) else Discarded
  }

  /** One more outcome seen by the loop: a complete one discards the
      collection, a partial one is appended to it unless it was discarded. */
  lemma CollectedSnoc(rs: seq<Outcome>, k: nat)
    requires k < |rs|
    ensures Collected(rs[..k + 1]) ==
      if rs[k].Complete? || Collected(rs[..k]).Discarded? then Discarded
      else Collecting(Collected(rs[..k]).paths + [rs[k].loc])
  {
    assert rs[..k + 1][..k] == rs[..k];
    assert rs[..k + 1] == rs[..k] + [rs[k]];
    if NoComplete(rs[..k + 1]) {
      assert rs[..k + 1][k].Partial?;
    }
  }

  /** Invoking a parser: `Compose` and `some` start their `bt` with a fresh
      empty list (their `opts`); every other combinator is pure generator
      code, given by `Run`. */
  method Call(p: Parser, s: string) returns (out: seq<Outcome>)
    requires WellFormed(p)
    ensures out == Run(p, s)
    decreases p, 2, 0, 0
  {
    match p
    case Compose(_, _, _, _) =>
      var l := new ValueList();
      out := ComposeBt(l, p, 0, s);
    case Some(q) =>
      var l := new ValueList();
      out := SomeBt(l, q, s);
    case _ =>
      out := Run(p, s);
  }

  /** `Compose.bt(l, i, string)`, with `acc` as the list `l`. */
  method ComposeBt(acc: ValueList, c: Parser, i: nat, s: string) returns (out: seq<Outcome>)
    requires c.Compose? && WellFormed(c) && i <= |c.parts|
    modifies acc
    ensures acc.items == old(acc.items)
    ensures out == Step(c, i, old(acc.items), s)
    decreases c, 1, |c.parts| - i, 1
  {
    if i >= |c.parts| {
      out := [Complete(c.combine(acc.items), s)];
      return;
    }
    ghost var vals := acc.items;
    acc.items := acc.items + [VNone];  // l.append(None)
    assert c.parts[i] in c.parts;
    var results := Call(c.parts[i], s);
    var partials;
    out, partials := ComposeLoop(acc, c, i, s, results);
    acc.items := acc.items[..|acc.items| - 1];  // l.pop()
    assert acc.items == vals;
    if partials.Collecting? && c.partial {
      var reported := YieldPartials(c.name, partials.paths);
      out := out + reported;
    }
  }

  /** The loop `for result in self.parts[i](string)` of `Compose.bt`, with
      `acc` holding the values of parts `0..i` and a slot for part `i`. It
      yields what the deeper frames yield for each complete result, and ends
      with the collected partial locations, or with `None` when a complete
      result was seen. */
  method ComposeLoop(acc: ValueList, c: Parser, i: nat, s: string, results: seq<Outcome>)
    returns (out: seq<Outcome>, partials: Partials)
    requires c.Compose? && WellFormed(c) && i < |c.parts|
    requires results == Run(c.parts[i], s) && |acc.items| > 0
    modifies acc
    ensures |acc.items| == |old(acc.items)| && acc.items[..|acc.items| - 1] == old(acc.items)[..|old(acc.items)| - 1]
    ensures out == StepLoop(c, i, old(acc.items)[..|old(acc.items)| - 1], s, results)
    ensures partials == Collected(results)
    decreases c, 1, |c.parts| - i, 0
  {
    ghost var vals := acc.items[..|acc.items| - 1];
    partials := Collecting([]);
    out := [];
    var k := 0;
    while k < |results|
      invariant k <= |results|
      invariant |acc.items| == |vals| + 1 && acc.items[..|vals|] == vals
      invariant out == StepLoop(c, i, vals, s, results[..k])
      invariant partials == Collected(results[..k])
    {
      var result := results[k];
      StepLoopSnoc(c, i, vals, s, results, k);
      CollectedSnoc(results, k);
      if result.Complete? {
        acc.items := acc.items[..|acc.items| - 1] + [result.value];  // l[-1] = result.value
        assert acc.items == vals + [result.value];
        var deeper := ComposeBt(acc, c, i + 1, result.rest);
        out := out + deeper;
        partials := Discarded;
      } else if partials.Collecting? {
        partials := Collecting(partials.paths + [result.loc]);
      }
      k := k + 1;
    }
    assert results[..k] == results;
  }

  /** The tail of `Compose.bt` once partials were collected: each collected
      location extended by the combinator's name, or `Partial([name])` when
      nothing was collected. */
  method YieldPartials(name: string, paths: seq<Path>) returns (out: seq<Outcome>)
    ensures out == Tagged(name, paths) + (if paths == [] then [Partial([name])] else [])
  {
    out := [];
    var j := 0;
    while j < |paths|
      invariant j <= |paths|
      invariant out == Tagged(name, paths[..j])
    {
      assert paths[..j + 1][..j] == paths[..j];
      out := out + [Partial(paths[j] + [name])];
      j := j + 1;
    }
    assert paths[..j] == paths;
    if paths == [] {
      out := out + [Partial([name])];
    }
  }

  /** `some.bt(l, string)`, with `acc` as the list `l`. */
  method SomeBt(acc: ValueList, q: Parser, s: string) returns (out: seq<Outcome>)
    requires WellFormed(Some(q))
    modifies acc
    ensures acc.items == old(acc.items)
    ensures out == SomeFrom(q, old(acc.items), s)
    decreases Some(q), 1, |s|, 0
  {
    ghost var vals := acc.items;
    acc.items := acc.items + [VNone];  // l.append(None)
    var results := Call(q, s);
    out := [];
    var k := 0;
    while k < |results|
      invariant k <= |results|
      invariant |acc.items| == |vals| + 1 && acc.items[..|vals|] == vals
      invariant out == SomeLoop(q, vals, s, results[..k])
    {
      var result := results[k];
      SomeLoopSnoc(q, vals, s, results, k);
      if result.Complete? {
        acc.items := acc.items[..|acc.items| - 1] + [result.value];  // l[-1] = result.value
        assert acc.items == vals + [result.value];
        var deeper := SomeBt(acc, q, result.rest);
        out := out + deeper + [Complete(VList(acc.items), result.rest)];  // l[:]
      }
      k := k + 1;
    }
    acc.items := acc.items[..|acc.items| - 1];  // l.pop()
    assert results[..k] == results;
  }
}
