/** The two generators of locationparsec.py that mutate a shared list:
    `Compose.bt` (list `l`) and `some.bt` (list `vs`). Each is proved to yield
    what module LocationParsec specifies and to hand the list back unchanged. */
module LocationParsecGenerators {
  import opened Common
  import opened LocationParsec

  /** Invoking `p(loc, s)`: `Compose` and `some` start their `bt` with a fresh
      empty list; every other combinator is pure generator code, given by
      `Run`. */
  method Call(p: Parser, loc: Path, s: string) returns (out: seq<Outcome>)
    requires WellFormed(p)
    ensures out == Run(p, loc, s)
    decreases p, 2, 0, 0
  {
    match p
    case Compose(name, _, _) =>
      var l := new ValueList();
      out := ComposeBt(l, p, 0, loc + [name], s);
    case Some(q) =>
      var l := new ValueList();
      out := SomeBt(l, q, loc, s);
    case _ =>
      out := Run(p, loc, s);
  }

  /** `Compose.bt(l, i, location, string)`, with `acc` as the list `l`. */
  method ComposeBt(acc: ValueList, c: Parser, i: nat, loc: Path, s: string) returns (out: seq<Outcome>)
    requires c.Compose? && WellFormed(c) && i <= |c.parts|
    modifies acc
    ensures acc.items == old(acc.items)
    ensures out == Step(c, i, old(acc.items), loc, s)
    decreases c, 1, |c.parts| - i, 1
  {
    if i >= |c.parts| {
      out := [Outcome(c.combine(acc.items), loc, s)];
      return;
    }
    ghost var vals := acc.items;
    acc.items := acc.items + [VNone];  // l.append(None)
    assert c.parts[i] in c.parts;
    var results := Call(c.parts[i], loc, s);
    out := ComposeLoop(acc, c, i, loc, s, results);
    acc.items := acc.items[..|acc.items| - 1];  // l.pop()
    assert acc.items == vals;
  }

  /** The loop `for value, loc, remainder in self.parts[i](location, string)`
      of `Compose.bt`, with `acc` holding the values of parts `0..i` and a
      slot for part `i`: each result continues with the next part. */
  method ComposeLoop(acc: ValueList, c: Parser, i: nat, loc: Path, s: string, results: seq<Outcome>)
    returns (out: seq<Outcome>)
    requires c.Compose? && WellFormed(c) && i < |c.parts|
    requires results == Run(c.parts[i], loc, s) && |acc.items| > 0
    modifies acc
    ensures |acc.items| == |old(acc.items)| && acc.items[..|acc.items| - 1] == old(acc.items)[..|old(acc.items)| - 1]
    ensures out == StepLoop(c, i, old(acc.items)[..|old(acc.items)| - 1], loc, s, results)
    decreases c, 1, |c.parts| - i, 0
  {
    ghost var vals := acc.items[..|acc.items| - 1];
    out := [];
    var k := 0;
    while k < |results|
      invariant k <= |results|
      invariant |acc.items| == |vals| + 1 && acc.items[..|vals|] == vals
      invariant out == StepLoop(c, i, vals, loc, s, results[..k])
    {
      var result := results[k];
      StepLoopSnoc(c, i, vals, loc, s, results, k);
      acc.items := acc.items[..|acc.items| - 1] + [result.value];  // l[-1] = value
      assert acc.items == vals + [result.value];
      var deeper := ComposeBt(acc, c, i + 1, result.loc, result.rest);
      out := out + deeper;
      k := k + 1;
    }
    assert results[..k] == results;
  }

  /** `some.bt(vs, location, string)`, with `acc` as the list `vs`. */
  method SomeBt(acc: ValueList, q: Parser, loc: Path, s: string) returns (out: seq<Outcome>)
    requires WellFormed(Some(q))
    modifies acc
    ensures acc.items == old(acc.items)
    ensures out == SomeFrom(q, old(acc.items), loc, s)
    decreases Some(q), 1, |s|, 0
  {
    ghost var vals := acc.items;
    acc.items := acc.items + [VNone];  // vs.append(None)
    var results := Call(q, loc, s);
    out := [];
    var k := 0;
    while k < |results|
      invariant k <= |results|
      invariant |acc.items| == |vals| + 1 && acc.items[..|vals|] == vals
      invariant out == SomeLoop(q, vals, loc, s, results[..k])
    {
      var result := results[k];
      SomeLoopSnoc(q, vals, loc, s, results, k);
      acc.items := acc.items[..|acc.items| - 1] + [result.value];  // vs[-1] = v
      assert acc.items == vals + [result.value];
      var deeper := SomeBt(acc, q, result.loc, result.rest);
      out := out + deeper + [Outcome(VList(acc.items), result.loc, result.rest)];  // vs[:]
      k := k + 1;
    }
    acc.items := acc.items[..|acc.items| - 1];  // vs.pop()
    assert results[..k] == results;
  }
}
