/** The one generator of parsec.py that mutates a list in place: `many.bt`.
    Its recursion goes through `opts`, which starts over with a fresh list,
    so each frame's list only ever holds one slot beyond what it was given. */
module ParsecGenerators {
  import opened Common
  import opened Parsec

  /** Invoking `p(s)`: `many` goes through its `opts`; every other combinator
      is pure generator code, given by `Run`. */
  method Call(p: Parser, s: string) returns (out: seq<Outcome>)
    requires WellFormed(p)
    ensures out == Run(p, s)
    decreases p, 2, 0, 0
  {
    match p
    case Many(q) =>
      out := ManyOpts(q, s);
    case _ =>
      out := Run(p, s);
  }

  /** `many(p)`'s `opts(s)`: `bt` with a fresh empty list. */
  method ManyOpts(q: Parser, s: string) returns (out: seq<Outcome>)
    requires WellFormed(Many(q))
    ensures out == ManyFrom(q, [], s)
    decreases Many(q), 1, |s|, 1
  {
    var l := new ValueList();
    out := ManyBt(l, q, s);
  }

  /** `many.bt(l, s)`, with `acc` as the list `l`. */
  method ManyBt(acc: ValueList, q: Parser, s: string) returns (out: seq<Outcome>)
    requires WellFormed(Many(q))
    modifies acc
    ensures acc.items == old(acc.items)
    ensures out == ManyFrom(q, old(acc.items), s)
    decreases Many(q), 1, |s|, 0
  {
    ghost var vals := acc.items;
    acc.items := acc.items + [VNone];  // l.append(None)
    var results := Call(q, s);
    out := [];
    var k := 0;
    while k < |results|
      invariant k <= |results|
      invariant |acc.items| == |vals| + 1 && acc.items[..|vals|] == vals
      invariant out == ManyLoop(q, vals, s, results[..k])
    {
      var result := results[k];
      ManyLoopSnoc(q, vals, s, results, k);
      acc.items := acc.items[..|acc.items| - 1] + [result.value];  // l[-1] = value
      assert acc.items == vals + [result.value];
      var deeper := ManyOpts(q, result.rest);
      out := out + deeper + [Outcome(VList(acc.items), result.rest)];  // l[:]
      k := k + 1;
    }
    acc.items := acc.items[..|acc.items| - 1];  // l.pop()
    assert results[..k] == results;
  }
}
