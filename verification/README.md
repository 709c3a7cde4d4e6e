# parsec: three backtracking parser-combinator libraries, modelled in Dafny

The repository holds three prototype versions of one small Python library of
parser combinators. Each is a "list of successes" engine. A parser maps an
input string to the ordered sequence of everything it can produce. The
primitives match a literal prefix (`string`), match a regular expression
(`regex`), or consume nothing (`empty`, `unit`). The combinators do four
things:

- sequence parsers (`Compose`);
- concatenate alternatives (`choice`);
- repeat a parser (`some`, `many`);
- pair or bracket parsers (`pair`, `between`).

In Python every parser is a generator. In this model every parser is a value
of a `Parser` datatype, and a total function `Run` gives the finite sequence
that its generator yields, in the same order. Each version has its own
module:

- **Parsec2** (`parsec2.py`). An outcome is `Complete(value, remainder)` or
  `Partial(location)`. When a part of a `Compose` yields no complete outcome
  and the `Compose` was built with `partial=True`, it re-yields that part's
  partial paths with its own name appended, or `Partial([name])` when there
  were none. An enclosing `Compose` passes such paths on, with its name
  appended, only under the same condition; otherwise it drops them.
- **LocationParsec** (`locationparsec.py`). Every parser takes a location, a
  path of combinator names, and yields `(value, location, remainder)`. A
  `Compose` appends its name to the location when it is entered.
- **Parsec** (`parsec.py`). The earliest version: it yields pairs
  `(value, remainder)`. Only its primitives and simple combinators are usable.

The `for` loops of the generators are recursive functions over the outcome
sequence of the inner parser (`StepLoop`, `SomeLoop`, `PairLoop`, ...). Each
recurses on the last element, so "the outcomes seen so far" is a prefix of
the sequence.

Four generators share a Python list between frames and update it in place:
`Compose.bt` and `some.bt` in parsec2.py, and `Compose.bt` and `some.bt` in
locationparsec.py. A fifth, `many.bt` in parsec.py, updates a list in place
too, but shares it with no other frame: it recurses through `opts`, which
starts `bt` over with a fresh empty list (parsec.py:79, 83-84).

Each of the five is also a method, over a `ValueList` object that stands for
that list. Each method is proved to do two things: yield exactly what the
function that specifies it yields, and hand the list back unchanged. The list is
unchanged because the `append` on entry and the `pop` on exit balance out.

`some` and `many` recurse on the remainder of each match. When the body can
succeed without consuming input, `bt` re-enters itself through nested
`for`/`yield from` on an unchanged remainder (parsec2.py:88-92,
locationparsec.py:57-60, parsec.py:77-80): that recursion has no bound, and
CPython stops it with `RecursionError`. So the model
requires `WellFormed(p)`: the body of every `some` (in parsec.py, `many`) is
`Consuming`, a syntactic condition that guarantees a strictly shorter
remainder. `Run` then ensures that every remainder is a suffix of the input,
and a strictly shorter one for a consuming parser. That ensures clause is
what lets the recursion terminate.

`string(t)` on an input that is a strict prefix of `t` yields nothing, not
even a `Partial` (parsec2.py:63-67); see
`Parsec2Properties.LitOnStrictPrefixYieldsNothing`.

## Model

| member | source | states |
|---|---|---|
| Parsec2.Run | parsec2.py:57-121 | every complete remainder is a suffix of the input, strictly shorter when the parser is consuming |
| Parsec2.Step | parsec2.py:31-50 | a `Compose.bt` frame at part `i` only yields complete remainders that are suffixes of its input, strictly shorter when a later part consumes |
| Parsec2.StepLoop | parsec2.py:37-43 | the loop over part `i`'s outcomes keeps every complete remainder within the frame's input |
| Parsec2.Locations | parsec2.py:42-43 | at most one collected location per outcome, and exactly one per outcome iff none of them is complete |
| Parsec2.Tagged | parsec2.py:46-48 | retagging the collected locations yields only partial outcomes |
| Parsec2.Reported | parsec2.py:45-50 | what a frame reports after its loop is never a complete outcome |
| Parsec2.SomeFrom | parsec2.py:86-96 | every remainder of `some.bt` is strictly shorter than its input |
| Parsec2.SomeLoop | parsec2.py:88-92 | the loop of `some.bt` only yields strictly shorter remainders |
| Parsec2.Many | parsec2.py:100-101 | `many(p)` is `choice(some(p), unit([]))`; it is well-formed (terminates) exactly when `some(p)` is |
| Parsec2.PairLoop | parsec2.py:104-109 | `pair`'s remainders lie within the input, strictly shorter when either parser consumes |
| Parsec2.PairInner | parsec2.py:107-109 | every tuple is complete and carries the remainder of a complete second outcome |
| Parsec2.BetweenOuter | parsec2.py:113-120 | `between`'s remainders lie within the input, strictly shorter when any of the three parsers consumes |
| Parsec2.BetweenMid | parsec2.py:116-120 | the middle loop's remainders lie within its input |
| Parsec2.BetweenInner | parsec2.py:118-120 | every outcome is complete and carries the remainder of a complete closing outcome |
| Parsec2Generators.Call | parsec2.py:52-55 | invoking a parser, with `Compose` and `some` run by their `bt` methods on a fresh list, yields exactly `Run` |
| Parsec2Generators.Collected | parsec2.py:36-43 | what `partials` holds after the loop has seen `rs`: `None` exactly when one of them is complete, otherwise one location per outcome seen |
| Parsec2Generators.ComposeBt | parsec2.py:31-50 | `Compose.bt` yields exactly `Step` for the list's current contents and leaves the list unchanged |
| Parsec2Generators.ComposeLoop | parsec2.py:35-44 | the loop yields exactly `StepLoop`; it restores every slot but the last; `partials` ends as the collected locations iff no result was complete, else `None` |
| Parsec2Generators.CollectedSnoc | parsec2.py:38-43 | one more result seen by the loop: a complete one sets `partials` to `None`, a partial one appends its location unless `partials` is already `None` |
| Parsec2Generators.YieldPartials | parsec2.py:45-50 | yields each collected location extended by the name, or `Partial([name])` when none was collected |
| Parsec2Generators.SomeBt | parsec2.py:86-93 | `some.bt` yields exactly `SomeFrom` for the list's contents and leaves the list unchanged |
| Parsec2Properties.LitOutcomes | parsec2.py:63-67 | `string(t)` yields one outcome iff the input starts with `t`; it is complete, with value `t`, and `t` plus the remainder is the input |
| Parsec2Properties.LitOnStrictPrefixYieldsNothing | parsec2.py:63-67 | for every literal `t` and every input that is a strict prefix of `t`, nothing is yielded, no partial outcome either |
| Parsec2Properties.ReOutcomes | parsec2.py:69-75 | `regex` yields one outcome iff the pattern matches; the value is the matched prefix and it plus the remainder is the input |
| Parsec2Properties.EmptyAndUnitConsumeNothing | parsec2.py:77-83 | `empty` and `unit(v)` each yield one complete outcome with the whole input as remainder |
| Parsec2Properties.ChoiceConcatenates | parsec2.py:57-61 | `choice(p1, p2)` yields `p1`'s outcomes then `p2`'s, nothing dropped or added |
| Parsec2Properties.StepCompletes | parsec2.py:31-44 | the complete outcomes of a frame are `func` of the values of every chain of complete part outcomes, in nested order |
| Parsec2Properties.StepLoopCompletes | parsec2.py:37-41 | the complete outcomes of the loop over part `i` follow the chains through each complete outcome in turn |
| Parsec2Properties.ComposeCompletes | parsec2.py:31-55 | `Compose` yields `Complete(func(v0..vn-1), r)` for every left-to-right chain of complete part outcomes, the last part varying fastest, `r` the last remainder |
| Parsec2Properties.PartialWhenPartYieldsNothing | parsec2.py:45-50 | a part that yields nothing makes the frame yield exactly `Partial([name])`, or nothing with `partial=False` |
| Parsec2Properties.PartialsRetagged | parsec2.py:42-48 | a part that yields only partials makes the frame re-yield each of them in order, the name appended to its location |
| Parsec2Properties.PartialsSuppressedByComplete | parsec2.py:38-45 | once part `i` yields a complete outcome, none of its partials is reported: everything comes from deeper frames |
| Parsec2Properties.StepPartials | parsec2.py:31-50 | every partial outcome of a frame ends with the combinator's name, and none occurs with `partial=False` |
| Parsec2Properties.StepLoopPartials | parsec2.py:37-41 | the partials that deeper frames yield through the loop also end with the name |
| Parsec2Properties.ComposePartialsEndWithName | parsec2.py:45-50 | every partial outcome of a `Compose` ends with its name |
| Parsec2Properties.NoPartialsWhenDisabled | parsec2.py:26-45 | with `partial=False`, `Compose` yields only complete outcomes |
| Parsec2Properties.StarvedSecondPart | parsec2.py:35-50 | a sequence of "a" and "b" on "a" yields exactly `Partial(["seq"])` |
| Parsec2Properties.NestedPathOrder | parsec2.py:45-50 | paths read innermost first: when the only part of an inner `Compose` named `a` yields nothing, an outer `Compose` named `b` around it yields exactly `Partial([a, b])` |
| Parsec2Properties.StarvedSinglePart | parsec2.py:49-50 | a `Compose` whose only part yields nothing yields exactly `Partial([name])` |
| Parsec2Properties.RetaggedSinglePart | parsec2.py:46-48 | a `Compose` whose only part yields `Partial(loc)` yields exactly `Partial(loc + [name])` |
| Parsec2Properties.NestedStarved | parsec2.py:45-50 | a `Compose` whose only part is a `Compose` whose only part yields nothing yields exactly `Partial([inner name, outer name])` |
| Parsec2Properties.SomeFromLists | parsec2.py:86-93 | `some.bt` with `l == vals` yields complete lists that extend `vals` by at least one value |
| Parsec2Properties.SomeLoopLists | parsec2.py:88-92 | the same for the loop over the body's outcomes |
| Parsec2Properties.SomeYieldsNonEmptyLists | parsec2.py:85-98 | `some(p)` yields only complete non-empty lists; the partials of `p` are dropped |
| Parsec2Properties.SomeFromSound | parsec2.py:86-93 | every outcome of `some.bt` is the list of a non-empty repetition of `p`, with the last remainder |
| Parsec2Properties.SomeLoopSound | parsec2.py:88-92 | soundness for the loop over the body's outcomes |
| Parsec2Properties.SomeStepSound | parsec2.py:89-92 | what one iteration yields on a complete match (the deeper repetitions, then the list ending at the match) is the list of a non-empty repetition |
| Parsec2Properties.SomeDeeperSound | parsec2.py:90-91 | every outcome of the recursive `bt` on a complete match's remainder is the list of a non-empty repetition starting with that match |
| Parsec2Properties.SomeFromComplete | parsec2.py:86-93 | every non-empty repetition of `p` is yielded by `some.bt` |
| Parsec2Properties.SomeLoopComplete | parsec2.py:88-92 | completeness for the loop over the body's outcomes |
| Parsec2Properties.SomeIsRepetition | parsec2.py:85-98 | an outcome is yielded by `some(p)` iff it is the list of a non-empty repetition of `p` |
| Parsec2Properties.SomeEndsWithLastMatch | parsec2.py:88-92 | when `p`'s last outcome is complete, `some(p)`'s last outcome is the one-element list of it: longer continuations come first |
| Parsec2Properties.SomeLoopPrefix | parsec2.py:88-92 | the loop's output over the first `j` outcomes of the body is a prefix of its output over all of them |
| Parsec2Properties.SomeOrder | parsec2.py:86-92 | for every complete match `rs[k]` of the body, `some.bt` yields what the earlier matches give, then the longer repetitions starting with `rs[k]`, then the list ending at `rs[k]`, and only then what later matches give |
| Parsec2Properties.ManyEndsWithEmptyList | parsec2.py:100-101 | `many(p)` always ends with `Complete([], s)`, and no earlier outcome is the empty list |
| Parsec2Properties.PairInnerIsStep | parsec2.py:107-109 | `pair`'s inner loop is the second frame of a two-part non-partial `Compose` |
| Parsec2Properties.PairLoopIsStep | parsec2.py:104-109 | `pair`'s outer loop is the first frame of that `Compose` |
| Parsec2Properties.PairIsCompose | parsec2.py:103-110 | `pair(p1, p2)` yields exactly what `Compose(p1, p2, partial=False)` with a tupling function yields |
| Parsec2Properties.BetweenInnerIsStep | parsec2.py:118-120 | `between`'s inner loop is the third frame of a three-part non-partial `Compose` |
| Parsec2Properties.BetweenMidIsStep | parsec2.py:116-120 | its middle loop is the second frame |
| Parsec2Properties.BetweenOuterIsStep | parsec2.py:114-120 | its outer loop is the first frame |
| Parsec2Properties.BetweenIsCompose | parsec2.py:112-121 | `between(pb, p, pa)`, read with `r.value`, yields exactly what `Compose(pb, p, pa, partial=False)` keeping the middle value yields |
| Parsec2Findings.InnerAsWrittenRaises | parsec2.py:118-120 | the innermost loop as written raises iff the intended one yields something |
| Parsec2Findings.MidAsWrittenRaises | parsec2.py:116-120 | the same for the middle loop |
| Parsec2Findings.OuterAsWrittenRaises | parsec2.py:114-120 | the same for the outer loop |
| Parsec2Findings.BetweenAsWrittenRaisesIffMatch | parsec2.py:112-121 | `between` as written never yields; it raises `NameError` iff a bracketed match exists |
| Parsec2Findings.BetweenAsWrittenCounterexample | parsec2.py:120 | `between(empty, string("x"), empty)` on "x" raises as written, while the intended parser yields `Complete("x", "")` |
| Parsec2Findings.InnerAsWritten | parsec2.py:118-120 | the innermost loop as written never yields an outcome: it finishes with nothing or raises |
| Parsec2Findings.MidAsWritten | parsec2.py:116-120 | the middle loop as written never yields an outcome |
| Parsec2Findings.OuterAsWritten | parsec2.py:114-120 | the outer loop as written never yields an outcome |
| Parsec2Findings.BetweenAsWritten | parsec2.py:112-121 | `between(pb, p, pa)(s)` as written never yields an outcome |
| LocationParsec.Run | locationparsec.py:21-84 | every outcome's location extends the input location; every remainder is a suffix of the input, strictly shorter for a consuming parser |
| LocationParsec.Step | locationparsec.py:11-19 | a `Compose.bt` frame's outcomes extend its location and stay within its input |
| LocationParsec.StepLoop | locationparsec.py:15-18 | the loop threads each part's location and remainder, staying within the frame's location and input |
| LocationParsec.SomeFrom | locationparsec.py:55-64 | `some.bt`'s outcomes extend its location, with strictly shorter remainders |
| LocationParsec.SomeLoop | locationparsec.py:57-60 | the same for the loop over the body's outcomes |
| LocationParsec.Many | locationparsec.py:68-69 | `many(p)` is `choice(some(p), unit([]))`; it is well-formed (terminates) exactly when `some(p)` is |
| LocationParsec.PairLoop | locationparsec.py:72-75 | `pair`'s outcomes extend the location and stay within the input |
| LocationParsec.PairInner | locationparsec.py:74-75 | each tuple carries the location and remainder of a second outcome |
| LocationParsec.BetweenOuter | locationparsec.py:79-83 | `between`'s outcomes extend the location and stay within the input |
| LocationParsec.BetweenMid | locationparsec.py:81-83 | the same for the middle loop |
| LocationParsec.BetweenInner | locationparsec.py:82-83 | each outcome carries the middle location `l` and the remainder of a closing outcome |
| LocationParsec.Parse | locationparsec.py:115-116 | `parse` yields outcomes whose remainders are suffixes of the input |
| LocationParsecGenerators.Call | locationparsec.py:21-22 | invoking `p(loc, s)`, with `Compose` and `some` run by their `bt` methods on a fresh list, yields exactly `Run` |
| LocationParsecGenerators.ComposeBt | locationparsec.py:11-19 | `Compose.bt` yields exactly `Step` for the list's contents and leaves the list unchanged |
| LocationParsecGenerators.ComposeLoop | locationparsec.py:15-18 | the loop yields exactly `StepLoop` for the values before the slot, and leaves every slot but the last as it found it |
| LocationParsecGenerators.SomeBt | locationparsec.py:55-61 | `some.bt` yields exactly `SomeFrom` for the list's contents and leaves the list unchanged |
| LocationParsecProperties.LitOutcomes | locationparsec.py:32-36 | `string(t)` yields `(t, loc, r)` iff the input is `t + r`, at most one outcome, always with the input location |
| LocationParsecProperties.ReOutcomes | locationparsec.py:38-44 | `regex` yields the matched prefix with the unchanged location iff the pattern matches |
| LocationParsecProperties.PrimitivesKeepLocation | locationparsec.py:32-52 | `string`, `regex`, `empty` and `unit` return the location unchanged; `empty` and `unit` consume nothing |
| LocationParsecProperties.ChoiceConcatenates | locationparsec.py:26-30 | `choice` yields `p1`'s outcomes then `p2`'s, both run on the same location and input |
| LocationParsecProperties.StepIsChains | locationparsec.py:11-19 | a frame yields `func` of the values in part order for every threaded chain through the remaining parts |
| LocationParsecProperties.StepLoopIsChains | locationparsec.py:15-18 | the loop follows the chains through each outcome of part `i` in turn |
| LocationParsecProperties.ComposeIsChains | locationparsec.py:11-24 | `Compose` yields `func(values)` for every chain threaded from `location + [name]`, with the last location and remainder |
| LocationParsecProperties.ComposeExtendsLocation | locationparsec.py:21-22 | every outcome of a `Compose` has `location + [name]` as a prefix of its location |
| LocationParsecProperties.ParseComposeLocations | locationparsec.py:115-116 | parsing with a `Compose` from the empty location gives locations that start with its name |
| LocationParsecProperties.NameAppendedAtEnd | locationparsec.py:21-22 | the name goes at the end: `Compose f` of `empty` from `["g"]` yields location `["g", "f"]` |
| LocationParsecProperties.SomeFromLists | locationparsec.py:55-61 | `some.bt` with `vs == vals` yields lists that extend `vals` by at least one value |
| LocationParsecProperties.SomeLoopLists | locationparsec.py:57-60 | the same for the loop |
| LocationParsecProperties.SomeYieldsNonEmptyLists | locationparsec.py:54-66 | `some(p)` yields only non-empty lists |
| LocationParsecProperties.SomeFromSound | locationparsec.py:55-61 | every outcome of `some.bt` is a non-empty repetition's list, with the last match's location and remainder |
| LocationParsecProperties.SomeLoopSound | locationparsec.py:57-60 | soundness for the loop |
| LocationParsecProperties.SomeStepSound | locationparsec.py:58-60 | what one iteration yields (the deeper repetitions, then the list ending at the match) is the list of a non-empty repetition |
| LocationParsecProperties.SomeDeeperSound | locationparsec.py:58-59 | every outcome of the recursive `bt` from a match's location and remainder is the list of a non-empty repetition starting with that match |
| LocationParsecProperties.SomeFromComplete | locationparsec.py:55-61 | every non-empty repetition is yielded |
| LocationParsecProperties.SomeLoopComplete | locationparsec.py:57-60 | completeness for the loop |
| LocationParsecProperties.SomeIsRepetition | locationparsec.py:54-66 | an outcome is yielded by `some(p)` iff it is a non-empty repetition's list with the last match's location and remainder |
| LocationParsecProperties.SomeEndsWithLastMatch | locationparsec.py:57-60 | the last outcome of `some(p)` is the one-element list of `p`'s last outcome: longer lists come first |
| LocationParsecProperties.SomeLoopPrefix | locationparsec.py:57-60 | the loop's output over the first `j` outcomes of the body is a prefix of its output over all of them |
| LocationParsecProperties.SomeOrder | locationparsec.py:55-60 | for every match `rs[k]` of the body, `some.bt` yields what the earlier matches give, then the longer repetitions starting with `rs[k]`, then the list ending at `rs[k]`, and only then what later matches give |
| LocationParsecProperties.ManyEndsWithEmptyList | locationparsec.py:68-69 | `many(p)` ends with `([], location, string)`, and no earlier outcome is the empty list |
| LocationParsecProperties.PairInnerMembers | locationparsec.py:74-75 | the inner loop yields a tuple for exactly each second outcome |
| LocationParsecProperties.PairLoopSound | locationparsec.py:72-75 | every outcome of `pair` pairs an outcome of `p1` with one of `p2` run from its location and remainder |
| LocationParsecProperties.PairLoopComplete | locationparsec.py:72-75 | every such pairing is yielded |
| LocationParsecProperties.PairMembers | locationparsec.py:71-76 | `pair` yields `((v1, v2), l2, r2)` iff `(v1, l1, r1)` is an outcome of `p1` and `(v2, l2, r2)` one of `p2` run from `l1`, `r1` |
| LocationParsecProperties.BetweenInnerMembers | locationparsec.py:82-83 | the inner loop yields `(v, l, ra)` for exactly each closing outcome |
| LocationParsecProperties.BetweenMidSound | locationparsec.py:81-83 | every outcome of the middle loop is closed by an outcome of `pa` |
| LocationParsecProperties.BetweenMidComplete | locationparsec.py:81-83 | every closed middle outcome is yielded |
| LocationParsecProperties.BetweenOuterSound | locationparsec.py:80-83 | every outcome of `between` follows an opening outcome |
| LocationParsecProperties.BetweenOuterComplete | locationparsec.py:80-83 | every bracketed outcome is yielded |
| LocationParsecProperties.BetweenMembers | locationparsec.py:78-84 | `between` yields `(v, l, ra)` iff an opening, a middle `(v, l, r)` and a closing outcome with remainder `ra` chain up |
| Parsec.Run | parsec.py:51-101 | every remainder is a suffix of the input, strictly shorter for a consuming parser |
| Parsec.ManyFrom | parsec.py:75-84 | `many.bt`'s remainders are strictly shorter than its input |
| Parsec.ManyLoop | parsec.py:77-80 | the same for the loop, which restarts through `opts` on each remainder |
| Parsec.PairLoop | parsec.py:90-92 | `pair`'s remainders lie within the input |
| Parsec.PairInner | parsec.py:91-92 | each tuple carries the remainder of a second outcome |
| Parsec.BetweenOuter | parsec.py:97-100 | `between`'s remainders lie within the input, strictly shorter when the opening or middle parser consumes |
| Parsec.BetweenMid | parsec.py:98-100 | every remainder the middle loop yields lies within the loop's input, strictly shorter when the middle parser consumes |
| Parsec.Copies | parsec.py:99-100 | the innermost loop yields `(v, r)` once per closing outcome |
| ParsecGenerators.Call | parsec.py:83-86 | invoking a parser, with `many` run through its `opts`, yields exactly `Run` |
| ParsecGenerators.ManyOpts | parsec.py:83-84 | `opts` starts `bt` with a fresh empty list and yields exactly `ManyFrom` from `[]` |
| ParsecGenerators.ManyBt | parsec.py:75-81 | `many.bt` yields exactly `ManyFrom` for the list's contents and leaves the list unchanged |
| ParsecProperties.LitOutcomes | parsec.py:57-61 | `string(t)` yields `(t, r)` iff the input is `t + r`, and at most one outcome |
| ParsecProperties.ReOutcomes | parsec.py:63-69 | `regex` yields the matched prefix and the rest iff the pattern matches |
| ParsecProperties.EmptyYieldsNone | parsec.py:71-72 | `empty` yields exactly `(None, string)` |
| ParsecProperties.ChoiceConcatenates | parsec.py:51-55 | `choice(p1, p2)(s)` is `p1(s)` followed by `p2(s)` |
| ParsecProperties.PairInnerMembers | parsec.py:91-92 | the inner loop yields a tuple for exactly each second outcome |
| ParsecProperties.PairLoopSound | parsec.py:90-92 | every outcome of `pair` pairs an outcome of `p1` with one of `p2` on its remainder |
| ParsecProperties.PairLoopComplete | parsec.py:90-92 | every such pairing is yielded |
| ParsecProperties.PairMembers | parsec.py:88-93 | `pair` yields `((v1, v2), r2)` iff `(v1, r1)` is an outcome of `p1` and `(v2, r2)` one of `p2` on `r1` |
| ParsecProperties.BetweenMidSound | parsec.py:98-100 | the middle loop yields only middle outcomes on whose remainder `pa` yields something |
| ParsecProperties.BetweenMidComplete | parsec.py:98-100 | each such middle outcome is yielded |
| ParsecProperties.BetweenOuterSound | parsec.py:97-100 | every outcome of `between` is a middle outcome after some opening outcome |
| ParsecProperties.BetweenOuterComplete | parsec.py:97-100 | every such middle outcome is yielded |
| ParsecProperties.BetweenMembers | parsec.py:95-101 | `between` yields `(v, r)` iff `(v, r)` is a middle outcome after an opening one and `pa` accepts something on `r`; the remainder is `r`, not `ra` |
| ParsecProperties.BetweenMidCount | parsec.py:98-100 | the middle loop yields each outcome `o` as often as it occurs among the middle outcomes, times the number of outcomes `pa` yields on `o`'s remainder; in total as many outcomes as `pa` yields over all middle outcomes |
| ParsecProperties.CopiesCount | parsec.py:99-100 | one iteration of the innermost loop holds `(v, r)` exactly `n` times and nothing else |
| ParsecProperties.BetweenOuterCount | parsec.py:96-100 | the outer loop yields `o` once for each time it is a middle outcome after an opening outcome and each outcome `pa` yields on its remainder |
| ParsecProperties.BetweenCount | parsec.py:95-101 | `between(pb, pm, pa)` yields `o` exactly (number of times `o` is a middle outcome after an opening outcome) × (number of outcomes of `pa` on `o`'s remainder) times |
| ParsecProperties.BetweenSingle | parsec.py:95-101 | when each of the three parsers yields one outcome, `between` yields exactly the middle one |
| ParsecProperties.BetweenKeepsMiddleRemainder | parsec.py:95-101 | `between(empty, string("a"), string("b"))` on "ab" yields `("a", "b")` |
| ParsecProperties.ManyFromSingletons | parsec.py:75-84 | every list `many.bt` yields from `opts` holds exactly one value |
| ParsecProperties.ManyLoopSingletons | parsec.py:77-80 | the same for the loop |
| ParsecProperties.ManyYieldsSingletons | parsec.py:74-86 | `many(p)` yields only one-element lists, and nothing when `p` yields nothing |
| ParsecProperties.ManyFromSound | parsec.py:75-84 | every outcome of `many` is the one-element list of the last match of a non-empty repetition |
| ParsecProperties.ManyLoopSound | parsec.py:77-80 | soundness for the loop |
| ParsecProperties.ManyStepSound | parsec.py:78-80 | what one iteration yields (`opts` on the remainder, then the one-element list) is the last match of a non-empty repetition |
| ParsecProperties.ManyFromComplete | parsec.py:75-84 | for every non-empty repetition, its last match is yielded as a one-element list |
| ParsecProperties.ManyLoopComplete | parsec.py:77-80 | completeness for the loop |
| ParsecProperties.ManyStepComplete | parsec.py:78-80 | the iteration over a repetition's first match yields that repetition's last match as a one-element list |
| ParsecProperties.ManyIsLastOfRepetition | parsec.py:74-86 | an outcome is yielded by `many(p)` iff it is the one-element list of the last match of a non-empty repetition; every outcome of `p` appears so |
| ParsecProperties.ManyForgetsEarlierMatches | parsec.py:79-80 | `many(string("a"))` on "aa" yields `(["a"], "")` then `(["a"], "a")` |

## Left out

- Regular expressions: `re.compile` and `re.match` are Python's engine, a foreign library. A pattern is an abstract `Matcher` that reports no match or a match length no greater than the input.
- The demonstration arithmetic grammar (`literal`, `prodop`, `product`, `addop`, `term` in all three files) is client code, and its `/=` produces floating-point values.
- The `Compose` of parsec.py (parsec.py:19-49) is not usable: `kind` is unbound at lines 34 and 38, and line 42 reads `.value` from the first element unpacked from each `(value, rem)` tuple, which is a plain value, so it raises as soon as a part yields something. It is not part of this model. The same goes for parsec.py's `Complete` and `Partial` classes, which only that `Compose` uses.
- Laziness: generators are finite sequences, and a generator method materialises the inner parser's whole output before its loop runs. The order of what is yielded is the same.
- Non-termination: `some` (parsec.py: `many`) recurses without bound on a body that can succeed without consuming input (CPython raises `RecursionError`). `WellFormed` excludes such parsers through a syntactic `Consuming` condition, so a body whose consumption Python guarantees for semantic reasons only is excluded too. The condition is on the whole parser tree and does not look at the input, so it also excludes inputs on which Python terminates because the non-consuming `some` is never reached: `pair(string("x"), some(empty))` on "y" yields nothing in parsec2.py, and the model cannot state that.
- `func.__name__` is an explicit `name` parameter. `func(*l)` is a Dafny function from the list of part values to a value, so an arity mismatch, which raises in Python, is not modelled.
- Python exceptions are not modelled, except the `NameError` in parsec2.py's `between` (see Findings). The `RecursionError` of a non-consuming `some`/`many` body is excluded by `WellFormed` (see Non-termination).
- The `Call` methods run `choice`, `string`, `regex`, `empty`, `unit`, `pair` and `between` through `Run`. These combinators keep no state, so they have no method of their own.
- `__repr__`, `__slots__` and the unused `enum` import are incidental. `is_complete` is the datatype discriminator `Complete?`.

## Findings

| source | as written | input that shows it | evidently intended | confidence | as-written member | corrected member |
|---|---|---|---|---|---|---|
| parsec2.py:120 | `between` yields `Complete(v.value, ra.remainder)`, but no `v` is bound in that scope, so the yield raises `NameError` | `between(empty, string("x"), empty)` on "x" | yield the middle result's value `r.value` with remainder `ra.remainder` | high; not executed | Parsec2Findings.BetweenAsWrittenCounterexample | Parsec2Properties.BetweenIsCompose |
