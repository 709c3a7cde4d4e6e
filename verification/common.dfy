/** Vocabulary shared by the three versions of the parser-combinator library:
    the Python values a parser produces, location paths, the abstract regular
    expression matcher, suffixes of the input, and the mutable Python list that
    the backtracking generators use as an accumulator. */
module Common {

  /** The Python values that parsers produce and combine functions consume:
      a matched string, an int, None, a list and a 2-tuple. */
  datatype Value =
    | VStr(str: string)
    | VInt(num: int)
    | VNone
    | VList(items: seq<Value>)
    | VPair(fst: Value, snd: Value)

  /** A location path: combinator names, innermost first. */
  type Path = seq<string>

  /** What `re.match(pattern, string)` reports: no match, or a match of the
      input's first `end` characters (`m.end()`). */
  datatype MatchResult = NoMatch | MatchEnd(end: nat)

  /** A compiled pattern, anchored at the start of the input. The matching
      engine itself is foreign code; all the model knows is that a match never
      reaches past the end of the input. */
  type Matcher = m: string -> MatchResult
    | forall t :: m(t).MatchEnd? ==> m(t).end <= |t|
    witness (t: string) => NoMatch

  /** `a` is a final segment of `b`. */
  predicate IsSuffix(a: string, b: string)
  {
    |a| <= |b| && b[|b| - |a|..] == a
  }

  /** The multiset of a non-empty sequence: its front part's, plus its last
      element once more. */
  lemma MultisetSnoc<T>(rs: seq<T>, x: T)
    requires |rs| > 0
    ensures multiset(rs)[x] == multiset(rs[..|rs| - 1])[x] + (if x == rs[|rs| - 1] then 1 else 0)
  {
    assert rs == rs[..|rs| - 1] + [rs[|rs| - 1]];
  }

  /** An element of a sequence other than its last is in the front part. */
  lemma InFront<T>(x: T, rs: seq<T>)
    requires x in rs && x != rs[|rs| - 1]
    ensures x in rs[..|rs| - 1]
  {
    assert rs == rs[..|rs| - 1] + [rs[|rs| - 1]];
  }

  lemma SuffixTrans(a: string, b: string, c: string)
    requires IsSuffix(a, b) && IsSuffix(b, c)
    ensures IsSuffix(a, c)
  {
    assert c[|c| - |a|..] == c[|c| - |b|..][|b| - |a|..];
  }

  /** The Python list `l` (or `vs`) that a backtracking generator shares with
      the frames it spawns: `append`, `l[-1] = v` and `pop` update it in
      place, and `l[:]` takes a copy. */
  class ValueList {
    var items: seq<Value>

    constructor ()
      ensures items == []
    {
      items := [];
    }
  }

}
