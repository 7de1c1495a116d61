/** What each arm of the rule engine promises, stated for all rules and all
    windows, and the structural facts that follow from the arms together. */
module RuleLaws {
  import opened Rules

  /** `Literal(l)`: a full match exactly on `l`, a partial match exactly on
      the proper prefixes of `l`, no match otherwise. */
  lemma LiteralArm<T>(l: string, w: string)
    ensures Matches(Rule<T>.Literal(l), w).IsMatch() <==> w == l
    ensures Matches(Rule<T>.Literal(l), w).IsPartialMatch() <==> w != l && w <= l
    ensures Matches(Rule<T>.Literal(l), w).IsNone() <==> !(w <= l)
    ensures Matches(Rule<T>.Literal(l), w).IsMatch() ==> Matches(Rule<T>.Literal(l), w).token == None
    ensures l != [] ==> Matches(Rule<T>.Literal(l), []).IsPartialMatch()
  {
  }

  /** The character-class leaves match exactly the windows made only of
      characters of their class (the empty window included), never partially
      and never with a token. */
  lemma ClassArms<T>(w: string)
    ensures Matches(Rule<T>.Numeric, w).IsMatch() <==> forall i :: 0 <= i < |w| ==> IsNumeric(w[i])
    ensures Matches(Rule<T>.Alphabetic, w).IsMatch() <==> forall i :: 0 <= i < |w| ==> IsAlphabetic(w[i])
    ensures Matches(Rule<T>.Whitespace, w).IsMatch() <==> forall i :: 0 <= i < |w| ==> IsWhitespace(w[i])
    ensures Matches(Rule<T>.Numeric, w) == Match(None) || Matches(Rule<T>.Numeric, w) == NoMatch
    ensures Matches(Rule<T>.Alphabetic, w) == Match(None) || Matches(Rule<T>.Alphabetic, w) == NoMatch
    ensures Matches(Rule<T>.Whitespace, w) == Match(None) || Matches(Rule<T>.Whitespace, w) == NoMatch
    ensures Matches(Rule<T>.Numeric, []).IsMatch() && Matches(Rule<T>.Alphabetic, []).IsMatch()
    ensures Matches(Rule<T>.Whitespace, []).IsMatch()
  {
  }

  /** `Value(r, f)` keeps `r`'s classification and, on a full match, carries
      the extractor applied to the whole window. */
  lemma ValueArm<T>(r: Rule<T>, f: string -> T, w: string)
    ensures Matches(Value(r, f), w).IsMatch() <==> Matches(r, w).IsMatch()
    ensures Matches(Value(r, f), w).IsMatch() ==> Matches(Value(r, f), w).token == Some(f(w))
    ensures Matches(Value(r, f), w).IsPartialMatch() <==> Matches(r, w).IsPartialMatch()
    ensures Matches(Value(r, f), w).IsNone() <==> Matches(r, w).IsNone()
  {
  }

  /** `Ignore(r)` and `Only(r)` give exactly `r`'s result, token included. */
  lemma DelegatingArms<T>(r: Rule<T>, w: string)
    ensures Matches(Ignore(r), w) == Matches(r, w)
    ensures Matches(Only(r), w) == Matches(r, w)
  {
  }

  /** `EndsWith`, `Not` and `Both` never match partially and never carry a
      token; `Not` treats a partial match of its operand as a match of it. */
  lemma StrictArms<T>(s: string, r: Rule<T>, a: Rule<T>, b: Rule<T>, w: string)
    ensures Matches(Rule<T>.EndsWith(s), w) == Match(None) || Matches(Rule<T>.EndsWith(s), w) == NoMatch
    ensures Matches(Rule<T>.EndsWith(s), w).IsMatch() <==> |s| <= |w| && w[|w| - |s|..] == s
    ensures Matches(Not(r), w) == Match(None) || Matches(Not(r), w) == NoMatch
    ensures Matches(Not(r), w).IsMatch() <==> Matches(r, w).IsNone()
    ensures Matches(r, w).IsPartialMatch() ==> Matches(Not(r), w).IsNone()
    ensures Matches(Both(a, b), w) == Match(None) || Matches(Both(a, b), w) == NoMatch
    ensures Matches(Both(a, b), w).IsMatch() <==> Matches(a, w).IsMatch() && Matches(b, w).IsMatch()
  {
  }

  /** `Either(a, b)`: a match of `a` becomes a match with no token (the token
      `a` extracted is dropped); a partial match of `a` decides the result
      whatever `b` gives; only when `a` does not match at all does `b` count,
      again with its token dropped. */
  lemma EitherArm<T>(a: Rule<T>, b: Rule<T>, w: string)
    ensures Matches(a, w).IsMatch() ==> Matches(Either(a, b), w) == Match(None)
    ensures Matches(a, w).IsPartialMatch() ==> Matches(Either(a, b), w) == PartialMatch
    ensures Matches(a, w).IsNone() && Matches(b, w).IsMatch() ==> Matches(Either(a, b), w) == Match(None)
    ensures Matches(a, w).IsNone() && Matches(b, w).IsPartialMatch() ==> Matches(Either(a, b), w) == PartialMatch
    ensures Matches(a, w).IsNone() && Matches(b, w).IsNone() ==> Matches(Either(a, b), w) == NoMatch
  {
  }

  /** `All(rs, f)` fully matches exactly when every sub-rule does (so the
      empty sequence always matches), and then carries `f` of the window. */
  lemma {:induction false} AllMatchIff<T>(rs: seq<Rule<T>>, f: string -> T, w: string)
    ensures Matches(All(rs, f), w).IsMatch() <==> forall i :: 0 <= i < |rs| ==> Matches(rs[i], w).IsMatch()
    ensures Matches(All(rs, f), w).IsMatch() ==> Matches(All(rs, f), w) == Match(Some(f(w)))
    decreases rs
  {
    if rs != [] {
      AllMatchIff(rs[1..], f, w);
      assert forall i :: 1 <= i < |rs| ==> rs[i] == rs[1..][i - 1];
    }
  }

  /** Otherwise `All(rs, f)` gives the result of the first sub-rule that does
      not fully match: `NoMatch` or `PartialMatch`. */
  lemma {:induction false} AllFirstBlocker<T>(rs: seq<Rule<T>>, f: string -> T, w: string, k: nat)
    requires k < |rs|
    requires forall j :: 0 <= j < k ==> Matches(rs[j], w).IsMatch()
    requires !Matches(rs[k], w).IsMatch()
    ensures Matches(All(rs, f), w) == Matches(rs[k], w)
    decreases k
  {
    if k > 0 {
      AllFirstBlocker(rs[1..], f, w, k - 1);
    }
  }

  /** If sub-rule `k` fully matches and every earlier sub-rule does not match
      at all, `Any(rs)` returns sub-rule `k`'s result, token unchanged. */
  lemma {:induction false} AnyFirstMatch<T>(rs: seq<Rule<T>>, w: string, k: nat)
    requires k < |rs|
    requires forall j :: 0 <= j < k ==> Matches(rs[j], w).IsNone()
    requires Matches(rs[k], w).IsMatch()
    ensures Matches(Any(rs), w) == Matches(rs[k], w)
    decreases k
  {
    if k > 0 {
      AnyFirstMatch(rs[1..], w, k - 1);
    }
  }

  /** If sub-rule `k` matches partially and every earlier sub-rule does not
      match at all, `Any(rs)` gives `NoMatch`, whatever later sub-rules give:
      a full match that follows the partial one is dropped. */
  lemma {:induction false} AnyPartialFirst<T>(rs: seq<Rule<T>>, w: string, k: nat)
    requires k < |rs|
    requires forall j :: 0 <= j < k ==> Matches(rs[j], w).IsNone()
    requires Matches(rs[k], w).IsPartialMatch()
    ensures Matches(Any(rs), w) == NoMatch
    decreases k
  {
    if k > 0 {
      AnyPartialFirst(rs[1..], w, k - 1);
    }
  }

  /** Conversely, a full match of `Any(rs)` is the unchanged result of some
      sub-rule before which no sub-rule matched, fully or partially; a full
      match that follows a partial one is dropped. */
  lemma {:induction false} AnyMatchOnlyIf<T>(rs: seq<Rule<T>>, w: string)
    ensures Matches(Any(rs), w).IsMatch() ==>
              exists k :: 0 <= k < |rs| && Matches(rs[k], w) == Matches(Any(rs), w) &&
                          forall j :: 0 <= j < k ==> Matches(rs[j], w).IsNone()
    decreases rs
  {
    assert Matches(Any(rs), w) == MatchAny(rs, w, 0);
    if rs != [] {
      match Matches(rs[0], w)
      case Match(_) =>
        assert Matches(rs[0], w) == Matches(Any(rs), w);
      case PartialMatch =>
        assert MatchAny(rs, w, 0) == MatchAny(rs[1..], w, 1);
      case NoMatch =>
        assert MatchAny(rs, w, 0) == MatchAny(rs[1..], w, 0);
        assert Matches(Any(rs[1..]), w) == MatchAny(rs[1..], w, 0);
        AnyMatchOnlyIf(rs[1..], w);
        if Matches(Any(rs), w).IsMatch() {
          var k :| 0 <= k < |rs[1..]| && Matches(rs[1..][k], w) == Matches(Any(rs[1..]), w) &&
                   forall j :: 0 <= j < k ==> Matches(rs[1..][j], w).IsNone();
          assert Matches(rs[k + 1], w) == Matches(Any(rs), w);
          assert forall j :: 1 <= j < k + 1 ==> rs[j] == rs[1..][j - 1];
        }
    }
  }

  /** The rules through which a partial match can surface: a `Literal`, or a
      `Value`, `Ignore`, `Only`, `Either` or `All` with such a rule below it.
      Character classes, `EndsWith`, `Not`, `Both` and `Any` absorb it. */
  predicate CanBePartial<T>(rule: Rule<T>)
    decreases rule, 1
  {
    match rule
    case Literal(_) => true
    case Value(r, _) => CanBePartial(r)
    case Ignore(r) => CanBePartial(r)
    case Only(r) => CanBePartial(r)
    case Either(a, b) => CanBePartial(a) || CanBePartial(b)
    case All(rs, _) => SomeCanBePartial(rs)
    case _ => false
  }

  predicate SomeCanBePartial<T>(rs: seq<Rule<T>>)
    decreases rs, 0
  {
    rs != [] && (CanBePartial(rs[0]) || SomeCanBePartial(rs[1..]))
  }

  /** Every partial match originates in a `Literal` reached only through
      rules that pass partial matches on. */
  lemma {:induction false} PartialComesFromLiteral<T>(rule: Rule<T>, w: string)
    ensures Matches(rule, w).IsPartialMatch() ==> CanBePartial(rule)
    decreases rule, 1
  {
    match rule
    case Value(r, _) => PartialComesFromLiteral(r, w);
    case Ignore(r) => PartialComesFromLiteral(r, w);
    case Only(r) => PartialComesFromLiteral(r, w);
    case Either(a, b) =>
      PartialComesFromLiteral(a, w);
      PartialComesFromLiteral(b, w);
    case All(rs, f) => AllPartialComesFromLiteral(rs, f, w);
    case _ =>
  }

  lemma {:induction false} AllPartialComesFromLiteral<T>(rs: seq<Rule<T>>, f: string -> T, w: string)
    ensures MatchAll(rs, f, w).IsPartialMatch() ==> SomeCanBePartial(rs)
    decreases rs, 0
  {
    if rs != [] {
      PartialComesFromLiteral(rs[0], w);
      AllPartialComesFromLiteral(rs[1..], f, w);
    }
  }
}
