/** The rule-matching engine of the tokenizer: a tree of rules that classifies
    a text window as no match, a full match (possibly carrying a token) or a
    partial match (a prefix that might still grow into a full match). */
module Rules {

  datatype Option<+T> = None | Some(value: T)

  /** The tri-state outcome of one rule on one window. The source calls the
      first constructor `None`; it is `NoMatch` here so that it does not clash
      with `Option.None`. */
  datatype MatchResult<+T> = NoMatch | Match(token: Option<T>) | PartialMatch
  {
    predicate IsNone() { NoMatch? }
    predicate IsMatch() { Match? }
    predicate IsPartialMatch() { PartialMatch? }
  }

  /** Exactly one of the three classifiers holds of any result. */
  lemma ExactlyOneKind<T>(m: MatchResult<T>)
    ensures m.IsNone() <==> !m.IsMatch() && !m.IsPartialMatch()
    ensures m.IsMatch() <==> !m.IsNone() && !m.IsPartialMatch()
    ensures m.IsPartialMatch() <==> !m.IsNone() && !m.IsMatch()
  {
  }

  /** ASCII stand-ins for the Unicode classes `char::is_numeric`,
      `char::is_alphabetic` and `char::is_whitespace`. */
  predicate IsNumeric(c: char) { '0' <= c <= '9' }

  predicate IsAlphabetic(c: char) { 'a' <= c <= 'z' || 'A' <= c <= 'Z' }

  predicate IsWhitespace(c: char) { c == ' ' || '\t' <= c <= '\r' }

  /** Every character of `w` satisfies `inClass` (true of the empty window). */
  predicate EveryChar(w: string, inClass: char -> bool)
  {
    forall i :: 0 <= i < |w| ==> inClass(w[i])
  }

  predicate HasSuffix(w: string, suffix: string)
  {
    |suffix| <= |w| && w[|w| - |suffix|..] == suffix
  }

  /** A rule tree. Sub-rules are owned values; an extractor is a total
      function from the matched window to a token. */
  datatype Rule<T> =
    | Literal(literal: string)
    | Numeric
    | Alphabetic
    | Whitespace
    | Value(inner: Rule<T>, out: string -> T)
    | Ignore(inner: Rule<T>)
    | EndsWith(suffix: string)
    | Not(inner: Rule<T>)
    | Only(inner: Rule<T>)
    | Both(left: Rule<T>, right: Rule<T>)
    | Either(left: Rule<T>, right: Rule<T>)
    | All(rules: seq<Rule<T>>, out: string -> T)
    | Any(rules: seq<Rule<T>>)

  /** The classification of window `w` by `rule`, arm by arm as the engine
      evaluates it. */
  function Matches<T>(rule: Rule<T>, w: string): MatchResult<T>
    decreases rule, 1
  {
    match rule
    case Literal(l) =>
      if w == l then Match(None) else if w <= l then PartialMatch else NoMatch
    case Numeric =>
      if EveryChar(w, IsNumeric) then Match(None) else NoMatch
    case Alphabetic =>
      if EveryChar(w, IsAlphabetic) then Match(None) else NoMatch
    case Whitespace =>
      if EveryChar(w, IsWhitespace) then Match(None) else NoMatch
    case Value(r, out) =>
      var m := Matches(r, w);
      if m.IsMatch() then Match(Some(out(w)))
      else if m.IsPartialMatch() then PartialMatch
      else NoMatch
    case Ignore(r) =>
      Matches(r, w)
    case EndsWith(s) =>
      if HasSuffix(w, s) then Match(None) else NoMatch
    case Not(r) =>
      if Matches(r, w).IsNone() then Match(None) else NoMatch
    case Only(r) =>
      Matches(r, w)
    case Both(a, b) =>
      if Matches(a, w).IsMatch() then
        (if Matches(b, w).IsMatch() then Match(None) else NoMatch)
      else NoMatch
    case Either(a, b) =>
      var ma := Matches(a, w);
      if ma.IsMatch() then Match(None)
      else if ma.IsPartialMatch() then PartialMatch
      else
        var mb := Matches(b, w);
        if mb.IsMatch() then Match(None)
        else if mb.IsPartialMatch() then PartialMatch
        else NoMatch
    case All(rs, out) =>
      MatchAll(rs, out, w)
    case Any(rs) =>
      MatchAny(rs, w, 0)
  }

  /** The `All` arm: the first sub-result that is not a full match decides;
      when every sub-rule matches, the extractor runs on the whole window. */
  function MatchAll<T>(rs: seq<Rule<T>>, out: string -> T, w: string): (r: MatchResult<T>)
    ensures r.IsMatch() ==> r == Match(Some(out(w)))
    decreases rs, 0
  {
    if rs == [] then Match(Some(out(w)))
    else
      match Matches(rs[0], w)
      case NoMatch => NoMatch
      case PartialMatch => PartialMatch
      case Match(_) => MatchAll(rs[1..], out, w)
  }

  /** The `Any` arm, with `partials` the number of partial matches seen so
      far: a full match is returned only while that counter is zero, so once
      a partial match has been counted the loop can only end in `NoMatch`; and
      the arm never reports a partial match itself. */
  function MatchAny<T>(rs: seq<Rule<T>>, w: string, partials: nat): (r: MatchResult<T>)
    ensures !r.IsPartialMatch()
    ensures partials > 0 ==> r.IsNone()
    decreases rs, 0
  {
    if rs == [] then NoMatch
    else
      match Matches(rs[0], w)
      case NoMatch => MatchAny(rs[1..], w, partials)
      case Match(token) =>
        if partials == 0 then Match(token) else MatchAny(rs[1..], w, partials)
      case PartialMatch => MatchAny(rs[1..], w, partials + 1)
  }

  /** The `All` arm as the source runs it: a loop over the sub-rules that
      returns at the first one that does not fully match. */
  method MatchAllLoop<T>(rs: seq<Rule<T>>, out: string -> T, w: string) returns (m: MatchResult<T>)
    ensures m == Matches(All(rs, out), w)
  {
    for i := 0 to |rs|
      invariant MatchAll(rs[i..], out, w) == MatchAll(rs, out, w)
    {
      match Matches(rs[i], w)
      case NoMatch => return NoMatch;
      case PartialMatch => return PartialMatch;
      case Match(_) =>
    }
    m := Match(Some(out(w)));
  }

  /** The `Any` arm as the source runs it: a loop that counts partial
      matches and returns a full match only while that count is zero. */
  method MatchAnyLoop<T>(rs: seq<Rule<T>>, w: string) returns (m: MatchResult<T>)
    ensures m == Matches(Any(rs), w)
  {
    var matches: nat := 0;
    for i := 0 to |rs|
      invariant MatchAny(rs[i..], w, matches) == MatchAny(rs, w, 0)
    {
      match Matches(rs[i], w)
      case NoMatch =>
      case Match(token) =>
        if matches == 0 {
          return Match(token);
        }
      case PartialMatch =>
        matches := matches + 1;
    }
    m := NoMatch;
  }
}
