/** The incremental scanner: a lexer that owns a buffer and a rule tree,
    grows a window over the buffer one unit per step, and consumes the window
    whenever the rule fully matches it. */
module Lexing {
  import opened Rules

  /** The lexer's error kinds. Only `Eof` is ever produced; the other two
      are declared by the library and never constructed. */
  datatype Error = Unspecified | Eof | UnknownToken(text: string)

  datatype Result<+R> = Ok(value: R) | Err(error: Error)

  /** The concatenation of a sequence of windows, in order. */
  function Concat(ws: seq<string>): string
  {
    if ws == [] then [] else ws[0] + Concat(ws[1..])
  }

  /** Appending a window to the log appends its text to the concatenation. */
  lemma {:induction false} ConcatAppend(ws: seq<string>, w: string)
    ensures Concat(ws + [w]) == Concat(ws) + w
    decreases ws
  {
    if ws != [] {
      assert (ws + [w])[1..] == ws[1..] + [w];
      ConcatAppend(ws[1..], w);
    }
  }

  /** The token a step yields for a window the rule classified as `m`:
      the match's token on a full match, none otherwise. */
  function TokenOf<T>(m: MatchResult<T>): Option<T>
  {
    match m
    case Match(token) => token
    case _ => None
  }

  /** The windows of `ws` that `rule` fully matches, in order. */
  ghost function FullMatches<T>(rule: Rule<T>, ws: seq<string>): seq<string>
  {
    if ws == [] then []
    else
      var last := ws[|ws| - 1];
      FullMatches(rule, ws[..|ws| - 1]) + (if Matches(rule, last).IsMatch() then [last] else [])
  }

  /** The trace a drain leaves, for a lexer over `buffer` whose window was
      `(start0, end0)` before it: item `i` is the token of window `i`, which
      runs from `starts[i]` to the end `end0 + i + 1` reached by that step and
      is non-empty and short of the last unit; the first window starts at
      `start0`, and each next one where the previous one started, or right
      after it when the previous one was a full match. */
  ghost predicate Drained<T>(rule: Rule<T>, buffer: string, start0: nat, end0: nat,
                             items: seq<Option<T>>, windows: seq<string>, starts: seq<nat>)
  {
    |windows| == |starts| == |items| &&
    (forall i :: 0 <= i < |items| ==>
       starts[i] < end0 + i + 1 < |buffer| &&
       windows[i] == buffer[starts[i]..end0 + i + 1] &&
       items[i] == TokenOf(Matches(rule, windows[i]))) &&
    (|items| > 0 ==> starts[0] == start0) &&
    (forall i :: 0 <= i < |items| - 1 ==>
       starts[i + 1] == if Matches(rule, windows[i]).IsMatch() then end0 + i + 1 else starts[i])
  }

  /** Where the window after the traced ones starts. */
  function NextStart<T>(rule: Rule<T>, start0: nat, end0: nat, windows: seq<string>, starts: seq<nat>): nat
    requires |windows| == |starts|
  {
    if windows == [] then start0
    else if Matches(rule, windows[|windows| - 1]).IsMatch() then end0 + |windows|
    else starts[|starts| - 1]
  }

  /** One more step of the drain, from the start the trace predicts, extends
      the trace. */
  lemma DrainedExtend<T>(rule: Rule<T>, buffer: string, start0: nat, end0: nat,
                         items: seq<Option<T>>, windows: seq<string>, starts: seq<nat>,
                         start: nat, window: string)
    requires Drained(rule, buffer, start0, end0, items, windows, starts)
    requires start == NextStart(rule, start0, end0, windows, starts)
    requires start < end0 + |items| + 1 < |buffer|
    requires window == buffer[start..end0 + |items| + 1]
    ensures Drained(rule, buffer, start0, end0, items + [TokenOf(Matches(rule, window))],
                    windows + [window], starts + [start])
  {
    var items', windows', starts' := items + [TokenOf(Matches(rule, window))], windows + [window], starts + [start];
    var n := |items|;
    forall i | 0 <= i < n + 1
      ensures starts'[i] < end0 + i + 1 < |buffer|
      ensures windows'[i] == buffer[starts'[i]..end0 + i + 1]
      ensures items'[i] == TokenOf(Matches(rule, windows'[i]))
    {
      if i < n {
        assert starts'[i] == starts[i] && windows'[i] == windows[i] && items'[i] == items[i];
      }
    }
    forall i | 0 <= i < n
      ensures starts'[i + 1] == if Matches(rule, windows'[i]).IsMatch() then end0 + i + 1 else starts'[i]
    {
      assert starts'[i] == starts[i] && windows'[i] == windows[i];
      if i == n - 1 {
        assert starts'[i + 1] == start;
      } else {
        assert starts'[i + 1] == starts[i + 1];
      }
    }
  }

  /** Appending a window to a sequence appends it to the fully matched ones
      exactly when the rule fully matches it. */
  lemma FullMatchesAppend<T>(rule: Rule<T>, ws: seq<string>, w: string)
    ensures FullMatches(rule, ws + [w]) ==
            FullMatches(rule, ws) + if Matches(rule, w).IsMatch() then [w] else []
  {
    assert (ws + [w])[..|ws|] == ws;
  }

  class Lexer<T> {
    /** The window last handed to the rule. */
    var data: string
    var buffer: string
    const rule: Rule<T>
    /** `(start, end)` of the current window. */
    var index: (nat, nat)
    /** The windows consumed by full matches since the last reset, in order. */
    ghost var consumed: seq<string>

    /** Every consumed window is non-empty and fully matched by the rule;
        laid end to end, the consumed windows are exactly
        the buffer up to the window start; the start never passes the end of
        the window, and it never reaches the last unit of a non-empty buffer. */
    ghost predicate Valid()
      reads this
    {
      index.0 <= index.1 &&
      index.0 <= |buffer| &&
      (|buffer| > 0 ==> index.0 < |buffer|) &&
      Concat(consumed) == buffer[..index.0] &&
      forall i :: 0 <= i < |consumed| ==> consumed[i] != [] && Matches(rule, consumed[i]).IsMatch()
    }

    /** The window has grown to the end of the buffer: every further step
        reports `Eof`. */
    predicate AtEof()
      reads this
    {
      index.1 >= |buffer|
    }

    /** A lexer over the empty buffer. */
    constructor New(rule: Rule<T>)
      ensures Valid()
      ensures this.rule == rule && buffer == [] && data == [] && index == (0, 0)
      ensures consumed == []
    {
      this.data := [];
      this.buffer := [];
      this.rule := rule;
      this.index := (0, 0);
      this.consumed := [];
    }

    constructor WithBuffer(rule: Rule<T>, buffer: string)
      ensures Valid()
      ensures this.rule == rule && this.buffer == buffer && data == [] && index == (0, 0)
      ensures consumed == []
    {
      this.data := [];
      this.buffer := buffer;
      this.rule := rule;
      this.index := (0, 0);
      this.consumed := [];
    }

    /** Rebinds the lexer to a new buffer and restarts the window; the rule is
        kept. */
    method Reset(buffer: string)
      modifies this
      ensures Valid()
      ensures this.buffer == buffer && data == [] && index == (0, 0)
      ensures consumed == []
    {
      this.data := [];
      this.buffer := buffer;
      this.index := (0, 0);
      consumed := [];
    }

    /** What one step does: the window end moves one unit; at or past the end
        of the buffer the step fails with `Eof` and nothing else changes;
        otherwise the window from the start to the new end is classified, and
        a full match consumes it and yields its token while any other result
        yields no token and keeps the start. */
    twostate predicate Stepped(new r: Result<Option<T>>)
      reads this
    {
      buffer == old(buffer) &&
      index.1 == old(index.1) + 1 &&
      (r.Err? <==> index.1 >= |buffer|) &&
      (r.Err? ==>
         r.error == Eof && index.0 == old(index.0) && data == old(data) &&
         consumed == old(consumed)) &&
      (r.Ok? ==>
         old(index.0) < index.1 < |buffer| &&
         data == buffer[old(index.0)..index.1] &&
         match Matches(rule, data)
         case Match(token) =>
           r.value == token && index.0 == index.1 && consumed == old(consumed) + [data]
         case _ =>
           r.value == None && index.0 == old(index.0) && consumed == old(consumed))
    }

    method Step() returns (r: Result<Option<T>>)
      requires Valid()
      modifies this
      ensures Valid()
      ensures Stepped(r)
      ensures old(AtEof()) ==> r.Err? && r.error == Eof
      ensures r.Err? <==> AtEof()
    {
      index := (index.0, index.1 + 1);
      if index.1 >= |buffer| {
        return Err(Eof);
      }
      data := buffer[index.0..index.1];
      match Matches(rule, data)
      case NoMatch =>
        r := Ok(None);
      case PartialMatch =>
        r := Ok(None);
      case Match(token) =>
        ghost var start := index.0;
        ConcatAppend(consumed, data);
        assert buffer[..start] + buffer[start..index.1] == buffer[..index.1];
        consumed := consumed + [data];
        index := (index.1, index.1);
        r := Ok(token);
    }

    /** One item of the token stream: the step's token when the step
        succeeds, and the end of the stream on any error. */
    method Next() returns (item: Option<Option<T>>)
      requires Valid()
      modifies this
      ensures Valid()
      ensures Stepped(if item.Some? then Ok(item.value) else Err(Eof))
      ensures item.None? <==> AtEof()
    {
      var r := Step();
      match r
      case Ok(token) => item := Some(token);
      case Err(_) => item := None;
    }

    /** Draining the token stream, as a `for` loop over the lexer does: the
        loop stops at the first `Eof`, having produced one item per unit of
        the buffer left before its last unit. The items are the tokens of the
        windows the steps classified (see `Drained`), and the log grows by
        exactly the fully matched ones. */
    method Drain() returns (items: seq<Option<T>>, ghost windows: seq<string>, ghost starts: seq<nat>)
      requires Valid()
      modifies this
      ensures Valid() && AtEof()
      ensures buffer == old(buffer)
      ensures |items| == if old(index.1) + 1 < |buffer| then |buffer| - 1 - old(index.1) else 0
      ensures index.1 == old(index.1) + |items| + 1
      ensures Drained(rule, buffer, old(index.0), old(index.1), items, windows, starts)
      ensures consumed == old(consumed) + FullMatches(rule, windows)
    {
      items, windows, starts := [], [], [];
      while true
        invariant Valid()
        invariant buffer == old(buffer)
        invariant index.1 == old(index.1) + |items|
        invariant |items| > 0 ==> index.1 < |buffer|
        invariant Drained(rule, buffer, old(index.0), old(index.1), items, windows, starts)
        invariant index.0 == NextStart(rule, old(index.0), old(index.1), windows, starts)
        invariant consumed == old(consumed) + FullMatches(rule, windows)
        decreases |buffer| - index.1
      {
        ghost var start, logged := index.0, consumed;
        var item := Next();
        if item.None? {
          break;
        }
        ghost var matched := if Matches(rule, data).IsMatch() then [data] else [];
        assert item.value == TokenOf(Matches(rule, data));
        assert consumed == logged + matched;
        DrainedExtend(rule, buffer, old(index.0), old(index.1), items, windows, starts, start, data);
        FullMatchesAppend(rule, windows, data);
        assert consumed == old(consumed) + (FullMatches(rule, windows) + matched);
        items := items + [item.value];
        windows := windows + [data];
        starts := starts + [start];
      }
    }
  }
}
