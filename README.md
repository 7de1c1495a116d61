# Rule-based tokenizer: a verified model

This project models the two parts of a small generic tokenizer library.

**The rule engine** (`Rules`, `RuleLaws`) is a tree of matching rules. It classifies a text window as
`NoMatch`, `Match(token)` or `PartialMatch`:

- The leaves are literals, character classes and suffix tests.
- The combinators are `Value`, `Ignore`, `Not`, `Only`, `Both`, `Either`, `All` and `Any`.
- `Rules.Matches` is the evaluator: one recursive function with one arm per rule kind.
- The `All` and `Any` arms are loops in the library. They appear twice here:
  - as recursive helpers (`MatchAll`, `MatchAny`);
  - as loop methods (`MatchAllLoop`, `MatchAnyLoop`), proved to compute the same result.
- `RuleLaws` states each arm's behaviour for all rules and windows, including the parts that are easy to get wrong:
  - `Either` drops the token its branch extracted;
  - `Either` reports a partial left branch without looking at the right one;
  - `Any` never reports a partial match;
  - `Any` drops a full match that comes after a partial one.

**The lexer** (`Lexing.Lexer`) is a class with the library's four fields: `data`, `buffer`, `rule` and
`index = (start, end)`.

- Each `Step` grows the window end by one unit and classifies `buffer[start..end]`.
- A full match consumes the window.
- Once the end reaches the buffer length, the step reports `Eof`.
- A ghost log `consumed` records the windows consumed since the last reset. The invariant `Valid()` says:
  - these windows are non-empty;
  - laid end to end, they are exactly `buffer[..start]`.

`WorkedExamples` proves concrete cases, several taken from the library's own test grammar.

Two behaviours of `step` (src/lib.rs:49-53) differ from what a reader of a "scan the buffer into
tokens" interface would expect. The model keeps the code's behaviour:

- **The last unit is never scanned.** The window end is incremented and then tested with
  `end >= buffer.len()`. So no window ever includes the last unit of the buffer.
  - A buffer that is exactly one keyword never yields that keyword: one might expect scanning
    `"end"` to emit one token covering `[0,3)`, but it emits none. `WorkedExamples.ScanEnd` proves
    this.
  - `Valid()` carries the general form: a non-empty buffer always has `start < |buffer|`.
- **The window end can pass the buffer.** One might expect `start <= end <= len(buffer)` to hold
  throughout. In the code, every `Eof` step still increments `end`, so `end` exceeds the buffer
  length after repeated calls. `Valid()` bounds only `start`.

## Model

| member | source | states |
|---|---|---|
| `Rules.MatchResult.IsNone` | src/rule.rs:9-14 | `is_none`: holds exactly of `NoMatch` |
| `Rules.MatchResult.IsMatch` | src/rule.rs:16-21 | `is_match`: holds exactly of a full match, whatever its token |
| `Rules.MatchResult.IsPartialMatch` | src/rule.rs:23-28 | `is_partial_match`: holds exactly of `PartialMatch` |
| `Rules.Matches` | src/rule.rs:62-169 | the evaluator, one arm per rule kind, each computing what its arm in the library computes; what each arm promises is stated by the `RuleLaws` lemmas below |
| `Rules.MatchAll` | src/rule.rs:140-150 | the `All` loop as recursion over the sub-rules: the first sub-result that is not a full match decides; a full match always carries the extractor applied to the whole window |
| `Rules.MatchAny` | src/rule.rs:151-167 | the `Any` loop as recursion, with the partial-match counter as a parameter: it never returns `PartialMatch`, and once the counter is positive it can only return `NoMatch`, so a full match after a partial one is dropped |
| `Rules.ExactlyOneKind` | src/rule.rs:8-29 | exactly one of `is_none`, `is_match`, `is_partial_match` holds of any result |
| `Rules.MatchAllLoop` | src/rule.rs:140-150 | the `All` loop with early returns computes exactly the `All` arm of the evaluator |
| `Rules.MatchAnyLoop` | src/rule.rs:151-167 | the `Any` loop with its partial-match counter computes exactly the `Any` arm of the evaluator |
| `RuleLaws.LiteralArm` | src/rule.rs:65-73 | a literal fully matches iff the window equals it, partially matches iff the window is a proper prefix of it, otherwise gives no match; a match carries no token; the empty window is partial for a non-empty literal |
| `RuleLaws.ClassArms` | src/rule.rs:74-88 | `Numeric`, `Alphabetic` and `Whitespace` match iff every character is in the class (so the empty window matches), never partially, never with a token |
| `RuleLaws.ValueArm` | src/rule.rs:89-98 | `Value(r, f)` has `r`'s classification, and on a full match carries `f` applied to the whole window |
| `RuleLaws.DelegatingArms` | src/rule.rs:99-109 | `Ignore(r)` and `Only(r)` give exactly `r`'s result, token included |
| `RuleLaws.StrictArms` | src/rule.rs:100-119 | `EndsWith`, `Not` and `Both` never match partially and never carry a token; `EndsWith(s)` matches iff the window ends with `s`; `Not(r)` matches iff `r` gives no match, so a partial `r` makes `Not(r)` fail; `Both` matches iff both operands fully match |
| `RuleLaws.EitherArm` | src/rule.rs:120-139 | a match of the left branch gives a match with no token; a partial left branch gives a partial match whatever the right branch gives; only a non-matching left branch lets the right branch decide, again without its token |
| `RuleLaws.AllMatchIff` | src/rule.rs:140-150 | `All(rs, f)` fully matches iff every sub-rule fully matches (the empty sequence always does), and then carries `f` of the window |
| `RuleLaws.AllFirstBlocker` | src/rule.rs:141-147 | otherwise `All` returns the result of the first sub-rule that does not fully match |
| `RuleLaws.AnyFirstMatch` | src/rule.rs:154-161 | if sub-rule `k` fully matches and every earlier sub-rule gives no match, `Any` returns sub-rule `k`'s result with its token unchanged |
| `RuleLaws.AnyPartialFirst` | src/rule.rs:154-166 | if sub-rule `k` is partial and every earlier one gives no match, `Any` gives no match, dropping any later full match |
| `RuleLaws.AnyMatchOnlyIf` | src/rule.rs:151-167 | a full match of `Any` is the unchanged result of a sub-rule before which no sub-rule matched fully or partially |
| `RuleLaws.PartialComesFromLiteral` | src/rule.rs:62-169 | a partial match can only come from a `Literal` reached through `Value`, `Ignore`, `Only`, `Either` or `All`; the character classes, `EndsWith`, `Not`, `Both` and `Any` never produce one |
| `RuleLaws.AllPartialComesFromLiteral` | src/rule.rs:140-150 | a partial match of the `All` loop comes from a sub-rule that can match partially |
| `Lexing.Lexer.Valid` | src/lib.rs:55-64 | the lexer's invariant: `start <= end`; `start` is below the length of a non-empty buffer; every consumed window is non-empty and fully matched by the rule; laid end to end, the consumed windows are exactly `buffer[..start]` |
| `Lexing.FullMatchesAppend` | src/lib.rs:59-64 | a further window joins the log exactly when the rule fully matches it |
| `Lexing.DrainedExtend` | src/lib.rs:48-66 | one more step, from the start the trace so far predicts, extends a drain's trace by its window and that window's token |
| `Lexing.ConcatAppend` | src/lib.rs:59-64 | consuming one more window extends the concatenation of consumed windows by exactly that window |
| `Lexing.Lexer.New` | src/lib.rs:24-31 | a new lexer has the empty buffer, empty `data`, index `(0, 0)`, the given rule, and nothing consumed |
| `Lexing.Lexer.WithBuffer` | src/lib.rs:33-40 | same as `New`, but over the given buffer |
| `Lexing.Lexer.Reset` | src/lib.rs:42-46 | rebinds to the new buffer with empty `data`, index `(0, 0)` and an empty log; the rule is unchanged |
| `Lexing.Lexer.Step` | src/lib.rs:48-66 | the window end grows by one. The step reports `Eof` iff the new end is at or past the buffer length, and then changes nothing else. Otherwise `data` is `buffer[start..end]` with `start < end < len`; a full match consumes the window and returns its token, while no match or a partial match returns no token and keeps `start`. `Eof` persists once reached, and `Valid()` (the consumed windows partition `buffer[..start]`) is preserved |
| `Lexing.Lexer.Next` | src/lib.rs:72-77 | yields `Some(token)` exactly when the step is `Ok(token)` and `None` on `Eof`, with the step's effect on the state |
| `Lexing.Lexer.Drain` | src/lib.rs:150-154 | iterating until the stream ends stops at `Eof` after one item per buffer unit left before the last one. Item `i` is the token the rule gives window `i` (none unless it is a full match). Window `i` is `buffer[starts[i]..end]` for the end that step reached, and is non-empty. The first window starts at the old start; each next window starts where the previous one started, or right after it when that one fully matched. The log grows by exactly the fully matched windows, and `Valid()` is kept |
| `WorkedExamples.LiteralEnd` | src/rule.rs:65-73 | `Literal("end")` on "en", "end", "ended" gives partial, match, no match |
| `WorkedExamples.EitherDefers` | src/lib.rs:129-132 | `Either(Literal("function"), Literal("func"))` on "func" is partial, although `Literal("func")` alone matches |
| `WorkedExamples.KeywordOrIdentifier` | src/lib.rs:138-145 | with the `or` keyword before the identifier rule: on "or" the keyword's token, on "org" the identifier's token, and on "o" no match, because the identifier's full match is dropped |
| `WorkedExamples.AlphabeticEndingInS` | src/rule.rs:140-150 | `All([Alphabetic, EndsWith("s")], f)` gives `f("cats")` on "cats" and no match on "cat" |
| `WorkedExamples.ScanEnd` | src/lib.rs:48-66 | scanning "end" with `Value(Literal("end"), f)` gives no token, no token, then `Eof`: the keyword is never emitted |
| `WorkedExamples.BlankOrEnd` | src/lib.rs:120-126 | the blank-or-`end` rule classifies " ", "e", "en", "end" as match without a token, no match, no match, match with `f("end")` |
| `WorkedExamples.ScanSpacedEnd` | src/lib.rs:48-66 | scanning " end " consumes the blank without a token and emits `f("end")` on the fourth step; the trailing blank is never scanned and the fifth step is `Eof` |

## Left out

- Character classes: `char::is_numeric`, `is_alphabetic` and `is_whitespace` use Unicode tables. The model uses their ASCII parts: `0-9`, `a-z`/`A-Z`, and space with tab through carriage return. Non-ASCII characters are not classified as the library would classify them.
- Buffer units: the buffer is a sequence of characters, and the window grows one character per step. The library grows it by one byte and panics when a slice falls inside a multi-byte UTF-8 character; neither is modelled.
- Integer width: the indices are unbounded naturals. The `usize` overflow of the window end under endlessly repeated `Eof` steps is not modelled.
- Tracing: the `println!` calls in `step` and in the test are output only and are left out.
- Evaluation order: `then_some`/`unwrap_or` evaluate their arguments eagerly, so the library calls some extractors and sub-rules even when their result is unused. Extractors here are pure total functions, so the model states results, not how many times anything is called.
- Rust-specific features: lifetimes, borrowed `&Rule` references (here an owned immutable datatype) and the `Debug` derives.
- Error kinds: `Error::None` and `Error::UnknownToken` are declared (as `Unspecified` and `UnknownToken`) but never produced, as in the library.
- Test grammar: the keyword `Token` enum and the full test grammar are illustrative. Only the small pieces in `WorkedExamples` are modelled.
- Constructor name: the source's `MatchResult::None` is called `NoMatch` here, so that it does not clash with `Option.None`.
