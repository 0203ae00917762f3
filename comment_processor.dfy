// The single-pass directive processor. It reads its input one character at
// a time, echoes every character to `output`, recognises `/*? ... */`
// directives, keeps a deque of `Entry` values for IF / ELIF / ELSE chains,
// and comments out (`/*body*/`) or uncomments the body that follows each
// directive.
// 
// The input reader is a string with a cursor `pos`; the output builder is
// the mutable string `output`; the condition evaluator is the function
// `checker`; the classification of a directive's text into its expression
// and kind is the function `classify`.
module CommentProcessing {
  import opened Text
  import opened Chain

  const START: string := "/*?"
  const END: string := "*/"

  datatype Message =
    | OnlyIfSingle(expr: string)        // "Only IF statement is allowed for single-line expressions"
    | OnlyIfOpener(expr: string)        // "Only IF statement is allowed for openers"
    | Nested(expr: string)              // "Statements can't be nested"
    | MustFollowCondition(expr: string) // "Statement must follow a condition"
    | InvalidExtension(expr: string)    // "Invalid expression ..., must be ELSE or ELIF"
    | CloserWithoutContext              // "Condition block closer without context"
    | ElseWithCondition                 // "ELSE statements can't have a condition"
    | ElifWithoutCondition              // "ELIF statement without a condition"
    | NotClosed                         // "Conditional block is not closed"
    | ExpressionNotClosed               // "Expression wasn't correctly closed"
    | EmptyExpression                   // "Expression can't be empty"
    | NoEndOfLine                       // "No end of line found"

  /** A syntax exception, with the line number of the output written so far. */
  datatype Error = SyntaxError(line: nat, message: Message)

  /** A call that either returns a value or throws a syntax exception. */
  datatype Outcome<T> = Done(value: T) | Fail(error: Error)

  // ---------------------------------------------------------------------
  // Reading up to a marker

  /** The text read from `from` up to `k` ends with `m`. */
  predicate EndsAt(s: string, m: string, from: nat, k: nat) {
    from + |m| <= k <= |s| && s[k - |m|..k] == m
  }

  /** Echoing one more character of `s` extends the echoed slice by it. */
  lemma EchoOne(out: string, s: string, from: nat, k: nat)
    requires from <= k < |s|
    ensures out + s[from..k] + [s[k]] == out + s[from..k + 1]
  {
    assert s[from..k] + [s[k]] == s[from..k + 1];
  }

  /** The buffer `read` keeps is `s[from..k]`; it ends with `m` exactly
      when `EndsAt` holds. */
  lemma BufferEndsWith(s: string, m: string, from: nat, k: nat)
    requires from <= k <= |s|
    ensures EndsWith(s[from..k], m) <==> EndsAt(s, m, from, k)
  {
    if from + |m| <= k {
      assert s[from..k][k - from - |m|..] == s[k - |m|..k];
    }
  }

  /** The position just after the first point, strictly after `from`, at
      which the text read since `from` ends with `m`; `None` when the input
      runs out first. This is where `read(m)` stops. */
  function MatchEnd(s: string, from: nat, m: string): (r: Option<nat>)
    requires from <= |s|
    ensures r.Some? ==> from < r.value <= |s| && EndsAt(s, m, from, r.value)
    ensures forall k | from < k <= |s| && (r.None? || k < r.value) :: !EndsAt(s, m, from, k)
  {
    FirstEndFrom(s, from, from + 1, m)
  }

  function FirstEndFrom(s: string, from: nat, k: nat, m: string): (r: Option<nat>)
    requires from < k <= |s| + 1
    ensures r.Some? ==> k <= r.value <= |s| && EndsAt(s, m, from, r.value)
    ensures forall j | k <= j <= |s| && (r.None? || j < r.value) :: !EndsAt(s, m, from, j)
    decreases |s| + 1 - k
  {
    if k > |s| then None
    else if EndsAt(s, m, from, k) then Some(k)
    else FirstEndFrom(s, from, k + 1, m)
  }

  /** `MatchEnd` is pinned down by its contract: the first end of `m` after
      `from` when `k` is one, and `None` when there is none before `k`. */
  lemma MatchEndIsFirst(s: string, from: nat, m: string, k: nat)
    requires from < k <= |s| + 1
    requires forall j | from < j < k :: !EndsAt(s, m, from, j)
    ensures k <= |s| && EndsAt(s, m, from, k) ==>
      MatchEnd(s, from, m) == Some(k) && ReadEnd(s, from, m) == k && from + |m| <= k
    ensures k == |s| + 1 ==> MatchEnd(s, from, m) == None && ReadEnd(s, from, m) == |s|
  {
  }

  /** Where the cursor is after `read(m)` from `from`. */
  function ReadEnd(s: string, from: nat, m: string): (r: nat)
    requires from <= |s|
    ensures from <= r <= |s|
  {
    match MatchEnd(s, from, m)
    case Some(k) => k
    case None => |s|
  }

  /** `read(m)` finds nothing exactly when `m` does not occur in the rest of the input. */
  lemma MatchEndNoneIffAbsent(s: string, from: nat, m: string)
    requires from <= |s| && m != []
    ensures MatchEnd(s, from, m).None? <==> !Contains(s[from..], m)
  {
    var t := s[from..];
    if MatchEnd(s, from, m).Some? {
      var k := MatchEnd(s, from, m).value;
      assert OccursAt(t, m, k - |m| - from) by {
        assert t[k - |m| - from..k - from] == s[k - |m|..k];
      }
    }
    if Contains(t, m) {
      var i :| 0 <= i <= |t| - |m| && OccursAt(t, m, i);
      assert EndsAt(s, m, from, from + i + |m|) by {
        assert s[from + i..from + i + |m|] == t[i..i + |m|];
      }
    }
  }

  // ---------------------------------------------------------------------
  // Reading the line after a single-line directive

  /** Where `readNextLine` stops, reading from `i`: through the first line
      break that follows a character outside `\s`, then through any line
      break characters right after it. At the end of the input it stops
      where it is. `seen`: a non-`\s` character has been read; `inRun`: the
      first such line break has been read. */
  function LineEnd(s: string, i: nat, seen: bool, inRun: bool): (r: nat)
    requires i <= |s|
    ensures i <= r <= |s|
    ensures !inRun && i < |s| ==> i < r
    decreases |s| - i
  {
    if i == |s| then i
    else if inRun then (if IsLineBreak(s[i]) then LineEnd(s, i + 1, seen, true) else i)
    else if IsLineBreak(s[i]) && seen then LineEnd(s, i + 1, seen, true)
    else LineEnd(s, i + 1, seen || !IsRegexSpace(s[i]), false)
  }

  /** What `readNextLine` consumes from `i` up to `r` when `CODE_LINE` is
      found: the first character outside `\s` is at `p`, the first line
      break after it is at `q`, and `q..r` is the whole run of breaks that
      starts there, up to a character that is not a break or the end of
      the input. */
  predicate LineShape(s: string, i: nat, p: nat, q: nat, r: nat) {
    i <= p < q < r <= |s| && !IsRegexSpace(s[p]) &&
    (forall j | i <= j < p :: IsRegexSpace(s[j])) &&
    (forall j | p < j < q :: !IsLineBreak(s[j])) &&
    (forall j | q <= j < r :: IsLineBreak(s[j])) &&
    (r < |s| ==> !IsLineBreak(s[r]))
  }

  /** `readNextLine` from `i` consumes a line of the shape `CODE_LINE`
      matches followed by its run of breaks; when no line break follows a
      character outside `\s` it reads to the end of the input. */
  lemma LineEndShape(s: string, i: nat) returns (p: nat, q: nat)
    requires i <= |s|
    ensures var r := LineEnd(s, i, false, false);
      LineShape(s, i, p, q, r) ||
      (r == |s| && forall j, k | i <= j < k < |s| && !IsRegexSpace(s[j]) :: !IsLineBreak(s[k]))
  {
    p := LineEndUnseen(s, i);
    if p == |s| {
      return p, p;
    }
    q := LineEndSeen(s, p + 1);
    if q < |s| {
      LineEndInRun(s, q + 1, true);
    }
  }

  // Before the first character outside `\s`: `p` is that character, or
  // `|s|` when there is none.
  lemma {:induction false} LineEndUnseen(s: string, k: nat) returns (p: nat)
    requires k <= |s|
    ensures k <= p <= |s| && forall j | k <= j < p :: IsRegexSpace(s[j])
    ensures p == |s| ==> LineEnd(s, k, false, false) == |s|
    ensures p < |s| ==> !IsRegexSpace(s[p]) && LineEnd(s, k, false, false) == LineEnd(s, p + 1, true, false)
    decreases |s| - k
  {
    if k == |s| || !IsRegexSpace(s[k]) {
      p := k;
    } else {
      p := LineEndUnseen(s, k + 1);
    }
  }

  // After it, before the first line break: `q` is that break, or `|s|`.
  lemma {:induction false} LineEndSeen(s: string, k: nat) returns (q: nat)
    requires k <= |s|
    ensures k <= q <= |s| && forall j | k <= j < q :: !IsLineBreak(s[j])
    ensures q == |s| ==> LineEnd(s, k, true, false) == |s|
    ensures q < |s| ==> IsLineBreak(s[q]) && LineEnd(s, k, true, false) == LineEnd(s, q + 1, true, true)
    decreases |s| - k
  {
    if k == |s| || IsLineBreak(s[k]) {
      q := k;
    } else {
      q := LineEndSeen(s, k + 1);
    }
  }

  // In the run of breaks: it stops at the first character that is not one.
  lemma {:induction false} LineEndInRun(s: string, k: nat, seen: bool)
    requires k <= |s|
    ensures var r := LineEnd(s, k, seen, true);
      (forall j | k <= j < r :: IsLineBreak(s[j])) && (r < |s| ==> !IsLineBreak(s[r]))
    decreases |s| - k
  {
    if k < |s| && IsLineBreak(s[k]) {
      LineEndInRun(s, k + 1, seen);
    }
  }

  /** `s.replace(NEW_LINE, "")`: `s` without its `\r` and `\n` characters. */
  function RemoveBreaks(s: string): (r: string)
    ensures forall i | 0 <= i < |r| :: !IsLineBreak(r[i])
    ensures (forall i | 0 <= i < |s| :: !IsLineBreak(s[i])) ==> r == s
  {
    if s == [] then []
    else (if IsLineBreak(s[0]) then [] else [s[0]]) + RemoveBreaks(s[1..])
  }

  /** Removing breaks works character by character: a break goes, any
      other character stays, and the pieces of a text are cleaned
      independently. */
  lemma {:induction false} RemoveBreaksAppend(a: string, b: string)
    ensures RemoveBreaks(a + b) == RemoveBreaks(a) + RemoveBreaks(b)
    ensures |a| == 1 ==> RemoveBreaks(a) == if IsLineBreak(a[0]) then [] else a
  {
    if a == [] {
      assert a + b == b;
    } else {
      assert (a + b)[0] == a[0] && (a + b)[1..] == a[1..] + b;
      RemoveBreaksAppend(a[1..], b);
      var head := if IsLineBreak(a[0]) then [] else [a[0]];
      assert RemoveBreaks(a) == head + RemoveBreaks(a[1..]);
      assert head + (RemoveBreaks(a[1..]) + RemoveBreaks(b)) == (head + RemoveBreaks(a[1..])) + RemoveBreaks(b);
      if |a| == 1 {
        assert a[1..] == [] && RemoveBreaks(a[1..]) == [];
        assert head + [] == head;
      }
    }
  }

  /** The code that `readNextLine` hands on: the line read, without line
      breaks, trimmed. */
  function LineText(raw: string): string {
    Trim(RemoveBreaks(raw))
  }

  /** The code of a single-line directive never contains a line break, so
      toggling it cannot join or split lines. */
  lemma LineTextHasNoBreak(raw: string)
    ensures CountChar(LineText(raw), '\n') == 0
  {
    var r := RemoveBreaks(raw);
    var t := LineText(raw);
    if t != [] {
      forall i | 0 <= i < |t| ensures t[i] != '\n' {
        assert t[i] == r[LeadingSpaces(r) + i];
      }
    }
    CountAbsent(t, '\n');
  }

  // ---------------------------------------------------------------------
  // Toggling a body

  // `isCommented`: the trimmed text starts with `/*` and ends with `*/`.
  predicate IsCommented(value: string) {
    var t := Trim(value);
    StartsWith(t, "/*") && EndsWith(t, "*/")
  }

  // The disabled form of a body: `"/*$code*/"`.
  function Wrap(code: string): string {
    "/*" + code + "*/"
  }

  // The enabled form of a commented body: `removePrefix("/*").removeSuffix("*/")`.
  function Unwrap(code: string): string {
    RemoveSuffix(RemovePrefix(code, "/*"), "*/")
  }

  /** Replaces the last occurrence of `code` in `out` by `replacement`;
      leaves `out` alone when `code` does not occur. */
  function ReplaceLast(out: string, code: string, replacement: string): (r: string)
    ensures LastIndexOf(out, code).None? ==> r == out
    ensures LastIndexOf(out, code).Some? ==>
      var i := LastIndexOf(out, code).value;
      out == out[..i] + code + out[i + |code|..] && r == out[..i] + replacement + out[i + |code|..]
  {
    match LastIndexOf(out, code)
    case None => out
    case Some(i) =>
      assert out == out[..i] + out[i..i + |code|] + out[i + |code|..];
      out[..i] + replacement + out[i + |code|..]
  }

  /** The output after `processCode(code, enabled)`. */
  function Toggle(out: string, code: string, enabled: bool): string {
    var commented := IsCommented(code);
    if enabled && commented then ReplaceLast(out, code, Unwrap(code))
    else if !enabled && !commented then ReplaceLast(out, code, Wrap(code))
    else out
  }

  lemma WrapKeepsLineCount(code: string)
    ensures CountChar(Wrap(code), '\n') == CountChar(code, '\n')
  {
    CountAppend("/*" + code, "*/", '\n');
    CountAppend("/*", code, '\n');
  }

  lemma UnwrapKeepsLineCount(code: string)
    ensures CountChar(Unwrap(code), '\n') == CountChar(code, '\n')
  {
    var p := RemovePrefix(code, "/*");
    if StartsWith(code, "/*") {
      CountAppend("/*", p, '\n');
    }
    if EndsWith(p, "*/") {
      CountAppend(Unwrap(code), "*/", '\n');
    }
  }

  // `processCode` never adds or removes a line break: it only inserts or
  // deletes `/*` and `*/` around one occurrence of the body, so the line
  // number reported by later errors is unaffected.
  lemma ToggleKeepsLineCount(out: string, code: string, enabled: bool)
    ensures CountChar(Toggle(out, code, enabled), '\n') == CountChar(out, '\n')
  {
    var commented := IsCommented(code);
    if enabled == commented {
      var replacement := if enabled then Unwrap(code) else Wrap(code);
      assert Toggle(out, code, enabled) == ReplaceLast(out, code, replacement);
      WrapKeepsLineCount(code);
      UnwrapKeepsLineCount(code);
      ReplaceKeepsCount(out, code, replacement, '\n');
    }
  }

  /** Replacing a piece by one with as many `c` keeps the count of `c`. */
  lemma ReplaceKeepsCount(out: string, code: string, replacement: string, c: char)
    requires CountChar(replacement, c) == CountChar(code, c)
    ensures CountChar(ReplaceLast(out, code, replacement), c) == CountChar(out, c)
  {
    if LastIndexOf(out, code).Some? {
      var i := LastIndexOf(out, code).value;
      var rest := out[i + |code|..];
      CountAppend(out[..i] + code, rest, c);
      CountAppend(out[..i], code, c);
      CountAppend(out[..i] + replacement, rest, c);
      CountAppend(out[..i], replacement, c);
    }
  }

  /** Wrapping always yields a commented body, so a body that was disabled
      once is left alone when it is disabled again. */
  lemma WrapIsCommented(code: string)
    ensures IsCommented(Wrap(code))
  {
    var w := Wrap(code);
    assert w[0] == '/' && w[|w| - 1] == '/';
    VisibleNotWhitespace('/');
    assert !IsBlank(w);
    assert LeadingSpaces(w) == 0 && TrailingSpaces(w) == 0;
    assert Trim(w) == w[0..|w|] == w;
  }

  /** Disabling is idempotent: once `code` has been wrapped, disabling the
      wrapped body changes nothing. */
  lemma DisableIsIdempotent(out: string, code: string)
    ensures Toggle(out, Wrap(code), false) == out
  {
    WrapIsCommented(code);
  }

  /** Enabling undoes disabling on the body itself: `Unwrap(Wrap(code)) == code`. */
  lemma UnwrapWrap(code: string)
    ensures Unwrap(Wrap(code)) == code
  {
    var w := Wrap(code);
    assert StartsWith(w, "/*") && w[2..] == code + "*/";
    assert EndsWith(code + "*/", "*/") && (code + "*/")[..|code|] == code;
  }

  /** `processCode` leaves the output untouched when the body is already in
      the requested state, and otherwise edits only the last occurrence of
      the body, wrapping it or stripping its delimiters. */
  lemma ToggleEditsLastOccurrence(out: string, code: string, enabled: bool)
    ensures enabled == !IsCommented(code) ==> Toggle(out, code, enabled) == out
    ensures enabled == IsCommented(code) && LastIndexOf(out, code).Some? ==>
      var i := LastIndexOf(out, code).value;
      var edited := if enabled then Unwrap(code) else Wrap(code);
      out[i..i + |code|] == code &&
      (forall j: nat | i < j :: !OccursAt(out, code, j)) &&
      Toggle(out, code, enabled) == out[..i] + edited + out[i + |code|..]
  {
  }

  // ---------------------------------------------------------------------
  // The directives a run steps, read off the input

  /** The deque directive a classified directive stands for: an IF for the
      single-line and block openers, ELSE or ELIF for an extension by its
      leading word, and the closer; guards are decided by `checker`. */
  function DirectiveOf(checker: string -> bool, expr: string, kind: ExpressionType): Directive {
    match kind
    case Single => If(ExpressionType.Single, checker(CommentProcessor.Guard(expr, 2)))
    case Opener => If(ExpressionType.Opener, checker(CommentProcessor.Guard(expr, 2)))
    case Extension =>
      if StartsWithIgnoreCase(expr, "else") then Else else Elif(checker(CommentProcessor.Guard(expr, 4)))
    case Closer => Close
  }

  /** Whether a directive of `kind` whose closing `END` ends at `k` is accepted with
      deque `t`: the word checks of each handler, the deque's nesting
      rules, a line to read after a single-line directive, and a `START` to
      close a block. */
  predicate Accepts(input: string, k: nat, t: seq<Entry>, expr: string, kind: ExpressionType)
    requires k <= |input|
  {
    match kind
    case Single => StartsWithIgnoreCase(expr, "if") && !Open(t) && k < |input|
    case Opener => StartsWithIgnoreCase(expr, "if") && !Open(t) && MatchEnd(input, k, START).Some?
    case Extension =>
      Open(t) && MatchEnd(input, k, START).Some? &&
      if StartsWithIgnoreCase(expr, "else") then EqualsIgnoreCase(expr, "else")
      else StartsWithIgnoreCase(expr, "elif") && !EqualsIgnoreCase(expr, "elif")
    case Closer => Open(t)
  }

  /** Where reading resumes after an accepted directive whose closing
      `END` ends at `k`: past the next `START` after the line of a single-line directive or
      after a block, and right at `k` after a closer. */
  function AfterPos(input: string, k: nat, kind: ExpressionType): (r: nat)
    requires k <= |input|
    ensures k <= r <= |input|
  {
    match kind
    case Single => if k < |input| then ReadEnd(input, LineEnd(input, k, false, false), START) else k
    case Closer => k
    case _ => ReadEnd(input, k, START)
  }

  /** An accepted directive: its deque directive, where reading resumes
      after it, and the deque it leaves. */
  datatype Stepped = Stepped(d: Directive, next: nat, entries: seq<Entry>)

  /** The directive classified as `expr` and `kind`, whose `END` ends at
      `k`, when it is accepted with deque `t`. */
  function AcceptedAt(input: string, checker: string -> bool, k: nat, t: seq<Entry>,
                      expr: string, kind: ExpressionType): (r: Option<Stepped>)
    requires k <= |input|
    ensures r.Some? ==> k <= r.value.next <= |input| && Step(t, r.value.d).Some? && Step(t, r.value.d).value.entries == r.value.entries
  {
    var d := DirectiveOf(checker, expr, kind);
    if !Accepts(input, k, t, expr, kind) || Step(t, d).None? then None
    else Some(Stepped(d, AfterPos(input, k, kind), Step(t, d).value.entries))
  }

  /** The directive that processing from `p`, with deque `t`, reads next,
      when there is one and it is accepted. */
  function FirstDirective(input: string, checker: string -> bool, classify: string -> (string, ExpressionType),
                          p: nat, t: seq<Entry>): (r: Option<Stepped>)
    requires p <= |input|
    ensures r.Some? ==> p < r.value.next <= |input| && Step(t, r.value.d).Some? && Step(t, r.value.d).value.entries == r.value.entries
  {
    match MatchEnd(input, p, END)
    case None => None
    case Some(k) => DirectiveEndingAt(input, checker, classify, p, k, t)
  }

  /** The directive whose text runs from `p` to the `END` ending at `k`,
      when its text is well formed and it is accepted. */
  function DirectiveEndingAt(input: string, checker: string -> bool, classify: string -> (string, ExpressionType),
                             p: nat, k: nat, t: seq<Entry>): (r: Option<Stepped>)
    requires p + |END| <= k <= |input|
    ensures r.Some? ==> k <= r.value.next <= |input| && Step(t, r.value.d).Some? && Step(t, r.value.d).value.entries == r.value.entries
  {
    var raw := input[p..k - |END|];
    if Contains(raw, START) || IsBlank(raw) then None
    else AcceptedAt(input, checker, k, t, classify(Trim(raw)).0, classify(Trim(raw)).1)
  }

  /** The deque directives that processing from `p`, with deque `t`, steps
      one after the other, up to the first directive that is rejected or
      the last `END` of the input. */
  function Directives(input: string, checker: string -> bool, classify: string -> (string, ExpressionType),
                      p: nat, t: seq<Entry>): (ds: seq<Directive>)
    requires p <= |input|
    decreases |input| - p
  {
    match FirstDirective(input, checker, classify, p, t)
    case None => []
    case Some(st) => [st.d] + Directives(input, checker, classify, st.next, st.entries)
  }

  // No directive is read from `p0` when no `END` follows or the text before
  // it holds a `START` or is blank.
  lemma NoFirstDirective(input: string, checker: string -> bool, classify: string -> (string, ExpressionType),
                         p0: nat, t0: seq<Entry>)
    requires p0 <= |input|
    requires MatchEnd(input, p0, END).Some? ==>
      var raw := input[p0..MatchEnd(input, p0, END).value - |END|];
      Contains(raw, START) || IsBlank(raw)
    ensures FirstDirective(input, checker, classify, p0, t0) == None
  {
  }

  /** The deque never rejects a directive that processing accepts: the
      directives found from any point replay from the deque there. */
  lemma {:induction false} DirectivesReplay(input: string, checker: string -> bool, classify: string -> (string, ExpressionType),
                                           p: nat, t: seq<Entry>)
    requires p <= |input|
    ensures Replay(t, Directives(input, checker, classify, p, t)).Some?
    decreases |input| - p
  {
    match FirstDirective(input, checker, classify, p, t)
    case None =>
    case Some(st) =>
      var rest := Directives(input, checker, classify, st.next, st.entries);
      DirectivesReplay(input, checker, classify, st.next, st.entries);
      var ds := [st.d] + rest;
      assert ds[0] == st.d && ds[1..] == rest;
  }

  // Past a well-formed directive text, what is found is decided by `AcceptedAt`.
  lemma WellFormedDirective(input: string, checker: string -> bool, classify: string -> (string, ExpressionType),
                            p0: nat, k: nat, raw: string, t0: seq<Entry>)
    requires p0 + |END| <= k <= |input| && raw == input[p0..k - |END|]
    requires !Contains(raw, START) && !IsBlank(raw)
    ensures DirectiveEndingAt(input, checker, classify, p0, k, t0) ==
      AcceptedAt(input, checker, k, t0, classify(Trim(raw)).0, classify(Trim(raw)).1)
  {
  }

  // The directive whose text runs from `p0` to the `END` ending at `k` is
  // the one `FirstDirective` reads when it is accepted.
  lemma FirstDirectiveAt(input: string, checker: string -> bool, classify: string -> (string, ExpressionType),
                         p0: nat, k: nat, raw: string, t0: seq<Entry>, expr: string, kind: ExpressionType,
                         accepted: bool, p1: nat, t1: seq<Entry>)
    requires p0 <= |input| && MatchEnd(input, p0, END) == Some(k) && raw == input[p0..k - |END|]
    requires !Contains(raw, START) && !IsBlank(raw) && classify(Trim(raw)) == (expr, kind)
    requires accepted <==> Accepts(input, k, t0, expr, kind)
    requires accepted ==>
      p1 == AfterPos(input, k, kind) && Step(t0, DirectiveOf(checker, expr, kind)).Some? &&
      t1 == Step(t0, DirectiveOf(checker, expr, kind)).value.entries
    ensures FirstDirective(input, checker, classify, p0, t0) ==
      if accepted then Some(Stepped(DirectiveOf(checker, expr, kind), p1, t1)) else None
  {
    assert FirstDirective(input, checker, classify, p0, t0) == DirectiveEndingAt(input, checker, classify, p0, k, t0);
    WellFormedDirective(input, checker, classify, p0, k, raw, t0);
    var d := DirectiveOf(checker, expr, kind);
    if accepted {
      assert AcceptedAt(input, checker, k, t0, expr, kind) == Some(Stepped(d, p1, t1));
    } else {
      assert AcceptedAt(input, checker, k, t0, expr, kind) == None;
    }
  }

  // A slice of a slice is a slice of the whole.
  lemma SliceOfSlice(s: string, a: nat, b: nat, c: nat, d: nat)
    requires a <= b <= |s| && c <= d <= b - a
    ensures s[a..b][c..d] == s[a + c..a + d]
  {
    forall i | 0 <= i < d - c
      ensures s[a..b][c..d][i] == s[a + c..a + d][i]
    {
      assert s[a..b][c..d][i] == s[a..b][c + i] == s[a + c + i];
    }
  }

  /** After a closer, reading resumes right after its `END` (at `k`) rather
      than past the next `START`. When the code after it runs into another
      directive, one whose `START` sits at `j` before the next `END`, that
      `START` lands inside the text read as the next directive, which is
      rejected as not closed: nothing is found there, whatever the deque
      and the classifier. */
  lemma CloserThenDirectiveRejected(input: string, checker: string -> bool, classify: string -> (string, ExpressionType),
                                    k: nat, j: nat, t: seq<Entry>)
    requires k <= j && OccursAt(input, START, j)
    requires MatchEnd(input, k, END).Some? ==> j + |START| <= MatchEnd(input, k, END).value - |END|
    ensures AfterPos(input, k, ExpressionType.Closer) == k
    ensures FirstDirective(input, checker, classify, k, t) == None
  {
    if MatchEnd(input, k, END).Some? {
      var m := MatchEnd(input, k, END).value;
      var raw := input[k..m - |END|];
      SliceOfSlice(input, k, m - |END|, j - k, j - k + |START|);
      assert OccursAt(raw, START, j - k);
    }
    NoFirstDirective(input, checker, classify, k, t);
  }

  // One more directive read by `run()`: the directives found so far and
  // those still to come make up the same whole, and the replay of those
  // found so far is extended by it.
  lemma RunStep(input: string, checker: string -> bool, classify: string -> (string, ExpressionType),
                q0: nat, t1: seq<Entry>, p: nat, last: seq<Entry>, ds: seq<Directive>, flags: seq<bool>,
                d: Directive, p1: nat, t2: seq<Entry>)
    returns (ds': seq<Directive>, flags': seq<bool>)
    requires q0 <= |input| && p <= |input|
    requires ds + Directives(input, checker, classify, p, last) == Directives(input, checker, classify, q0, t1)
    requires Replay(t1, ds) == Some(Trace(flags, last))
    requires FirstDirective(input, checker, classify, p, last) == Some(Stepped(d, p1, t2))
    ensures p1 <= |input| && ds' == ds + [d]
    ensures ds' + Directives(input, checker, classify, p1, t2) == Directives(input, checker, classify, q0, t1)
    ensures Replay(t1, ds') == Some(Trace(flags', t2))
  {
    ReplaySnoc(t1, ds, flags, last, d);
    ds', flags' := ds + [d], flags + [Step(last, d).value.enabled];
    var rest := Directives(input, checker, classify, p1, t2);
    assert Directives(input, checker, classify, p, last) == [d] + rest;
    AppendOne(ds, d, rest);
  }

  // Echoing `s[i..j]` and then `s[j..k]` echoes `s[i..k]`.
  lemma EchoJoin(out: string, s: string, i: nat, j: nat, k: nat)
    requires i <= j <= k <= |s|
    ensures out + s[i..j] + s[j..k] == out + s[i..k]
  {
    assert s[i..k] == s[i..j] + s[j..k];
  }

  lemma AppendOne(ds: seq<Directive>, d: Directive, rest: seq<Directive>)
    ensures ds + [d] + rest == ds + ([d] + rest)
  {
  }

  // ---------------------------------------------------------------------
  // The output a run writes, read off the input

  /** What processing the body of a directive of `kind`, whose `END` ends at
      `k`, appends to the output `out`, with `enabled` the verdict on the
      body. A single-line directive echoes the line after it toggled, then
      the code up to the next `START`. A block directive echoes the body up
      to the next `START` and toggles it, or echoes the rest of the input
      when no `START` follows. A closer appends nothing. */
  function BodyOutput(input: string, k: nat, kind: ExpressionType, enabled: bool, out: string): string
    requires k <= |input|
  {
    match kind
    case Single => LineBodyOutput(input, k, enabled, out)
    case Closer => out
    case _ => BlockBodyOutput(input, k, enabled, out)
  }

  // The line after a single-line directive, toggled, then the code up to
  // the next `START`.
  function LineBodyOutput(input: string, k: nat, enabled: bool, out: string): string
    requires k <= |input|
  {
    if k < |input| then
      var p1 := LineEnd(input, k, false, false);
      Toggle(out + input[k..p1], LineText(input[k..p1]), enabled) + input[p1..ReadEnd(input, p1, START)]
    else out
  }

  // The block up to the next `START`, toggled; the rest of the input when
  // no `START` follows.
  function BlockBodyOutput(input: string, k: nat, enabled: bool, out: string): string
    requires k <= |input|
  {
    match MatchEnd(input, k, START)
    case None => out + input[k..]
    case Some(e) => ToggledBlock(input, k, e, enabled, out)
  }

  // The block from `k` closed by the `START` that ends at `e`, toggled.
  function ToggledBlock(input: string, k: nat, e: nat, enabled: bool, out: string): string
    requires k + |START| <= e <= |input|
  {
    Toggle(out + input[k..e], input[k..e - |START|], enabled)
  }

  /** Handling a body keeps the line breaks of the text it echoes: toggling
      neither adds nor removes one. */
  lemma BodyOutputKeepsLineCount(input: string, k: nat, kind: ExpressionType, enabled: bool, out: string)
    requires k <= |input|
    ensures CountChar(BodyOutput(input, k, kind, enabled, out), '\n') ==
      CountChar(out, '\n') + CountChar(input[k..AfterPos(input, k, kind)], '\n')
  {
    match kind
    case Single => LineKeepsLineCount(input, k, enabled, out);
    case Closer =>
    case Opener => BlockKeepsLineCount(input, k, enabled, out);
    case Extension => BlockKeepsLineCount(input, k, enabled, out);
  }

  lemma LineKeepsLineCount(input: string, k: nat, enabled: bool, out: string)
    requires k <= |input|
    ensures CountChar(LineBodyOutput(input, k, enabled, out), '\n') ==
      CountChar(out, '\n') + CountChar(input[k..AfterPos(input, k, ExpressionType.Single)], '\n')
  {
    if k < |input| {
      var p1 := LineEnd(input, k, false, false);
      var e := ReadEnd(input, p1, START);
      var toggled := Toggle(out + input[k..p1], LineText(input[k..p1]), enabled);
      LineBodyAt(input, k, enabled, out);
      ToggleKeepsLineCount(out + input[k..p1], LineText(input[k..p1]), enabled);
      CountAppend(toggled, input[p1..e], '\n');
      CountAppend(out, input[k..p1], '\n');
      CountSplit(input, k, p1, e);
    } else {
      assert input[k..k] == [];
    }
  }

  lemma LineBodyAt(input: string, k: nat, enabled: bool, out: string)
    requires k < |input|
    ensures var p1 := LineEnd(input, k, false, false);
      var e := ReadEnd(input, p1, START);
      AfterPos(input, k, ExpressionType.Single) == e &&
      LineBodyOutput(input, k, enabled, out) ==
        Toggle(out + input[k..p1], LineText(input[k..p1]), enabled) + input[p1..e]
  {
  }

  // The line breaks of `s[i..k]` are those of `s[i..j]` and `s[j..k]`.
  lemma CountSplit(s: string, i: nat, j: nat, k: nat)
    requires i <= j <= k <= |s|
    ensures CountChar(s[i..k], '\n') == CountChar(s[i..j], '\n') + CountChar(s[j..k], '\n')
  {
    assert s[i..k] == s[i..j] + s[j..k];
    CountAppend(s[i..j], s[j..k], '\n');
  }

  lemma BlockKeepsLineCount(input: string, k: nat, enabled: bool, out: string)
    requires k <= |input|
    ensures CountChar(BlockBodyOutput(input, k, enabled, out), '\n') ==
      CountChar(out, '\n') + CountChar(input[k..ReadEnd(input, k, START)], '\n')
  {
    var e := ReadEnd(input, k, START);
    CountAppend(out, input[k..e], '\n');
    if MatchEnd(input, k, START).None? {
      assert BlockBodyOutput(input, k, enabled, out) == out + input[k..e];
    } else {
      ReadEndIsMatchEnd(input, k, START);
      assert BlockBodyOutput(input, k, enabled, out) == ToggledBlock(input, k, e, enabled, out);
      ToggledBlockKeepsLineCount(input, k, e, enabled, out);
    }
  }

  lemma ReadEndIsMatchEnd(s: string, from: nat, m: string)
    requires from <= |s| && MatchEnd(s, from, m).Some?
    ensures ReadEnd(s, from, m) == MatchEnd(s, from, m).value
  {
  }

  lemma ToggledBlockKeepsLineCount(input: string, k: nat, e: nat, enabled: bool, out: string)
    requires k + |START| <= e <= |input|
    ensures CountChar(ToggledBlock(input, k, e, enabled, out), '\n') == CountChar(out + input[k..e], '\n')
  {
    ToggleKeepsLineCount(out + input[k..e], input[k..e - |START|], enabled);
  }

  /** The output after the directive whose text starts at `p`, from output
      `out`: the text through its `END` echoed, then its body handled as
      `BodyOutput` says, with `enabled` the verdict on the body. */
  function OutputAfter(input: string, classify: string -> (string, ExpressionType), p: nat,
                       enabled: bool, out: string): string
    requires p <= |input|
  {
    match MatchEnd(input, p, END)
    case None => out + input[p..]
    case Some(k) => OutputEndingAt(input, classify, p, k, enabled, out)
  }

  function OutputEndingAt(input: string, classify: string -> (string, ExpressionType), p: nat, k: nat,
                          enabled: bool, out: string): string
    requires p + |END| <= k <= |input|
  {
    BodyOutput(input, k, classify(Trim(input[p..k - |END|])).1, enabled, out + input[p..k])
  }

  lemma OutputAfterAt(input: string, classify: string -> (string, ExpressionType), p: nat, k: nat, raw: string,
                      enabled: bool, out: string)
    requires p <= |input| && MatchEnd(input, p, END) == Some(k) && raw == input[p..k - |END|]
    ensures OutputAfter(input, classify, p, enabled, out) ==
      BodyOutput(input, k, classify(Trim(raw)).1, enabled, out + input[p..k])
  {
    assert OutputAfter(input, classify, p, enabled, out) == OutputEndingAt(input, classify, p, k, enabled, out);
  }

  /** Where processing stops, and the output written by then. */
  datatype Rendering = Rendering(stop: nat, output: string)

  /** Processing from `p` with deque `t` and output `out`: each directive
      `FirstDirective` finds has its body handled by the verdict the deque
      gives it, the same verdict `Replay` records as its flag, until no
      directive is found. */
  function Render(input: string, checker: string -> bool, classify: string -> (string, ExpressionType),
                  p: nat, t: seq<Entry>, out: string): (r: Rendering)
    requires p <= |input|
    ensures p <= r.stop <= |input|
    decreases |input| - p
  {
    match FirstDirective(input, checker, classify, p, t)
    case None => Rendering(p, out)
    case Some(st) =>
      Render(input, checker, classify, st.next, st.entries,
             OutputAfter(input, classify, p, Step(t, st.d).value.enabled, out))
  }

  /** Processing a directive echoes the input up to where reading resumes,
      toggling only comment delimiters, so the output gains exactly the
      line breaks of that stretch of input. */
  lemma OutputAfterKeepsLineCount(input: string, checker: string -> bool, classify: string -> (string, ExpressionType),
                                  p: nat, t: seq<Entry>, enabled: bool, out: string)
    requires p <= |input| && FirstDirective(input, checker, classify, p, t).Some?
    ensures var next := FirstDirective(input, checker, classify, p, t).value.next;
      CountChar(OutputAfter(input, classify, p, enabled, out), '\n') ==
        CountChar(out, '\n') + CountChar(input[p..next], '\n')
  {
    var k := MatchEnd(input, p, END).value;
    var raw := input[p..k - |END|];
    var kind := classify(Trim(raw)).1;
    var next := FirstDirective(input, checker, classify, p, t).value.next;
    assert next == AfterPos(input, k, kind) by {
      assert FirstDirective(input, checker, classify, p, t) == DirectiveEndingAt(input, checker, classify, p, k, t);
      WellFormedFound(input, checker, classify, p, k, t);
    }
    OutputAfterAt(input, classify, p, k, raw, enabled, out);
    BodyOutputKeepsLineCount(input, k, kind, enabled, out + input[p..k]);
    CountAppend(out, input[p..k], '\n');
    CountSplit(input, p, k, next);
  }

  // A directive found is a well-formed one, resuming where `AfterPos` says.
  lemma WellFormedFound(input: string, checker: string -> bool, classify: string -> (string, ExpressionType),
                        p: nat, k: nat, t: seq<Entry>)
    requires p + |END| <= k <= |input| && DirectiveEndingAt(input, checker, classify, p, k, t).Some?
    ensures var raw := input[p..k - |END|];
      DirectiveEndingAt(input, checker, classify, p, k, t).value.next == AfterPos(input, k, classify(Trim(raw)).1)
  {
  }

  /** The fold never adds or removes a line break: the output gains exactly
      the line breaks of the input rendered. */
  lemma {:induction false} RenderKeepsLineCount(input: string, checker: string -> bool,
                                                classify: string -> (string, ExpressionType),
                                                p: nat, t: seq<Entry>, out: string)
    requires p <= |input|
    ensures var rn := Render(input, checker, classify, p, t, out);
      CountChar(rn.output, '\n') == CountChar(out, '\n') + CountChar(input[p..rn.stop], '\n')
    decreases |input| - p
  {
    match FirstDirective(input, checker, classify, p, t)
    case None =>
      assert input[p..p] == [];
    case Some(st) =>
      var out1 := OutputAfter(input, classify, p, Step(t, st.d).value.enabled, out);
      var rn := Render(input, checker, classify, st.next, st.entries, out1);
      OutputAfterKeepsLineCount(input, checker, classify, p, t, Step(t, st.d).value.enabled, out);
      RenderKeepsLineCount(input, checker, classify, st.next, st.entries, out1);
      CountSplit(input, p, st.next, rn.stop);
  }

  lemma RenderStep(input: string, checker: string -> bool, classify: string -> (string, ExpressionType),
                   p: nat, t: seq<Entry>, out: string, d: Directive, p1: nat, t1: seq<Entry>)
    requires p <= |input| && FirstDirective(input, checker, classify, p, t) == Some(Stepped(d, p1, t1))
    ensures Step(t, d).Some? && p1 <= |input|
    ensures Render(input, checker, classify, p, t, out) ==
      Render(input, checker, classify, p1, t1, OutputAfter(input, classify, p, Step(t, d).value.enabled, out))
  {
  }

  lemma RenderStop(input: string, checker: string -> bool, classify: string -> (string, ExpressionType),
                   p: nat, t: seq<Entry>, out: string)
    requires p <= |input| && FirstDirective(input, checker, classify, p, t) == None
    ensures Render(input, checker, classify, p, t, out) == Rendering(p, out)
  {
  }

  // ---------------------------------------------------------------------
  // The processor

  class CommentProcessor {
    const input: string
    var pos: nat
    var output: string
    var tokens: seq<Entry>
    const checker: string -> bool
    const classify: string -> (string, ExpressionType)
    /** Line breaks in the output the processor was handed. */
    ghost const initialBreaks: nat

    /** Everything read has been echoed, and toggling never changed the
        number of line breaks: the output has as many as the caller's
        initial output plus the input consumed so far. */
    ghost predicate Valid()
      reads this`pos, this`output
    {
      pos <= |input| && CountChar(output, '\n') == initialBreaks + CountChar(input[..pos], '\n')
    }

    /** The condition evaluator's verdict on a guard. */
    function Verdict(guard: string): bool {
      checker(guard)
    }

    /** The directive classifier's reading of a directive's text. */
    function Classify(text: string): (string, ExpressionType) {
      classify(text)
    }

    /** `line`: one more than the number of line breaks in the output. */
    function Line(): (n: nat)
      reads this`output
      ensures n >= 1
    {
      CountChar(output, '\n') + 1
    }

    constructor (input: string, output: string, checker: string -> bool, classify: string -> (string, ExpressionType))
      ensures Valid()
      ensures this.input == input && this.output == output && this.checker == checker && this.classify == classify
      ensures pos == 0 && tokens == [] && initialBreaks == CountChar(output, '\n')
    {
      this.input := input;
      this.output := output;
      this.checker := checker;
      this.classify := classify;
      pos := 0;
      tokens := [];
      initialBreaks := CountChar(output, '\n');
    }

    ghost predicate Unchanged(p0: nat, out0: string, t0: seq<Entry>)
      reads this
    {
      pos == p0 && output == out0 && tokens == t0
    }

    /** Fails with `message` at the current line, having changed nothing. */
    ghost predicate FailsUnchanged(p0: nat, out0: string, t0: seq<Entry>, message: Message, err: Option<Error>)
      reads this
    {
      err == Some(SyntaxError(Line(), message)) && Unchanged(p0, out0, t0)
    }

    // Reading a body up to the next `/*?` from `p0` and toggling it for
    // directive `d`: the state afterwards, or the "not closed" error when
    // the input ends first.
    ghost predicate BlockOutcome(p0: nat, out0: string, t0: seq<Entry>, d: Directive, err: Option<Error>)
      reads this
    {
      p0 <= |input| &&
      match MatchEnd(input, p0, START)
      case None =>
        err == Some(SyntaxError(Line(), NotClosed)) &&
        Unchanged(|input|, out0 + input[p0..], t0)
      case Some(k) => err.None? && Toggled(p0, out0, t0, d, k)
    }

    /** The block closed at `k`: reading stopped there, `d` moved the chain
        on, and the body read since `p0` was toggled as the chain now says. */
    ghost predicate Toggled(p0: nat, out0: string, t0: seq<Entry>, d: Directive, k: nat)
      reads this
      requires p0 + |START| <= k <= |input|
    {
      pos == k && Step(t0, d).Some? && tokens == Step(t0, d).value.entries &&
      output == Toggle(out0 + input[p0..k], input[p0..k - |START|], Step(t0, d).value.enabled)
    }

    // The block was read up to the next `/*?` and toggled as `d` says.
    lemma BlockClosed(p0: nat, out0: string, t0: seq<Entry>, d: Directive, read: string, code: string, e: bool)
      requires p0 <= |input| && MatchEnd(input, p0, START) == Some(pos)
      requires read == out0 + input[p0..pos] && code == input[p0..pos - |START|]
      requires Step(t0, d) == Some(Effect(e, tokens))
      requires output == Toggle(read, code, e)
      ensures BlockOutcome(p0, out0, t0, d, None)
    {
      ToggledAt(p0, out0, t0, d, read, code, e);
    }

    lemma ToggledAt(p0: nat, out0: string, t0: seq<Entry>, d: Directive, read: string, code: string, e: bool)
      requires p0 + |START| <= pos <= |input|
      requires read == out0 + input[p0..pos] && code == input[p0..pos - |START|]
      requires Step(t0, d) == Some(Effect(e, tokens))
      requires output == Toggle(read, code, e)
      ensures Toggled(p0, out0, t0, d, pos)
    {
    }

    // The input ran out before the next `/*?`.
    lemma BlockNotClosed(p0: nat, out0: string, t0: seq<Entry>, d: Directive)
      requires ReadFrom(p0, out0, START, false, None) && tokens == t0
      ensures BlockOutcome(p0, out0, t0, d, Some(SyntaxError(Line(), NotClosed)))
    {
      assert input[p0..pos] == input[p0..];
    }

    /** The guard text handed to the condition evaluator: `expr.drop(n).trimStart()`. */
    static function Guard(expr: string, n: nat): string {
      TrimStart(Drop(expr, n))
    }

    ghost predicate SingleOutcome(p0: nat, out0: string, t0: seq<Entry>, expr: string, err: Option<Error>)
      reads this
    {
      if !StartsWithIgnoreCase(expr, "if") then FailsUnchanged(p0, out0, t0, OnlyIfSingle(expr), err)
      else if Open(t0) then FailsUnchanged(p0, out0, t0, Nested(expr), err)
      else if p0 >= |input| then FailsUnchanged(p0, out0, t0, NoEndOfLine, err)
      else
        var p1 := LineEnd(input, p0, false, false);
        var guard := Verdict(Guard(expr, 2));
        err.None? && Step(t0, If(ExpressionType.Single, guard)) == Some(Effect(guard, tokens)) &&
        pos == ReadEnd(input, p1, START) &&
        output == Toggle(out0 + input[p0..p1], LineText(input[p0..p1]), guard) + input[p1..pos]
    }

    ghost predicate OpenerOutcome(p0: nat, out0: string, t0: seq<Entry>, expr: string, err: Option<Error>)
      reads this
    {
      if !StartsWithIgnoreCase(expr, "if") then FailsUnchanged(p0, out0, t0, OnlyIfOpener(expr), err)
      else if Open(t0) then FailsUnchanged(p0, out0, t0, Nested(expr), err)
      else BlockOutcome(p0, out0, t0, If(ExpressionType.Opener, Verdict(Guard(expr, 2))), err)
    }

    ghost predicate ElseOutcome(p0: nat, out0: string, t0: seq<Entry>, expr: string, err: Option<Error>)
      reads this
    {
      if !EqualsIgnoreCase(expr, "else") then FailsUnchanged(p0, out0, t0, ElseWithCondition, err)
      else BlockOutcome(p0, out0, t0, Else, err)
    }

    ghost predicate ElifOutcome(p0: nat, out0: string, t0: seq<Entry>, expr: string, err: Option<Error>)
      reads this
    {
      if EqualsIgnoreCase(expr, "elif") then FailsUnchanged(p0, out0, t0, ElifWithoutCondition, err)
      else BlockOutcome(p0, out0, t0, Elif(Verdict(Guard(expr, 4))), err)
    }

    ghost predicate ExtensionOutcome(p0: nat, out0: string, t0: seq<Entry>, expr: string, err: Option<Error>)
      reads this
    {
      if !Open(t0) then FailsUnchanged(p0, out0, t0, MustFollowCondition(expr), err)
      else if StartsWithIgnoreCase(expr, "else") then ElseOutcome(p0, out0, t0, expr, err)
      else if StartsWithIgnoreCase(expr, "elif") then ElifOutcome(p0, out0, t0, expr, err)
      else FailsUnchanged(p0, out0, t0, InvalidExtension(expr), err)
    }

    ghost predicate CloserOutcome(p0: nat, out0: string, t0: seq<Entry>, err: Option<Error>)
      reads this
    {
      if !Open(t0) then FailsUnchanged(p0, out0, t0, CloserWithoutContext, err)
      else err.None? && pos == p0 && output == out0 && Step(t0, Close) == Some(Effect(false, tokens))
    }

    // One call of `next()` from `p0`: read the directive's text up to `*/`,
    // reject it when it holds `/*?` or is blank, and otherwise dispatch on
    // its classification. `Done(false)` when no `*/` is left.
    ghost predicate NextOutcome(p0: nat, out0: string, t0: seq<Entry>, r: Outcome<bool>)
      reads this
    {
      p0 <= |input| &&
      var err := if r.Fail? then Some(r.error) else None;
      match Taken(p0, END, false)
      case None => r == Done(false) && Unchanged(|input|, out0 + input[p0..], t0)
      case Some(raw) =>
        var k := ReadEnd(input, p0, END);
        var out1 := out0 + input[p0..k];
        if Contains(raw, START) then FailsUnchanged(k, out1, t0, ExpressionNotClosed, err)
        else if IsBlank(raw) then FailsUnchanged(k, out1, t0, EmptyExpression, err)
        else r != Done(false) && Dispatched(k, out1, t0, Classify(Trim(raw)).0, Classify(Trim(raw)).1, err)
    }

    /** A directive of the given kind was processed from `p0`. */
    ghost predicate Dispatched(p0: nat, out0: string, t0: seq<Entry>, expr: string, kind: ExpressionType, err: Option<Error>)
      reads this
    {
      match kind
      case Single => SingleOutcome(p0, out0, t0, expr, err)
      case Opener => OpenerOutcome(p0, out0, t0, expr, err)
      case Extension => ExtensionOutcome(p0, out0, t0, expr, err)
      case Closer => CloserOutcome(p0, out0, t0, err)
    }

    /** Consuming `input[p0..pos]` and echoing it keeps the line-break count in step. */
    lemma EchoKeepsValid(p0: nat, out0: string)
      requires p0 <= pos <= |input|
      requires CountChar(out0, '\n') == initialBreaks + CountChar(input[..p0], '\n')
      requires output == out0 + input[p0..pos]
      ensures Valid()
    {
      CountAppend(out0, input[p0..pos], '\n');
      assert input[..pos] == input[..p0] + input[p0..pos];
      CountAppend(input[..p0], input[p0..pos], '\n');
    }

    /** The state after `read(m, includeMatch)` from `p0`, with the output
        at `out0`, returned `r`: the input was echoed up to the end of the
        first match of `m`, or to its end when there is none, and `r` is the
        text read, with or without the match. */
    ghost predicate ReadFrom(p0: nat, out0: string, m: string, includeMatch: bool, r: Option<string>)
      reads this`pos, this`output
    {
      p0 <= |input| && pos == ReadEnd(input, p0, m) && output == out0 + input[p0..pos] &&
      r == Taken(p0, m, includeMatch)
    }

    /** The text `read(m, includeMatch)` from `p0` returns: the input up to
        the end of the first match of `m`, with or without the match, and
        `None` when `m` does not occur. */
    function Taken(p0: nat, m: string, includeMatch: bool): Option<string>
      requires p0 <= |input|
    {
      match MatchEnd(input, p0, m)
      case None => None
      case Some(k) => Some(if includeMatch then input[p0..k] else input[p0..k - |m|])
    }

    /** `read(match, includeMatch)`. */
    method Read(m: string, includeMatch: bool) returns (r: Option<string>)
      requires Valid()
      modifies this`pos, this`output
      ensures Valid() && old(pos) <= pos
      ensures ReadFrom(old(pos), old(output), m, includeMatch, r)
    {
      // The buffer always holds `input[p0..pos]`, so it is read off the input.
      var p0 := pos;
      var found := false;
      while pos < |input| && !found
        invariant p0 <= pos <= |input|
        invariant output == old(output) + input[p0..pos]
        invariant forall k | p0 < k < pos :: !EndsAt(input, m, p0, k)
        invariant found <==> p0 < pos && EndsAt(input, m, p0, pos)
        decreases |input| - pos
      {
        EchoOne(old(output), input, p0, pos);
        output := output + [input[pos]];
        pos := pos + 1;
        BufferEndsWith(input, m, p0, pos);
        found := EndsWith(input[p0..pos], m);
      }
      EchoKeepsValid(p0, old(output));
      if found {
        MatchEndIsFirst(input, p0, m, pos);
        r := Some(if includeMatch then input[p0..pos] else input[p0..pos - |m|]);
      } else {
        MatchEndIsFirst(input, p0, m, pos + 1);
        r := None;
      }
    }

    // `readExpression()`: the trimmed text up to the next `*/`, `None` at
    // the end of the input, an error when the text holds `/*?` or is blank.
    method ReadExpression() returns (r: Outcome<Option<string>>)
      requires Valid()
      modifies this`pos, this`output
      ensures Valid() && old(pos) <= pos
      ensures ReadFrom(old(pos), old(output), END, false, Taken(old(pos), END, false))
      ensures r == match Taken(old(pos), END, false)
        case None => Done(None)
        case Some(raw) =>
          if Contains(raw, START) then Fail(SyntaxError(Line(), ExpressionNotClosed))
          else if IsBlank(raw) then Fail(SyntaxError(Line(), EmptyExpression))
          else Done(Some(Trim(raw)))
    {
      var expression := Read(END, false);
      if expression.None? {
        return Done(None);
      }
      if Contains(expression.value, START) {
        return Fail(SyntaxError(Line(), ExpressionNotClosed));
      }
      if IsBlank(expression.value) {
        return Fail(SyntaxError(Line(), EmptyExpression));
      }
      return Done(Some(Trim(expression.value)));
    }

    /** `readNextLine()`: the line after a single-line directive. */
    method ReadNextLine() returns (r: Outcome<string>)
      requires Valid()
      modifies this`pos, this`output
      ensures Valid() && old(pos) <= pos
      ensures output == old(output) + input[old(pos)..pos]
      ensures old(pos) == |input| ==> r == Fail(SyntaxError(Line(), NoEndOfLine)) && pos == old(pos)
      ensures old(pos) < |input| ==>
        pos == LineEnd(input, old(pos), false, false) && r == Done(LineText(input[old(pos)..pos]))
    {
      var p0 := pos;
      var seen, inRun := false, false;
      while pos < |input|
        invariant p0 <= pos <= |input|
        invariant output == old(output) + input[p0..pos]
        invariant inRun ==> p0 < pos
        invariant LineEnd(input, p0, false, false) == LineEnd(input, pos, seen, inRun)
      {
        var c := input[pos];
        if inRun && !IsLineBreak(c) {
          break;
        }
        output := output + [c];
        pos := pos + 1;
        if !inRun && IsLineBreak(c) && seen {
          inRun := true;
        } else if !inRun {
          seen := seen || !IsRegexSpace(c);
        }
      }
      EchoKeepsValid(p0, old(output));
      if pos == p0 {
        return Fail(SyntaxError(Line(), NoEndOfLine));
      }
      return Done(LineText(input[p0..pos]));
    }

    /** `processCode(code, enabled)`. */
    method ProcessCode(code: string, enabled: bool)
      requires Valid()
      modifies this`output
      ensures Valid()
      ensures output == Toggle(old(output), code, enabled)
    {
      ToggleKeepsLineCount(output, code, enabled);
      var commented := IsCommented(code);
      var result;
      if enabled && commented {
        result := Unwrap(code);
      } else if !enabled && !commented {
        result := Wrap(code);
      } else {
        return;
      }
      ghost var expected := ReplaceLast(output, code, result);
      assert expected == Toggle(output, code, enabled);
      var index := LastIndexOf(output, code);
      if index.Some? {
        output := output[..index.value] + result + output[index.value + |code|..];
      }
      assert output == expected;
    }

    /** `testExpression(expression, drop, type)`: evaluates the guard and
        records the result in the deque. */
    method TestExpression(expression: string, drop: nat, kind: ExpressionType) returns (b: bool)
      modifies this`tokens
      ensures b == Verdict(Guard(expression, drop))
      ensures tokens == old(tokens) + [Entry(kind, b)]
    {
      b := Verdict(Guard(expression, drop));
      tokens := tokens + [Entry(kind, b)];
    }

    method Single(expr: string) returns (err: Option<Error>)
      requires Valid()
      modifies this`pos, this`output, this`tokens
      ensures Valid() && old(pos) <= pos
      ensures err.Some? ==> err.value.line == Line()
      ensures SingleOutcome(old(pos), old(output), old(tokens), expr, err)
    {
      if !StartsWithIgnoreCase(expr, "if") {
        return Some(SyntaxError(Line(), OnlyIfSingle(expr)));
      }
      if Open(tokens) {
        return Some(SyntaxError(Line(), Nested(expr)));
      }
      var code := ReadNextLine();
      if code.Fail? {
        return Some(code.error);
      }
      var p1 := pos;
      var enabled := TestExpression(expr, 2, ExpressionType.Single);
      ProcessCode(code.value, enabled);
      ghost var toggled := output;
      var _ := Read(START, false);
      assert output == toggled + input[p1..pos];
      return None;
    }

    // The common tail of the block directives: the body read from `p0` is
    // toggled by the effect `d` had on the deque.
    method ProcessBlock(ghost p0: nat, ghost out0: string, ghost t0: seq<Entry>, ghost d: Directive, code: string, enabled: bool)
      requires Valid() && ReadFrom(p0, out0, START, false, Some(code))
      requires Step(t0, d) == Some(Effect(enabled, tokens))
      modifies this`output
      ensures Valid() && BlockOutcome(p0, out0, t0, d, None)
    {
      ghost var read := output;
      ProcessCode(code, enabled);
      BlockClosed(p0, out0, t0, d, read, code, enabled);
    }

    method Opener(expr: string) returns (err: Option<Error>)
      requires Valid()
      modifies this`pos, this`output, this`tokens
      ensures Valid() && old(pos) <= pos
      ensures err.Some? ==> err.value.line == Line()
      ensures OpenerOutcome(old(pos), old(output), old(tokens), expr, err)
    {
      if !StartsWithIgnoreCase(expr, "if") {
        return Some(SyntaxError(Line(), OnlyIfOpener(expr)));
      }
      if Open(tokens) {
        return Some(SyntaxError(Line(), Nested(expr)));
      }
      ghost var p0, out0, t0 := pos, output, tokens;
      var code := Read(START, false);
      if code.None? {
        BlockNotClosed(p0, out0, t0, If(ExpressionType.Opener, Verdict(Guard(expr, 2))));
        return Some(SyntaxError(Line(), NotClosed));
      }
      var enabled := TestExpression(expr, 2, ExpressionType.Opener);
      ProcessBlock(p0, out0, t0, If(ExpressionType.Opener, enabled), code.value, enabled);
      return None;
    }

    method Extension(expr: string) returns (err: Option<Error>)
      requires Valid()
      modifies this`pos, this`output, this`tokens
      ensures Valid() && old(pos) <= pos
      ensures err.Some? ==> err.value.line == Line()
      ensures ExtensionOutcome(old(pos), old(output), old(tokens), expr, err)
    {
      if !Open(tokens) {
        return Some(SyntaxError(Line(), MustFollowCondition(expr)));
      }
      if StartsWithIgnoreCase(expr, "else") {
        err := ElseExtension(expr);
      } else if StartsWithIgnoreCase(expr, "elif") {
        err := ElifExtension(expr);
      } else {
        err := Some(SyntaxError(Line(), InvalidExtension(expr)));
      }
    }

    method Closer() returns (err: Option<Error>)
      requires Valid()
      modifies this`tokens
      ensures Valid()
      ensures err.Some? ==> err.value.line == Line()
      ensures CloserOutcome(old(pos), old(output), old(tokens), err)
    {
      if !Open(tokens) {
        return Some(SyntaxError(Line(), CloserWithoutContext));
      }
      tokens := tokens + [Entry(ExpressionType.Closer, false)];
      return None;
    }

    method ElseExtension(expression: string) returns (err: Option<Error>)
      requires Valid() && Open(tokens)
      modifies this`pos, this`output, this`tokens
      ensures Valid() && old(pos) <= pos
      ensures err.Some? ==> err.value.line == Line()
      ensures ElseOutcome(old(pos), old(output), old(tokens), expression, err)
    {
      if !EqualsIgnoreCase(expression, "else") {
        return Some(SyntaxError(Line(), ElseWithCondition));
      }
      ghost var p0, out0, t0 := pos, output, tokens;
      var code := Read(START, false);
      if code.None? {
        BlockNotClosed(p0, out0, t0, Else);
        return Some(SyntaxError(Line(), NotClosed));
      }
      var enabled := !Last(tokens).result;
      tokens := tokens + [Entry(ExpressionType.Extension, enabled)];
      ProcessBlock(p0, out0, t0, Else, code.value, enabled);
      return None;
    }

    // `!tokens.last().result && testExpression(...)`: the guard is evaluated,
    // and recorded, only when no earlier branch of the chain was taken.
    method ElifGuard(expression: string) returns (enabled: bool)
      requires Open(tokens)
      modifies this`tokens
      ensures Step(old(tokens), Elif(Verdict(Guard(expression, 4)))) == Some(Effect(enabled, tokens))
    {
      enabled := false;
      if !Last(tokens).result {
        enabled := TestExpression(expression, 4, ExpressionType.Extension);
      }
    }

    method ElifExtension(expression: string) returns (err: Option<Error>)
      requires Valid() && Open(tokens)
      modifies this`pos, this`output, this`tokens
      ensures Valid() && old(pos) <= pos
      ensures err.Some? ==> err.value.line == Line()
      ensures ElifOutcome(old(pos), old(output), old(tokens), expression, err)
    {
      if EqualsIgnoreCase(expression, "elif") {
        return Some(SyntaxError(Line(), ElifWithoutCondition));
      }
      ghost var p0, out0, t0 := pos, output, tokens;
      ghost var d := Elif(Verdict(Guard(expression, 4)));
      var code := Read(START, false);
      if code.None? {
        BlockNotClosed(p0, out0, t0, d);
        return Some(SyntaxError(Line(), NotClosed));
      }
      var enabled := ElifGuard(expression);
      ProcessBlock(p0, out0, t0, d, code.value, enabled);
      return None;
    }

    /** A dispatched directive is accepted exactly when `Accepts` says so;
        then it moved the deque as its deque directive does and left the
        cursor at `AfterPos`, and otherwise it left the deque alone. */
    lemma DispatchedAccepts(p0: nat, out0: string, t0: seq<Entry>, expr: string, kind: ExpressionType, err: Option<Error>)
      requires p0 <= |input| && Dispatched(p0, out0, t0, expr, kind, err)
      ensures err.None? <==> Accepts(input, p0, t0, expr, kind)
      ensures err.Some? ==> tokens == t0
      ensures err.None? ==>
        pos == AfterPos(input, p0, kind) && Step(t0, DirectiveOf(checker, expr, kind)).Some? &&
        tokens == Step(t0, DirectiveOf(checker, expr, kind)).value.entries
    {
      match kind
      case Single =>
      case Opener =>
      case Extension =>
        if Open(t0) && StartsWithIgnoreCase(expr, "else") {
          assert ElseOutcome(p0, out0, t0, expr, err);
        } else if Open(t0) && StartsWithIgnoreCase(expr, "elif") {
          assert ElifOutcome(p0, out0, t0, expr, err);
        }
      case Closer =>
    }

    // An accepted single-line directive handled the line after it.
    lemma SingleOutput(p0: nat, out0: string, t0: seq<Entry>, expr: string)
      requires SingleOutcome(p0, out0, t0, expr, None)
      ensures p0 <= |input| && output == LineBodyOutput(input, p0, Verdict(Guard(expr, 2)), out0)
    {
    }

    // An accepted block directive handled its block.
    lemma BlockOutput(p0: nat, out0: string, t0: seq<Entry>, d: Directive)
      requires BlockOutcome(p0, out0, t0, d, None)
      ensures Step(t0, d).Some? && output == BlockBodyOutput(input, p0, Step(t0, d).value.enabled, out0)
    {
    }

    // A rejected directive has only echoed input.
    lemma DispatchedEchoes(p0: nat, out0: string, t0: seq<Entry>, expr: string, kind: ExpressionType, err: Option<Error>)
      requires p0 <= |input| && Dispatched(p0, out0, t0, expr, kind, err) && err.Some?
      ensures p0 <= pos <= |input| && output == out0 + input[p0..pos]
    {
      if pos == p0 {
        assert input[p0..pos] == [] && out0 + [] == out0;
      }
    }

    /** What a dispatched directive leaves in the output: a rejected one has
        only echoed input, and an accepted one has handled its body as
        `BodyOutput` says, by the verdict the deque gives it. */
    lemma DispatchedOutput(p0: nat, out0: string, t0: seq<Entry>, expr: string, kind: ExpressionType, err: Option<Error>)
      requires p0 <= |input| && Dispatched(p0, out0, t0, expr, kind, err)
      ensures err.Some? ==> p0 <= pos <= |input| && output == out0 + input[p0..pos]
      ensures err.None? ==> (Step(t0, DirectiveOf(checker, expr, kind)).Some? &&
        output == BodyOutput(input, p0, kind, Step(t0, DirectiveOf(checker, expr, kind)).value.enabled, out0))
    {
      if err.Some? {
        DispatchedEchoes(p0, out0, t0, expr, kind, err);
        return;
      }
      match kind
      case Single =>
        if err.None? {
          SingleOutput(p0, out0, t0, expr);
        }
      case Opener =>
        if err.None? {
          BlockOutput(p0, out0, t0, If(ExpressionType.Opener, Verdict(Guard(expr, 2))));
        }
      case Extension =>
        if Open(t0) && StartsWithIgnoreCase(expr, "else") {
          assert ElseOutcome(p0, out0, t0, expr, err);
          if err.None? {
            BlockOutput(p0, out0, t0, Else);
          }
        } else if Open(t0) && StartsWithIgnoreCase(expr, "elif") {
          assert ElifOutcome(p0, out0, t0, expr, err);
          if err.None? {
            BlockOutput(p0, out0, t0, Elif(Verdict(Guard(expr, 4))));
          }
        }
      case Closer =>
    }

    /** The `when` of `next()`: hands the directive to its kind's handler. */
    method Dispatch(expr: string, kind: ExpressionType) returns (err: Option<Error>)
      requires Valid()
      modifies this`pos, this`output, this`tokens
      ensures Valid() && old(pos) <= pos
      ensures err.Some? ==> err.value.line == Line()
      ensures Dispatched(old(pos), old(output), old(tokens), expr, kind, err)
    {
      match kind {
        case Single => err := Single(expr);
        case Opener => err := Opener(expr);
        case Extension => err := Extension(expr);
        case Closer => err := Closer();
      }
    }

    /** `next()`: processes one directive; `Done(false)` when none is left. */
    // `d` is the deque directive of the directive processed, when one was.
    method Next() returns (r: Outcome<bool>, ghost d: Directive)
      requires Valid()
      modifies this`pos, this`output, this`tokens
      ensures Valid() && old(pos) <= pos
      ensures r == Done(true) ==> old(pos) < pos
      ensures r == Done(false) ==> pos == |input|
      ensures r.Fail? ==> r.error.line == Line()
      ensures NextOutcome(old(pos), old(output), old(tokens), r)
      ensures r == Done(true) ==> Taken(old(pos), END, false).Some? && d == DirectiveRead(old(pos))
    {
      d := Close;
      var expression := ReadExpression();
      if expression.Fail? {
        return Fail(expression.error), d;
      }
      if expression.value.None? {
        return Done(false), d;
      }
      var (expr, kind) := Classify(expression.value.value);
      var err := Dispatch(expr, kind);
      d := DirectiveOf(checker, expr, kind);
      if err.Some? {
        return Fail(err.value), d;
      }
      return Done(true), d;
    }

    /** The deque directive of the directive whose text starts at `p0`. */
    ghost function DirectiveRead(p0: nat): Directive
      requires p0 <= |input| && Taken(p0, END, false).Some?
    {
      var text := Trim(Taken(p0, END, false).value);
      DirectiveOf(checker, Classify(text).0, Classify(text).1)
    }

    /** One `next()` from `p0` reads the directive `FirstDirective` finds
        there and moves the cursor and the deque as it says; when it does
        not report one processed, there was none to find and the deque is
        as it was. */
    lemma NextReadsFirst(p0: nat, out0: string, t0: seq<Entry>, r: Outcome<bool>, d: Directive)
      requires NextOutcome(p0, out0, t0, r)
      requires r == Done(true) ==> Taken(p0, END, false).Some? && d == DirectiveRead(p0)
      ensures r == Done(true) ==> FirstDirective(input, checker, classify, p0, t0) == Some(Stepped(d, pos, tokens))
      ensures r != Done(true) ==> tokens == t0 && FirstDirective(input, checker, classify, p0, t0) == None
    {
      if Taken(p0, END, false).None? {
        NoFirstDirective(input, checker, classify, p0, t0);
        return;
      }
      var raw := Taken(p0, END, false).value;
      var k := ReadEnd(input, p0, END);
      assert MatchEnd(input, p0, END) == Some(k) && raw == input[p0..k - |END|];
      if Contains(raw, START) || IsBlank(raw) {
        NoFirstDirective(input, checker, classify, p0, t0);
        return;
      }
      var err := if r.Fail? then Some(r.error) else None;
      var expr, kind := Classify(Trim(raw)).0, Classify(Trim(raw)).1;
      DispatchedAccepts(k, out0 + input[p0..k], t0, expr, kind, err);
      assert r.Done? ==> r == Done(true) by {
        if r.Done? && !r.value {
          assert false;
        }
      }
      FirstDirectiveAt(input, checker, classify, p0, k, raw, t0, expr, kind, err.None?, pos, tokens);
    }

    // A `next()` that read well-formed directive text dispatched it, and
    // reports either success or the handler's error.
    lemma NextDispatched(p0: nat, out0: string, t0: seq<Entry>, r: Outcome<bool>)
      requires NextOutcome(p0, out0, t0, r) && Taken(p0, END, false).Some?
      requires !Contains(Taken(p0, END, false).value, START) && !IsBlank(Taken(p0, END, false).value)
      ensures r.Done? ==> r.value
      ensures var raw := Taken(p0, END, false).value;
        var k := ReadEnd(input, p0, END);
        Dispatched(k, out0 + input[p0..k], t0, Classify(Trim(raw)).0, Classify(Trim(raw)).1,
                   if r.Fail? then Some(r.error) else None)
    {
    }

    /** What one `next()` from `p0` leaves in the output: after a directive
        processed, the output `OutputAfter` gives, by the verdict the deque
        gives it; otherwise only echoed input. It reports no directive left
        exactly when no `END` follows. */
    lemma NextOutput(p0: nat, out0: string, t0: seq<Entry>, r: Outcome<bool>, d: Directive)
      requires NextOutcome(p0, out0, t0, r)
      requires r == Done(true) ==> Taken(p0, END, false).Some? && d == DirectiveRead(p0)
      ensures r == Done(true) ==>
        Step(t0, d).Some? && output == OutputAfter(input, classify, p0, Step(t0, d).value.enabled, out0)
      ensures r != Done(true) ==> p0 <= pos <= |input| && output == out0 + input[p0..pos]
      ensures r == Done(false) <==> MatchEnd(input, p0, END).None?
    {
      if Taken(p0, END, false).None? {
        assert input[p0..pos] == input[p0..];
        return;
      }
      var raw := Taken(p0, END, false).value;
      var k := ReadEnd(input, p0, END);
      assert MatchEnd(input, p0, END) == Some(k) && raw == input[p0..k - |END|];
      var out1 := out0 + input[p0..k];
      if Contains(raw, START) || IsBlank(raw) {
        return;
      }
      var err := if r.Fail? then Some(r.error) else None;
      var expr, kind := Classify(Trim(raw)).0, Classify(Trim(raw)).1;
      NextDispatched(p0, out0, t0, r);
      DispatchedOutput(k, out1, t0, expr, kind, err);
      if err.Some? {
        EchoJoin(out0, input, p0, k, pos);
      } else {
        assert d == DirectiveOf(checker, expr, kind);
        OutputAfterAt(input, classify, p0, k, raw, Step(t0, d).value.enabled, out0);
      }
    }

    // `run()`: skips to the first `/*?`, then processes directives until
    // none is left or one is rejected.
    // `ds` are the deque directives of the directives accepted, in order:
    // those `Directives` finds after the first `START`; `flags` says whether
    // each one's body was enabled.
    method Run() returns (err: Option<Error>, ghost ds: seq<Directive>, ghost flags: seq<bool>)
      requires Valid()
      modifies this`pos, this`output, this`tokens
      ensures Valid()
      ensures err.None? ==> pos == |input|
      ensures err.Some? ==> err.value.line == Line()
      ensures ds == Directives(input, checker, classify, ReadEnd(input, old(pos), START), old(tokens))
      ensures Replay(old(tokens), ds) == Some(Trace(flags, tokens))
      ensures !Contains(input[old(pos)..], START) ==>
        err.None? && output == old(output) + input[old(pos)..] && tokens == old(tokens) && ds == []
      ensures var q := ReadEnd(input, old(pos), START);
        var rn := Render(input, checker, classify, q, old(tokens), old(output) + input[old(pos)..q]);
        rn.stop <= pos && output == rn.output + input[rn.stop..pos] &&
        (err.None? <==> MatchEnd(input, rn.stop, END).None?)
    {
      ghost var p0, t1 := pos, tokens;
      ds, flags := [], [];
      MatchEndNoneIffAbsent(input, pos, START);
      var first := Read(START, false);
      ghost var q0, out1 := pos, output;
      if first.None? {
        assert pos == |input| && input[p0..pos] == input[p0..];
        RunEmpty(q0, t1, out1);
        return None, ds, flags;
      }
      assert Contains(input[p0..], START);
      while true
        invariant Valid()
        invariant ds + Directives(input, checker, classify, pos, tokens) == Directives(input, checker, classify, q0, t1)
        invariant Replay(t1, ds) == Some(Trace(flags, tokens))
        invariant Render(input, checker, classify, pos, tokens, output) == Render(input, checker, classify, q0, t1, out1)
        decreases |input| - pos
      {
        ghost var p, out, last := pos, output, tokens;
        var more, d := Next();
        NextReadsFirst(p, out, last, more, d);
        NextOutput(p, out, last, more, d);
        if more.Fail? {
          assert ds + [] == ds;
          RenderStop(input, checker, classify, p, last, out);
          return Some(more.error), ds, flags;
        }
        if !more.value {
          assert ds + [] == ds;
          RenderStop(input, checker, classify, p, last, out);
          return None, ds, flags;
        }
        RenderStep(input, checker, classify, p, last, out, d, pos, tokens);
        ds, flags := RunStep(input, checker, classify, q0, t1, p, last, ds, flags, d, pos, tokens);
      }
    }

    // With no `START` left, nothing is rendered past the end of the input.
    lemma RunEmpty(q: nat, t: seq<Entry>, out: string)
      requires q == |input|
      ensures Render(input, checker, classify, q, t, out) == Rendering(q, out)
      ensures out == out + input[q..q] && MatchEnd(input, q, END).None?
    {
      NoFirstDirective(input, checker, classify, q, t);
      RenderStop(input, checker, classify, q, t, out);
      assert input[q..q] == [];
    }
  }

  /** `CommentProcessor.process(input, checker)`: runs a fresh processor over
      `input` and returns its output, or the syntax error that stopped it. */
  // `ds` and `flags` as for `run()`, from an empty deque.
  method Process(input: string, checker: string -> bool, classify: string -> (string, ExpressionType))
    returns (r: Outcome<string>, ghost ds: seq<Directive>, ghost flags: seq<bool>)
    ensures r.Done? ==> CountChar(r.value, '\n') == CountChar(input, '\n')
    ensures r.Fail? ==> 1 <= r.error.line <= CountChar(input, '\n') + 1
    ensures ds == Directives(input, checker, classify, ReadEnd(input, 0, START), [])
    ensures Replay([], ds).Some? && Replay([], ds).value.flags == flags
    ensures !Contains(input, START) ==> r == Done(input) && ds == []
    ensures var q := ReadEnd(input, 0, START);
      var rn := Render(input, checker, classify, q, [], input[..q]);
      (r.Done? <==> MatchEnd(input, rn.stop, END).None?) && (r.Done? ==> r.value == rn.output + input[rn.stop..])
  {
    var processor := new CommentProcessor(input, [], checker, classify);
    assert input[0..] == input;
    ghost var q := ReadEnd(input, 0, START);
    assert [] + input[0..q] == input[..q];
    var err;
    err, ds, flags := processor.Run();
    if err.Some? {
      CountPrefix(input, processor.pos, '\n');
      return Fail(err.value), ds, flags;
    }
    assert input[..|input|] == input;
    if !Contains(input, START) {
      assert processor.output == [] + input;
      assert [] + input == input;
    }
    return Done(processor.output), ds, flags;
  }
}
