/** The second-stage scanner. Tokens that are not comments, and comments
    that are not directives, pass through; a comment whose text starts with
    `?` (a condition) or `$` (a swap) yields a one-character marker token
    and then the tokens found by re-scanning the rest of its text with an
    ordered list of recognizers. Characters no recognizer claims collect in
    a buffer that is flushed as a trimmed EXPRESSION token.

    A token records where its text starts in the original input, so every
    token produced can be checked to be a sub-range of the token it came
    from. */
module Lexer {
  import opened Text

  /** The token kinds the scanner tests or produces; `Other` stands for the
      kinds the recognizers report and for non-comment input tokens. */
  datatype TokenType = Comment | Condition | Swap | Expression | Other(name: string)

  datatype Token = Token(kind: TokenType, start: nat, value: string) {
    /** One past the position of the last character. */
    function End(): nat {
      start + |value|
    }
  }

  /** A recognizer with the kind of token it produces: given the comment text
      and a position, the end of the run it claims there, or `None`. */
  datatype Checker = Checker(kind: TokenType, recognize: (string, nat) -> Option<nat>)

  /** What every recognizer is relied on to do: a match consumes at least one
      character and does not run past the text. */
  ghost predicate Sound(checkers: seq<Checker>) {
    forall j, v: string, i: nat | 0 <= j < |checkers| && i < |v| && checkers[j].recognize(v, i).Some? ::
      i < checkers[j].recognize(v, i).value <= |v|
  }

  /** `u` is a piece of `t`: its range lies inside `t`'s and its text is
      `t`'s text over that range. */
  ghost predicate Within(u: Token, t: Token) {
    t.start <= u.start && u.End() <= t.End() && u.value == t.value[u.start - t.start..u.End() - t.start]
  }

  /** Tokens in increasing position order, none overlapping the next. */
  ghost predicate Ordered(ts: seq<Token>) {
    forall i, j | 0 <= i < j < |ts| :: ts[i].End() <= ts[j].start
  }

  /** `token.subtoken(lo..<hi, kind)`. */
  function Subtoken(t: Token, lo: nat, hi: nat, kind: TokenType): (u: Token)
    requires lo <= hi <= |t.value|
    ensures Within(u, t) && u.kind == kind
    ensures u.start == t.start + lo && u.End() == t.start + hi
  {
    Token(kind, t.start + lo, t.value[lo..hi])
  }

  // ---------------------------------------------------------------------
  // Scanning a directive's contents

  /** The first recognizer, in list order, that matches at position `i`. */
  function FirstMatch(checkers: seq<Checker>, v: string, i: nat): (r: Option<nat>)
    ensures r.Some? ==> r.value < |checkers| && checkers[r.value].recognize(v, i).Some?
    ensures forall j | 0 <= j < |checkers| && (r.None? || j < r.value) :: checkers[j].recognize(v, i).None?
  {
    FirstMatchFrom(checkers, v, i, 0)
  }

  function FirstMatchFrom(checkers: seq<Checker>, v: string, i: nat, from: nat): (r: Option<nat>)
    requires from <= |checkers|
    ensures r.Some? ==> from <= r.value < |checkers| && checkers[r.value].recognize(v, i).Some?
    ensures forall j | from <= j < |checkers| && (r.None? || j < r.value) :: checkers[j].recognize(v, i).None?
    decreases |checkers| - from
  {
    if from == |checkers| then None
    else if checkers[from].recognize(v, i).Some? then Some(from)
    else FirstMatchFrom(checkers, v, i, from + 1)
  }

  /** The local `expressionToken()` flush: the buffered run
      `t.value[bufStart..index]` as an EXPRESSION token without its leading
      and trailing whitespace; nothing when the buffer is blank. */
  function ExpressionToken(t: Token, bufStart: nat, index: nat): (r: seq<Token>)
    requires bufStart <= index <= |t.value|
    ensures IsBlank(t.value[bufStart..index]) <==> r == []
    ensures r != [] ==>
      |r| == 1 && Within(r[0], t) && r[0].kind == Expression &&
      t.start + bufStart <= r[0].start < r[0].End() <= t.start + index
  {
    var buffer := t.value[bufStart..index];
    if IsBlank(buffer) then []
    else
      SpacesLeaveMiddle(buffer);
      [Subtoken(t, bufStart + LeadingSpaces(buffer), index - TrailingSpaces(buffer), Expression)]
  }

  /** The flushed token is the buffered run with its whitespace margins cut
      off: it spans `lo..hi`, starts and ends on non-whitespace, and every
      buffered character outside it is whitespace. */
  lemma FlushTrimmed(t: Token, index: nat, bufStart: nat) returns (lo: nat, hi: nat)
    requires bufStart <= index <= |t.value| && !IsBlank(t.value[bufStart..index])
    ensures bufStart <= lo < hi <= index && !IsWhitespace(t.value[lo]) && !IsWhitespace(t.value[hi - 1])
    ensures ExpressionToken(t, bufStart, index) == [Subtoken(t, lo, hi, Expression)]
    ensures forall p {:trigger IsWhitespace(t.value[p])} | bufStart <= p < index && !(lo <= p < hi) :: IsWhitespace(t.value[p])
  {
    lo, hi := FlushIsSubtoken(t, index, bufStart);
    var lo', hi' := TrimmedRange(t.value, bufStart, index);
  }

  lemma FlushIsSubtoken(t: Token, index: nat, bufStart: nat) returns (lo: nat, hi: nat)
    requires bufStart <= index <= |t.value| && !IsBlank(t.value[bufStart..index])
    ensures lo == bufStart + LeadingSpaces(t.value[bufStart..index])
    ensures hi == index - TrailingSpaces(t.value[bufStart..index])
    ensures lo <= hi <= |t.value| && ExpressionToken(t, bufStart, index) == [Subtoken(t, lo, hi, Expression)]
  {
    var buffer := t.value[bufStart..index];
    lo, hi := bufStart + LeadingSpaces(buffer), index - TrailingSpaces(buffer);
  }

  /** In the text, the buffer's whitespace margins are whitespace and the
      range between them starts and ends on non-whitespace. */
  lemma TrimmedRange(v: string, bufStart: nat, index: nat) returns (lo: nat, hi: nat)
    requires bufStart <= index <= |v| && !IsBlank(v[bufStart..index])
    ensures lo == bufStart + LeadingSpaces(v[bufStart..index]) && hi == index - TrailingSpaces(v[bufStart..index])
    ensures lo < hi && !IsWhitespace(v[lo]) && !IsWhitespace(v[hi - 1])
    ensures forall p {:trigger IsWhitespace(v[p])} | bufStart <= p < index && !(lo <= p < hi) :: IsWhitespace(v[p])
  {
    var buffer := v[bufStart..index];
    lo, hi := bufStart + LeadingSpaces(buffer), index - TrailingSpaces(buffer);
    Margins(buffer);
    SliceAt(v, bufStart, index);
  }

  /** The whitespace margins of a string that is not blank. */
  lemma Margins(s: string)
    requires !IsBlank(s)
    ensures var lo, hi := LeadingSpaces(s), |s| - TrailingSpaces(s);
      lo < hi && !IsWhitespace(s[lo]) && !IsWhitespace(s[hi - 1]) &&
      forall k {:trigger IsWhitespace(s[k])} | 0 <= k < |s| && !(lo <= k < hi) :: IsWhitespace(s[k])
  {
    SpacesLeaveMiddle(s);
  }

  /** A slice holds the text's characters, shifted to start at zero. */
  lemma SliceAt(v: string, a: nat, b: nat)
    requires a <= b <= |v|
    ensures forall p | a <= p < b :: v[a..b][p - a] == v[p]
  {
  }

  /** Joining two ordered runs, the first ending no later than `p` and the
      second starting no earlier, gives an ordered run. */
  lemma OrderedJoin(a: seq<Token>, b: seq<Token>, p: nat)
    requires Ordered(a) && Ordered(b)
    requires forall k | 0 <= k < |a| :: a[k].End() <= p
    requires forall k | 0 <= k < |b| :: p <= b[k].start
    ensures Ordered(a + b)
  {
    forall i, j | 0 <= i < j < |a + b| ensures (a + b)[i].End() <= (a + b)[j].start {
      if j < |a| {
        assert (a + b)[i] == a[i] && (a + b)[j] == a[j];
      } else if i >= |a| {
        assert (a + b)[i] == b[i - |a|] && (a + b)[j] == b[j - |a|];
      } else {
        assert (a + b)[i] == a[i] && (a + b)[j] == b[j - |a|];
      }
    }
  }

  /** The tokens `scanContents` produces from position `index` on, with the
      buffer holding `t.value[bufStart..index]`. */
  function Scan(t: Token, checkers: seq<Checker>, index: nat, bufStart: nat): seq<Token>
    requires Sound(checkers)
    requires bufStart <= index <= |t.value|
    decreases |t.value| - index
  {
    if index == |t.value| then ExpressionToken(t, bufStart, index)
    else
      match FirstMatch(checkers, t.value, index)
      case None => Scan(t, checkers, index + 1, bufStart)
      case Some(j) =>
        var end := checkers[j].recognize(t.value, index).value;
        ExpressionToken(t, bufStart, index) + [Subtoken(t, index, end, checkers[j].kind)] + Scan(t, checkers, end, end)
  }

  /** Non-empty pieces of `t`, in order, lying between positions `lo` and
      `hi`. */
  ghost predicate Pieces(ts: seq<Token>, t: Token, lo: nat, hi: nat) {
    (forall k | 0 <= k < |ts| :: Within(ts[k], t) && lo <= ts[k].start < ts[k].End() <= hi) &&
    Ordered(ts)
  }

  lemma PiecesJoin(a: seq<Token>, b: seq<Token>, t: Token, lo: nat, mid: nat, hi: nat)
    requires lo <= mid <= hi && Pieces(a, t, lo, mid) && Pieces(b, t, mid, hi)
    ensures Pieces(a + b, t, lo, hi)
  {
    OrderedJoin(a, b, mid);
    forall k | 0 <= k < |a + b|
      ensures Within((a + b)[k], t) && lo <= (a + b)[k].start < (a + b)[k].End() <= hi
    {
      if k < |a| {
        assert (a + b)[k] == a[k];
      } else {
        assert (a + b)[k] == b[k - |a|];
      }
    }
  }

  /** A piece `u` between two runs of pieces joins them. */
  lemma PiecesAround(a: seq<Token>, u: Token, b: seq<Token>, t: Token, lo: nat, mid: nat, mid2: nat, hi: nat)
    requires lo <= mid && mid2 <= hi && Pieces(a, t, lo, mid) && Pieces(b, t, mid2, hi)
    requires Within(u, t) && mid <= u.start < u.End() <= mid2
    ensures Pieces(a + [u] + b, t, lo, hi)
  {
    assert Pieces([u], t, mid, mid2);
    PiecesJoin([u], b, t, mid, mid2, hi);
    PiecesJoin(a, [u] + b, t, lo, mid, hi);
    assert a + [u] + b == a + ([u] + b);
  }

  /** The flush is a piece of the buffered range. */
  lemma FlushPieces(t: Token, index: nat, bufStart: nat)
    requires bufStart <= index <= |t.value|
    ensures Pieces(ExpressionToken(t, bufStart, index), t, t.start + bufStart, t.start + index)
  {
  }

  /** A recognized run between the flush and the rest of the scan keeps
      the pieces in order. */
  lemma MatchPieces(t: Token, checkers: seq<Checker>, index: nat, bufStart: nat, j: nat)
    requires Sound(checkers) && bufStart <= index < |t.value|
    requires FirstMatch(checkers, t.value, index) == Some(j)
    requires var end := checkers[j].recognize(t.value, index).value;
      Pieces(Scan(t, checkers, end, end), t, t.start + end, t.End())
    ensures Pieces(Scan(t, checkers, index, bufStart), t, t.start + bufStart, t.End())
  {
    ScanMatchStep(t, checkers, index, bufStart, j);
    var end := checkers[j].recognize(t.value, index).value;
    FlushPieces(t, index, bufStart);
    PiecesAround(ExpressionToken(t, bufStart, index), Subtoken(t, index, end, checkers[j].kind),
      Scan(t, checkers, end, end), t, t.start + bufStart, t.start + index, t.start + end, t.End());
  }

  /** The scan's tokens are non-empty pieces of the comment, at or after the
      buffer's start, in increasing order without overlap. */
  lemma {:induction false} ScanWithin(t: Token, checkers: seq<Checker>, index: nat, bufStart: nat)
    requires Sound(checkers) && bufStart <= index <= |t.value|
    ensures Pieces(Scan(t, checkers, index, bufStart), t, t.start + bufStart, t.End())
    decreases |t.value| - index
  {
    if index == |t.value| {
      FlushPieces(t, index, bufStart);
    } else {
      match FirstMatch(checkers, t.value, index)
      case None =>
        ScanSkipStep(t, checkers, index, bufStart);
        ScanWithin(t, checkers, index + 1, bufStart);
      case Some(j) =>
        ScanWithin(t, checkers, checkers[j].recognize(t.value, index).value, checkers[j].recognize(t.value, index).value);
        MatchPieces(t, checkers, index, bufStart, j);
    }
  }

  /** A token made by the first recognizer that matches at its start, ending
      where that recognizer says. */
  ghost predicate Recognized(u: Token, t: Token, checkers: seq<Checker>) {
    t.start <= u.start < t.End() &&
    var p := u.start - t.start;
    var first := FirstMatch(checkers, t.value, p);
    first.Some? && u.kind == checkers[first.value].kind &&
    u.End() == t.start + checkers[first.value].recognize(t.value, p).value
  }

  /** An EXPRESSION token: it starts and ends on a non-whitespace character,
      and no recognizer matched at any position it covers. */
  ghost predicate Unmatched(u: Token, t: Token, checkers: seq<Checker>) {
    u.kind == Expression && t.start <= u.start < u.End() <= t.End() &&
    !IsWhitespace(t.value[u.start - t.start]) && !IsWhitespace(t.value[u.End() - t.start - 1]) &&
    forall p: nat | u.start <= t.start + p < u.End() :: FirstMatch(checkers, t.value, p).None?
  }

  /** Every token is either a recognizer's match or an unclaimed expression. */
  ghost predicate Classified(ts: seq<Token>, t: Token, checkers: seq<Checker>) {
    forall k | 0 <= k < |ts| :: Recognized(ts[k], t, checkers) || Unmatched(ts[k], t, checkers)
  }

  lemma ClassifiedJoin(a: seq<Token>, b: seq<Token>, t: Token, checkers: seq<Checker>)
    requires Classified(a, t, checkers) && Classified(b, t, checkers)
    ensures Classified(a + b, t, checkers)
  {
    forall k | 0 <= k < |a + b|
      ensures Recognized((a + b)[k], t, checkers) || Unmatched((a + b)[k], t, checkers)
    {
      if k < |a| {
        assert (a + b)[k] == a[k];
      } else {
        assert (a + b)[k] == b[k - |a|];
      }
    }
  }

  /** A flushed buffer over positions where nothing matched is unclaimed. */
  lemma FlushClassified(t: Token, checkers: seq<Checker>, index: nat, bufStart: nat)
    requires bufStart <= index <= |t.value|
    requires forall p | bufStart <= p < index :: FirstMatch(checkers, t.value, p).None?
    ensures Classified(ExpressionToken(t, bufStart, index), t, checkers)
  {
    if !IsBlank(t.value[bufStart..index]) {
      var lo, hi := FlushTrimmed(t, index, bufStart);
      TrimmedUnmatched(t, checkers, bufStart, lo, hi, index);
    }
  }

  /** The trimmed run of a buffer over positions where nothing matched. */
  lemma TrimmedUnmatched(t: Token, checkers: seq<Checker>, bufStart: nat, lo: nat, hi: nat, index: nat)
    requires bufStart <= lo < hi <= index <= |t.value|
    requires !IsWhitespace(t.value[lo]) && !IsWhitespace(t.value[hi - 1])
    requires forall p | bufStart <= p < index :: FirstMatch(checkers, t.value, p).None?
    ensures Unmatched(Subtoken(t, lo, hi, Expression), t, checkers)
  {
    var u := Subtoken(t, lo, hi, Expression);
    assert u.start - t.start == lo && u.End() - t.start == hi;
  }

  /** Every token `scanContents` emits is either a recognizer's match at
      its start (the first recognizer in list order, covering exactly the
      run it reports) or an EXPRESSION token over characters no recognizer
      claimed, starting and ending on non-whitespace. */
  lemma {:induction false} ScanKinds(t: Token, checkers: seq<Checker>, index: nat, bufStart: nat)
    requires Sound(checkers) && bufStart <= index <= |t.value|
    requires forall p | bufStart <= p < index :: FirstMatch(checkers, t.value, p).None?
    ensures Classified(Scan(t, checkers, index, bufStart), t, checkers)
    decreases |t.value| - index
  {
    if index == |t.value| {
      FlushClassified(t, checkers, index, bufStart);
    } else {
      match FirstMatch(checkers, t.value, index)
      case None =>
        ScanSkipStep(t, checkers, index, bufStart);
        ScanKinds(t, checkers, index + 1, bufStart);
      case Some(j) =>
        var end := checkers[j].recognize(t.value, index).value;
        ScanKinds(t, checkers, end, end);
        MatchClassified(t, checkers, index, bufStart, j);
    }
  }

  /** A recognized run: the flush, the run's own token and a classified rest
      make a classified scan. */
  lemma MatchClassified(t: Token, checkers: seq<Checker>, index: nat, bufStart: nat, j: nat)
    requires Sound(checkers) && bufStart <= index < |t.value|
    requires forall p | bufStart <= p < index :: FirstMatch(checkers, t.value, p).None?
    requires FirstMatch(checkers, t.value, index) == Some(j)
    requires var end := checkers[j].recognize(t.value, index).value;
      end <= |t.value| && Classified(Scan(t, checkers, end, end), t, checkers)
    ensures Classified(Scan(t, checkers, index, bufStart), t, checkers)
  {
    ScanMatchStep(t, checkers, index, bufStart, j);
    FlushClassified(t, checkers, index, bufStart);
    var end := checkers[j].recognize(t.value, index).value;
    var matched := Subtoken(t, index, end, checkers[j].kind);
    assert Recognized(matched, t, checkers);
    assert Classified([matched], t, checkers);
    ClassifiedJoin(ExpressionToken(t, bufStart, index), [matched], t, checkers);
    ClassifiedJoin(ExpressionToken(t, bufStart, index) + [matched], Scan(t, checkers, end, end), t, checkers);
  }

  /** Some token covers input position `q`. */
  ghost predicate Covered(ts: seq<Token>, q: nat) {
    exists k | 0 <= k < |ts| :: ts[k].start <= q < ts[k].End()
  }

  /** Every non-whitespace character of the comment between positions `lo`
      and `hi` lies inside some token of `ts`. */
  ghost predicate CoversRange(ts: seq<Token>, t: Token, lo: nat, hi: nat) {
    forall p | lo <= p < hi <= |t.value| && !IsWhitespace(t.value[p]) :: Covered(ts, t.start + p)
  }

  lemma CoveredJoin(a: seq<Token>, b: seq<Token>, q: nat)
    requires Covered(a, q) || Covered(b, q)
    ensures Covered(a + b, q)
  {
    if Covered(a, q) {
      var k :| 0 <= k < |a| && a[k].start <= q < a[k].End();
      assert (a + b)[k] == a[k];
    } else {
      var k :| 0 <= k < |b| && b[k].start <= q < b[k].End();
      assert (a + b)[|a| + k] == b[k];
    }
  }

  lemma CoversJoin(a: seq<Token>, b: seq<Token>, t: Token, lo: nat, mid: nat, hi: nat)
    requires lo <= mid <= hi && CoversRange(a, t, lo, mid) && CoversRange(b, t, mid, hi)
    ensures CoversRange(a + b, t, lo, hi)
  {
    forall p | lo <= p < hi <= |t.value| && !IsWhitespace(t.value[p])
      ensures Covered(a + b, t.start + p)
    {
      CoveredJoin(a, b, t.start + p);
    }
  }

  /** The flush keeps every non-whitespace character of the buffer. */
  lemma FlushCovers(t: Token, index: nat, bufStart: nat)
    requires bufStart <= index <= |t.value|
    ensures CoversRange(ExpressionToken(t, bufStart, index), t, bufStart, index)
  {
    forall p | bufStart <= p < index <= |t.value| && !IsWhitespace(t.value[p])
      ensures Covered(ExpressionToken(t, bufStart, index), t.start + p)
    {
      var buffer := t.value[bufStart..index];
      assert buffer[p - bufStart] == t.value[p];
      var lo, hi := FlushTrimmed(t, index, bufStart);
      assert lo <= p < hi;
    }
  }

  /** Nothing is lost: every non-whitespace character from the buffer's
      start on lies inside some token. */
  lemma {:induction false} ScanCovers(t: Token, checkers: seq<Checker>, index: nat, bufStart: nat)
    requires Sound(checkers) && bufStart <= index <= |t.value|
    ensures CoversRange(Scan(t, checkers, index, bufStart), t, bufStart, |t.value|)
    decreases |t.value| - index
  {
    if index == |t.value| {
      FlushCovers(t, index, bufStart);
    } else {
      match FirstMatch(checkers, t.value, index)
      case None =>
        ScanSkipStep(t, checkers, index, bufStart);
        ScanCovers(t, checkers, index + 1, bufStart);
      case Some(j) =>
        var end := checkers[j].recognize(t.value, index).value;
        ScanCovers(t, checkers, end, end);
        MatchCovers(t, checkers, index, bufStart, j);
    }
  }

  /** A recognized run: the flush covers the buffer, the run's own token
      covers the run, and the rest covers what follows. */
  lemma MatchCovers(t: Token, checkers: seq<Checker>, index: nat, bufStart: nat, j: nat)
    requires Sound(checkers) && bufStart <= index < |t.value|
    requires FirstMatch(checkers, t.value, index) == Some(j)
    requires var end := checkers[j].recognize(t.value, index).value;
      end <= |t.value| && CoversRange(Scan(t, checkers, end, end), t, end, |t.value|)
    ensures CoversRange(Scan(t, checkers, index, bufStart), t, bufStart, |t.value|)
  {
    ScanMatchStep(t, checkers, index, bufStart, j);
    var end := checkers[j].recognize(t.value, index).value;
    var flushed := ExpressionToken(t, bufStart, index);
    var matched := Subtoken(t, index, end, checkers[j].kind);
    FlushCovers(t, index, bufStart);
    RunCovers(matched, t, index, end);
    CoversJoin(flushed, [matched], t, bufStart, index, end);
    CoversJoin(flushed + [matched], Scan(t, checkers, end, end), t, bufStart, end, |t.value|);
  }

  /** A token covers its own range. */
  lemma RunCovers(u: Token, t: Token, lo: nat, hi: nat)
    requires u.start == t.start + lo && u.End() == t.start + hi
    ensures CoversRange([u], t, lo, hi)
  {
    forall p | lo <= p < hi <= |t.value| && !IsWhitespace(t.value[p])
      ensures Covered([u], t.start + p)
    {
      assert [u][0] == u;
    }
  }

  /** A recognized run: the flush of the buffer, the run's token, then the
      scan from the run's end with an empty buffer. */
  lemma ScanMatchStep(t: Token, checkers: seq<Checker>, index: nat, bufStart: nat, j: nat)
    requires Sound(checkers) && bufStart <= index < |t.value|
    requires FirstMatch(checkers, t.value, index) == Some(j)
    ensures var end := checkers[j].recognize(t.value, index).value;
      index < end <= |t.value| &&
      Scan(t, checkers, index, bufStart) ==
        ExpressionToken(t, bufStart, index) + [Subtoken(t, index, end, checkers[j].kind)] +
        Scan(t, checkers, end, end)
  {
  }

  /** An unrecognized character: the buffer grows by one. */
  lemma ScanSkipStep(t: Token, checkers: seq<Checker>, index: nat, bufStart: nat)
    requires Sound(checkers) && bufStart <= index < |t.value|
    requires FirstMatch(checkers, t.value, index).None?
    ensures Scan(t, checkers, index, bufStart) == Scan(t, checkers, index + 1, bufStart)
  {
  }

  /** A recognized run keeps the loop's invariant: what was emitted, then
      the flush, the run's token and the scan after the run, is the whole
      scan. */
  lemma MatchKeeps(t: Token, checkers: seq<Checker>, index: nat, bufStart: nat, j: nat, emitted: seq<Token>, next: seq<Token>, all: seq<Token>)
    requires Sound(checkers) && bufStart <= index < |t.value|
    requires FirstMatch(checkers, t.value, index) == Some(j)
    requires emitted + Scan(t, checkers, index, bufStart) == all
    requires var end := checkers[j].recognize(t.value, index).value;
      index < end <= |t.value| &&
      next == emitted + ExpressionToken(t, bufStart, index) + [Subtoken(t, index, end, checkers[j].kind)]
    ensures next + Scan(t, checkers, checkers[j].recognize(t.value, index).value, checkers[j].recognize(t.value, index).value) == all
  {
    ScanMatchStep(t, checkers, index, bufStart, j);
  }

  /** A recognizer's run stays inside the text and is not empty. */
  lemma RunEnd(checkers: seq<Checker>, v: string, index: nat, j: nat)
    requires Sound(checkers) && index < |v| && FirstMatch(checkers, v, index) == Some(j)
    ensures index < checkers[j].recognize(v, index).value <= |v|
  {
  }

  /** An unrecognized character keeps the loop's invariant: the buffer grows
      by that character and the scan goes on from the next position. */
  lemma SkipKeeps(t: Token, checkers: seq<Checker>, index: nat, bufStart: nat, emitted: seq<Token>, all: seq<Token>)
    requires Sound(checkers) && bufStart <= index < |t.value|
    requires FirstMatch(checkers, t.value, index).None?
    requires emitted + Scan(t, checkers, index, bufStart) == all
    ensures emitted + Scan(t, checkers, index + 1, bufStart) == all
  {
    ScanSkipStep(t, checkers, index, bufStart);
  }

  /** The `for` loop over the recognizers: the first one that matches at
      `index`, in list order. */
  method FindMatch(checkers: seq<Checker>, value: string, index: nat) returns (found: Option<nat>)
    ensures found == FirstMatch(checkers, value, index)
  {
    var i := 0;
    while i < |checkers|
      invariant 0 <= i <= |checkers|
      invariant forall j | 0 <= j < i :: checkers[j].recognize(value, index).None?
    {
      if checkers[i].recognize(value, index).Some? {
        return Some(i);
      }
      i := i + 1;
    }
    return None;
  }

  /** `scanContents(token, checkers)`. The character buffer always holds
      the text from `bufStart` up to `index`, so it is kept as that start
      position: appending a character is advancing `index`, clearing it is
      moving `bufStart` up to `index`. */
  method ScanContents(token: Token, checkers: seq<Checker>) returns (tokens: seq<Token>)
    requires Sound(checkers)
    ensures |token.value| == 0 ==> tokens == []
    ensures |token.value| >= 1 ==> tokens == Scan(token, checkers, 1, 1)
  {
    tokens := [];
    if |token.value| == 0 {
      return;
    }
    var index := 1;
    var bufStart: nat := 1;
    ghost var all := Scan(token, checkers, 1, 1);
    while index < |token.value|
      invariant 1 <= bufStart <= index <= |token.value|
      invariant tokens + Scan(token, checkers, index, bufStart) == all
      decreases |token.value| - index
    {
      var found := FindMatch(checkers, token.value, index);
      if found.Some? {
        var j := found.value;
        var end := checkers[j].recognize(token.value, index).value;
        RunEnd(checkers, token.value, index, j);
        var emitted := tokens + ExpressionToken(token, bufStart, index) +
          [Subtoken(token, index, end, checkers[j].kind)];
        MatchKeeps(token, checkers, index, bufStart, j, tokens, emitted, all);
        tokens, index, bufStart := emitted, end, end;
      } else {
        SkipKeeps(token, checkers, index, bufStart, tokens, all);
        index := index + 1;
      }
    }
    tokens := tokens + ExpressionToken(token, bufStart, index);
  }

  // ---------------------------------------------------------------------
  // Dispatching the input tokens

  /** A comment whose first character is `?` or `$`. */
  predicate IsDirective(t: Token) {
    t.kind == Comment && |t.value| > 0 && (t.value[0] == '?' || t.value[0] == '$')
  }

  /** `process(token)`: the tokens emitted for one input token. */
  function Process(t: Token, condition: seq<Checker>, swap: seq<Checker>): (r: seq<Token>)
    requires Sound(condition) && Sound(swap)
    ensures r == [t] <==> !IsDirective(t)
    ensures IsDirective(t) ==>
      r != [] && r[0].start == t.start && r[0].value == t.value[..1] &&
      r[0].kind == (if t.value[0] == '?' then Condition else Swap)
    ensures forall k | 0 <= k < |r| :: Within(r[k], t)
    ensures Ordered(r)
  {
    if !IsDirective(t) then [t]
    else
      var marker := if t.value[0] == '?' then Condition else Swap;
      var checkers := if t.value[0] == '?' then condition else swap;
      MarkedScan(t, checkers, marker);
      [Subtoken(t, 0, 1, marker)] + Scan(t, checkers, 1, 1)
  }

  /** The marker followed by the scan of the rest: pieces of the comment, in
      order, and never the comment itself. */
  lemma MarkedScan(t: Token, checkers: seq<Checker>, marker: TokenType)
    requires Sound(checkers) && |t.value| > 0 && marker != t.kind
    ensures var r := [Subtoken(t, 0, 1, marker)] + Scan(t, checkers, 1, 1);
      r != [t] && r[0] == Subtoken(t, 0, 1, marker) &&
      (forall k | 0 <= k < |r| :: Within(r[k], t)) && Ordered(r)
  {
    var head := Subtoken(t, 0, 1, marker);
    var contents := Scan(t, checkers, 1, 1);
    ScanWithin(t, checkers, 1, 1);
    assert Pieces([head], t, t.start, t.start + 1);
    PiecesJoin([head], contents, t, t.start, t.start + 1, t.End());
    assert ([head] + contents)[0] == head;
  }

  /** `tokenize()`: the tokens emitted for each input token, in input order. */
  function Tokenize(input: seq<Token>, condition: seq<Checker>, swap: seq<Checker>): (r: seq<Token>)
    requires Sound(condition) && Sound(swap)
    ensures (forall i | 0 <= i < |input| :: !IsDirective(input[i])) ==> r == input
  {
    if input == [] then []
    else
      assert input == [input[0]] + input[1..];
      Process(input[0], condition, swap) + Tokenize(input[1..], condition, swap)
  }

  /** `u` is a piece of one of the input tokens. */
  ghost predicate FromInput(u: Token, input: seq<Token>) {
    exists i | 0 <= i < |input| :: Within(u, input[i])
  }

  /** Every emitted token is a sub-range of some input token: no text is
      made up. */
  lemma {:induction false} TokenizeWithinInput(input: seq<Token>, condition: seq<Checker>, swap: seq<Checker>)
    requires Sound(condition) && Sound(swap)
    ensures forall k | 0 <= k < |Tokenize(input, condition, swap)| ::
      FromInput(Tokenize(input, condition, swap)[k], input)
  {
    if input != [] {
      var head := Process(input[0], condition, swap);
      var tail := Tokenize(input[1..], condition, swap);
      TokenizeWithinInput(input[1..], condition, swap);
      forall k | 0 <= k < |head + tail| ensures FromInput((head + tail)[k], input) {
        if k < |head| {
          assert (head + tail)[k] == head[k] && Within(head[k], input[0]);
        } else {
          assert (head + tail)[k] == tail[k - |head|];
          assert FromInput(tail[k - |head|], input[1..]);
          var i :| 0 <= i < |input[1..]| && Within(tail[k - |head|], input[1..][i]);
          assert input[1..][i] == input[i + 1];
        }
      }
    }
  }

  /** Tokens that arrive in order leave in order: each input token's pieces
      stay inside it, so ordered input gives ordered output. */
  lemma {:induction false} TokenizeKeepsOrder(input: seq<Token>, condition: seq<Checker>, swap: seq<Checker>)
    requires Sound(condition) && Sound(swap)
    requires Ordered(input)
    ensures Ordered(Tokenize(input, condition, swap))
  {
    if input != [] {
      var head := Process(input[0], condition, swap);
      var tail := Tokenize(input[1..], condition, swap);
      assert Ordered(input[1..]) by {
        forall i, j | 0 <= i < j < |input[1..]| ensures input[1..][i].End() <= input[1..][j].start {
          assert input[1..][i] == input[i + 1] && input[1..][j] == input[j + 1];
        }
      }
      TokenizeKeepsOrder(input[1..], condition, swap);
      TokenizeWithinInput(input[1..], condition, swap);
      forall k | 0 <= k < |tail| ensures input[0].End() <= tail[k].start {
        assert FromInput(tail[k], input[1..]);
        var i :| 0 <= i < |input[1..]| && Within(tail[k], input[1..][i]);
        assert input[1..][i] == input[i + 1];
      }
      OrderedJoin(head, tail, input[0].End());
    }
  }
}
