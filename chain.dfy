/** The deque of `Entry` values that `CommentProcessor` keeps for its
    IF / ELIF / ELSE chains, and the rule by which each directive reads and
    extends it. `Step` is the rule for one directive; the processor's
    methods are specified through it, and the lemmas below follow a whole
    chain through it. */
module Chain {
  import opened Text

  /** How a directive was classified: a single-line IF, a block opener,
      an ELSE/ELIF extension, or a block closer. */
  datatype ExpressionType = Single | Opener | Extension | Closer

  /** One deque entry: the kind of directive that pushed it and the
      boolean it recorded. */
  datatype Entry = Entry(kind: ExpressionType, result: bool)

  /** A directive as the deque sees it, with its guard already evaluated. */
  datatype Directive = If(kind: ExpressionType, guard: bool) | Elif(guard: bool) | Else | Close

  /** What one directive does: whether the body that follows it is enabled,
      and the deque afterwards. A closer has no body; it reports `false`. */
  datatype Effect = Effect(enabled: bool, entries: seq<Entry>)

  function Last(entries: seq<Entry>): Entry
    requires entries != []
  {
    entries[|entries| - 1]
  }

  /** The last entry belongs to an open chain (`last == OPENER || last == EXTENSION`). */
  predicate Open(entries: seq<Entry>) {
    entries != [] && (Last(entries).kind == Opener || Last(entries).kind == Extension)
  }

  /** The effect of one directive on the deque, or `None` when the deque
      rejects it: an IF inside an open chain ("can't be nested"), an ELIF or
      ELSE outside one ("must follow a condition"), a closer outside one
      ("closer without context"). */
  function Step(entries: seq<Entry>, d: Directive): (r: Option<Effect>)
    // the deque only ever grows at its end, by at most one entry
    ensures r.Some? ==> entries <= r.value.entries && |r.value.entries| <= |entries| + 1
    // IF is accepted exactly outside an open chain, the others exactly inside one
    ensures r.Some? <==> (d.If? != Open(entries))
    // an ELSE or ELIF body is enabled only if the last recorded result is false
    ensures r.Some? && (d.Elif? || d.Else?) && r.value.enabled ==> !Last(entries).result
    // an IF body is enabled exactly when its guard holds
    ensures r.Some? && d.If? ==> r.value.enabled == d.guard
  {
    match d
    case If(kind, guard) =>
      if Open(entries) then None else Some(Effect(guard, entries + [Entry(kind, guard)]))
    case Elif(guard) =>
      if !Open(entries) then None
      else if Last(entries).result then Some(Effect(false, entries))
      else Some(Effect(guard, entries + [Entry(Extension, guard)]))
    case Else =>
      if !Open(entries) then None
      else
        var enabled := !Last(entries).result;
        Some(Effect(enabled, entries + [Entry(Extension, enabled)]))
    case Close =>
      if !Open(entries) then None else Some(Effect(false, entries + [Entry(Closer, false)]))
  }

  /** The enabled flag of every body in a run of directives, and the final deque. */
  datatype Trace = Trace(flags: seq<bool>, entries: seq<Entry>)

  function Replay(entries: seq<Entry>, ds: seq<Directive>): (r: Option<Trace>)
    ensures r.Some? ==> |r.value.flags| == |ds|
    decreases |ds|
  {
    if ds == [] then Some(Trace([], entries))
    else match Step(entries, ds[0])
      case None => None
      case Some(e) =>
        match Replay(e.entries, ds[1..])
        case None => None
        case Some(t) => Some(Trace([e.enabled] + t.flags, t.entries))
  }

  /** Continues a replay that produced `first` with the directives `b`. */
  function Continue(first: Option<Trace>, b: seq<Directive>): Option<Trace> {
    match first
    case None => None
    case Some(t) =>
      match Replay(t.entries, b)
      case None => None
      case Some(u) => Some(Trace(t.flags + u.flags, u.entries))
  }

  /** Replaying two runs one after the other is replaying their concatenation. */
  lemma {:induction false} ReplayAppend(entries: seq<Entry>, a: seq<Directive>, b: seq<Directive>)
    ensures Replay(entries, a + b) == Continue(Replay(entries, a), b)
    decreases |a|
  {
    if a == [] {
      assert a + b == b;
      assert Replay(entries, a) == Some(Trace([], entries));
      match Replay(entries, b)
      case None =>
      case Some(u) => assert [] + u.flags == u.flags;
    } else {
      var ab := a + b;
      assert ab != [] && ab[0] == a[0];
      assert ab[1..] == a[1..] + b;
      var step := Step(entries, a[0]);
      if step.Some? {
        var e := step.value;
        ReplayAppend(e.entries, a[1..], b);
        var rest := Replay(e.entries, a[1..]);
        if rest.Some? {
          var t := rest.value;
          var tail := Replay(t.entries, b);
          if tail.Some? {
            var u := tail.value;
            assert [e.enabled] + (t.flags + u.flags) == ([e.enabled] + t.flags) + u.flags;
          }
        }
      }
    }
  }

  /** One more accepted directive extends a replay by its effect. */
  lemma ReplaySnoc(entries: seq<Entry>, ds: seq<Directive>, flags: seq<bool>, last: seq<Entry>, d: Directive)
    requires Replay(entries, ds) == Some(Trace(flags, last)) && Step(last, d).Some?
    ensures Replay(entries, ds + [d]) ==
      Some(Trace(flags + [Step(last, d).value.enabled], Step(last, d).value.entries))
  {
    ReplayAppend(entries, ds, [d]);
    var e := Step(last, d).value;
    assert [d][0] == d && [d][1..] == [];
    assert Replay(e.entries, []) == Some(Trace([], e.entries));
    assert Replay(last, [d]) == Some(Trace([e.enabled] + [], e.entries));
    assert [e.enabled] + [] == [e.enabled];
  }

  /** An ELIF for every guard, in order. */
  function Elifs(guards: seq<bool>): (ds: seq<Directive>)
    ensures |ds| == |guards|
    ensures forall i | 0 <= i < |guards| :: ds[i] == Elif(guards[i])
  {
    if guards == [] then [] else [Elif(guards[0])] + Elifs(guards[1..])
  }

  /** The chain `IF g0 / ELIF g1 / ... / ELIF gn` with an optional final ELSE. */
  function ChainOf(guards: seq<bool>, withElse: bool): seq<Directive>
    requires guards != []
  {
    [If(Opener, guards[0])] + Elifs(guards[1..]) + (if withElse then [Else] else [])
  }

  /** Inside an open chain whose last result records whether an earlier branch
      was taken (`taken`), a run of ELIFs enables exactly the first ELIF whose
      guard holds, and only when no earlier branch was taken. */
  lemma {:induction false} ElifRun(entries: seq<Entry>, taken: bool, guards: seq<bool>)
    requires Open(entries) && Last(entries).result == taken
    ensures Replay(entries, Elifs(guards)).Some?
    ensures var t := Replay(entries, Elifs(guards)).value;
      Open(t.entries) && Last(t.entries).result == (taken || true in guards) &&
      forall i | 0 <= i < |guards| :: t.flags[i] == (!taken && guards[i] && true !in guards[..i])
    decreases |guards|
  {
    if guards != [] {
      var ds := Elifs(guards);
      assert ds[0] == Elif(guards[0]);
      assert ds[1..] == Elifs(guards[1..]);
      var e := Step(entries, Elif(guards[0])).value;
      assert Open(e.entries) && Last(e.entries).result == (taken || guards[0]);
      ElifRun(e.entries, taken || guards[0], guards[1..]);
      var t := Replay(e.entries, Elifs(guards[1..])).value;
      assert Replay(entries, ds).value.flags == [!taken && guards[0]] + t.flags;
      FirstTrueShift(taken, guards, t.flags);
    }
  }

  /** Shifting the "first guard that holds" flags of `guards[1..]` by one
      position, with the first guard's own flag in front, gives the flags of
      `guards`. */
  lemma FirstTrueShift(taken: bool, guards: seq<bool>, rest: seq<bool>)
    requires guards != [] && |rest| == |guards| - 1
    requires forall i | 0 <= i < |rest| ::
      rest[i] == (!(taken || guards[0]) && guards[1..][i] && true !in guards[1..][..i])
    ensures (true in guards) == (guards[0] || true in guards[1..])
    ensures forall i | 0 <= i < |guards| ::
      ([!taken && guards[0]] + rest)[i] == (!taken && guards[i] && true !in guards[..i])
  {
    assert guards == [guards[0]] + guards[1..];
    forall i | 0 < i < |guards|
      ensures ([!taken && guards[0]] + rest)[i] == (!taken && guards[i] && true !in guards[..i])
    {
      assert guards[..i] == [guards[0]] + guards[1..][..i - 1];
      assert guards[i] == guards[1..][i - 1];
    }
  }

  /** `IF g0 / ELIF g1 / ... / ELIF gn` started outside an open chain
      enables exactly the first branch whose guard holds, and leaves the
      chain open with `true` recorded exactly when some guard held. */
  lemma IfElifRun(entries: seq<Entry>, guards: seq<bool>)
    requires !Open(entries) && guards != []
    ensures var r := Replay(entries, [If(Opener, guards[0])] + Elifs(guards[1..]));
      r.Some? && Open(r.value.entries) && Last(r.value.entries).result == (true in guards) &&
      forall i | 0 <= i < |guards| :: r.value.flags[i] == (guards[i] && true !in guards[..i])
  {
    var rest := guards[1..];
    var ds := [If(Opener, guards[0])] + Elifs(rest);
    assert ds[0] == If(Opener, guards[0]) && ds[1..] == Elifs(rest);
    var e := Step(entries, ds[0]).value;
    ElifRun(e.entries, guards[0], rest);
    var t := Replay(e.entries, Elifs(rest)).value;
    var r := Replay(entries, ds).value;
    assert r.flags == [!false && guards[0]] + t.flags;
    FirstTrueShift(false, guards, t.flags);
  }

  /** Chain exclusivity as the processor implements it: in
      `IF / ELIF* / ELSE?` started outside an open chain, a branch is enabled
      exactly when its own guard holds and no earlier guard did, and the ELSE
      exactly when no guard held. */
  lemma ChainTakesFirstTrueBranch(entries: seq<Entry>, guards: seq<bool>, withElse: bool)
    requires !Open(entries) && guards != []
    ensures Replay(entries, ChainOf(guards, withElse)).Some?
    ensures var t := Replay(entries, ChainOf(guards, withElse)).value;
      Open(t.entries) &&
      (forall i | 0 <= i < |guards| :: t.flags[i] == (guards[i] && true !in guards[..i])) &&
      (withElse ==> t.flags[|guards|] == (true !in guards))
  {
    var head := [If(Opener, guards[0])] + Elifs(guards[1..]);
    IfElifRun(entries, guards);
    var t := Replay(entries, head).value;
    if withElse {
      assert ChainOf(guards, withElse) == head + [Else];
      ReplayAppend(entries, head, [Else]);
      var el := Step(t.entries, Else).value;
      assert [Else][0] == Else && [Else][1..] == [];
      assert Replay(el.entries, []) == Some(Trace([], el.entries));
      assert Replay(t.entries, [Else]) == Some(Trace([el.enabled] + [], el.entries));
      var all := Replay(entries, ChainOf(guards, withElse)).value;
      assert all.flags == t.flags + [el.enabled];
      assert forall i | 0 <= i < |guards| :: all.flags[i] == t.flags[i];
    } else {
      assert ChainOf(guards, withElse) == head;
    }
  }

  /** Consequence of the previous lemma: no two branches of such a chain are
      enabled, and with an ELSE exactly one is. */
  lemma ChainIsExclusive(entries: seq<Entry>, guards: seq<bool>, withElse: bool)
    requires !Open(entries) && guards != []
    ensures Replay(entries, ChainOf(guards, withElse)).Some?
    ensures var flags := Replay(entries, ChainOf(guards, withElse)).value.flags;
      (forall i, j | 0 <= i < j < |flags| :: !(flags[i] && flags[j])) &&
      (withElse ==> true in flags)
  {
    ChainTakesFirstTrueBranch(entries, guards, withElse);
    var flags := Replay(entries, ChainOf(guards, withElse)).value.flags;
    assert |flags| == |guards| + (if withElse then 1 else 0);
    FirstTrueIsExclusive(guards, withElse, flags);
  }

  /** Flags that mark the first guard that holds, followed when `withElse` by
      a flag marking that none held, contain at most one `true`, and exactly
      one when `withElse`. */
  lemma FirstTrueIsExclusive(guards: seq<bool>, withElse: bool, flags: seq<bool>)
    requires |flags| == |guards| + (if withElse then 1 else 0)
    requires forall i | 0 <= i < |guards| :: flags[i] == (guards[i] && true !in guards[..i])
    requires withElse ==> flags[|guards|] == (true !in guards)
    ensures forall i, j | 0 <= i < j < |flags| :: !(flags[i] && flags[j])
    ensures withElse ==> true in flags
  {
    forall i, j | 0 <= i < j < |flags|
      ensures !(flags[i] && flags[j])
    {
      if j < |guards| && flags[i] {
        assert guards[..j][i] == guards[i];
      }
    }
    if withElse && true !in guards[..] {
      assert flags[|guards|];
    } else if withElse {
      var k :| 0 <= k < |guards| && guards[k];
      var m := FirstTrue(guards, k);
      assert flags[m];
    }
  }

  /** A chain followed by any further directives, from outside an open chain. */
  lemma ChainThenRest(entries: seq<Entry>, guards: seq<bool>, withElse: bool, rest: seq<Directive>, flags: seq<bool>, last: seq<Entry>)
    requires !Open(entries) && guards != []
    requires Replay(entries, ChainOf(guards, withElse) + rest) == Some(Trace(flags, last))
    ensures ExclusiveSpan(flags, 0, |ChainOf(guards, withElse)|, withElse)
  {
    var chain := ChainOf(guards, withElse);
    ReplayAppend(entries, chain, rest);
    ChainIsExclusive(entries, guards, withElse);
    var t := Replay(entries, chain).value;
    var u := Replay(t.entries, rest).value;
    assert flags == t.flags + u.flags;
    assert flags[0..|chain|] == t.flags;
  }

  /** No two of `flags[m..m + n]` hold, and one does when `total` is set. */
  predicate ExclusiveSpan(flags: seq<bool>, m: nat, n: nat, total: bool) {
    m + n <= |flags| &&
    (forall i, j | m <= i < j < m + n :: !(flags[i] && flags[j])) &&
    (total ==> true in flags[m..m + n])
  }

  lemma ExclusiveSpanShift(prefix: seq<bool>, flags: seq<bool>, n: nat, total: bool)
    requires ExclusiveSpan(flags, 0, n, total)
    ensures ExclusiveSpan(prefix + flags, |prefix|, n, total)
  {
    var all := prefix + flags;
    var m := |prefix|;
    assert all[m..m + n] == flags[0..n];
    forall i, j | m <= i < j < m + n
      ensures !(all[i] && all[j])
    {
      assert all[i] == flags[i - m] && all[j] == flags[j - m];
    }
  }

  /** Wherever a chain appears in an accepted run of directives, at a point
      where no chain is open, its bodies are exclusive: no two of them are
      enabled, and with an ELSE exactly one is, whatever came before or
      follows. */
  lemma RunChainIsExclusive(entries: seq<Entry>, pre: seq<Directive>, guards: seq<bool>, withElse: bool, rest: seq<Directive>)
    requires guards != []
    requires Replay(entries, pre).Some? && !Open(Replay(entries, pre).value.entries)
    requires Replay(entries, pre + ChainOf(guards, withElse) + rest).Some?
    ensures ExclusiveSpan(Replay(entries, pre + ChainOf(guards, withElse) + rest).value.flags,
      |pre|, |ChainOf(guards, withElse)|, withElse)
  {
    var chain := ChainOf(guards, withElse);
    assert pre + chain + rest == pre + (chain + rest);
    ReplayAppend(entries, pre, chain + rest);
    var t := Replay(entries, pre).value;
    var u := Replay(t.entries, chain + rest).value;
    ChainThenRest(t.entries, guards, withElse, rest, u.flags, u.entries);
    ExclusiveSpanShift(t.flags, u.flags, |chain|, withElse);
  }

  /** The first position at or before `k` holding `true`, given `guards[k]`. */
  function FirstTrue(guards: seq<bool>, k: nat): (m: nat)
    requires k < |guards| && guards[k]
    ensures m <= k && guards[m] && true !in guards[..m]
  {
    if true in guards[..k] then
      var j :| 0 <= j < k && guards[..k][j];
      FirstTrue(guards, j)
    else k
  }

  /** A chain followed by its closer leaves the deque outside any open chain,
      so a following IF is accepted again. */
  lemma ClosedChainReopens(entries: seq<Entry>, guards: seq<bool>, withElse: bool, next: bool)
    requires !Open(entries) && guards != []
    ensures var r := Replay(entries, ChainOf(guards, withElse) + [Close]);
      r.Some? && !Open(r.value.entries) && Step(r.value.entries, If(Opener, next)).Some?
  {
    ChainTakesFirstTrueBranch(entries, guards, withElse);
    ReplayAppend(entries, ChainOf(guards, withElse), [Close]);
    var t := Replay(entries, ChainOf(guards, withElse)).value;
    assert [Close][1..] == [];
    var c := Step(t.entries, Close).value;
    assert Replay(c.entries, []) == Some(Trace([], c.entries));
  }

  /** The deque accepts an ELSE after an ELSE, and the second ELSE records
      `!false`: after `IF true / ELSE / ELSE` both the IF body and the second
      ELSE body are enabled, so exclusivity does not extend past the first ELSE. */
  lemma SecondElseReenables()
    ensures Replay([], [If(Opener, true), Else, Else]).Some?
    ensures Replay([], [If(Opener, true), Else, Else]).value.flags == [true, false, true]
  {
    var ds := [If(Opener, true), Else, Else];
    assert ds[1..] == [Else, Else];
    assert ds[1..][1..] == [Else];
    assert ds[1..][1..][1..] == [];
  }
}
