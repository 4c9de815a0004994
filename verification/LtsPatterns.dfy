/** Context patterns of letter-to-sound rules: what a pattern means, and the matcher for it. */
module LtsPatterns {
  import opened Seqs

  /** An atom, told apart by its print name. */
  datatype Symbol = Symbol(name: string)

  const STAR := Symbol("*")
  const PLUS := Symbol("+")

  /** What the head of an exhausted list reads as. */
  const NIL := Symbol("nil")

  /** Named sets of symbols, searched in order. */
  type Sets = seq<(Symbol, seq<Symbol>)>

  datatype Op = Once | Star | Plus

  datatype Unit = Unit(item: Symbol, op: Op)

  predicate IsOp(x: Symbol) { x == STAR || x == PLUS }

  function Members(sets: Sets, name: Symbol): seq<Symbol> {
    if sets == [] then [] else if sets[0].0 == name then sets[0].1 else Members(sets[1..], name)
  }

  predicate ItemMatch(sets: Sets, actual: Symbol, item: Symbol) {
    actual == item || actual in Members(sets, item)
  }

  /** A symbol matches an item that it is, or that names a set it is in; of sets with one name, the first counts. */
  lemma {:induction false} ItemMatchIff(sets: Sets, actual: Symbol, item: Symbol)
    ensures ItemMatch(sets, actual, item) <==>
            actual == item ||
            exists i :: 0 <= i < |sets| && sets[i].0 == item && actual in sets[i].1 && forall j :: 0 <= j < i ==> sets[j].0 != item
  {
    if sets == [] {
    } else if sets[0].0 != item {
      var rest := sets[1..];
      ItemMatchIff(rest, actual, item);
      assert forall i :: 0 < i < |sets| ==> sets[i] == rest[i - 1];
      if i :| 0 <= i < |rest| && rest[i].0 == item && actual in rest[i].1 && forall j :: 0 <= j < i ==> rest[j].0 != item {
        assert sets[i + 1].0 == item && actual in sets[i + 1].1 && forall j :: 0 <= j < i + 1 ==> sets[j].0 != item;
      }
      if i :| 0 < i < |sets| && sets[i].0 == item && actual in sets[i].1 && forall j :: 0 <= j < i ==> sets[j].0 != item {
        assert forall j :: 0 <= j < i - 1 ==> rest[j].0 != item;
        assert rest[i - 1].0 == item;
      }
    }
  }

  /** No set holds the symbol that an exhausted list reads as. */
  predicate NilFree(sets: Sets) {
    forall i :: 0 <= i < |sets| ==> NIL !in sets[i].1
  }

  lemma {:induction false} NilMatchesNothing(sets: Sets, item: Symbol)
    requires NilFree(sets) && item != NIL
    ensures !ItemMatch(sets, NIL, item)
  {
    if sets != [] && sets[0].0 != item {
      NilMatchesNothing(sets[1..], item);
    }
  }

  // ---------- The meaning of a pattern ----------

  /** Every symbol of `s` matches the item. */
  predicate AllMatch(sets: Sets, s: seq<Symbol>, item: Symbol) {
    forall x :: x in s ==> ItemMatch(sets, x, item)
  }

  predicate InUnit(sets: Sets, u: Unit, s: seq<Symbol>) {
    && AllMatch(sets, s, u.item)
    && (u.op.Once? ==> |s| == 1)
    && (u.op.Plus? ==> |s| >= 1)
  }

  /** The first `k` symbols are of the unit. */
  predicate Takes(sets: Sets, u: Unit, s: seq<Symbol>, k: int) {
    0 <= k <= |s| && InUnit(sets, u, s[..k])
  }

  /** The symbols are some of the first unit, then some of the next, and so on. */
  predicate InLang(sets: Sets, units: seq<Unit>, s: seq<Symbol>) {
    if units == [] then s == []
    else exists k {:trigger Takes(sets, units[0], s, k)} :: 0 <= k <= |s| &&
           Takes(sets, units[0], s, k) && InLang(sets, units[1..], s[k..])
  }

  /** An operator follows an item, and at most one does. */
  predicate WellFormed(t: seq<Symbol>) {
    t == [] ||
    (!IsOp(t[0]) && if |t| > 1 && IsOp(t[1]) then WellFormed(t[2..]) else WellFormed(t[1..]))
  }

  function Parse(t: seq<Symbol>): seq<Unit> {
    if t == [] then []
    else if |t| > 1 && t[1] == STAR then [Unit(t[0], Star)] + Parse(t[2..])
    else if |t| > 1 && t[1] == PLUS then [Unit(t[0], Plus)] + Parse(t[2..])
    else [Unit(t[0], Once)] + Parse(t[1..])
  }

  function Tokens(u: Unit): seq<Symbol> {
    match u.op
    case Once => [u.item]
    case Star => [u.item, STAR]
    case Plus => [u.item, PLUS]
  }

  lemma {:induction false} ParseCons(u: Unit, rest: seq<Symbol>)
    requires !IsOp(u.item) && WellFormed(rest)
    ensures WellFormed(Tokens(u) + rest) && Parse(Tokens(u) + rest) == [u] + Parse(rest)
  {
  }

  // ---------- The matcher ----------

  function Car(l: seq<Symbol>): Symbol { if l == [] then NIL else l[0] }

  function Cdr(l: seq<Symbol>): (r: seq<Symbol>)
    ensures l != [] ==> |r| < |l|
  {
    if l == [] then [] else l[1..]
  }

  predicate ContextMatch(sets: Sets, acontext: seq<Symbol>, rcontext: seq<Symbol>)
    requires NilFree(sets) && NIL !in rcontext
    decreases |acontext|, |rcontext|
  {
    if rcontext == [] then true
    else
      NilMatchesNothing(sets, rcontext[0]);
      if |rcontext| > 1 && rcontext[1] == STAR then
        || ContextMatch(sets, acontext, rcontext[2..])
        || ContextMatch(sets, acontext, [rcontext[0]] + rcontext[2..])
        || (ItemMatch(sets, Car(acontext), rcontext[0]) && ContextMatch(sets, Cdr(acontext), rcontext))
      else if |rcontext| > 1 && rcontext[1] == PLUS then
        && ItemMatch(sets, Car(acontext), rcontext[0])
        && ContextMatch(sets, Cdr(acontext), [rcontext[0], STAR] + rcontext[2..])
      else
        ItemMatch(sets, Car(acontext), rcontext[0]) && ContextMatch(sets, Cdr(acontext), rcontext[1..])
  }

  lemma {:induction false} StarTakesOne(sets: Sets, item: Symbol, rest: seq<Unit>, x: Symbol, s: seq<Symbol>)
    requires ItemMatch(sets, x, item) && InLang(sets, [Unit(item, Star)] + rest, s)
    ensures InLang(sets, [Unit(item, Star)] + rest, [x] + s)
    ensures InLang(sets, [Unit(item, Plus)] + rest, [x] + s)
  {
    var star, plus := [Unit(item, Star)] + rest, [Unit(item, Plus)] + rest;
    assert star[1..] == rest == plus[1..];
    var k :| 0 <= k <= |s| && Takes(sets, star[0], s, k) && InLang(sets, star[1..], s[k..]);
    var t := [x] + s;
    assert t[..k + 1] == [x] + s[..k] && t[k + 1..] == s[k..];
    assert Takes(sets, star[0], t, k + 1) && Takes(sets, plus[0], t, k + 1);
  }

  lemma {:induction false} OnceIsFirst(sets: Sets, item: Symbol, rest: seq<Unit>, s: seq<Symbol>)
    ensures InLang(sets, [Unit(item, Once)] + rest, s) <==>
            s != [] && ItemMatch(sets, s[0], item) && InLang(sets, rest, s[1..])
    ensures InLang(sets, [Unit(item, Once)] + rest, s) ==> InLang(sets, [Unit(item, Star)] + rest, s)
  {
    var once, star := [Unit(item, Once)] + rest, [Unit(item, Star)] + rest;
    assert once[1..] == rest == star[1..];
    if s != [] && ItemMatch(sets, s[0], item) && InLang(sets, rest, s[1..]) {
      assert Takes(sets, once[0], s, 1);
    }
    if InLang(sets, once, s) {
      var k :| 0 <= k <= |s| && Takes(sets, once[0], s, k) && InLang(sets, once[1..], s[k..]);
      assert s[0] in s[..k] && Takes(sets, star[0], s, k);
    }
  }

  lemma {:induction false} StarTakesNone(sets: Sets, item: Symbol, rest: seq<Unit>, s: seq<Symbol>)
    requires InLang(sets, rest, s)
    ensures InLang(sets, [Unit(item, Star)] + rest, s)
  {
    var star := [Unit(item, Star)] + rest;
    assert star[1..] == rest && s[0..] == s;
    assert Takes(sets, star[0], s, 0);
  }

  /** A starred unit takes nothing, or a symbol and is still there; a plus takes a symbol and leaves a star. */
  lemma {:induction false} RepeatUnfolds(sets: Sets, item: Symbol, op: Op, rest: seq<Unit>, s: seq<Symbol>)
    requires !op.Once? && InLang(sets, [Unit(item, op)] + rest, s)
    ensures || (op.Star? && InLang(sets, rest, s))
            || (s != [] && ItemMatch(sets, s[0], item) && InLang(sets, [Unit(item, Star)] + rest, s[1..]))
  {
    var units, star := [Unit(item, op)] + rest, [Unit(item, Star)] + rest;
    assert units[1..] == rest == star[1..];
    var k :| 0 <= k <= |s| && Takes(sets, units[0], s, k) && InLang(sets, units[1..], s[k..]);
    if k == 0 {
      assert s[0..] == s;
    } else {
      TakesTail(sets, units[0], star[0], s, k);
      assert s[1..][k - 1..] == s[k..];
    }
  }

  lemma {:induction false} TakesTail(sets: Sets, u: Unit, star: Unit, s: seq<Symbol>, k: nat)
    requires Takes(sets, u, s, k) && k > 0 && star == Unit(u.item, Star)
    ensures ItemMatch(sets, s[0], u.item) && Takes(sets, star, s[1..], k - 1)
  {
  }

  /** How the tokens that the matcher goes on with parse. */
  lemma {:induction false} ParseStep(t: seq<Symbol>)
    requires WellFormed(t) && t != []
    ensures if |t| > 1 && IsOp(t[1]) then
              var rest := t[2..];
              && WellFormed(rest)
              && Parse(t) == [Unit(t[0], if t[1] == STAR then Star else Plus)] + Parse(rest)
              && WellFormed([t[0]] + rest) && Parse([t[0]] + rest) == [Unit(t[0], Once)] + Parse(rest)
              && WellFormed([t[0], STAR] + rest) && Parse([t[0], STAR] + rest) == [Unit(t[0], Star)] + Parse(rest)
              && (t[1] == STAR ==> t == [t[0], STAR] + rest)
            else
              WellFormed(t[1..]) && Parse(t) == [Unit(t[0], Once)] + Parse(t[1..])
  {
  }

  lemma {:induction false} MatchSound(sets: Sets, a: seq<Symbol>, t: seq<Symbol>) returns (k: nat)
    requires NilFree(sets) && NIL !in t && WellFormed(t) && ContextMatch(sets, a, t)
    ensures k <= |a| && InLang(sets, Parse(t), a[..k])
    decreases |a|, |t|
  {
    if t == [] {
      return 0;
    }
    ParseStep(t);
    NilMatchesNothing(sets, t[0]);
    if |t| > 1 && IsOp(t[1]) {
      var rest := t[2..];
      if t[1] == STAR && ContextMatch(sets, a, rest) {
        k := MatchSound(sets, a, rest);
        StarTakesNone(sets, t[0], Parse(rest), a[..k]);
      } else if t[1] == STAR && ContextMatch(sets, a, [t[0]] + rest) {
        k := MatchSound(sets, a, [t[0]] + rest);
        OnceIsFirst(sets, t[0], Parse(rest), a[..k]);
      } else {
        k := MatchSound(sets, a[1..], [t[0], STAR] + rest);
        TakeOneMore(a, k);
        StarTakesOne(sets, t[0], Parse(rest), a[0], a[1..][..k]);
        k := k + 1;
      }
    } else {
      k := MatchSound(sets, a[1..], t[1..]);
      TakeOneMore(a, k);
      OnceIsFirst(sets, t[0], Parse(t[1..]), a[..k + 1]);
      k := k + 1;
    }
  }

  lemma {:induction false} TakeOneMore(a: seq<Symbol>, k: nat)
    requires k < |a|
    ensures a[..k + 1] == [a[0]] + a[1..][..k] && a[..k + 1][1..] == a[1..][..k]
  {
  }

  lemma {:induction false} MatchComplete(sets: Sets, a: seq<Symbol>, t: seq<Symbol>, k: nat)
    requires NilFree(sets) && NIL !in t && WellFormed(t)
    requires k <= |a| && InLang(sets, Parse(t), a[..k])
    ensures ContextMatch(sets, a, t)
    decreases |a|, |t|
  {
    if t == [] {
      return;
    }
    ParseStep(t);
    if |t| > 1 && IsOp(t[1]) {
      var rest, s := t[2..], a[..k];
      RepeatUnfolds(sets, t[0], if t[1] == STAR then Star else Plus, Parse(rest), s);
      if t[1] == STAR && InLang(sets, Parse(rest), s) {
        MatchComplete(sets, a, rest, k);
      } else {
        assert s[1..] == a[1..][..k - 1];
        MatchComplete(sets, a[1..], [t[0], STAR] + rest, k - 1);
      }
    } else {
      OnceIsFirst(sets, t[0], Parse(t[1..]), a[..k]);
      assert a[..k][1..] == a[1..][..k - 1];
      MatchComplete(sets, a[1..], t[1..], k - 1);
    }
  }

  /** The matcher succeeds exactly when some prefix of the context is in the language of the pattern. */
  lemma {:induction false} ContextMatchExact(sets: Sets, a: seq<Symbol>, t: seq<Symbol>)
    requires NilFree(sets) && NIL !in t && WellFormed(t)
    ensures ContextMatch(sets, a, t) <==> exists k :: 0 <= k <= |a| && InLang(sets, Parse(t), a[..k])
  {
    if ContextMatch(sets, a, t) {
      var k := MatchSound(sets, a, t);
    }
    if k :| 0 <= k <= |a| && InLang(sets, Parse(t), a[..k]) {
      MatchComplete(sets, a, t, k);
    }
  }

  // ---------- Left contexts: stored reversed, with their operators repaired ----------

  /** Each operator is swapped with the symbol after it. */
  function Fixed(l: seq<Symbol>): (r: seq<Symbol>) {
    if |l| < 2 then l
    else if IsOp(l[0]) then [l[1], l[0]] + Fixed(l[2..])
    else [l[0]] + Fixed(l[1..])
  }

  /** Every operator the scan comes to has a symbol after it. */
  predicate Fixable(l: seq<Symbol>) {
    if l == [] then true
    else if IsOp(l[0]) then |l| > 1 && Fixable(l[2..])
    else Fixable(l[1..])
  }

  method FixPostfixOps(l: array<Symbol>)
    requires Fixable(l[..])
    modifies l
    ensures l[..] == Fixed(old(l[..]))
  {
    ghost var was := l[..];
    ghost var done: seq<Symbol> := [];
    var p := 0;
    assert was[0..] == was;
    while p < l.Length
      invariant 0 <= p <= l.Length && |done| == p && l[..] == done + was[p..]
      invariant Fixable(was[p..]) && Fixed(was) == done + Fixed(was[p..])
    {
      FixedStep(done, was, p);
      SwapStep(done, was, p);
      if IsOp(l[p]) {
        assert l[p + 1] == l[..][p + 1];
        done := done + [was[p + 1], was[p]];
        l[p], l[p + 1] := l[p + 1], l[p];
        p := p + 1;
      } else {
        done := done + [was[p]];
      }
      p := p + 1;
    }
    assert done + Fixed(was[p..]) == done;
  }

  lemma {:induction false} SwapStep(done: seq<Symbol>, l: seq<Symbol>, p: nat)
    requires |done| == p < |l|
    ensures (done + l[p..])[p] == l[p] && done + l[p..] == (done + [l[p]]) + l[p + 1..]
    ensures p + 1 < |l| ==>
              (done + l[p..])[p := l[p + 1]][p + 1 := l[p]] == (done + [l[p + 1], l[p]]) + l[p + 2..]
  {
  }

  lemma {:induction false} FixedStep(done: seq<Symbol>, l: seq<Symbol>, p: nat)
    requires p < |l| && Fixable(l[p..])
    ensures IsOp(l[p]) ==> p + 1 < |l| && Fixable(l[p + 2..])
                           && done + Fixed(l[p..]) == (done + [l[p + 1], l[p]]) + Fixed(l[p + 2..])
    ensures !IsOp(l[p]) ==> Fixable(l[p + 1..]) && done + Fixed(l[p..]) == (done + [l[p]]) + Fixed(l[p + 1..])
  {
  }

  function Unparse(units: seq<Unit>): seq<Symbol> {
    if units == [] then [] else Tokens(units[0]) + Unparse(units[1..])
  }

  predicate Items(units: seq<Unit>) { forall u :: u in units ==> !IsOp(u.item) }

  lemma {:induction false} ParseUnparse(t: seq<Symbol>)
    requires WellFormed(t)
    ensures Unparse(Parse(t)) == t && Items(Parse(t))
  {
    if t == [] {
    } else {
      var rest := if |t| > 1 && IsOp(t[1]) then t[2..] else t[1..];
      ParseUnparse(rest);
      assert Parse(t)[1..] == Parse(rest);
    }
  }

  lemma {:induction false} UnparseParse(units: seq<Unit>)
    requires Items(units)
    ensures WellFormed(Unparse(units)) && Parse(Unparse(units)) == units
  {
    if units == [] {
    } else {
      var rest := Unparse(units[1..]);
      UnparseParse(units[1..]);
      assert rest != [] ==> !IsOp(rest[0]);
      ParseCons(units[0], rest);
      assert units == [units[0]] + units[1..];
    }
  }

  lemma {:induction false} Regroup(a: seq<Symbol>, b: seq<Symbol>, c: seq<Symbol>)
    ensures a + (b + c) == (a + b) + c
  {
  }

  lemma {:induction false} UnparseAppend(u: seq<Unit>, v: seq<Unit>)
    ensures Unparse(u + v) == Unparse(u) + Unparse(v)
  {
    if u == [] {
      assert u + v == v;
    } else {
      UnparseAppend(u[1..], v);
      assert (u + v)[1..] == u[1..] + v && (u + v)[0] == u[0];
      Regroup(Tokens(u[0]), Unparse(u[1..]), Unparse(v));
    }
  }

  /** Repairing the reversed tokens gives the tokens of the reversed units. */
  lemma {:induction false} FixedReversed(units: seq<Unit>)
    requires Items(units)
    ensures Fixable(Reverse(Unparse(units)))
    ensures Fixed(Reverse(Unparse(units))) == Unparse(Reverse(units))
  {
    if units == [] {
    } else {
      var init, last := units[..|units| - 1], units[|units| - 1];
      FixedReversed(init);
      FixedCons(last, Reverse(Unparse(init)));
      assert units == init + [last];
      UnparseAppend(init, [last]);
      assert Unparse([last]) == Tokens(last);
      ReverseAppend(Unparse(init), Tokens(last));
      ReverseAppend(init, [last]);
      ReverseOne(last);
      UnparseAppend([last], Reverse(init));
    }
  }

  lemma {:induction false} FixedCons(u: Unit, back: seq<Symbol>)
    requires !IsOp(u.item) && Fixable(back)
    ensures Fixable(Reverse(Tokens(u)) + back)
    ensures Fixed(Reverse(Tokens(u)) + back) == Tokens(u) + Fixed(back)
  {
  }

  lemma {:induction false} InLangJoin(sets: Sets, u: seq<Unit>, v: seq<Unit>, s: seq<Symbol>, t: seq<Symbol>)
    requires InLang(sets, u, s) && InLang(sets, v, t)
    ensures InLang(sets, u + v, s + t)
  {
    if u == [] {
      assert u + v == v && s + t == t;
    } else {
      var j :| 0 <= j <= |s| && Takes(sets, u[0], s, j) && InLang(sets, u[1..], s[j..]);
      InLangJoin(sets, u[1..], v, s[j..], t);
      assert (u + v)[1..] == u[1..] + v && (u + v)[0] == u[0];
      assert (s + t)[..j] == s[..j] && (s + t)[j..] == s[j..] + t;
      assert Takes(sets, (u + v)[0], s + t, j);
    }
  }

  lemma {:induction false} InUnitReversed(sets: Sets, u: Unit, s: seq<Symbol>)
    ensures InUnit(sets, u, Reverse(s)) <==> InUnit(sets, u, s)
  {
    forall x ensures x in Reverse(s) <==> x in s {
      ReverseMembers(s, x);
    }
  }

  lemma {:induction false} InLangOne(sets: Sets, u: Unit, s: seq<Symbol>)
    ensures InLang(sets, [u], s) <==> InUnit(sets, u, s)
  {
    assert [u][1..] == [];
    assert s[..|s|] == s && s[|s|..] == [];
    if InLang(sets, [u], s) {
      var k :| 0 <= k <= |s| && Takes(sets, u, s, k) && InLang(sets, [u][1..], s[k..]);
      assert k == |s|;
    }
    if InUnit(sets, u, s) {
      assert Takes(sets, [u][0], s, |s|);
    }
  }

  lemma {:induction false} InLangReversed(sets: Sets, units: seq<Unit>, s: seq<Symbol>)
    requires InLang(sets, units, s)
    ensures InLang(sets, Reverse(units), Reverse(s))
  {
    if units == [] {
    } else {
      var k :| 0 <= k <= |s| && Takes(sets, units[0], s, k) && InLang(sets, units[1..], s[k..]);
      InLangReversed(sets, units[1..], s[k..]);
      InUnitReversed(sets, units[0], s[..k]);
      InLangOne(sets, units[0], Reverse(s[..k]));
      InLangJoin(sets, Reverse(units[1..]), [units[0]], Reverse(s[k..]), Reverse(s[..k]));
      ReverseSplit(s, k);
    }
  }

  /** The tokens that `fix_postfix_ops` leaves are those of the units in reverse. */
  lemma {:induction false} FixedMeansReversed(t: seq<Symbol>)
    requires WellFormed(t)
    ensures Fixable(Reverse(t)) && WellFormed(Fixed(Reverse(t)))
    ensures Parse(Fixed(Reverse(t))) == Reverse(Parse(t))
  {
    ParseUnparse(t);
    FixedReversed(Parse(t));
    forall u | u in Reverse(Parse(t)) ensures !IsOp(u.item) { ReverseMembers(Parse(t), u); }
    UnparseParse(Reverse(Parse(t)));
  }

  lemma {:induction false} SuffixToPrefix(sets: Sets, units: seq<Unit>, left: seq<Symbol>, k: nat)
    requires k <= |left| && InLang(sets, units, left[k..])
    ensures InLang(sets, Reverse(units), Reverse(left)[..|left| - k])
  {
    InLangReversed(sets, units, left[k..]);
    ReverseAt(left);
    ReverseAt(left[k..]);
    assert Reverse(left[k..]) == Reverse(left)[..|left| - k];
  }

  lemma {:induction false} PrefixToSuffix(sets: Sets, units: seq<Unit>, left: seq<Symbol>, j: nat)
    requires j <= |left| && InLang(sets, Reverse(units), Reverse(left)[..j])
    ensures InLang(sets, units, left[|left| - j..])
  {
    InLangReversed(sets, Reverse(units), Reverse(left)[..j]);
    ReverseTwice(units);
    ReverseAt(left);
    ReverseAt(Reverse(left)[..j]);
    assert Reverse(Reverse(left)[..j]) == left[|left| - j..];
  }

  /** A left context, stored reversed and repaired, matches the reversed text exactly when some suffix of
      the text is in the language of the context as written. */
  lemma {:induction false} LeftMatchExact(sets: Sets, left: seq<Symbol>, t: seq<Symbol>)
    requires NilFree(sets) && NIL !in t && WellFormed(t)
    ensures Fixable(Reverse(t)) && NIL !in Fixed(Reverse(t))
    ensures ContextMatch(sets, Reverse(left), Fixed(Reverse(t))) <==>
            exists k :: 0 <= k <= |left| && InLang(sets, Parse(t), left[k..])
  {
    var units, a, f := Parse(t), Reverse(left), Fixed(Reverse(t));
    FixedMeansReversed(t);
    FixedKeepsSymbols(Reverse(t), NIL);
    ReverseMembers(t, NIL);
    ContextMatchExact(sets, a, f);
    forall k | 0 <= k <= |left| && InLang(sets, units, left[k..]) ensures ContextMatch(sets, a, f) {
      SuffixToPrefix(sets, units, left, k);
    }
    if ContextMatch(sets, a, f) {
      var j :| 0 <= j <= |a| && InLang(sets, Parse(f), a[..j]);
      PrefixToSuffix(sets, units, left, j);
    }
  }

  lemma {:induction false} FixedKeepsSymbols(l: seq<Symbol>, x: Symbol)
    ensures x in Fixed(l) <==> x in l
  {
    if |l| < 2 {
    } else {
      FixedKeepsSymbols(if IsOp(l[0]) then l[2..] else l[1..], x);
    }
  }
}
