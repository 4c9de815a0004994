/** Letter-to-sound rewrite rules: reading a rule, matching it at a place in the word, and rewriting
    a word with a list of rules. */
module LtsRules {
  import opened Seqs
  import opened LtsPatterns
  import opened Wrappers

  const OPEN := Symbol("[")
  const CLOSE := Symbol("]")
  const EQUALS := Symbol("=")
  const HASH := Symbol("#")

  /** A rule as written: `left [ centre ] right = rhs`. */
  datatype Written = Written(left: seq<Symbol>, centre: seq<Symbol>, right: seq<Symbol>, rhs: seq<Symbol>)

  /** A rule as stored, its left context reversed. */
  datatype Rule = Rule(lc: seq<Symbol>, centre: seq<Symbol>, rc: seq<Symbol>, rhs: seq<Symbol>)

  function Stored(w: Written): Rule { Rule(Fixed(Reverse(w.left)), w.centre, w.right, w.rhs) }

  // ---------- Reading a rule ----------

  /** The tokens are those of the rule. */
  predicate Spells(tokens: seq<Symbol>, w: Written) {
    && tokens == w.left + [OPEN] + (w.centre + [CLOSE] + (w.right + [EQUALS] + w.rhs))
    && OPEN !in w.left && CLOSE !in w.centre && EQUALS !in w.right
  }

  /** What reading has taken the first tokens to be. */
  predicate ReadSoFar(state: nat, tokens: seq<Symbol>, l: seq<Symbol>, t: seq<Symbol>, r: seq<Symbol>) {
    && OPEN !in l && CLOSE !in t && EQUALS !in r
    && state <= 2
    && (state == 0 ==> tokens == l && t == [] && r == [])
    && (state == 1 ==> tokens == l + [OPEN] + t && r == [])
    && (state == 2 ==> tokens == l + [OPEN] + (t + [CLOSE] + r))
  }

  lemma {:induction false} FirstOccurrence(a: seq<Symbol>, b: seq<Symbol>, c: seq<Symbol>, d: seq<Symbol>, x: Symbol)
    requires a + [x] + b == c + [x] + d && x !in a && x !in c
    ensures a == c && b == d
  {
    var s := a + [x] + b;
    assert forall i :: 0 <= i < |a| ==> s[i] == a[i];
    assert forall i :: 0 <= i < |c| ==> s[i] == c[i];
    assert s[|a|] == x && s[|c|] == x;
    assert |a| == |c|;
    assert a == s[..|a|] && c == s[..|c|] && b == s[|a| + 1..] && d == s[|c| + 1..];
  }

  /** Tokens that run out before the equals sign spell no rule. */
  lemma {:induction false} RunsOut(state: nat, tokens: seq<Symbol>, l: seq<Symbol>, t: seq<Symbol>, r: seq<Symbol>, w: Written)
    requires ReadSoFar(state, tokens, l, t, r)
    ensures !Spells(tokens, w)
  {
    if Spells(tokens, w) {
      var afterOpen := w.centre + [CLOSE] + (w.right + [EQUALS] + w.rhs);
      assert tokens[|w.left|] == OPEN;
      assert afterOpen[|w.centre|] == CLOSE;
      assert (w.right + [EQUALS] + w.rhs)[|w.right|] == EQUALS;
      if state == 1 {
        FirstOccurrence(l, t, w.left, afterOpen, OPEN);
      } else if state == 2 {
        FirstOccurrence(l, t + [CLOSE] + r, w.left, afterOpen, OPEN);
        FirstOccurrence(t, r, w.centre, w.right + [EQUALS] + w.rhs, CLOSE);
      }
    }
  }

  /** A list of tokens spells at most one rule. */
  lemma {:induction false} SpellsUnique(tokens: seq<Symbol>, v: Written, w: Written)
    requires Spells(tokens, v) && Spells(tokens, w)
    ensures v == w
  {
    FirstOccurrence(v.left, v.centre + [CLOSE] + (v.right + [EQUALS] + v.rhs),
                    w.left, w.centre + [CLOSE] + (w.right + [EQUALS] + w.rhs), OPEN);
    FirstOccurrence(v.centre, v.right + [EQUALS] + v.rhs, w.centre, w.right + [EQUALS] + w.rhs, CLOSE);
    FirstOccurrence(v.right, v.rhs, w.right, w.rhs, EQUALS);
  }

  /** Sorts the tokens of a rule into its parts; a rule must be complete and change something. */
  method NormalizeRule(tokens: seq<Symbol>) returns (rule: Option<Rule>)
    requires forall w :: Spells(tokens, w) ==> Fixable(Reverse(w.left))
    ensures rule.Some? ==> exists w :: Spells(tokens, w) && w.centre != [] && rule.value == Stored(w)
    ensures rule.None? ==> forall w :: Spells(tokens, w) ==> w.centre == []
  {
    var lc, t, rc, rhs := [], [], [], [];
    ghost var l, f, b := [], [], [];
    var state, c := 0, 0;
    while c < |tokens| && state < 3
      invariant 0 <= c <= |tokens|
      invariant lc == Reverse(l) && t == Reverse(f) && rc == Reverse(b)
      invariant state < 3 ==> ReadSoFar(state, tokens[..c], l, f, b)
      invariant state == 3 ==> Spells(tokens, Written(l, f, b, rhs))
      decreases |tokens| - c, 3 - state
    {
      var x := tokens[c];
      ReadOn(state, tokens, c, l, f, b);
      if state == 0 && x != OPEN {
        lc := [x] + lc;
        l := l + [x];
      } else if state == 1 && x != CLOSE {
        t := [x] + t;
        f := f + [x];
      } else if state == 2 && x != EQUALS {
        rc := [x] + rc;
        b := b + [x];
      } else {
        state := state + 1;
        if state == 3 {
          rhs := tokens[c + 1..];
        }
      }
      c := c + 1;
    }
    if state != 3 {
      assert tokens[..c] == tokens;
      forall w ensures !Spells(tokens, w) { RunsOut(state, tokens, l, f, b, w); }
      return None;
    }
    ghost var w := Written(l, f, b, rhs);
    forall v | Spells(tokens, v) ensures v == w { SpellsUnique(tokens, v, w); }
    if t == [] {
      ReverseTwice(f);
      return None;
    }
    var cells := new Symbol[|lc|](i requires 0 <= i < |lc| => lc[i]);
    assert cells[..] == lc;
    FixPostfixOps(cells);
    ReverseTwice(f);
    ReverseTwice(b);
    rule := Some(Rule(cells[..], Reverse(t), Reverse(rc), rhs));
    assert Spells(tokens, w) && w.centre != [] && rule.value == Stored(w);
  }

  lemma {:induction false} EqualsReached(tokens: seq<Symbol>, c: nat, l: seq<Symbol>, f: seq<Symbol>, b: seq<Symbol>)
    requires c < |tokens| && tokens[c] == EQUALS && ReadSoFar(2, tokens[..c], l, f, b)
    ensures Spells(tokens, Written(l, f, b, tokens[c + 1..]))
  {
  }

  /** What reading one more token makes of it. */
  lemma {:induction false} ReadOn(state: nat, tokens: seq<Symbol>, c: nat, l: seq<Symbol>, f: seq<Symbol>, b: seq<Symbol>)
    requires c < |tokens| && ReadSoFar(state, tokens[..c], l, f, b)
    ensures state == 0 && tokens[c] != OPEN ==> ReadSoFar(0, tokens[..c + 1], l + [tokens[c]], f, b)
    ensures state == 0 && tokens[c] == OPEN ==> ReadSoFar(1, tokens[..c + 1], l, f, b)
    ensures state == 1 && tokens[c] != CLOSE ==> ReadSoFar(1, tokens[..c + 1], l, f + [tokens[c]], b)
    ensures state == 1 && tokens[c] == CLOSE ==> ReadSoFar(2, tokens[..c + 1], l, f, b)
    ensures state == 2 && tokens[c] != EQUALS ==> ReadSoFar(2, tokens[..c + 1], l, f, b + [tokens[c]])
    ensures state == 2 && tokens[c] == EQUALS ==> Spells(tokens, Written(l, f, b, tokens[c + 1..]))
    ensures Reverse(l + [tokens[c]]) == [tokens[c]] + Reverse(l)
    ensures Reverse(f + [tokens[c]]) == [tokens[c]] + Reverse(f)
    ensures Reverse(b + [tokens[c]]) == [tokens[c]] + Reverse(b)
  {
    var x := tokens[c];
    assert tokens[..c + 1] == tokens[..c] + [x];
    ReverseOne(x);
    ReverseAppend(l, [x]);
    ReverseAppend(f, [x]);
    ReverseAppend(b, [x]);
    if state == 2 && x == EQUALS { EqualsReached(tokens, c, l, f, b); }
  }

  // ---------- Matching a rule ----------

  /** What the matcher relies on in a rule. */
  predicate Usable(w: Written) {
    && w.centre != []
    && WellFormed(w.left) && WellFormed(w.right)
    && NIL !in w.left && NIL !in w.centre && NIL !in w.right
  }

  predicate CentreMatch(sets: Sets, s: seq<Symbol>, centre: seq<Symbol>) {
    |centre| <= |s| && forall i :: 0 <= i < |centre| ==> ItemMatch(sets, s[i], centre[i])
  }

  /** Some prefix of the text is in the language of the pattern. */
  predicate Starts(sets: Sets, pattern: seq<Symbol>, s: seq<Symbol>) {
    exists k :: 0 <= k <= |s| && InLang(sets, Parse(pattern), s[..k])
  }

  /** Some suffix of the text is in the language of the pattern. */
  predicate Ends(sets: Sets, pattern: seq<Symbol>, s: seq<Symbol>) {
    exists k :: 0 <= k <= |s| && InLang(sets, Parse(pattern), s[k..])
  }

  /** The rule applies between two texts: its centre comes next with something after it, its right context
      starts what follows the centre, and its left context ends what comes before. */
  predicate AppliesBetween(sets: Sets, w: Written, before: seq<Symbol>, after: seq<Symbol>) {
    && |w.centre| < |after|
    && CentreMatch(sets, after, w.centre)
    && Starts(sets, w.right, after[|w.centre|..])
    && Ends(sets, w.left, before)
  }

  method ThisMatch(sets: Sets, remainder: seq<Symbol>, centre: seq<Symbol>) returns (rest: seq<Symbol>)
    requires NilFree(sets) && NIL !in centre
    ensures rest == if CentreMatch(sets, remainder, centre) then remainder[|centre|..] else []
  {
    var a, r := remainder, 0;
    while r < |centre|
      invariant r <= |centre| && r <= |remainder| && a == remainder[r..]
      invariant forall i :: 0 <= i < r ==> ItemMatch(sets, remainder[i], centre[i])
    {
      NilMatchesNothing(sets, centre[r]);
      if !ItemMatch(sets, Car(a), centre[r]) {
        return [];
      }
      a, r := Cdr(a), r + 1;
    }
    return a;
  }

  /** `lc` holds the text before the cursor, reversed. */
  method MatchRule(sets: Sets, lc: seq<Symbol>, remainder: seq<Symbol>, rule: Rule, ghost w: Written)
      returns (ok: bool, rest: seq<Symbol>)
    requires NilFree(sets) && Usable(w) && rule == Stored(w)
    ensures ok <==> AppliesBetween(sets, w, Reverse(lc), remainder)
    ensures ok ==> rest == remainder[|w.centre|..]
  {
    rest := ThisMatch(sets, remainder, rule.centre);
    ReverseTwice(lc);
    LeftMatchExact(sets, Reverse(lc), w.left);
    ContextMatchExact(sets, rest, w.right);
    ok := rest != [] && ContextMatch(sets, rest, rule.rc) && ContextMatch(sets, lc, rule.lc);
  }
}
