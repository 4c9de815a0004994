/** Rewriting a word with a list of letter-to-sound rules, the first that applies at each place. */
module LtsRewrite {
  import opened Seqs
  import opened Wrappers
  import opened LtsPatterns
  import opened LtsRules

  /** Which rule applies where: `applies(i, pos)` for rule `i` with the cursor at `pos`. */
  type Relation = (nat, nat) -> bool

  /** The first of the rules from `i` on that applies. */
  function FirstRule(applies: Relation, i: nat, n: nat, pos: nat): (r: Option<nat>)
    requires i <= n
    ensures r.Some? ==> i <= r.value < n && applies(r.value, pos) && forall j :: i <= j < r.value ==> !applies(j, pos)
    ensures r.None? ==> forall j :: i <= j < n ==> !applies(j, pos)
    decreases n - i
  {
    if i == n then None else if applies(i, pos) then Some(i) else FirstRule(applies, i + 1, n, pos)
  }

  /** A rule that applies takes something and leaves something. */
  ghost predicate Advances(applies: Relation, ws: seq<Written>, end: nat) {
    forall i: nat, pos: nat :: i < |ws| && pos < end && applies(i, pos) ==> 0 < |ws[i].centre| < end - pos
  }

  /** The right-hand sides of the first rules that apply, from `pos` to the next `#`. */
  ghost function Derive(applies: Relation, ws: seq<Written>, text: seq<Symbol>, pos: nat): Option<seq<Symbol>>
    requires Advances(applies, ws, |text|) && pos < |text|
    decreases |text| - pos
  {
    if text[pos] == HASH then Some([])
    else
      var first := FirstRule(applies, 0, |ws|, pos);
      if first.None? then None
      else Prefixed(ws[first.value].rhs, Derive(applies, ws, text, pos + |ws[first.value].centre|))
  }

  function Delimited(word: seq<Symbol>): seq<Symbol> { [HASH] + word + [HASH] }

  function Prefixed(s: seq<Symbol>, r: Option<seq<Symbol>>): Option<seq<Symbol>> {
    if r.None? then None else Some(s + r.value)
  }

  lemma {:induction false} PrefixedTwice(s: seq<Symbol>, t: seq<Symbol>, r: Option<seq<Symbol>>)
    ensures Prefixed(s, Prefixed(t, r)) == Prefixed(s + t, r)
    ensures Prefixed([], r) == r
  {
    if r.Some? { assert [] + r.value == r.value && s + (t + r.value) == (s + t) + r.value; }
  }

  /** One turn of the rewriting loop. */
  lemma {:induction false} DeriveStep(applies: Relation, ws: seq<Written>, text: seq<Symbol>, pos: nat,
                                      result: seq<Symbol>, goal: Option<seq<Symbol>>)
    requires Advances(applies, ws, |text|) && pos < |text| && text[pos] != HASH
    requires goal == Prefixed(Reverse(result), Derive(applies, ws, text, pos))
    ensures match FirstRule(applies, 0, |ws|, pos)
            case None => goal == None
            case Some(i) =>
              var n := |ws[i].centre|;
              && pos + n < |text| && n > 0
              && goal == Prefixed(Reverse(Reverse(ws[i].rhs) + result), Derive(applies, ws, text, pos + n))
  {
    var first := FirstRule(applies, 0, |ws|, pos);
    if first.Some? {
      var w := ws[first.value];
      ReverseAppend(Reverse(w.rhs), result);
      ReverseTwice(w.rhs);
      PrefixedTwice(Reverse(result), w.rhs, Derive(applies, ws, text, pos + |w.centre|));
    }
  }

  /** The cursor is after `lc`, which holds the text before it in reverse. */
  predicate At(text: seq<Symbol>, lc: seq<Symbol>, remainder: seq<Symbol>) {
    text == Reverse(lc) + remainder
  }

  predicate AllStored(rules: seq<Rule>, ws: seq<Written>) {
    |rules| == |ws| && forall i {:trigger rules[i]} :: 0 <= i < |ws| ==> Usable(ws[i]) && rules[i] == Stored(ws[i])
  }

  ghost predicate Describes(applies: Relation, sets: Sets, ws: seq<Written>, text: seq<Symbol>) {
    forall i, pos {:trigger AppliesBetween(sets, ws[i], text[..pos], text[pos..])} ::
      0 <= i < |ws| && 0 <= pos <= |text| ==>
        applies(i, pos) == AppliesBetween(sets, ws[i], text[..pos], text[pos..])
  }

  /** The right-hand side of the first rule that matches, and what it leaves. */
  method Rewrite(sets: Sets, lc: seq<Symbol>, remainder: seq<Symbol>, rules: seq<Rule>,
                 ghost ws: seq<Written>, ghost text: seq<Symbol>, ghost applies: Relation)
      returns (rhs: Option<seq<Symbol>>, rest: seq<Symbol>)
    requires NilFree(sets) && AllStored(rules, ws) && At(text, lc, remainder) && Describes(applies, sets, ws, text)
    ensures match FirstRule(applies, 0, |ws|, |lc|)
            case None => rhs == None
            case Some(i) =>
              rhs == Some(ws[i].rhs) && |ws[i].centre| <= |remainder| && rest == remainder[|ws[i].centre|..]
  {
    rest := [];
    assert Reverse(lc) == text[..|lc|] && remainder == text[|lc|..];
    for i := 0 to |rules|
      invariant FirstRule(applies, 0, |ws|, |lc|) == FirstRule(applies, i, |ws|, |lc|)
    {
      var ok: bool;
      ok, rest := MatchRule(sets, lc, remainder, rules[i], ws[i]);
      assert ok == AppliesBetween(sets, ws[i], text[..|lc|], text[|lc|..]);
      if ok {
        return Some(rules[i].rhs), rest;
      }
    }
    return None, rest;
  }

  /** Moves the first `n` symbols of the remainder onto the left context. */
  method Advance(lc: seq<Symbol>, remainder: seq<Symbol>, n: nat, ghost text: seq<Symbol>) returns (lc': seq<Symbol>)
    requires n <= |remainder| && At(text, lc, remainder)
    ensures |lc'| == |lc| + n && At(text, lc', remainder[n..])
  {
    lc' := lc;
    for l := 0 to n
      invariant |lc'| == |lc| + l && At(text, lc', remainder[l..])
    {
      ReverseAppend([remainder[l]], lc');
      ReverseOne(remainder[l]);
      assert remainder[l..] == [remainder[l]] + remainder[l + 1..];
      lc' := [remainder[l]] + lc';
    }
  }

  /** Rewrites once and moves the cursor past what was rewritten. */
  method Turn(sets: Sets, lc: seq<Symbol>, remainder: seq<Symbol>, rules: seq<Rule>,
              ghost ws: seq<Written>, ghost text: seq<Symbol>, ghost applies: Relation)
      returns (rhs: Option<seq<Symbol>>, lc': seq<Symbol>, remainder': seq<Symbol>)
    requires NilFree(sets) && AllStored(rules, ws) && At(text, lc, remainder) && Describes(applies, sets, ws, text)
    ensures match FirstRule(applies, 0, |ws|, |lc|)
            case None => rhs == None
            case Some(i) => rhs == Some(ws[i].rhs) && |lc'| == |lc| + |ws[i].centre| && At(text, lc', remainder')
  {
    rhs, remainder' := Rewrite(sets, lc, remainder, rules, ws, text, applies);
    lc' := lc;
    if rhs.Some? {
      lc' := Advance(lc, remainder, |remainder| - |remainder'|, text);
    }
  }

  /** Rewrites a word; nothing when no rule applies somewhere. At every turn the left context, reversed, and
      the remainder make up `#` word `#`, and the remainder gets shorter. */
  method Apply(sets: Sets, rules: seq<Rule>, word: seq<Symbol>, ghost ws: seq<Written>, ghost applies: Relation)
      returns (r: Option<seq<Symbol>>)
    requires NilFree(sets) && AllStored(rules, ws)
    requires Describes(applies, sets, ws, Delimited(word)) && Advances(applies, ws, |word| + 2)
    ensures r == Derive(applies, ws, Delimited(word), 1)
  {
    ghost var text := Delimited(word);
    ghost var goal := Derive(applies, ws, text, 1);
    var lc := [HASH];
    var remainder := word + lc;
    var result := [];
    assert At(text, lc, remainder) by { ReverseOne(HASH); }
    PrefixedTwice([], [], goal);
    while remainder[0] != HASH
      invariant remainder != [] && At(text, lc, remainder)
      invariant goal == Prefixed(Reverse(result), Derive(applies, ws, text, |lc|))
      decreases |remainder|
    {
      assert text[|lc|] == remainder[0];
      DeriveStep(applies, ws, text, |lc|, result, goal);
      var rhs;
      rhs, lc, remainder := Turn(sets, lc, remainder, rules, ws, text, applies);
      if rhs.None? {
        return None;
      }
      result := Reverse(rhs.value) + result;
    }
    assert text[|lc|] == remainder[0];
    r := Some(Reverse(result));
    assert Reverse(result) + [] == Reverse(result);
  }

  /** The relation that a list of rules defines on a text, and that it lets rewriting advance. */
  ghost function AppliesOn(sets: Sets, ws: seq<Written>, text: seq<Symbol>): Relation {
    (i: nat, pos: nat) => i < |ws| && pos <= |text| && AppliesBetween(sets, ws[i], text[..pos], text[pos..])
  }

  lemma {:induction false} AppliesOnAdvances(sets: Sets, ws: seq<Written>, text: seq<Symbol>)
    requires forall w :: w in ws ==> w.centre != []
    ensures Describes(AppliesOn(sets, ws, text), sets, ws, text)
    ensures Advances(AppliesOn(sets, ws, text), ws, |text|)
  {
  }

  // ---------- What rewriting does to the word ----------

  function Outputs(ws: seq<Written>, used: seq<nat>): seq<Symbol>
    requires forall i :: 0 <= i < |used| ==> used[i] < |ws|
  {
    if used == [] then [] else ws[used[0]].rhs + Outputs(ws, used[1..])
  }

  /** The text between `pos` and `end` is cut, in order and without gaps, into the centres of the rules
      used, each the first that applies where it is used. */
  predicate Segmented(applies: Relation, ws: seq<Written>, pos: nat, end: nat, used: seq<nat>)
    decreases |used|
  {
    if used == [] then pos == end
    else
      && FirstRule(applies, 0, |ws|, pos) == Some(used[0])
      && Segmented(applies, ws, pos + |ws[used[0]].centre|, end, used[1..])
  }

  lemma {:induction false} DeriveSegments(applies: Relation, ws: seq<Written>, text: seq<Symbol>, pos: nat)
      returns (end: nat, used: seq<nat>)
    requires Advances(applies, ws, |text|) && pos < |text| && Derive(applies, ws, text, pos).Some?
    ensures pos <= end < |text| && text[end] == HASH
    ensures Segmented(applies, ws, pos, end, used)
    ensures forall i :: 0 <= i < |used| ==> used[i] < |ws|
    ensures Derive(applies, ws, text, pos) == Some(Outputs(ws, used))
    decreases |text| - pos
  {
    if text[pos] == HASH {
      return pos, [];
    }
    var i := FirstRule(applies, 0, |ws|, pos).value;
    var rest;
    end, rest := DeriveSegments(applies, ws, text, pos + |ws[i].centre|);
    used := [i] + rest;
    assert used[1..] == rest;
  }

  /** A word without `#` that is rewritten at all is consumed whole: it is cut into the centres of the rules
      used, and the result is their right-hand sides in order. */
  lemma {:induction false} WholeWordRewritten(applies: Relation, ws: seq<Written>, word: seq<Symbol>) returns (used: seq<nat>)
    requires Advances(applies, ws, |word| + 2) && HASH !in word
    requires Derive(applies, ws, Delimited(word), 1).Some?
    ensures Segmented(applies, ws, 1, |word| + 1, used)
    ensures forall i :: 0 <= i < |used| ==> used[i] < |ws|
    ensures Derive(applies, ws, Delimited(word), 1) == Some(Outputs(ws, used))
  {
    var text, end := Delimited(word), 0;
    assert forall i :: 1 <= i <= |word| ==> text[i] == word[i - 1] && word[i - 1] in word;
    end, used := DeriveSegments(applies, ws, text, 1);
  }

  // ---------- The rules themselves ----------

  /** The text between `pos` and `end` is cut into the centres of rules, each the first of the list that applies where its
      centre begins. */
  predicate CutBy(applies: Relation, ws: seq<Written>, pos: nat, end: nat, used: seq<nat>)
    decreases |used|
  {
    if used == [] then pos == end
    else
      && used[0] < |ws| && applies(used[0], pos) && (forall j: nat :: j < used[0] ==> !applies(j, pos))
      && CutBy(applies, ws, pos + |ws[used[0]].centre|, end, used[1..])
  }

  lemma {:induction false} SegmentedCuts(applies: Relation, ws: seq<Written>, pos: nat, end: nat, used: seq<nat>)
    requires forall i :: 0 <= i < |used| ==> used[i] < |ws|
    requires Segmented(applies, ws, pos, end, used)
    ensures CutBy(applies, ws, pos, end, used)
    decreases |used|
  {
    if used == [] {
    } else {
      SegmentedCuts(applies, ws, pos + |ws[used[0]].centre|, end, used[1..]);
    }
  }

  lemma {:induction false} CutGrows(applies: Relation, ws: seq<Written>, pos: nat, end: nat, used: seq<nat>)
    requires CutBy(applies, ws, pos, end, used)
    ensures pos <= end
    decreases |used|
  {
    if used == [] {
    } else {
      CutGrows(applies, ws, pos + |ws[used[0]].centre|, end, used[1..]);
    }
  }

  /** A cut up to the closing mark is the one that rewriting makes. */
  lemma {:induction false} CutDerives(applies: Relation, ws: seq<Written>, text: seq<Symbol>, pos: nat, end: nat, used: seq<nat>)
    requires Advances(applies, ws, |text|) && pos <= end < |text| && text[end] == HASH
    requires forall i :: pos <= i < end ==> text[i] != HASH
    requires CutBy(applies, ws, pos, end, used)
    ensures forall i :: 0 <= i < |used| ==> used[i] < |ws|
    ensures Derive(applies, ws, text, pos) == Some(Outputs(ws, used))
    decreases |used|
  {
    if used == [] {
    } else {
      var next := pos + |ws[used[0]].centre|;
      assert FirstRule(applies, 0, |ws|, pos) == Some(used[0]);
      CutGrows(applies, ws, next, end, used[1..]);
      CutDerives(applies, ws, text, next, end, used[1..]);
    }
  }

  /** The word is cut whole into the centres of rules that are each the first to apply; `r` is their right-hand sides in order. */
  ghost predicate CutInto(sets: Sets, ws: seq<Written>, word: seq<Symbol>, used: seq<nat>, r: seq<Symbol>) {
    && (forall i :: 0 <= i < |used| ==> used[i] < |ws|)
    && CutBy(AppliesOn(sets, ws, Delimited(word)), ws, 1, |word| + 1, used) && r == Outputs(ws, used)
  }

  ghost predicate Rewritten(sets: Sets, ws: seq<Written>, word: seq<Symbol>, r: seq<Symbol>)
    requires Advances(AppliesOn(sets, ws, Delimited(word)), ws, |word| + 2)
  {
    Derive(AppliesOn(sets, ws, Delimited(word)), ws, Delimited(word), 1) == Some(r)
  }

  lemma {:induction false} RewrittenIsCut(sets: Sets, ws: seq<Written>, word: seq<Symbol>, r: seq<Symbol>) returns (used: seq<nat>)
    requires Advances(AppliesOn(sets, ws, Delimited(word)), ws, |word| + 2) && HASH !in word
    requires Rewritten(sets, ws, word, r)
    ensures CutInto(sets, ws, word, used, r)
  {
    var applies := AppliesOn(sets, ws, Delimited(word));
    used := WholeWordRewritten(applies, ws, word);
    SegmentedCuts(applies, ws, 1, |word| + 1, used);
  }

  lemma {:induction false} CutIsRewritten(sets: Sets, ws: seq<Written>, word: seq<Symbol>, used: seq<nat>, r: seq<Symbol>)
    requires Advances(AppliesOn(sets, ws, Delimited(word)), ws, |word| + 2) && HASH !in word
    requires CutInto(sets, ws, word, used, r)
    ensures Rewritten(sets, ws, word, r)
  {
    var text := Delimited(word);
    assert forall i :: 1 <= i <= |word| ==> text[i] == word[i - 1] && word[i - 1] in word;
    CutDerives(AppliesOn(sets, ws, text), ws, text, 1, |word| + 1, used);
  }

  /** With rules that have centres, a word without `#` is rewritten to `r` exactly when the rules cut it into `r`. */
  lemma {:induction false} RewrittenIff(sets: Sets, ws: seq<Written>, word: seq<Symbol>, r: seq<Symbol>)
    requires (forall w :: w in ws ==> w.centre != []) && HASH !in word
    ensures Advances(AppliesOn(sets, ws, Delimited(word)), ws, |word| + 2)
    ensures Rewritten(sets, ws, word, r) <==> exists used :: CutInto(sets, ws, word, used, r)
  {
    AppliesOnAdvances(sets, ws, Delimited(word));
    if Rewritten(sets, ws, word, r) {
      var used := RewrittenIsCut(sets, ws, word, r);
    }
    if used :| CutInto(sets, ws, word, used, r) {
      CutIsRewritten(sets, ws, word, used, r);
    }
  }
}
