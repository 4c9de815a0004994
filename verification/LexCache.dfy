/** The index cache as a value, the intervals of the uncached binary search, and why the cache
    only ever gives intervals that the uncached search visits. */
module LexCache {
  import opened LexFile
  import opened Wrappers

  /** A cache node holds a byte interval and, once split, the headword read at its middle. */
  datatype Tree =
    | Leaf(start: int, end: int)
    | Node(start: int, end: int, head: Head, left: Tree, right: Tree)

  datatype Interval = Interval(start: int, end: int)

  function Lookup(f: LexFile, t: Tree, word: string): Interval {
    if t.Leaf? then Interval(t.start, t.end)
    else
      var fc := f.HeadCmp(Headword(word), t.head);
      if fc < 0 then Lookup(f, t.left, word)
      else if fc == 0 then Interval(t.start, t.end)
      else Lookup(f, t.right, word)
  }

  function Level(f: LexFile, t: Tree, word: string): nat {
    if t.Leaf? then 0
    else
      var fc := f.HeadCmp(Headword(word), t.head);
      if fc < 0 then 1 + Level(f, t.left, word)
      else if fc == 0 then 0
      else 1 + Level(f, t.right, word)
  }

  function Add(f: LexFile, t: Tree, head: Head, start: int, mid: int, end: int): Tree {
    if t.Leaf? then Node(t.start, t.end, head, Leaf(start, mid), Leaf(mid, end))
    else
      var fc := f.HeadCmp(head, t.head);
      if fc < 0 then t.(left := Add(f, t.left, head, start, mid, end))
      else if fc == 0 then t
      else t.(right := Add(f, t.right, head, start, mid, end))
  }

  // ---------- The uncached search ----------

  function Middle(start: int, end: int): int {
    start + (end - start) / 2
  }

  /** The uncached search for `word`, from (start, end), comes to consider the interval `goal`. */
  predicate Visits(f: LexFile, word: string, start: int, end: int, goal: Interval)
    requires f.Valid()
    decreases end - start
  {
    || goal == Interval(start, end)
    || (end - start >= 10 &&
        var mid := Middle(start, end);
        var compare := f.HeadCmp(Headword(word), f.HeadAt(mid));
        if compare < 0 then Visits(f, word, start, mid, goal)
        else compare > 0 && Visits(f, word, mid, end, goal))
  }

  /** `goal` arises from (start, end) by repeated halving. */
  predicate Halving(start: int, end: int, goal: Interval)
    decreases end - start
  {
    || goal == Interval(start, end)
    || (end - start >= 10 &&
        var mid := Middle(start, end);
        Halving(start, mid, goal) || Halving(mid, end, goal))
  }

  lemma {:induction false} HalvingWithin(start: int, end: int, goal: Interval)
    requires start < end && Halving(start, end, goal)
    ensures start <= goal.start < goal.end <= end
    decreases end - start
  {
    if goal != Interval(start, end) {
      var mid := Middle(start, end);
      if Halving(start, mid, goal) { HalvingWithin(start, mid, goal); } else { HalvingWithin(mid, end, goal); }
    }
  }

  lemma {:induction false} HalvingStep(start: int, end: int, s: int, e: int)
    requires Halving(start, end, Interval(s, e)) && e - s >= 10
    ensures Halving(start, end, Interval(s, Middle(s, e))) && Halving(start, end, Interval(Middle(s, e), e))
    decreases end - start
  {
    var mid := Middle(s, e);
    if Interval(s, e) == Interval(start, end) {
      assert Halving(s, mid, Interval(s, mid)) && Halving(mid, e, Interval(mid, e));
    } else if Halving(start, Middle(start, end), Interval(s, e)) {
      HalvingStep(start, Middle(start, end), s, e);
    } else {
      HalvingStep(Middle(start, end), end, s, e);
    }
  }

  predicate Reachable(f: LexFile, i: Interval)
    requires f.Valid()
  {
    Halving(f.BlStart(), f.FileEnd(), i)
  }

  /** The word lies strictly between the headwords probed at the two ends of the interval. */
  predicate Between(f: LexFile, word: string, i: Interval)
    requires f.Valid()
  {
    && (i.start != f.BlStart() ==> f.HeadCmp(Headword(word), f.HeadAt(i.start)) > 0)
    && (i.end != f.FileEnd() ==> f.HeadCmp(Headword(word), f.HeadAt(i.end)) < 0)
  }

  /** Halving and the order of the file fix which words' searches visit an interval. */
  lemma {:induction false} BetweenVisits(f: LexFile, word: string, start: int, end: int, goal: Interval)
    requires f.Valid() && f.BlStart() <= start < end <= f.FileEnd()
    requires Halving(start, end, goal) && Between(f, word, goal)
    ensures Visits(f, word, start, end, goal)
    decreases end - start
  {
    if goal != Interval(start, end) {
      var mid := Middle(start, end);
      var w := Headword(word);
      if Halving(start, mid, goal) {
        HalvingWithin(start, mid, goal);
        ResyncMonotone(f, goal.end, mid);
        HeadOrder(f, w, f.HeadAt(goal.end), f.HeadAt(mid));
        BetweenVisits(f, word, start, mid, goal);
      } else {
        HalvingWithin(mid, end, goal);
        ResyncMonotone(f, mid, goal.start);
        HeadOrder(f, f.HeadAt(mid), f.HeadAt(goal.start), w);
        HeadOrder(f, w, f.HeadAt(goal.start), w);
        HeadOrder(f, w, f.HeadAt(mid), w);
        BetweenVisits(f, word, mid, end, goal);
      }
    }
  }

  // ---------- The invariant of the cache ----------

  /** A bound on the words routed to a node: exclusive, absent when there is none. */
  type Bound = Option<Head>

  predicate Above(f: LexFile, lo: Bound, h: Head) { lo.Some? ==> f.HeadCmp(lo.value, h) < 0 }

  predicate Below(f: LexFile, h: Head, hi: Bound) { hi.Some? ==> f.HeadCmp(h, hi.value) < 0 }

  predicate LowFrame(f: LexFile, start: int, lo: Bound)
    requires f.Valid()
  {
    start == f.BlStart() || (lo.Some? && f.HeadCmp(f.HeadAt(start), lo.value) <= 0)
  }

  predicate HighFrame(f: LexFile, end: int, hi: Bound)
    requires f.Valid()
  {
    end == f.FileEnd() || (hi.Some? && f.HeadCmp(hi.value, f.HeadAt(end)) <= 0)
  }

  /** The words routed to a node lie between the headwords at the ends of its interval. */
  predicate Routed(f: LexFile, t: Tree, lo: Bound, hi: Bound)
    requires f.Valid()
  {
    && Reachable(f, Interval(t.start, t.end))
    && LowFrame(f, t.start, lo) && HighFrame(f, t.end, hi)
    && (t.Node? ==>
          && Above(f, lo, t.head) && Below(f, t.head, hi)
          && Routed(f, t.left, lo, Some(t.head))
          && Routed(f, t.right, Some(t.head), hi))
  }

  predicate Found(f: LexFile, t: Tree, h: Head) {
    t.Node? &&
    var fc := f.HeadCmp(h, t.head);
    if fc < 0 then Found(f, t.left, h) else if fc == 0 then true else Found(f, t.right, h)
  }

  /** Both ends of the interval are ends of the file or have their headword in the cache. */
  predicate Anchored(f: LexFile, root: Tree, i: Interval)
    requires f.Valid()
  {
    && (i.start == f.BlStart() || Found(f, root, f.HeadAt(i.start)))
    && (i.end == f.FileEnd() || Found(f, root, f.HeadAt(i.end)))
  }

  predicate AllAnchored(f: LexFile, root: Tree, t: Tree)
    requires f.Valid()
  {
    && Anchored(f, root, Interval(t.start, t.end))
    && (t.Node? ==> AllAnchored(f, root, t.left) && AllAnchored(f, root, t.right))
  }

  predicate CacheInv(f: LexFile, t: Tree)
    requires f.Valid()
  {
    Routed(f, t, None, None) && AllAnchored(f, t, t)
  }

  lemma {:induction false} InitialCache(f: LexFile)
    requires f.Valid()
    ensures CacheInv(f, Leaf(f.BlStart(), f.FileEnd()))
  {
  }

  // ---------- What a lookup in the cache gives ----------

  lemma {:induction false} LookupBetween(f: LexFile, t: Tree, word: string, lo: Bound, hi: Bound)
    requires f.Valid() && Routed(f, t, lo, hi)
    requires Above(f, lo, Headword(word)) && Below(f, Headword(word), hi)
    ensures Reachable(f, Lookup(f, t, word)) && Between(f, word, Lookup(f, t, word))
  {
    var w := Headword(word);
    if t.Node? && f.HeadCmp(w, t.head) < 0 {
      LookupBetween(f, t.left, word, lo, Some(t.head));
    } else if t.Node? && f.HeadCmp(w, t.head) > 0 {
      HeadOrder(f, t.head, w, w);
      LookupBetween(f, t.right, word, Some(t.head), hi);
    } else {
      if t.start != f.BlStart() {
        HeadOrder(f, f.HeadAt(t.start), lo.value, w);
        HeadOrder(f, f.HeadAt(t.start), w, w);
        HeadOrder(f, w, f.HeadAt(t.start), w);
      }
      if t.end != f.FileEnd() {
        HeadOrder(f, w, hi.value, f.HeadAt(t.end));
      }
    }
  }

  lemma {:induction false} LookupAnchored(f: LexFile, root: Tree, t: Tree, word: string)
    requires f.Valid() && AllAnchored(f, root, t)
    ensures Anchored(f, root, Lookup(f, t, word))
  {
    if t.Node? {
      LookupAnchored(f, root, t.left, word);
      LookupAnchored(f, root, t.right, word);
    }
  }

  /** Cache transparency: whatever the cache gives for a word, the uncached search for it visits. */
  lemma {:induction false} CacheTransparent(f: LexFile, t: Tree, word: string)
    requires f.Valid() && CacheInv(f, t)
    ensures Visits(f, word, f.BlStart(), f.FileEnd(), Lookup(f, t, word))
  {
    LookupBetween(f, t, word, None, None);
    BetweenVisits(f, word, f.BlStart(), f.FileEnd(), Lookup(f, t, word));
  }

  // ---------- Adding keeps the invariant ----------

  lemma {:induction false} AddFinds(f: LexFile, t: Tree, head: Head, start: int, mid: int, end: int, h: Head)
    requires f.Valid()
    requires Found(f, t, h) || f.HeadCmp(h, head) == 0
    ensures Found(f, Add(f, t, head, start, mid, end), h)
  {
    if t.Node? {
      HeadOrder(f, h, head, t.head);
      HeadOrder(f, head, h, t.head);
      HeadOrder(f, t.head, h, head);
      HeadOrder(f, t.head, head, h);
      if f.HeadCmp(h, t.head) < 0 && f.HeadCmp(head, t.head) < 0 {
        AddFinds(f, t.left, head, start, mid, end, h);
      } else if f.HeadCmp(h, t.head) > 0 && f.HeadCmp(head, t.head) > 0 {
        AddFinds(f, t.right, head, start, mid, end, h);
      }
    }
  }

  lemma {:induction false} AddRouted(f: LexFile, t: Tree, start: int, end: int, lo: Bound, hi: Bound)
    requires f.Valid() && Routed(f, t, lo, hi)
    requires end - start >= 10 && Reachable(f, Interval(start, end))
    requires Above(f, lo, f.HeadAt(Middle(start, end))) && Below(f, f.HeadAt(Middle(start, end)), hi)
    requires LowFrame(f, start, lo) || Found(f, t, f.HeadAt(start))
    requires HighFrame(f, end, hi) || Found(f, t, f.HeadAt(end))
    ensures Routed(f, Add(f, t, f.HeadAt(Middle(start, end)), start, Middle(start, end), end), lo, hi)
  {
    var mid := Middle(start, end);
    var v, a, b := f.HeadAt(mid), f.HeadAt(start), f.HeadAt(end);
    ResyncMonotone(f, start, mid);
    ResyncMonotone(f, mid, end);
    HeadOrder(f, v, v, v);
    if t.Leaf? {
      HalvingStep(f.BlStart(), f.FileEnd(), start, end);
    } else if f.HeadCmp(v, t.head) < 0 {
      HeadOrder(f, a, v, t.head);
      HeadOrder(f, b, t.head, b);
      HeadOrder(f, t.head, b, t.head);
      AddRouted(f, t.left, start, end, lo, Some(t.head));
    } else if f.HeadCmp(v, t.head) > 0 {
      HeadOrder(f, t.head, v, b);
      HeadOrder(f, b, t.head, b);
      HeadOrder(f, a, t.head, a);
      HeadOrder(f, t.head, v, t.head);
      AddRouted(f, t.right, start, end, Some(t.head), hi);
    }
  }

  lemma {:induction false} AddAnchors(f: LexFile, root: Tree, t: Tree, start: int, end: int)
    requires f.Valid() && AllAnchored(f, root, t) && Anchored(f, root, Interval(start, end))
    ensures AllAnchored(f, Add(f, root, f.HeadAt(Middle(start, end)), start, Middle(start, end), end),
                        Add(f, t, f.HeadAt(Middle(start, end)), start, Middle(start, end), end))
  {
    var mid := Middle(start, end);
    StillAnchored(f, root, t, start, end);
    StillAnchored(f, root, Leaf(start, end), start, end);
    AddFinds(f, root, f.HeadAt(mid), start, mid, end, f.HeadAt(mid));
    if t.Node? {
      AddAnchors(f, root, t.left, start, end);
      AddAnchors(f, root, t.right, start, end);
    }
  }

  lemma {:induction false} StillAnchored(f: LexFile, root: Tree, t: Tree, start: int, end: int)
    requires f.Valid() && AllAnchored(f, root, t)
    ensures AllAnchored(f, Add(f, root, f.HeadAt(Middle(start, end)), start, Middle(start, end), end), t)
  {
    var mid := Middle(start, end);
    if Found(f, root, f.HeadAt(t.start)) { AddFinds(f, root, f.HeadAt(mid), start, mid, end, f.HeadAt(t.start)); }
    if Found(f, root, f.HeadAt(t.end)) { AddFinds(f, root, f.HeadAt(mid), start, mid, end, f.HeadAt(t.end)); }
    if t.Node? {
      StillAnchored(f, root, t.left, start, end);
      StillAnchored(f, root, t.right, start, end);
    }
  }

  /** Splitting whatever leaf the probed headword is routed to, however old and wide, keeps the cache sound,
      and anchors both halves of the interval that was probed. */
  lemma {:induction false} AddKeepsCache(f: LexFile, t: Tree, start: int, end: int)
    requires f.Valid() && CacheInv(f, t)
    requires end - start >= 10 && Reachable(f, Interval(start, end)) && Anchored(f, t, Interval(start, end))
    ensures var mid := Middle(start, end);
            var t' := Add(f, t, f.HeadAt(mid), start, mid, end);
            && CacheInv(f, t')
            && Anchored(f, t', Interval(start, mid)) && Anchored(f, t', Interval(mid, end))
  {
    var mid := Middle(start, end);
    AddRouted(f, t, start, end, None, None);
    AddAnchors(f, t, t, start, end);
    StillAnchored(f, t, Leaf(start, end), start, end);
    AddFinds(f, t, f.HeadAt(mid), start, mid, end, f.HeadAt(mid));
  }

  // ---------- The cache over whole runs ----------

  const CACHE_DEPTH := 8

  function Probed(f: LexFile, t: Tree, start: int, mid: int, end: int, depth: int): Tree
    requires f.Valid()
  {
    if depth < CACHE_DEPTH && end - start > 256 then Add(f, t, f.HeadAt(mid), start, mid, end) else t
  }

  /** The cache after a binary search for `word` from (start, end), begun at `depth`. */
  function Grown(f: LexFile, t: Tree, word: string, start: int, end: int, depth: int): Tree
    requires f.Valid()
    decreases end - start
  {
    if end - start < 10 then t
    else
      var mid := Middle(start, end);
      var t' := Probed(f, t, start, mid, end, depth);
      var compare := f.HeadCmp(Headword(word), f.HeadAt(mid));
      if compare == 0 then t'
      else if compare < 0 then Grown(f, t', word, start, mid, depth + 1)
      else Grown(f, t', word, mid, end, depth + 1)
  }

  lemma {:induction false} GrownStep(f: LexFile, t: Tree, word: string, start: int, end: int, depth: int)
    requires f.Valid()
    ensures var mid := Middle(start, end);
            var t' := Probed(f, t, start, mid, end, depth);
            Grown(f, t, word, start, end, depth) ==
            if end - start < 10 then t
            else if f.Cmp(word, f.Resync(mid)) == 0 then t'
            else if f.Cmp(word, f.Resync(mid)) < 0 then Grown(f, t', word, start, mid, depth + 1)
            else Grown(f, t', word, mid, end, depth + 1)
  {
  }

  function AfterLookup(f: LexFile, t: Tree, word: string): Tree
    requires f.Valid()
  {
    var i := Lookup(f, t, word);
    Grown(f, t, word, i.start, i.end, Level(f, t, word))
  }

  function AfterLookups(f: LexFile, words: seq<string>): Tree
    requires f.Valid()
  {
    if words == [] then Leaf(f.BlStart(), f.FileEnd())
    else AfterLookup(f, AfterLookups(f, words[..|words| - 1]), words[|words| - 1])
  }

  lemma {:induction false} GrownKeepsCache(f: LexFile, t: Tree, word: string, i: Interval, depth: int)
    requires f.Valid() && CacheInv(f, t) && Reachable(f, i)
    requires depth < CACHE_DEPTH && i.end - i.start > 256 ==> Anchored(f, t, i)
    ensures CacheInv(f, Grown(f, t, word, i.start, i.end, depth))
    decreases i.end - i.start
  {
    if i.end - i.start < 10 {
    } else {
      var mid := Middle(i.start, i.end);
      var t' := t;
      if depth < CACHE_DEPTH && i.end - i.start > 256 {
        AddKeepsCache(f, t, i.start, i.end);
        t' := Add(f, t, f.HeadAt(mid), i.start, mid, i.end);
      }
      HalvingStep(f.BlStart(), f.FileEnd(), i.start, i.end);
      GrownKeepsCache(f, t', word, Interval(i.start, mid), depth + 1);
      GrownKeepsCache(f, t', word, Interval(mid, i.end), depth + 1);
    }
  }

  lemma {:induction false} RunsKeepCache(f: LexFile, words: seq<string>)
    requires f.Valid()
    ensures CacheInv(f, AfterLookups(f, words))
  {
    if words == [] {
      InitialCache(f);
    } else {
      var t, word := AfterLookups(f, words[..|words| - 1]), words[|words| - 1];
      RunsKeepCache(f, words[..|words| - 1]);
      LookupBetween(f, t, word, None, None);
      LookupAnchored(f, t, t, word);
      GrownKeepsCache(f, t, word, Lookup(f, t, word), Level(f, t, word));
    }
  }

  /** After any sequence of lookups, the cache sends every word to an interval that its own uncached
      search visits. */
  lemma {:induction false} TransparentOverRuns(f: LexFile, words: seq<string>, word: string)
    requires f.Valid()
    ensures Visits(f, word, f.BlStart(), f.FileEnd(), Lookup(f, AfterLookups(f, words), word))
  {
    RunsKeepCache(f, words);
    CacheTransparent(f, AfterLookups(f, words), word);
  }

  // ---------- Which words the search reads ----------

  /** The uncached search for `word` from (start, end) reads an entry of the word. */
  predicate Reads(f: LexFile, word: string, start: int, end: int)
    requires f.Valid()
    decreases end - start
  {
    start < end &&
    if end - start < 10 then start == f.BlStart() && f.Cmp(word, f.Resync(start)) == 0
    else
      var mid := Middle(start, end);
      var compare := f.Cmp(word, f.Resync(mid));
      compare == 0 || (if compare < 0 then Reads(f, word, start, mid) else Reads(f, word, mid, end))
  }

  /** The search for a word in the whole file reads an entry of it. */
  predicate IsRead(f: LexFile, word: string)
    requires f.Valid()
  {
    Reads(f, word, f.BlStart(), f.FileEnd())
  }

  lemma {:induction false} ReadIsPresent(f: LexFile, word: string, start: int, end: int)
    requires f.Valid() && Reads(f, word, start, end)
    ensures f.Present(word)
    decreases end - start
  {
    if end - start < 10 {
      assert f.Hit(word, f.Resync(start));
    } else {
      var mid := Middle(start, end);
      var compare := f.Cmp(word, f.Resync(mid));
      if compare == 0 {
        assert f.Hit(word, f.Resync(mid));
      } else if compare < 0 {
        ReadIsPresent(f, word, start, mid);
      } else {
        ReadIsPresent(f, word, mid, end);
      }
    }
  }

  /** From every interval that it visits on its way, a search reads what it reads from the start. */
  lemma {:induction false} VisitsReads(f: LexFile, word: string, start: int, end: int, goal: Interval)
    requires f.Valid() && Visits(f, word, start, end, goal)
    ensures Reads(f, word, goal.start, goal.end) == Reads(f, word, start, end)
    decreases end - start
  {
    if goal != Interval(start, end) {
      var mid := Middle(start, end);
      if f.Cmp(word, f.Resync(mid)) < 0 {
        VisitsReads(f, word, start, mid, goal);
      } else {
        VisitsReads(f, word, mid, end, goal);
      }
    }
  }

  /** So the cached search reads an entry of a word exactly when the uncached one does, whatever the file. */
  lemma {:induction false} CachedReads(f: LexFile, t: Tree, word: string)
    requires f.Valid() && CacheInv(f, t)
    ensures var i := Lookup(f, t, word); Reads(f, word, i.start, i.end) == IsRead(f, word)
  {
    CacheTransparent(f, t, word);
    VisitsReads(f, word, f.BlStart(), f.FileEnd(), Lookup(f, t, word));
  }

  /** An interval of fewer than ten bytes on which the search for the word gives up: it lies around the place
      of the word, and does not start the file with an entry of the word. */
  predicate Hides(f: LexFile, word: string, i: Interval)
    requires f.Valid()
  {
    && Reachable(f, i) && i.end - i.start < 10 && Between(f, word, i)
    && !(i.start == f.BlStart() && f.Cmp(word, 0) == 0)
  }

  /** No interval that halving comes to lies around an entry that it does not read. */
  ghost predicate NoneHidden(f: LexFile)
    requires f.Valid()
  {
    forall k, i {:trigger Hides(f, f.entries[k].word, i)} :: 0 <= k < |f.entries| ==> !Hides(f, f.entries[k].word, i)
  }

  /** Each probe of a wide interval moves to a shorter one that still lies around the place of the word. */
  lemma {:induction false} SearchStep(f: LexFile, word: string, start: int, end: int)
    requires f.Valid() && end - start >= 10
    requires Reachable(f, Interval(start, end)) && Between(f, word, Interval(start, end))
    ensures var mid := Middle(start, end);
            && start < mid < end
            && Reachable(f, Interval(start, mid)) && Reachable(f, Interval(mid, end))
            && (f.Cmp(word, f.Resync(mid)) < 0 ==> Between(f, word, Interval(start, mid)))
            && (f.Cmp(word, f.Resync(mid)) > 0 ==> Between(f, word, Interval(mid, end)))
  {
    HalvingStep(f.BlStart(), f.FileEnd(), start, end);
  }

  /** A search that reads no entry of the word ends in an interval that hides it. */
  lemma {:induction false} UnreadIsHidden(f: LexFile, word: string, start: int, end: int) returns (i: Interval)
    requires f.Valid() && Reachable(f, Interval(start, end)) && Between(f, word, Interval(start, end))
    requires !Reads(f, word, start, end)
    ensures Hides(f, word, i)
    decreases end - start
  {
    HalvingWithin(f.BlStart(), f.FileEnd(), Interval(start, end));
    if end - start < 10 {
      i := Interval(start, end);
      assert f.Resync(f.BlStart()) == 0 by { assert f.newline[0] == f.BlStart(); }
    } else {
      SearchStep(f, word, start, end);
      var mid := Middle(start, end);
      if f.Cmp(word, f.Resync(mid)) < 0 {
        i := UnreadIsHidden(f, word, start, mid);
      } else {
        i := UnreadIsHidden(f, word, mid, end);
      }
    }
  }

  lemma {:induction false} HiddenIsUnread(f: LexFile, word: string, i: Interval)
    requires f.Valid() && Hides(f, word, i)
    ensures !IsRead(f, word)
  {
    BetweenVisits(f, word, f.BlStart(), f.FileEnd(), i);
    VisitsReads(f, word, f.BlStart(), f.FileEnd(), i);
    assert f.Resync(f.BlStart()) == 0 by { assert f.newline[0] == f.BlStart(); }
  }

  /** The search reads an entry of a word exactly when no interval hides the word. */
  lemma {:induction false} ReadIff(f: LexFile, word: string)
    requires f.Valid()
    ensures IsRead(f, word) <==> forall i :: !Hides(f, word, i)
  {
    if !IsRead(f, word) {
      var i := UnreadIsHidden(f, word, f.BlStart(), f.FileEnd());
    } else if i :| Hides(f, word, i) {
      HiddenIsUnread(f, word, i);
    }
  }

  /** The search misses no word of the file exactly when the layout of the file hides none. */
  lemma {:induction false} NoneMissedIff(f: LexFile)
    requires f.Valid()
    ensures (forall word :: f.Present(word) ==> IsRead(f, word)) <==> NoneHidden(f)
  {
    forall k | 0 <= k < |f.entries|
      ensures IsRead(f, f.entries[k].word) <==> forall i :: !Hides(f, f.entries[k].word, i)
    {
      ReadIff(f, f.entries[k].word);
    }
    if NoneHidden(f) {
      forall word | f.Present(word) ensures IsRead(f, word) {
        var k: nat :| f.Hit(word, k);
        SameWordRead(f, f.entries[k].word, word, f.BlStart(), f.FileEnd());
      }
    }
    if forall word :: f.Present(word) ==> IsRead(f, word) {
      forall k, i | 0 <= k < |f.entries| ensures !Hides(f, f.entries[k].word, i) {
        HeadOrder(f, f.HeadOf(k), f.HeadOf(k), f.HeadOf(k));
        assert f.Hit(f.entries[k].word, k);
      }
    }
  }

  /** Words that compare alike are read alike. */
  lemma {:induction false} SameWordRead(f: LexFile, v: string, word: string, start: int, end: int)
    requires f.Valid() && f.cmp(word, v) == 0
    ensures Reads(f, v, start, end) == Reads(f, word, start, end)
    decreases end - start
  {
    forall k: nat ensures f.Cmp(v, k) < 0 <==> f.Cmp(word, k) < 0
      ensures f.Cmp(v, k) > 0 <==> f.Cmp(word, k) > 0
    {
      SameOrder(f, v, word, f.HeadOf(k));
    }
    if end - start < 10 {
    } else {
      SameWordRead(f, v, word, start, Middle(start, end));
      SameWordRead(f, v, word, Middle(start, end), end);
    }
  }

  lemma {:induction false} SameOrder(f: LexFile, v: string, word: string, h: Head)
    requires f.Valid() && f.cmp(word, v) == 0
    ensures f.HeadCmp(Headword(v), h) < 0 <==> f.HeadCmp(Headword(word), h) < 0
    ensures f.HeadCmp(Headword(v), h) > 0 <==> f.HeadCmp(Headword(word), h) > 0
  {
    var a, b := Headword(v), Headword(word);
    HeadOrder(f, a, b, h);
    HeadOrder(f, b, a, h);
    HeadOrder(f, h, a, b);
    HeadOrder(f, h, b, a);
  }

  // ---------- How long lines must be ----------

  /** With lines of nine bytes or more, an interval of fewer than ten bytes around the place of a word holds no
      entry of the word, unless it starts the file. */
  lemma {:induction false} NarrowHoldsNothing(f: LexFile, word: string, i: Interval, k: nat)
    requires f.Valid() && f.LongLines() && Between(f, word, i) && f.Hit(word, k)
    requires f.BlStart() <= i.start < i.end <= f.FileEnd() && i.end - i.start < 10
    ensures i.start == f.BlStart() && k == 0
  {
    assert k == 0 || f.newline[k - 1] + 9 <= f.newline[k - 1 + 1];
    var s, e := f.Resync(i.start), f.Resync(i.end);
    if i.start == f.BlStart() { assert s == 0 by { assert f.newline[0] >= i.start; } }
    if e <= k { CmpMonotone(f, word, e, k); }
    if k <= s { CmpMonotone(f, word, k, s); }
  }

  /** Lines of nine bytes or more hide nothing... */
  lemma {:induction false} LongLinesHideNothing(f: LexFile)
    requires f.Valid() && f.LongLines()
    ensures NoneHidden(f)
  {
    forall k, i | 0 <= k < |f.entries| ensures !Hides(f, f.entries[k].word, i) {
      var word := f.entries[k].word;
      if Hides(f, word, i) {
        HeadOrder(f, f.HeadOf(k), f.HeadOf(k), f.HeadOf(k));
        HalvingWithin(f.BlStart(), f.FileEnd(), i);
        NarrowHoldsNothing(f, word, i, k);
      }
    }
  }

  /** ...and nine is the least such length: a first line of eight bytes can hide the second entry. */
  lemma {:induction false} EightByteLineHides(f: LexFile, word: string)
    requires f.Valid() && f.newline == [4, 12, 21]
    requires f.HeadCmp(f.HeadOf(0), f.HeadOf(1)) < 0 && word == f.entries[1].word
    ensures f.Present(word) && !IsRead(f, word)
  {
    HeadOrder(f, f.HeadOf(1), f.HeadOf(1), f.HeadOf(1));
    HeadOrder(f, f.HeadOf(0), f.HeadOf(1), f.HeadOf(0));
    assert f.Hit(word, 1);
    assert f.newline[0] == 4 && f.newline[1] == 12 && f.newline[2] == 21;
    assert f.Resync(13) == 2 && f.Resync(4) == 0;
    assert Middle(4, 22) == 13 && !Reads(f, word, 4, 13);
  }
}
