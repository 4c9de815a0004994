/** The lexicon object: its cache of nodes split in place, the position of its file, and the search. */
module Lexicon {
  import opened LexFile
  import opened Wrappers
  import opened Seqs
  import C = LexCache

  const DEFAULT_LEX_ENTRY_SIZE := 40

  /** A cell of the index cache. `tree` is the value of the whole subtree. */
  class CacheNode {
    const start: int
    const end: int
    var head: Head
    var left: CacheNode?
    var right: CacheNode?
    ghost var tree: C.Tree
    ghost var Repr: set<object>

    ghost predicate Valid()
      reads this, Repr
      decreases tree
      ensures Valid() ==> this in Repr
    {
      && this in Repr
      && tree.start == start && tree.end == end
      && (tree.Leaf? ==> left == null && right == null)
      && (tree.Node? ==>
            && left != null && left in Repr && left.Repr <= Repr && this !in left.Repr
            && right != null && right in Repr && right.Repr <= Repr && this !in right.Repr
            && left.Repr !! right.Repr
            && tree.head == head && tree.left == left.tree && tree.right == right.tree
            && left.Valid() && right.Valid())
    }

    constructor (start: int, end: int)
      ensures Valid() && fresh(Repr) && tree == C.Leaf(start, end)
    {
      this.start, this.end := start, end;
      head, left, right := PastEnd, null, null;
      tree := C.Leaf(start, end);
      Repr := {this};
    }

    method BlLookupCache(f: LexFile, word: string, depth: int) returns (start': int, end': int, depth': int)
      requires Valid()
      ensures C.Interval(start', end') == C.Lookup(f, tree, word)
      ensures depth' == depth + C.Level(f, tree, word)
      decreases tree
    {
      if left == null || right == null {
        return start, end, depth;
      }
      var fc := f.HeadCmp(Headword(word), head);
      if fc < 0 {
        start', end', depth' := left.BlLookupCache(f, word, depth + 1);
      } else if fc == 0 {
        return start, end, depth;
      } else {
        start', end', depth' := right.BlLookupCache(f, word, depth + 1);
      }
    }

    method AddToCache(f: LexFile, word: Head, start': int, mid: int, end': int)
      requires Valid()
      modifies Repr
      ensures Valid() && fresh(Repr - old(Repr))
      ensures tree == C.Add(f, old(tree), word, start', mid, end')
      decreases tree
    {
      if left == null || right == null {
        var a := new CacheNode(start', mid);
        var b := new CacheNode(mid, end');
        head, left, right := word, a, b;
        Repr := Repr + a.Repr + b.Repr;
        tree := C.Node(start, end, word, a.tree, b.tree);
      } else {
        var fc := f.HeadCmp(word, head);
        if fc < 0 {
          left.AddToCache(f, word, start', mid, end');
          Repr := Repr + left.Repr;
          tree := tree.(left := left.tree);
        } else if fc > 0 {
          right.AddToCache(f, word, start', mid, end');
          Repr := Repr + right.Repr;
          tree := tree.(right := right.tree);
        }
      }
    }
  }

  /** Loops over both feature lists, as the source does. */
  method MatchFeatures(wanted: Features, actual: Features) returns (r: bool)
    ensures r <==> FeaturesMatch(wanted, actual)
  {
    if wanted == NoFeatures || wanted == Listed([]) || (wanted.Atomic? && wanted == actual) {
      return true;
    } else if wanted.Listed? && actual.Listed? && actual.items != [] {
      var l := 0;
      while l < |wanted.items|
        invariant l <= |wanted.items| && forall x :: x in wanted.items[..l] ==> x in actual.items
      {
        var m := 0;
        while m < |actual.items| && wanted.items[l] != actual.items[m]
          invariant m <= |actual.items| && wanted.items[l] !in actual.items[..m]
        {
          m := m + 1;
        }
        if m == |actual.items| {
          assert wanted.items[l] !in actual.items && wanted.items[l] in wanted.items;
          return false;
        }
        l := l + 1;
      }
      return true;
    }
    return false;
  }

  /** The entries listed are those of the word, latest first, up to the one that ended the scan. */
  ghost predicate MatchesUpTo(f: LexFile, word: string, matched: seq<nat>, last: int) {
    && (forall i, j :: 0 <= i < j < |matched| ==> matched[i] > matched[j])
    && (forall k: nat :: k in matched <==> f.Hit(word, k) && k <= last)
  }

  /** The scan of a word's entries stops at the first full match, else runs through them all. */
  ghost function LastScanned(f: LexFile, word: string, wanted: Features, r: Option<nat>): int {
    if r.Some? && f.FullHit(word, wanted, r.value) then r.value else |f.entries|
  }

  /** The whole outcome of a lookup: its answer, and the matches left for later questions. */
  ghost predicate Answered(f: LexFile, word: string, wanted: Features, r: Option<nat>, matched: seq<nat>, count: nat) {
    && IsAnswer(f, word, wanted, r)
    && MatchesUpTo(f, word, matched, LastScanned(f, word, wanted, r))
    && count == |matched|
  }

  /** What a lookup does whatever the layout of the file: it answers when the search reads an entry of the word,
      and otherwise finds nothing. */
  ghost predicate Outcome(f: LexFile, word: string, wanted: Features, found: bool, r: Option<nat>, matched: seq<nat>, count: nat) {
    if found then Answered(f, word, wanted, r, matched, count) else r == None && matched == [] && count == 0
  }

  /** Finding nothing is the answer exactly when there is nothing. */
  lemma {:induction false} NothingAnswersIff(f: LexFile, word: string, wanted: Features)
    ensures Answered(f, word, wanted, None, [], 0) <==> !f.Present(word)
  {
    if k: nat :| f.Hit(word, k) {
      assert k !in [] && k <= LastScanned(f, word, wanted, None);
    }
  }

  /** A lookup gives what a scan of the whole file gives exactly when the word is not there or no interval hides it. */
  lemma {:induction false} OutcomeAnswersIff(f: LexFile, word: string, wanted: Features, r: Option<nat>, matched: seq<nat>, count: nat)
    requires f.Valid() && Outcome(f, word, wanted, C.IsRead(f, word), r, matched, count)
    ensures Answered(f, word, wanted, r, matched, count) <==>
            !f.Present(word) || forall i :: !C.Hides(f, word, i)
  {
    C.ReadIff(f, word);
    if C.IsRead(f, word) {
      C.ReadIsPresent(f, word, f.BlStart(), f.FileEnd());
    } else {
      NothingAnswersIff(f, word, wanted);
    }
  }

  /** It gives the first full match, else the first headword match, else nothing, exactly when a word that is there is
      hidden by no interval, and a word that ends the file has an entry with the features asked for. */
  lemma {:induction false} OutcomeIntendedIff(f: LexFile, word: string, wanted: Features, r: Option<nat>, matched: seq<nat>, count: nat)
    requires f.Valid() && Outcome(f, word, wanted, C.IsRead(f, word), r, matched, count)
    ensures IsIntended(f, word, wanted, r) <==>
            && (!f.Present(word) || forall i :: !C.Hides(f, word, i))
            && !(|f.entries| > 0 && f.Hit(word, |f.entries| - 1) && forall j: nat :: !f.FullHit(word, wanted, j))
  {
    OutcomeAnswersIff(f, word, wanted, r, matched, count);
    if Answered(f, word, wanted, r, matched, count) {
      AnswerIntendedIff(f, word, wanted, r);
    }
  }

  /** The forward scan is about to look at entry `n`. */
  ghost predicate ScanInv(f: LexFile, word: string, wanted: Features, n: nat, matched: seq<nat>, first: Option<nat>) {
    && n < |f.entries|
    && MatchesUpTo(f, word, matched, n - 1)
    && (forall j :: 0 <= j < n ==> !f.FullHit(word, wanted, j))
    && (match first
        case None => forall j :: 0 <= j < n ==> f.Cmp(word, j) > 0
        case Some(k) => k < n && f.Hit(word, k) && forall j :: 0 <= j < k ==> !f.Hit(word, j))
  }

  lemma {:induction false} MatchesGrow(f: LexFile, word: string, matched: seq<nat>, n: nat)
    requires MatchesUpTo(f, word, matched, n - 1)
    ensures f.Hit(word, n) ==> MatchesUpTo(f, word, [n] + matched, n)
    ensures !f.Hit(word, n) ==> MatchesUpTo(f, word, matched, n)
  {
    assert forall i :: 0 <= i < |matched| ==> matched[i] in matched;
  }

  /** The scan stops at entry `n`, which is above the word. */
  lemma {:induction false} ScanEnds(f: LexFile, word: string, wanted: Features, n: nat, matched: seq<nat>, first: Option<nat>, known: nat)
    requires f.Valid() && f.Hit(word, known) && f.Cmp(word, n) < 0
    requires ScanInv(f, word, wanted, n, matched, first)
    ensures Answered(f, word, wanted, first, matched, |matched|)
  {
  }

  lemma {:induction false} ScanFull(f: LexFile, word: string, wanted: Features, n: nat, matched: seq<nat>, first: Option<nat>)
    requires f.FullHit(word, wanted, n) && ScanInv(f, word, wanted, n, matched, first)
    ensures Answered(f, word, wanted, Some(n), [n] + matched, 1 + |matched|)
  {
    MatchesGrow(f, word, matched, n);
  }

  lemma {:induction false} ScanOn(f: LexFile, word: string, wanted: Features, n: nat, matched: seq<nat>, first: Option<nat>)
    requires !f.FullHit(word, wanted, n) && f.Cmp(word, n) >= 0 && n + 1 < |f.entries|
    requires ScanInv(f, word, wanted, n, matched, first)
    ensures f.Hit(word, n) ==>
              ScanInv(f, word, wanted, n + 1, [n] + matched, if first.None? then Some(n) else first)
    ensures !f.Hit(word, n) ==> ScanInv(f, word, wanted, n + 1, matched, first)
  {
    MatchesGrow(f, word, matched, n);
  }

  lemma {:induction false} ScanRunsOff(f: LexFile, word: string, wanted: Features, matched: seq<nat>, first: Option<nat>, known: nat)
    requires f.Valid() && f.Hit(word, known) && f.Cmp(word, |f.entries| - 1) >= 0
    requires !f.FullHit(word, wanted, |f.entries| - 1) && ScanInv(f, word, wanted, |f.entries| - 1, matched, first)
    ensures f.Hit(word, |f.entries| - 1)
    ensures Answered(f, word, wanted, None, [|f.entries| - 1] + matched, 1 + |matched|)
  {
    var n := |f.entries| - 1;
    CmpMonotone(f, word, known, n);
    assert f.Hit(word, n);
    MatchesGrow(f, word, matched, n);
    assert forall j: nat :: !f.FullHit(word, wanted, j);
  }

  /** The scan looks at entry `n`, which is not above the word. */
  lemma {:induction false} ScanStep(f: LexFile, word: string, wanted: Features, n: nat, matched: seq<nat>, first: Option<nat>, known: nat)
    requires f.Valid() && f.Hit(word, known) && f.Cmp(word, n) >= 0
    requires ScanInv(f, word, wanted, n, matched, first)
    ensures var matched' := if f.Cmp(word, n) == 0 then [n] + matched else matched;
            var first' := if f.Cmp(word, n) == 0 && first.None? then Some(n) else first;
            if f.FullHit(word, wanted, n) then Answered(f, word, wanted, Some(n), matched', |matched'|)
            else if n + 1 < |f.entries| then ScanInv(f, word, wanted, n + 1, matched', first')
            else Answered(f, word, wanted, None, matched', |matched'|)
  {
    if f.FullHit(word, wanted, n) {
      ScanFull(f, word, wanted, n, matched, first);
    } else if n + 1 < |f.entries| {
      ScanOn(f, word, wanted, n, matched, first);
    } else {
      ScanRunsOff(f, word, wanted, matched, first, known);
    }
  }

  /** A result of looking up all entries: one from the addenda, or one of the file by its number. */
  datatype Found = Addendum(entry: Entry) | Compiled(number: nat)

  function AddendaFound(cmp: (string, string) -> int, addenda: seq<Entry>, word: string): seq<Found> {
    if addenda == [] then []
    else
      var last := addenda[|addenda| - 1];
      AddendaFound(cmp, addenda[..|addenda| - 1], word) + if cmp(word, last.word) == 0 then [Addendum(last)] else []
  }

  /** The numbers of all addenda of the word, in the order they are listed. */
  ghost predicate IsAllAddenda(cmp: (string, string) -> int, addenda: seq<Entry>, word: string, idx: seq<nat>) {
    && (forall i, j :: 0 <= i < j < |idx| ==> idx[i] < idx[j])
    && (forall i: nat :: i in idx <==> i < |addenda| && cmp(word, addenda[i].word) == 0)
  }

  function AddendaAt(addenda: seq<Entry>, idx: seq<nat>): seq<Found>
    requires forall k :: 0 <= k < |idx| ==> idx[k] < |addenda|
  {
    seq(|idx|, k requires 0 <= k < |idx| => Addendum(addenda[idx[k]]))
  }

  /** Exactly the addenda of the word are found, each once and in order. */
  lemma {:induction false} AddendaFoundAll(cmp: (string, string) -> int, addenda: seq<Entry>, word: string) returns (idx: seq<nat>)
    ensures IsAllAddenda(cmp, addenda, word, idx) && forall k :: 0 <= k < |idx| ==> idx[k] < |addenda|
    ensures AddendaFound(cmp, addenda, word) == AddendaAt(addenda, idx)
  {
    if addenda == [] {
      idx := [];
    } else {
      var n := |addenda| - 1;
      var before := AddendaFoundAll(cmp, addenda[..n], word);
      idx := before + if cmp(word, addenda[n].word) == 0 then [n] else [];
      OneMoreAddendum(cmp, addenda, word, before);
      OneMoreFound(addenda, before);
      assert before + [] == before;
    }
  }

  lemma {:induction false} OneMoreFound(addenda: seq<Entry>, before: seq<nat>)
    requires addenda != [] && forall k :: 0 <= k < |before| ==> before[k] < |addenda| - 1
    ensures var n := |addenda| - 1;
            && AddendaAt(addenda[..n], before) == AddendaAt(addenda, before)
            && AddendaAt(addenda, before + [n]) == AddendaAt(addenda, before) + [Addendum(addenda[n])]
  {
  }

  lemma {:induction false} OneMoreAddendum(cmp: (string, string) -> int, addenda: seq<Entry>, word: string, before: seq<nat>)
    requires addenda != [] && IsAllAddenda(cmp, addenda[..|addenda| - 1], word, before)
    ensures var n := |addenda| - 1;
            var idx := before + if cmp(word, addenda[n].word) == 0 then [n] else [];
            IsAllAddenda(cmp, addenda, word, idx) && forall k :: 0 <= k < |idx| ==> idx[k] < |addenda|
  {
    var n := |addenda| - 1;
    assert forall k :: 0 <= k < |before| ==> before[k] in before;
    assert forall i :: 0 <= i < n ==> addenda[..n][i] == addenda[i];
  }

  function CompiledFound(numbers: seq<nat>): seq<Found> {
    seq(|numbers|, i requires 0 <= i < |numbers| => Compiled(numbers[i]))
  }

  /** Features that entries are not expected to have. */
  const NO_FEATURE := Atomic(Number(-1))

  /** The numbers of all entries of the word, in file order. */
  ghost predicate IsAllHits(f: LexFile, word: string, hits: seq<nat>) {
    && (forall i, j :: 0 <= i < j < |hits| ==> hits[i] < hits[j])
    && (forall k: nat :: k in hits <==> f.Hit(word, k))
  }

  /** The numbers listed, in file order: the entries of a word that is read, up to the first with the unexpected features. */
  ghost predicate IsListed(f: LexFile, word: string, hits: seq<nat>)
    requires f.Valid()
  {
    && (forall i, j :: 0 <= i < j < |hits| ==> hits[i] < hits[j])
    && (forall k: nat :: k in hits <==>
          f.Hit(word, k) && C.IsRead(f, word) && forall j :: 0 <= j < k ==> !f.FullHit(word, NO_FEATURE, j))
  }

  /** All entries of a word are listed exactly when it is not hidden and none but its last has those features. */
  lemma {:induction false} ListedAllIff(f: LexFile, word: string, hits: seq<nat>)
    requires f.Valid() && IsListed(f, word, hits)
    ensures IsAllHits(f, word, hits) <==>
            && (!f.Present(word) || forall i :: !C.Hides(f, word, i))
            && forall j: nat, k: nat :: j < k && f.Hit(word, k) ==> !f.FullHit(word, NO_FEATURE, j)
  {
    C.ReadIff(f, word);
    if k: nat :| f.Hit(word, k) && !C.IsRead(f, word) {
      assert k !in hits;
    }
    if j: nat, k: nat :| j < k && f.Hit(word, k) && f.FullHit(word, NO_FEATURE, j) {
      assert k !in hits;
    }
  }

  /** The latest match is consed on the front. */
  method MatchAddenda(cmp: (string, string) -> int, addenda: seq<Entry>, word: string) returns (entries: seq<Found>)
    ensures Reverse(entries) == AddendaFound(cmp, addenda, word)
  {
    entries := [];
    for l := 0 to |addenda|
      invariant Reverse(entries) == AddendaFound(cmp, addenda[..l], word)
    {
      assert addenda[..l + 1][..l] == addenda[..l];
      if cmp(word, addenda[l].word) == 0 {
        ReverseAppend([Addendum(addenda[l])], entries);
        entries := [Addendum(addenda[l])] + entries;
      }
    }
    assert addenda[..|addenda|] == addenda;
  }

  lemma {:induction false} MatchesListed(f: LexFile, word: string, r: Option<nat>, matched: seq<nat>, count: nat, k: nat)
    requires f.Valid() && Outcome(f, word, NO_FEATURE, C.IsRead(f, word), r, matched, count)
    ensures k in matched <==>
            f.Hit(word, k) && C.IsRead(f, word) && forall j :: 0 <= j < k ==> !f.FullHit(word, NO_FEATURE, j)
  {
    if C.IsRead(f, word) && r.Some? && f.FullHit(word, NO_FEATURE, r.value) && r.value < k {
      assert k !in matched;
    }
  }

  lemma {:induction false} AllReversed(f: LexFile, word: string, r: Option<nat>, matched: seq<nat>, count: nat, entries: seq<Found>)
    requires f.Valid() && Outcome(f, word, NO_FEATURE, C.IsRead(f, word), r, matched, count)
    ensures IsListed(f, word, Reverse(matched))
    ensures Reverse(CompiledFound(matched) + entries) == Reverse(entries) + CompiledFound(Reverse(matched))
  {
    var hits := Reverse(matched);
    ReverseAt(matched);
    ReverseAt(CompiledFound(matched));
    ReverseAppend(CompiledFound(matched), entries);
    assert Reverse(CompiledFound(matched)) == CompiledFound(hits);
    forall k: nat
      ensures k in hits <==>
              f.Hit(word, k) && C.IsRead(f, word) && forall j :: 0 <= j < k ==> !f.FullHit(word, NO_FEATURE, j)
    {
      ReverseMembers(matched, k);
      MatchesListed(f, word, r, matched, count, k);
    }
  }

  class Lexicon {
    const file: LexFile
    const indexCache: CacheNode
    /** The next entry to be read from the file. */
    var cursor: nat
    var matchedLexicalEntries: seq<nat>
    var lexEntryMatch: nat

    /** The cache cells form a tree. */
    ghost predicate Shaped()
      reads this, indexCache, indexCache.Repr
    {
      this !in indexCache.Repr && indexCache.Valid()
    }

    ghost predicate Valid()
      reads this, indexCache, indexCache.Repr
    {
      file.Valid() && Shaped() && C.CacheInv(file, indexCache.tree)
    }

    constructor (f: LexFile)
      requires f.Valid()
      ensures Valid() && file == f && fresh(this.indexCache.Repr)
      ensures indexCache.tree == C.AfterLookups(f, [])
    {
      file := f;
      indexCache := new CacheNode(f.BlStart(), f.FileEnd());
      cursor, matchedLexicalEntries, lexEntryMatch := 0, [], 0;
      new;
      C.InitialCache(f);
    }

    method ReadEntry() returns (k: nat)
      modifies `cursor
      ensures k == old(cursor) && cursor == k + 1
    {
      k := cursor;
      cursor := cursor + 1;
    }

    /** Skips to the next newline byte by byte, then reads the entry after it. */
    method BlFindNextEntry(pos: int) returns (k: nat)
      requires file.Valid() && file.BlStart() <= pos < file.FileEnd()
      modifies `cursor
      ensures k == file.Resync(pos) && cursor == k + 1
    {
      var c := pos;
      while c !in file.newline
        invariant pos <= c < file.FileEnd()
        invariant forall i :: 0 <= i < |file.newline| && pos <= file.newline[i] ==> c <= file.newline[i]
        decreases file.FileEnd() - c
      {
        assert c != file.newline[|file.newline| - 1];
        c := c + 1;
      }
      var line: nat :| line < |file.newline| && file.newline[line] == c;
      assert c <= file.newline[file.Resync(pos)];
      cursor := line;
      k := ReadEntry();
    }

    method BlFindActualEntry(pos: int, word: string, features: Features) returns (r: Option<nat>)
      requires file.Valid() && file.BlStart() <= pos < file.FileEnd()
      requires file.Hit(word, file.Resync(pos))
      modifies `cursor, `matchedLexicalEntries, `lexEntryMatch
      ensures Answered(file, word, features, r, matchedLexicalEntries, lexEntryMatch)
    {
      var p, back := pos, true;
      while back
        invariant back ==> file.BlStart() <= p <= pos
        invariant !back ==> cursor <= file.Resync(pos) && forall j :: 0 <= j < cursor ==> file.Cmp(word, j) > 0
        decreases back, p
      {
        p := p - DEFAULT_LEX_ENTRY_SIZE;
        if p < file.BlStart() {
          p := file.BlStart();
          cursor := 0;
          back := false;
        } else {
          var k := BlFindNextEntry(p);
          back := file.Cmp(word, k) == 0;
          ResyncMonotone(file, p, pos);
          CmpMonotone(file, word, k, file.Resync(pos));
          forall j | 0 <= j <= k ensures !back ==> file.Cmp(word, j) > 0 { CmpMonotone(file, word, j, k); }
        }
      }
      r := ScanEntries(word, features, file.Resync(pos));
    }

    /** The forward scan at the end of the function above. */
    method ScanEntries(word: string, features: Features, ghost known: nat) returns (r: Option<nat>)
      requires file.Valid() && file.Hit(word, known)
      requires cursor <= known && forall j :: 0 <= j < cursor ==> file.Cmp(word, j) > 0
      modifies `cursor, `matchedLexicalEntries, `lexEntryMatch
      ensures Answered(file, word, features, r, matchedLexicalEntries, lexEntryMatch)
    {
      var n := ReadEntry();
      lexEntryMatch, matchedLexicalEntries := 0, [];
      var first: Option<nat> := None;
      while file.Cmp(word, n) >= 0
        invariant cursor == n + 1 && lexEntryMatch == |matchedLexicalEntries|
        invariant ScanInv(file, word, features, n, matchedLexicalEntries, first)
        decreases |file.entries| - n
      {
        ScanStep(file, word, features, n, matchedLexicalEntries, first, known);
        if file.Cmp(word, n) == 0 {
          first := if first.None? then Some(n) else first;
          matchedLexicalEntries := [n] + matchedLexicalEntries;
          lexEntryMatch := lexEntryMatch + 1;
          var matches := MatchFeatures(features, file.entries[n].features);
          if matches {
            return Some(n);
          }
        }
        n := ReadEntry();
        if n >= |file.entries| {
          return None;
        }
      }
      ScanEnds(file, word, features, n, matchedLexicalEntries, first, known);
      return first;
    }

    /** Reads the entry after `mid` and, near the top of the search, remembers it in the cache. */
    method Probe(start: int, mid: int, end: int, depth: int) returns (closest: nat)
      requires Shaped() && file.Valid() && file.BlStart() <= mid < file.FileEnd()
      modifies `cursor, indexCache.Repr
      ensures Shaped() && fresh(indexCache.Repr - old(indexCache.Repr))
      ensures closest == file.Resync(mid) && cursor == closest + 1
      ensures indexCache.tree == C.Probed(file, old(indexCache.tree), start, mid, end, depth)
    {
      closest := BlFindNextEntry(mid);
      if depth < C.CACHE_DEPTH && end - start > 256 {
        indexCache.AddToCache(file, file.HeadOf(closest), start, mid, end);
      }
    }

    method BlBsearch(word: string, features: Features, start: int, end: int, depth: int) returns (r: Option<nat>)
      requires Shaped() && file.Valid() && file.BlStart() <= start <= end <= file.FileEnd()
      requires matchedLexicalEntries == [] && lexEntryMatch == 0
      modifies `cursor, `matchedLexicalEntries, `lexEntryMatch, indexCache.Repr
      ensures Shaped() && fresh(indexCache.Repr - old(indexCache.Repr))
      ensures indexCache.tree == C.Grown(file, old(indexCache.tree), word, start, end, depth)
      ensures Outcome(file, word, features, C.Reads(file, word, start, end), r, matchedLexicalEntries, lexEntryMatch)
      decreases end - start
    {
      C.GrownStep(file, indexCache.tree, word, start, end, depth);
      r := None;
      if start < end && (end - start >= 10 || start == file.BlStart()) {
        var mid, end' := C.Middle(start, end), end;
        if end - start < 10 {
          mid, end' := start, start;
        }
        var closest := Probe(start, mid, end', depth);
        var compare := file.Cmp(word, closest);
        if compare == 0 {
          r := BlFindActualEntry(mid, word, features);
        } else if compare < 0 {
          r := BlBsearch(word, features, start, mid, depth + 1);
        } else {
          r := BlBsearch(word, features, mid, end', depth + 1);
        }
      }
    }

    /** Whatever was looked up before, a lookup ends as the search of the whole file would. */
    method LookupComplex(word: string, features: Features) returns (r: Option<nat>)
      requires Valid()
      modifies `cursor, `matchedLexicalEntries, `lexEntryMatch, indexCache.Repr
      ensures Valid() && fresh(indexCache.Repr - old(indexCache.Repr))
      ensures indexCache.tree == C.AfterLookup(file, old(indexCache.tree), word)
      ensures Outcome(file, word, features, C.IsRead(file, word), r, matchedLexicalEntries, lexEntryMatch)
    {
      matchedLexicalEntries, lexEntryMatch := [], 0;
      var start, end, depth := indexCache.BlLookupCache(file, word, 0);
      C.LookupBetween(file, indexCache.tree, word, None, None);
      C.LookupAnchored(file, indexCache.tree, indexCache.tree, word);
      C.HalvingWithin(file.BlStart(), file.FileEnd(), C.Lookup(file, indexCache.tree, word));
      C.GrownKeepsCache(file, indexCache.tree, word, C.Interval(start, end), depth);
      C.CachedReads(file, indexCache.tree, word);
      r := BlBsearch(word, features, start, end, depth);
    }

    /** Every addendum of the word, then the compiled entries that the lookup lists, in the order they are written. */
    method LookupAll(addenda: seq<Entry>, word: string) returns (r: seq<Found>)
      requires Valid()
      modifies `cursor, `matchedLexicalEntries, `lexEntryMatch, indexCache.Repr
      ensures Valid() && fresh(indexCache.Repr - old(indexCache.Repr))
      ensures exists idx, hits :: IsAllAddenda(file.cmp, addenda, word, idx) && IsListed(file, word, hits)
                && (forall k :: 0 <= k < |idx| ==> idx[k] < |addenda|)
                && r == AddendaAt(addenda, idx) + CompiledFound(hits)
    {
      var entries := MatchAddenda(file.cmp, addenda, word);
      ghost var idx := AddendaFoundAll(file.cmp, addenda, word);
      var found := LookupComplex(word, NO_FEATURE);
      AllReversed(file, word, found, matchedLexicalEntries, lexEntryMatch, entries);
      r := Reverse(CompiledFound(matchedLexicalEntries) + entries);
    }
  }
}
