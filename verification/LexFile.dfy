/** The compiled lexicon file: sorted entries, one to a line, addressed by byte offsets. */
module LexFile {
  import opened WordOrder
  import opened Wrappers

  datatype Atom = Symbol(name: string) | Number(value: int)

  /** The part of speech of an entry, and what a caller asks for. */
  datatype Features = NoFeatures | Atomic(atom: Atom) | Listed(items: seq<Atom>)

  datatype Entry = Entry(word: string, features: Features)

  /** What a read returns: a headword, or the end of the file. */
  datatype Head = Headword(word: string) | PastEnd

  /** Entry `i` lies between `newline[i]` and `newline[i + 1]`. */
  datatype LexFile = LexFile(cmp: (string, string) -> int, newline: seq<nat>, entries: seq<Entry>) {

    ghost predicate Valid() {
      && TotalPreorder(cmp)
      && |newline| == |entries| + 1
      && (forall i, j :: 0 <= i < j < |newline| ==> newline[i] < newline[j])
      && (forall i, j :: 0 <= i <= j < |entries| ==> cmp(entries[i].word, entries[j].word) <= 0)
    }

    /** No line, its newline included, is shorter than nine bytes. */
    predicate LongLines() {
      forall i :: 0 <= i < |newline| - 1 ==> newline[i] + 9 <= newline[i + 1]
    }

    function BlStart(): (p: nat)
      requires |newline| > 0
    {
      newline[0]
    }

    function FileEnd(): (p: nat)
      requires |newline| > 0
    {
      newline[|newline| - 1] + 1
    }

    /** The index of the first newline at or after `pos`; one too many when there is none. */
    function Resync(pos: int): (k: nat)
      requires forall i, j :: 0 <= i < j < |newline| ==> newline[i] < newline[j]
      ensures k <= |newline|
      ensures forall i :: 0 <= i < k ==> newline[i] < pos
      ensures forall i :: k <= i < |newline| ==> pos <= newline[i]
    {
      ResyncFrom(pos, 0)
    }

    function ResyncFrom(pos: int, from: nat): (k: nat)
      requires forall i, j :: 0 <= i < j < |newline| ==> newline[i] < newline[j]
      requires from <= |newline| && forall i :: 0 <= i < from ==> newline[i] < pos
      ensures k <= |newline|
      ensures forall i :: 0 <= i < k ==> newline[i] < pos
      ensures forall i :: k <= i < |newline| ==> pos <= newline[i]
      decreases |newline| - from
    {
      if from == |newline| || newline[from] >= pos then from else ResyncFrom(pos, from + 1)
    }

    function HeadOf(k: nat): (h: Head) {
      if k < |entries| then Headword(entries[k].word) else PastEnd
    }

    /** The headword that a probe at byte `pos` reads. */
    function HeadAt(pos: int): (h: Head)
      requires forall i, j :: 0 <= i < j < |newline| ==> newline[i] < newline[j]
    {
      HeadOf(Resync(pos))
    }

    /** The file's comparison; the end of the file compares above every word. */
    function HeadCmp(a: Head, b: Head): (c: int) {
      match (a, b)
      case (Headword(v), Headword(w)) => cmp(v, w)
      case (Headword(_), PastEnd) => -1
      case (PastEnd, Headword(_)) => 1
      case (PastEnd, PastEnd) => 0
    }

    /** How `word` compares with entry `k`. */
    function Cmp(word: string, k: nat): (c: int) {
      HeadCmp(Headword(word), HeadOf(k))
    }

    predicate Hit(word: string, k: nat) {
      k < |entries| && Cmp(word, k) == 0
    }

    predicate FullHit(word: string, wanted: Features, k: nat) {
      Hit(word, k) && FeaturesMatch(wanted, entries[k].features)
    }

    ghost predicate Present(word: string) {
      exists k :: Hit(word, k)
    }
  }

  /** Every required feature is among the actual ones. */
  predicate FeaturesMatch(wanted: Features, actual: Features) {
    || wanted.NoFeatures?
    || wanted == Listed([])
    || (wanted.Atomic? && actual == wanted)
    || (wanted.Listed? && actual.Listed? && actual.items != [] && forall x :: x in wanted.items ==> x in actual.items)
  }

  /** A feature asked for alone must be all there is; of a list, each must be among those there are. */
  lemma {:induction false} FeaturesMatchIff(a: Atom, wanted: seq<Atom>, actual: Features)
    ensures FeaturesMatch(Atomic(a), actual) <==> actual == Atomic(a)
    ensures FeaturesMatch(Listed(wanted), actual) <==>
            wanted == [] ||
            (actual.Listed? && actual.items != [] && (set x | x in wanted) <= (set x | x in actual.items))
    ensures FeaturesMatch(NoFeatures, actual)
  {
    if actual.Listed? {
      var w, there := set x | x in wanted, set x | x in actual.items;
      if w <= there {
        assert forall x :: x in wanted ==> x in w;
      }
    }
  }

  /** `r` answers a lookup: the first entry of the word whose features match; else, when the file
      goes on after the word's entries, the first of them. */
  ghost predicate IsAnswer(f: LexFile, word: string, wanted: Features, r: Option<nat>) {
    match r
    case Some(k) =>
      && f.Hit(word, k)
      && (if f.FullHit(word, wanted, k)
          then forall j :: 0 <= j < k ==> !f.FullHit(word, wanted, j)
          else (forall j: nat :: !f.FullHit(word, wanted, j))
               && (forall j :: 0 <= j < k ==> !f.Hit(word, j))
               && !f.Hit(word, |f.entries| - 1))
    case None =>
      || !f.Present(word)
      || (f.Hit(word, |f.entries| - 1) && forall j: nat :: !f.FullHit(word, wanted, j))
  }

  /** What the lookup is meant to give: the first full match, else the first headword match, else nothing. */
  ghost predicate IsIntended(f: LexFile, word: string, wanted: Features, r: Option<nat>) {
    match r
    case Some(k) =>
      && f.Hit(word, k)
      && (if f.FullHit(word, wanted, k)
          then forall j :: 0 <= j < k ==> !f.FullHit(word, wanted, j)
          else (forall j: nat :: !f.FullHit(word, wanted, j)) && forall j :: 0 <= j < k ==> !f.Hit(word, j))
    case None => !f.Present(word)
  }

  lemma {:induction false} AnswerUnique(f: LexFile, word: string, wanted: Features, r: Option<nat>, r': Option<nat>)
    requires IsAnswer(f, word, wanted, r) && IsAnswer(f, word, wanted, r')
    ensures r == r'
  {
  }

  /** The answer is the intended one except when the word's entries end the file and none has the
      features asked for. */
  lemma {:induction false} AnswerIntendedIff(f: LexFile, word: string, wanted: Features, r: Option<nat>)
    requires IsAnswer(f, word, wanted, r)
    ensures IsIntended(f, word, wanted, r) <==>
            !(|f.entries| > 0 && f.Hit(word, |f.entries| - 1) && forall j: nat :: !f.FullHit(word, wanted, j))
  {
  }

  /** Such a file: a verb is asked for, and the only entry is a noun. */
  lemma {:induction false} LastGroupLost(cmp: (string, string) -> int, word: string)
    requires TotalPreorder(cmp)
    ensures var f := LexFile(cmp, [4, 20], [Entry(word, Atomic(Symbol("n")))]);
            f.Valid() && IsAnswer(f, word, Atomic(Symbol("v")), None) && !IsIntended(f, word, Atomic(Symbol("v")), None)
  {
    var f := LexFile(cmp, [4, 20], [Entry(word, Atomic(Symbol("n")))]);
    assert cmp(word, word) == 0;
    assert f.Hit(word, 0);
    assert Symbol("n") != Symbol("v");
  }

  lemma {:induction false} HeadOrder(f: LexFile, a: Head, b: Head, c: Head)
    requires f.Valid()
    ensures f.HeadCmp(a, b) < 0 <==> f.HeadCmp(b, a) > 0
    ensures f.HeadCmp(a, b) <= 0 && f.HeadCmp(b, c) <= 0 ==> f.HeadCmp(a, c) <= 0
    ensures f.HeadCmp(a, b) < 0 && f.HeadCmp(b, c) <= 0 ==> f.HeadCmp(a, c) < 0
    ensures f.HeadCmp(a, b) <= 0 && f.HeadCmp(b, c) < 0 ==> f.HeadCmp(a, c) < 0
  {
  }

  lemma {:induction false} HeadsSorted(f: LexFile, i: nat, j: nat)
    requires f.Valid() && i <= j
    ensures f.HeadCmp(f.HeadOf(i), f.HeadOf(j)) <= 0
  {
  }

  /** A word stays below everything after an entry it is below, and above everything before one it is above. */
  lemma {:induction false} CmpMonotone(f: LexFile, word: string, i: nat, j: nat)
    requires f.Valid() && i <= j
    ensures f.Cmp(word, i) < 0 ==> f.Cmp(word, j) < 0
    ensures f.Cmp(word, j) > 0 ==> f.Cmp(word, i) > 0
  {
  }

  lemma {:induction false} ResyncMonotone(f: LexFile, p: int, q: int)
    requires f.Valid() && p <= q
    ensures f.Resync(p) <= f.Resync(q)
    ensures f.HeadCmp(f.HeadAt(p), f.HeadAt(q)) <= 0
  {
    var k := f.Resync(q);
    assert k < |f.newline| ==> q <= f.newline[k];
    HeadsSorted(f, f.Resync(p), k);
  }
}
