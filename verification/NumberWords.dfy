/** Numbers spelled out in words, and read back. */
module NumberWords {

  /** The words of numbers: those below twenty, the tens from twenty, and the rest. */
  datatype Word = Unit(n: nat) | Ten(n: nat) | And | Hundred | Thousand | Million | Minus

  type Words = seq<Word>

  predicate IsWord(w: Word) {
    (w.Unit? ==> w.n < 20) && (w.Ten? ==> 2 <= w.n < 10)
  }

  predicate AreWords(words: Words) { forall i :: 0 <= i < |words| ==> IsWord(words[i]) }

  /** Spells a number out; American English leaves out the "and" after "hundred". */
  function Num2Words(n: int, american: bool): Words
    decreases if n < 0 then 1 else 0, if n < 0 then -n else n
  {
    if n < 0 then [Minus] + Num2Words(-n, american)
    else if n < 20 then [Unit(n)]
    else if n < 100 then [Ten(n / 10)] + if n % 10 != 0 then Num2Words(n % 10, american) else []
    else if n < 1000 then
      Num2Words(n / 100, american) + [Hundred] +
      (if n % 100 == 0 then []
       else if american then Num2Words(n % 100, american)
       else [And] + Num2Words(n % 100, american))
    else if n < 1000000 then
      Num2Words(n / 1000, american) + [Thousand] +
      (if n % 1000 == 0 then []
       else if n % 1000 / 100 == 0 then [And] + Num2Words(n % 1000, american)
       else Num2Words(n % 1000, american))
    else
      Num2Words(n / 1000000, american) + [Million] +
      (if n % 1000000 == 0 then [] else Num2Words(n % 1000000, american))
  }

  // ---------- Reading back ----------

  /** Where a word last occurs, or -1. */
  function LastIndex(words: Words, w: Word): (i: int)
    ensures -1 <= i < |words|
    ensures i >= 0 ==> words[i] == w
    ensures forall j :: i < j < |words| ==> words[j] != w
  {
    if words == [] then -1
    else if words[|words| - 1] == w then |words| - 1
    else LastIndex(words[..|words| - 1], w)
  }

  function Value(w: Word): nat { if w.Unit? then w.n else if w.Ten? then 10 * w.n else 0 }

  function ReadTens(words: Words): nat {
    if words == [] then 0 else Value(words[0]) + ReadTens(words[1..])
  }

  function ReadHundreds(words: Words): nat {
    var i := LastIndex(words, Hundred);
    if i < 0 then ReadTens(words) else 100 * ReadTens(words[..i]) + ReadTens(words[i + 1..])
  }

  function ReadThousands(words: Words): nat {
    var i := LastIndex(words, Thousand);
    if i < 0 then ReadHundreds(words) else 1000 * ReadHundreds(words[..i]) + ReadHundreds(words[i + 1..])
  }

  function ReadMillions(words: Words): nat
    decreases |words|
  {
    var i := LastIndex(words, Million);
    if i < 0 then ReadThousands(words) else 1000000 * ReadMillions(words[..i]) + ReadThousands(words[i + 1..])
  }

  /** Splits at the last "million", then "thousand", then "hundred", adds up what is left, and skips "and". */
  function Read(words: Words): int {
    if words != [] && words[0] == Minus then -(ReadMillions(words[1..]) as int) else ReadMillions(words)
  }

  // ---------- Which words occur ----------

  /** How large a number it takes for a word to occur. */
  function Level(w: Word): nat {
    match w
    case Hundred => 1
    case Thousand => 2
    case Million => 3
    case Minus => 4
    case _ => 0
  }

  predicate UpTo(words: Words, l: nat) { forall i :: 0 <= i < |words| ==> IsWord(words[i]) && Level(words[i]) <= l }

  lemma {:induction false} UpToJoin(a: Words, w: Word, b: Words, l: nat)
    requires UpTo(a, l) && UpTo(b, l) && IsWord(w) && Level(w) <= l
    ensures UpTo(a + [w] + b, l)
  {
  }

  function LevelOf(n: nat): nat { if n < 100 then 0 else if n < 1000 then 1 else if n < 1000000 then 2 else 3 }

  lemma {:induction false} WordsUpTo(n: nat, american: bool)
    ensures UpTo(Num2Words(n, american), LevelOf(n))
    ensures Num2Words(n, american) != []
  {
    if n < 20 {
    } else if n < 100 {
      if n % 10 != 0 { WordsUpTo(n % 10, american); }
    } else if n < 1000 {
      WordsUpTo(n / 100, american);
      WordsUpTo(n % 100, american);
      Spelled(n, american);
      UpToJoin(Num2Words(n / 100, american), Hundred, Rest(n, 100, american), 1);
    } else if n < 1000000 {
      WordsUpTo(n / 1000, american);
      WordsUpTo(n % 1000, american);
      Spelled(n, american);
      UpToJoin(Num2Words(n / 1000, american), Thousand, Rest(n, 1000, american), 2);
    } else {
      WordsUpTo(n / 1000000, american);
      WordsUpTo(n % 1000000, american);
      Spelled(n, american);
      UpToJoin(Num2Words(n / 1000000, american), Million, Rest(n, 1000000, american), 3);
    }
  }

  /** What follows "hundred", "thousand" or "million". */
  function Rest(n: nat, unit: nat, american: bool): Words
    requires unit > 0
  {
    var lo := n % unit;
    if lo == 0 then []
    else if (unit == 100 && !american) || (unit == 1000 && lo / 100 == 0) then [And] + Num2Words(lo, american)
    else Num2Words(lo, american)
  }

  lemma {:induction false} Spelled(n: nat, american: bool)
    requires n >= 100
    ensures n < 1000 ==> Num2Words(n, american) == Num2Words(n / 100, american) + [Hundred] + Rest(n, 100, american)
    ensures 1000 <= n < 1000000 ==> Num2Words(n, american) == Num2Words(n / 1000, american) + [Thousand] + Rest(n, 1000, american)
    ensures n >= 1000000 ==> Num2Words(n, american) == Num2Words(n / 1000000, american) + [Million] + Rest(n, 1000000, american)
  {
  }

  lemma {:induction false} SplitsAt(a: Words, w: Word, b: Words, l: nat)
    requires UpTo(b, l) && Level(w) > l
    ensures LastIndex(a + [w] + b, w) == |a|
    ensures (a + [w] + b)[..|a|] == a && (a + [w] + b)[|a| + 1..] == b
  {
    var s := a + [w] + b;
    assert s[|a|] == w;
    assert forall j :: |a| < j < |s| ==> s[j] == b[j - |a| - 1];
  }

  lemma {:induction false} NotThere(words: Words, w: Word, l: nat)
    requires UpTo(words, l) && Level(w) > l
    ensures LastIndex(words, w) == -1
  {
  }

  // ---------- Reading back what was spelled ----------

  lemma {:induction false} ReadTensBack(n: nat, american: bool)
    requires n < 100
    ensures ReadTens(Num2Words(n, american)) == n
    ensures ReadTens([And] + Num2Words(n, american)) == n
  {
    var words := Num2Words(n, american);
    if n < 20 || n % 10 == 0 {
      assert words[1..] == [];
    } else {
      ReadTensBack(n % 10, american);
      assert words[1..] == Num2Words(n % 10, american);
    }
    assert ([And] + words)[1..] == words;
  }

  lemma {:induction false} HundredsRead(a: Words, b: Words, hi: nat, lo: nat)
    requires ReadTens(a) == hi && ReadTens(b) == lo && UpTo(b, 0)
    ensures ReadHundreds(a + [Hundred] + b) == 100 * hi + lo
  {
    SplitsAt(a, Hundred, b, 0);
  }

  lemma {:induction false} ThousandsRead(a: Words, b: Words, hi: nat, lo: nat)
    requires ReadHundreds(a) == hi && ReadHundreds(b) == lo && UpTo(b, 1)
    ensures ReadThousands(a + [Thousand] + b) == 1000 * hi + lo
  {
    SplitsAt(a, Thousand, b, 1);
  }

  lemma {:induction false} MillionsRead(a: Words, b: Words, hi: nat, lo: nat)
    requires ReadMillions(a) == hi && ReadThousands(b) == lo && UpTo(b, 2)
    ensures ReadMillions(a + [Million] + b) == 1000000 * hi + lo
  {
    SplitsAt(a, Million, b, 2);
  }

  lemma {:induction false} NoHundred(words: Words)
    requires UpTo(words, 0)
    ensures ReadHundreds(words) == ReadTens(words) && ReadHundreds([And] + words) == ReadTens([And] + words)
  {
  }

  lemma {:induction false} ReadRest100(n: nat, american: bool)
    ensures ReadTens(Rest(n, 100, american)) == n % 100 && UpTo(Rest(n, 100, american), 0)
  {
    ReadTensBack(n % 100, american);
    WordsUpTo(n % 100, american);
  }

  lemma {:induction false} ReadHundredsBack(n: nat, american: bool)
    requires n < 1000
    ensures ReadHundreds(Num2Words(n, american)) == n
    ensures n < 100 ==> ReadHundreds([And] + Num2Words(n, american)) == n
  {
    if n < 100 {
      WordsUpTo(n, american);
      ReadTensBack(n, american);
      NoHundred(Num2Words(n, american));
    } else {
      ReadTensBack(n / 100, american);
      ReadRest100(n, american);
      HundredsRead(Num2Words(n / 100, american), Rest(n, 100, american), n / 100, n % 100);
      Spelled(n, american);
    }
  }

  lemma {:induction false} ReadRest1000(n: nat, american: bool)
    ensures ReadHundreds(Rest(n, 1000, american)) == n % 1000 && UpTo(Rest(n, 1000, american), 1)
  {
    ReadHundredsBack(n % 1000, american);
    WordsUpTo(n % 1000, american);
    NoHundred([]);
  }

  lemma {:induction false} ReadThousandsBack(n: nat, american: bool)
    requires n < 1000000
    ensures ReadThousands(Num2Words(n, american)) == n
  {
    if n < 1000 {
      ReadHundredsBack(n, american);
      WordsUpTo(n, american);
      NotThere(Num2Words(n, american), Thousand, 1);
    } else {
      ReadHundredsBack(n / 1000, american);
      ReadRest1000(n, american);
      ThousandsRead(Num2Words(n / 1000, american), Rest(n, 1000, american), n / 1000, n % 1000);
      Spelled(n, american);
    }
  }

  lemma {:induction false} ReadRestMillion(n: nat, american: bool)
    ensures ReadThousands(Rest(n, 1000000, american)) == n % 1000000 && UpTo(Rest(n, 1000000, american), 2)
  {
    var lo := n % 1000000;
    assert Rest(n, 1000000, american) == if lo == 0 then [] else Num2Words(lo, american);
    ReadThousandsBack(lo, american);
    WordsUpTo(lo, american);
    NotThere([], Thousand, 1);
    NoHundred([]);
  }

  lemma {:induction false} ReadMillionsBack(n: nat, american: bool)
    ensures ReadMillions(Num2Words(n, american)) == n
  {
    if n < 1000000 {
      ReadThousandsBack(n, american);
      WordsUpTo(n, american);
      NotThere(Num2Words(n, american), Million, 2);
    } else {
      ReadMillionsBack(n / 1000000, american);
      ReadRestMillion(n, american);
      MillionsRead(Num2Words(n / 1000000, american), Rest(n, 1000000, american), n / 1000000, n % 1000000);
      Spelled(n, american);
    }
  }

  lemma {:induction false} ReadNonNegative(words: Words)
    requires UpTo(words, 3)
    ensures Read(words) == ReadMillions(words)
    ensures Read([Minus] + words) == -(ReadMillions(words) as int)
  {
  }

  lemma {:induction false} ReadNatBack(n: nat, american: bool)
    ensures Read(Num2Words(n, american)) == n
    ensures Read([Minus] + Num2Words(n, american)) == -(n as int)
  {
    ReadMillionsBack(n, american);
    WordsUpTo(n, american);
    ReadNonNegative(Num2Words(n, american));
  }

  lemma {:induction false} MinusSpelled(n: int, american: bool)
    requires n < 0
    ensures Num2Words(n, american) == [Minus] + Num2Words(-n, american)
  {
  }

  /** Reading the words of a number gives the number, in both ways of spelling. */
  lemma {:induction false} ReadBack(n: int, american: bool)
    ensures Read(Num2Words(n, american)) == n
  {
    if n < 0 {
      MinusSpelled(n, american);
      ReadNatBack(-n, american);
    } else {
      ReadNatBack(n, american);
    }
  }

  predicate EndsNumber(words: Words) {
    words != [] && words[|words| - 1] != And && words[|words| - 1] != Minus
  }

  lemma {:induction false} LastWordNat(n: nat, american: bool)
    ensures EndsNumber(Num2Words(n, american))
  {
    if 20 <= n < 100 && n % 10 != 0 {
      LastWordNat(n % 10, american);
    } else if 100 <= n < 1000 {
      Spelled(n, american);
      if n % 100 != 0 { LastWordNat(n % 100, american); }
      EndsRest(Num2Words(n / 100, american), Hundred, Rest(n, 100, american));
    } else if 1000 <= n < 1000000 {
      Spelled(n, american);
      if n % 1000 != 0 { LastWordNat(n % 1000, american); }
      EndsRest(Num2Words(n / 1000, american), Thousand, Rest(n, 1000, american));
    } else if n >= 1000000 {
      Spelled(n, american);
      if n % 1000000 != 0 { LastWordNat(n % 1000000, american); }
      EndsRest(Num2Words(n / 1000000, american), Million, Rest(n, 1000000, american));
    }
  }

  lemma {:induction false} EndsRest(a: Words, w: Word, b: Words)
    requires w != And && w != Minus && (b == [] || EndsNumber(b))
    ensures EndsNumber(a + [w] + b)
  {
  }

  /** Every word is one there is, and the last is not "and" or "minus". */
  lemma {:induction false} LastWord(n: int, american: bool)
    ensures AreWords(Num2Words(n, american)) && EndsNumber(Num2Words(n, american))
  {
    var m := if n < 0 then -n else n;
    LastWordNat(m, american);
    WordsUpTo(m, american);
    MinusInFront(Num2Words(m, american));
  }

  lemma {:induction false} MinusInFront(words: Words)
    requires EndsNumber(words) && UpTo(words, 3)
    ensures AreWords(words) && AreWords([Minus] + words) && EndsNumber([Minus] + words)
  {
  }

  // ---------- Where "and" stands ----------

  /** The words up to the first of those that end a group. */
  function Group(words: Words, stops: set<Word>): Words {
    if words == [] || words[0] in stops then [] else [words[0]] + Group(words[1..], stops)
  }

  /** An "and" is called for after "hundred", outside American English, when a number below a hundred follows before the next
      "thousand" or "million"; and after "thousand" when something without a "hundred" follows before the next "million". */
  predicate CallsForAnd(before: Word, after: Words, american: bool) {
    || (before == Hundred && !american && exists x :: x in Group(after, {Thousand, Million}) && (x.Unit? || x.Ten?))
    || (before == Thousand && Group(after, {Million}) != [] && Hundred !in Group(after, {Million}))
  }

  /** Word `i` is an "and" exactly when one is called for there. */
  predicate AndPlacedAt(words: Words, i: nat, american: bool)
    requires i < |words|
  {
    words[i] == And <==> i > 0 && CallsForAnd(words[i - 1], words[i..], american)
  }

  /** An "and" stands exactly where it is called for. */
  predicate AndPlaced(words: Words, american: bool) {
    forall i :: 0 <= i < |words| ==> AndPlacedAt(words, i, american)
  }

  /** Everything in `a` whose group `w` ends is ended by it. */
  predicate StoppedBy(a: Words, w: Word) {
    forall x :: x in a ==> (x == Hundred ==> w == Thousand || w == Million) && (x == Thousand ==> w == Million)
  }

  lemma {:induction false} GroupStops(a: Words, w: Word, b: Words, stops: set<Word>)
    requires w in stops
    ensures Group(a + [w] + b, stops) == Group(a, stops)
  {
    if a == [] {
      assert (a + [w] + b)[0] == w;
    } else {
      GroupStops(a[1..], w, b, stops);
      assert (a + [w] + b)[1..] == a[1..] + [w] + b;
    }
  }

  lemma {:induction false} GroupWhole(words: Words, stops: set<Word>)
    requires forall x :: x in words ==> x !in stops
    ensures Group(words, stops) == words
  {
    if words == [] {
    } else {
      assert words[0] in words;
      GroupWhole(words[1..], stops);
    }
  }

  lemma {:induction false} CallsStopped(x: Word, a: Words, w: Word, b: Words, american: bool)
    requires StoppedBy([x], w)
    ensures CallsForAnd(x, a + [w] + b, american) == CallsForAnd(x, a, american)
  {
    assert x in [x];
    if x == Hundred {
      GroupStops(a, w, b, {Thousand, Million});
    } else if x == Thousand {
      GroupStops(a, w, b, {Million});
    }
  }

  /** The rest after a word: "and" is in front exactly when that word calls for it, and is where it should be further on. */
  predicate RestPlaced(w: Word, b: Words, american: bool) {
    && (b != [] ==> (b[0] == And <==> CallsForAnd(w, b, american)))
    && forall i :: 0 < i < |b| ==> (b[i] == And <==> CallsForAnd(b[i - 1], b[i..], american))
  }

  lemma {:induction false} JoinPlacedBefore(a: Words, w: Word, b: Words, american: bool, i: nat)
    requires AndPlaced(a, american) && StoppedBy(a, w) && w != And && i <= |a|
    ensures AndPlacedAt(a + [w] + b, i, american)
  {
    var words := a + [w] + b;
    assert words[i..] == a[i..] + [w] + b;
    assert i < |a| ==> AndPlacedAt(a, i, american);
    if i > 0 {
      var before := a[i - 1];
      assert before in a && words[i - 1] == before;
      CallsStopped(before, a[i..], w, b, american);
      if i == |a| {
        assert a[i..] == [];
        NothingCalls(before, american);
      }
    }
  }

  lemma {:induction false} NothingCalls(before: Word, american: bool)
    ensures !CallsForAnd(before, [], american)
  {
  }

  lemma {:induction false} JoinPlacedAfter(a: Words, w: Word, b: Words, american: bool, i: nat)
    requires RestPlaced(w, b, american) && i < |b|
    ensures AndPlacedAt(a + [w] + b, |a| + 1 + i, american)
  {
    assert (a + [w] + b)[|a| + 1 + i..] == b[i..];
    if i == 0 {
      assert b[0..] == b;
    }
  }

  lemma {:induction false} JoinPlaced(a: Words, w: Word, b: Words, american: bool)
    requires AndPlaced(a, american) && RestPlaced(w, b, american) && StoppedBy(a, w) && w != And
    ensures AndPlaced(a + [w] + b, american)
  {
    var words := a + [w] + b;
    forall i | 0 <= i < |words| ensures AndPlacedAt(words, i, american) {
      if i <= |a| {
        JoinPlacedBefore(a, w, b, american, i);
      } else {
        JoinPlacedAfter(a, w, b, american, i - |a| - 1);
      }
    }
  }

  lemma {:induction false} NumberStarts(n: nat, american: bool)
    ensures Num2Words(n, american) != [] && (Num2Words(n, american)[0].Unit? || Num2Words(n, american)[0].Ten?)
  {
    if n < 100 {
    } else if n < 1000 {
      NumberStarts(n / 100, american);
    } else if n < 1000000 {
      NumberStarts(n / 1000, american);
    } else {
      NumberStarts(n / 1000000, american);
    }
  }

  lemma {:induction false} HasHundred(n: nat, american: bool)
    requires 100 <= n < 1000
    ensures Hundred in Num2Words(n, american)
  {
    Spelled(n, american);
    assert (Num2Words(n / 100, american) + [Hundred] + Rest(n, 100, american))[|Num2Words(n / 100, american)|] == Hundred;
  }

  /** With "and" in front or not, the words of a number are placed after a word that calls for it or not. */
  lemma {:induction false} NumberIsRest(w: Word, c: Words, american: bool, and: bool)
    requires c != [] && c[0] != And && AndPlaced(c, american)
    requires and <==> CallsForAnd(w, if and then [And] + c else c, american)
    ensures RestPlaced(w, if and then [And] + c else c, american)
  {
    if and {
      var b := [And] + c;
      forall i | 0 < i < |b| ensures b[i] == And <==> CallsForAnd(b[i - 1], b[i..], american) {
        assert b[i..] == c[i - 1..] && AndPlacedAt(c, i - 1, american);
      }
    } else {
      forall i | 0 < i < |c| ensures c[i] == And <==> CallsForAnd(c[i - 1], c[i..], american) {
        assert AndPlacedAt(c, i, american);
      }
    }
  }

  lemma {:induction false} BelowHundredCalls(c: Words, american: bool)
    requires UpTo(c, 0) && c != [] && (c[0].Unit? || c[0].Ten?)
    ensures CallsForAnd(Hundred, [And] + c, american) <==> !american
    ensures CallsForAnd(Hundred, c, american) <==> !american
    ensures CallsForAnd(Thousand, [And] + c, american)
  {
    var b := [And] + c;
    forall x | x in b ensures Level(x) == 0 {
      if x in c {
        var i :| 0 <= i < |c| && c[i] == x;
      }
    }
    assert c[0] in c && b[1] == c[0] && c[0] in b;
    assert forall x :: x in c ==> x in b by {
      forall x | x in c ensures x in b {
        var i :| 0 <= i < |c| && c[i] == x;
        assert b[i + 1] == x;
      }
    }
    GroupWhole(b, {Thousand, Million});
    GroupWhole(c, {Thousand, Million});
    GroupWhole(b, {Million});
  }

  lemma {:induction false} HundredsDoNotCall(c: Words, american: bool)
    requires UpTo(c, 1) && Hundred in c
    ensures !CallsForAnd(Thousand, c, american)
  {
    forall x | x in c ensures x != Million {
      var i :| 0 <= i < |c| && c[i] == x;
    }
    GroupWhole(c, {Million});
  }

  lemma {:induction false} AfterHundred(n: nat, american: bool)
    requires n % 100 != 0 ==> AndPlaced(Num2Words(n % 100, american), american)
    ensures RestPlaced(Hundred, Rest(n, 100, american), american)
  {
    if n % 100 != 0 {
      var c := Num2Words(n % 100, american);
      NumberStarts(n % 100, american);
      WordsUpTo(n % 100, american);
      BelowHundredCalls(c, american);
      NumberIsRest(Hundred, c, american, !american);
    }
  }

  lemma {:induction false} AfterThousand(n: nat, american: bool)
    requires n % 1000 != 0 ==> AndPlaced(Num2Words(n % 1000, american), american)
    ensures RestPlaced(Thousand, Rest(n, 1000, american), american)
  {
    if n % 1000 != 0 {
      var c := Num2Words(n % 1000, american);
      NumberStarts(n % 1000, american);
      WordsUpTo(n % 1000, american);
      if n % 1000 < 100 {
        BelowHundredCalls(c, american);
        NumberIsRest(Thousand, c, american, true);
      } else {
        HasHundred(n % 1000, american);
        HundredsDoNotCall(c, american);
        NumberIsRest(Thousand, c, american, false);
      }
    }
  }

  lemma {:induction false} AfterMillion(n: nat, american: bool)
    requires n % 1000000 != 0 ==> AndPlaced(Num2Words(n % 1000000, american), american)
    ensures RestPlaced(Million, Rest(n, 1000000, american), american)
  {
    if n % 1000000 != 0 {
      NumberStarts(n % 1000000, american);
      NumberIsRest(Million, Num2Words(n % 1000000, american), american, false);
    }
  }

  lemma {:induction false} NatAndPlaced(n: nat, american: bool)
    ensures AndPlaced(Num2Words(n, american), american)
  {
    if n < 100 {
      assert !CallsForAnd(Ten(n / 10), [Unit(n % 10)], american);
    } else {
      var unit: nat, w := if n < 1000 then 100 else if n < 1000000 then 1000 else 1000000,
                          if n < 1000 then Hundred else if n < 1000000 then Thousand else Million;
      Spelled(n, american);
      NatAndPlaced(n / unit, american);
      WordsUpTo(n / unit, american);
      if n % unit != 0 { NatAndPlaced(n % unit, american); }
      if n < 1000 {
        AfterHundred(n, american);
        StoppedUpTo(Num2Words(n / unit, american), 0, w);
      } else if n < 1000000 {
        AfterThousand(n, american);
        StoppedUpTo(Num2Words(n / unit, american), 1, w);
      } else {
        AfterMillion(n, american);
        StoppedUpTo(Num2Words(n / unit, american), 3, w);
      }
      JoinPlaced(Num2Words(n / unit, american), w, Rest(n, unit, american), american);
    }
  }

  lemma {:induction false} StoppedUpTo(a: Words, l: nat, w: Word)
    requires UpTo(a, l) && (l == 0 || (l == 1 && w == Thousand) || w == Million)
    ensures StoppedBy(a, w)
  {
    forall x | x in a ensures Level(x) <= l {
      var i :| 0 <= i < |a| && a[i] == x;
    }
  }

  /** In the words of every number, "and" stands exactly where it is called for, and a word for a number follows it. */
  lemma {:induction false} AndStands(n: int, american: bool)
    ensures AndPlaced(Num2Words(n, american), american)
    ensures forall i :: 0 <= i < |Num2Words(n, american)| && Num2Words(n, american)[i] == And ==>
              i + 1 < |Num2Words(n, american)|
  {
    LastWord(n, american);
    if n < 0 {
      MinusPlaced(-n, american);
    } else {
      NatAndPlaced(n, american);
    }
  }

  lemma {:induction false} MinusPlaced(n: nat, american: bool)
    ensures AndPlaced([Minus] + Num2Words(n, american), american)
  {
    var none: Words, c := [], Num2Words(n, american);
    NatAndPlaced(n, american);
    NumberStarts(n, american);
    NumberIsRest(Minus, c, american, false);
    JoinPlaced(none, Minus, c, american);
    assert none + [Minus] + c == [Minus] + c;
  }

  // ---------- Which lists of words are numbers ----------

  /** A number from one to ninety-nine. */
  predicate IsTens(words: Words) {
    || (|words| == 1 && words[0].Unit? && 1 <= words[0].n < 20)
    || (|words| == 1 && words[0].Ten? && 2 <= words[0].n < 10)
    || (|words| == 2 && words[0].Ten? && 2 <= words[0].n < 10 && words[1].Unit? && 1 <= words[1].n < 10)
  }

  /** So many hundreds, alone or with a number below a hundred. */
  predicate IsHundreds(words: Words, american: bool) {
    && |words| >= 2 && words[0].Unit? && 1 <= words[0].n < 10 && words[1] == Hundred
    && (|words| == 2 || (if american then IsTens(words[2..]) else words[2] == And && IsTens(words[3..])))
  }

  predicate BelowThousand(words: Words, american: bool) { IsTens(words) || IsHundreds(words, american) }

  /** What may follow "thousand": hundreds, or "and" and a number below a hundred, or nothing. */
  predicate AfterThousandFits(b: Words, american: bool) {
    b == [] || (b[0] == And && IsTens(b[1..])) || IsHundreds(b, american)
  }

  predicate IsThousands(words: Words, k: nat, american: bool) {
    && k < |words| && words[k] == Thousand
    && BelowThousand(words[..k], american) && AfterThousandFits(words[k + 1..], american)
  }

  ghost predicate BelowMillion(words: Words, american: bool) {
    BelowThousand(words, american) || exists k: nat :: IsThousands(words, k, american)
  }

  /** A number from one on; so many millions may be said of any of them. */
  ghost predicate IsPositive(words: Words, american: bool)
    decreases |words|
  {
    BelowMillion(words, american) || exists k: nat :: IsMillions(words, k, american)
  }

  ghost predicate IsMillions(words: Words, k: nat, american: bool)
    decreases |words|, 0
  {
    && k < |words| && words[k] == Million && IsPositive(words[..k], american)
    && (|words| == k + 1 || BelowMillion(words[k + 1..], american))
  }

  /** A whole number in words. */
  ghost predicate IsNumber(words: Words, american: bool) {
    || words == [Unit(0)]
    || IsPositive(words, american)
    || (words != [] && words[0] == Minus && IsPositive(words[1..], american))
  }

  lemma {:induction false} TensOf(words: Words, american: bool) returns (n: nat)
    requires IsTens(words)
    ensures 1 <= n < 100 && Num2Words(n, american) == words
  {
    n := if words[0].Unit? then words[0].n else 10 * words[0].n + if |words| == 2 then words[1].n else 0;
  }

  lemma {:induction false} HundredsOf(words: Words, american: bool) returns (n: nat)
    requires IsHundreds(words, american)
    ensures 100 <= n < 1000 && Num2Words(n, american) == words
  {
    n := 100 * words[0].n;
    if |words| > 2 {
      var lo := TensOf(if american then words[2..] else words[3..], american);
      n := n + lo;
      assert n % 100 == lo;
    }
    assert n / 100 == words[0].n;
    Spelled(n, american);
  }

  lemma {:induction false} BelowThousandOf(words: Words, american: bool) returns (n: nat)
    requires BelowThousand(words, american)
    ensures 1 <= n < 1000 && Num2Words(n, american) == words
  {
    if IsTens(words) {
      n := TensOf(words, american);
    } else {
      n := HundredsOf(words, american);
    }
  }

  lemma {:induction false} ThousandsSpelled(hi: nat, lo: nat, american: bool)
    requires 1 <= hi < 1000 && lo < 1000
    ensures Num2Words(1000 * hi + lo, american) == Num2Words(hi, american) + [Thousand] + Rest(lo, 1000, american)
  {
    var n := 1000 * hi + lo;
    assert n / 1000 == hi && n % 1000 == lo && lo % 1000 == lo;
    assert Rest(n, 1000, american) == Rest(lo, 1000, american);
    Spelled(n, american);
  }

  lemma {:induction false} MillionsSpelled(hi: nat, lo: nat, american: bool)
    requires 1 <= hi && lo < 1000000
    ensures Num2Words(1000000 * hi + lo, american) == Num2Words(hi, american) + [Million] + Rest(lo, 1000000, american)
  {
    var n := 1000000 * hi + lo;
    assert n / 1000000 == hi && n % 1000000 == lo && lo % 1000000 == lo;
    assert Rest(n, 1000000, american) == Rest(lo, 1000000, american);
    Spelled(n, american);
  }

  lemma {:induction false} PartsOf(words: Words, k: nat)
    requires k < |words|
    ensures words == words[..k] + [words[k]] + words[k + 1..]
  {
  }

  lemma {:induction false} RestOfThousand(lo: nat, american: bool)
    requires 1 <= lo < 1000
    ensures Rest(lo, 1000, american) == if lo < 100 then [And] + Num2Words(lo, american) else Num2Words(lo, american)
  {
    assert lo % 1000 == lo && (lo / 100 == 0 <==> lo < 100);
  }

  lemma {:induction false} RestOfMillion(lo: nat, american: bool)
    requires 1 <= lo < 1000000
    ensures Rest(lo, 1000000, american) == Num2Words(lo, american)
  {
    assert lo % 1000000 == lo;
  }

  lemma {:induction false} AfterThousandOf(b: Words, american: bool) returns (lo: nat)
    requires AfterThousandFits(b, american)
    ensures lo < 1000 && Rest(lo, 1000, american) == b
  {
    if b == [] {
      lo := 0;
    } else if IsHundreds(b, american) {
      lo := HundredsOf(b, american);
      RestOfThousand(lo, american);
    } else {
      lo := TensOf(b[1..], american);
      RestOfThousand(lo, american);
    }
  }

  lemma {:induction false} ThousandsOf(words: Words, k: nat, american: bool) returns (n: nat)
    requires IsThousands(words, k, american)
    ensures 1000 <= n < 1000000 && Num2Words(n, american) == words
  {
    var b := words[k + 1..];
    var hi := BelowThousandOf(words[..k], american);
    var lo := AfterThousandOf(b, american);
    n := 1000 * hi + lo;
    ThousandsSpelled(hi, lo, american);
    PartsOf(words, k);
  }

  lemma {:induction false} BelowMillionOf(words: Words, american: bool) returns (n: nat)
    requires BelowMillion(words, american)
    ensures 1 <= n < 1000000 && Num2Words(n, american) == words
  {
    if BelowThousand(words, american) {
      n := BelowThousandOf(words, american);
    } else {
      var k: nat :| IsThousands(words, k, american);
      n := ThousandsOf(words, k, american);
    }
  }

  lemma {:induction false} AfterMillionOf(b: Words, american: bool) returns (lo: nat)
    requires b == [] || BelowMillion(b, american)
    ensures lo < 1000000 && Rest(lo, 1000000, american) == b
  {
    if b == [] {
      lo := 0;
    } else {
      lo := BelowMillionOf(b, american);
      RestOfMillion(lo, american);
    }
  }

  lemma {:induction false} MillionsParts(words: Words, american: bool) returns (a: Words, b: Words)
    requires IsPositive(words, american) && !BelowMillion(words, american)
    ensures words == a + [Million] + b && IsPositive(a, american) && (b == [] || BelowMillion(b, american))
  {
    var k: nat :| IsMillions(words, k, american);
    PartsOf(words, k);
    a, b := words[..k], words[k + 1..];
  }

  lemma {:induction false} MillionsOf(a: Words, hi: nat, b: Words, american: bool) returns (n: nat)
    requires 1 <= hi && Num2Words(hi, american) == a && (b == [] || BelowMillion(b, american))
    ensures 1 <= n && Num2Words(n, american) == a + [Million] + b
  {
    var lo := AfterMillionOf(b, american);
    MillionsSpelled(hi, lo, american);
    n := 1000000 * hi + lo;
  }

  lemma {:induction false} PositiveOf(words: Words, american: bool) returns (n: nat)
    requires IsPositive(words, american)
    ensures 1 <= n && Num2Words(n, american) == words
    decreases |words|
  {
    if BelowMillion(words, american) {
      n := BelowMillionOf(words, american);
    } else {
      var a, b := MillionsParts(words, american);
      var hi := PositiveOf(a, american);
      n := MillionsOf(a, hi, b, american);
    }
  }

  /** The words of a number, up to the size of the number, are those of the rules above. */
  lemma {:induction false} HundredsFit(n: nat, american: bool)
    requires 1 <= n < 1000
    ensures n < 100 ==> IsTens(Num2Words(n, american))
    ensures n >= 100 ==> IsHundreds(Num2Words(n, american), american)
  {
    if n >= 100 {
      Spelled(n, american);
      if n % 100 != 0 {
        HundredsFit(n % 100, american);
        var words, c := Num2Words(n, american), Num2Words(n % 100, american);
        assert american ==> words[2..] == c;
        assert !american ==> words[3..] == c;
      }
    }
  }

  lemma {:induction false} RestFits(n: nat, american: bool)
    ensures AfterThousandFits(Rest(n, 1000, american), american)
  {
    var lo := n % 1000;
    if lo != 0 {
      HundredsFit(lo, american);
      var c := Num2Words(lo, american);
      assert ([And] + c)[1..] == c;
    }
  }

  lemma {:induction false} ThousandsPlaced(a: Words, b: Words, american: bool)
    requires BelowThousand(a, american) && AfterThousandFits(b, american)
    ensures IsThousands(a + [Thousand] + b, |a|, american)
  {
    var words := a + [Thousand] + b;
    assert words[..|a|] == a && words[|a| + 1..] == b;
  }

  lemma {:induction false} ThousandsFit(n: nat, american: bool)
    requires 1 <= n < 1000000
    ensures BelowMillion(Num2Words(n, american), american)
  {
    if n < 1000 {
      HundredsFit(n, american);
    } else {
      HundredsFit(n / 1000, american);
      RestFits(n, american);
      ThousandsPlaced(Num2Words(n / 1000, american), Rest(n, 1000, american), american);
      Spelled(n, american);
    }
  }

  lemma {:induction false} PositiveFits(n: nat, american: bool)
    requires 1 <= n
    ensures IsPositive(Num2Words(n, american), american)
  {
    if n < 1000000 {
      ThousandsFit(n, american);
    } else {
      Spelled(n, american);
      PositiveFits(n / 1000000, american);
      var words, a, b := Num2Words(n, american), Num2Words(n / 1000000, american), Rest(n, 1000000, american);
      assert words[..|a|] == a && words[|a| + 1..] == b;
      if n % 1000000 != 0 {
        ThousandsFit(n % 1000000, american);
      }
      assert IsMillions(words, |a|, american);
    }
  }

  lemma {:induction false} NumberOf(words: Words, american: bool) returns (n: int)
    requires IsNumber(words, american)
    ensures Num2Words(n, american) == words
  {
    if words == [Unit(0)] {
      n := 0;
    } else if IsPositive(words, american) {
      n := PositiveOf(words, american);
    } else {
      var m := PositiveOf(words[1..], american);
      n := -(m as int);
      MinusSpelled(n, american);
      assert words == [Minus] + words[1..];
    }
  }

  lemma {:induction false} MinusNumber(words: Words, american: bool)
    requires IsPositive(words, american)
    ensures IsNumber([Minus] + words, american)
  {
    assert ([Minus] + words)[1..] == words;
  }

  lemma {:induction false} SpelledIsNumber(n: int, american: bool)
    ensures IsNumber(Num2Words(n, american), american)
  {
    if n > 0 {
      PositiveFits(n, american);
    } else if n < 0 {
      PositiveFits(-n, american);
      MinusSpelled(n, american);
      MinusNumber(Num2Words(-n, american), american);
    }
  }

  /** There is one way to say a number: words are those of `n` exactly when they are a number by the rules above and read `n`. */
  lemma {:induction false} SpellingIff(words: Words, n: int, american: bool)
    ensures words == Num2Words(n, american) <==> IsNumber(words, american) && Read(words) == n
  {
    ReadBack(n, american);
    SpelledIsNumber(n, american);
    if IsNumber(words, american) {
      var m := NumberOf(words, american);
      ReadBack(m, american);
    }
  }
}

/** The words as they are written, and their ordinal forms. */
module NumberTexts {
  import opened Wrappers
  import opened NumberWords

  function UnitText(n: nat): string {
    match n
    case 0 => "zero" case 1 => "one" case 2 => "two" case 3 => "three" case 4 => "four"
    case 5 => "five" case 6 => "six" case 7 => "seven" case 8 => "eight" case 9 => "nine"
    case 10 => "ten" case 11 => "eleven" case 12 => "twelve" case 13 => "thirteen" case 14 => "fourteen"
    case 15 => "fifteen" case 16 => "sixteen" case 17 => "seventeen" case 18 => "eighteen" case _ => "nineteen"
  }

  function TenText(n: nat): string {
    match n
    case 2 => "twenty" case 3 => "thirty" case 4 => "forty" case 5 => "fifty"
    case 6 => "sixty" case 7 => "seventy" case 8 => "eighty" case _ => "ninety"
  }

  function Text(w: Word): string {
    match w
    case Unit(n) => UnitText(n)
    case Ten(n) => TenText(n)
    case And => "and"
    case Hundred => "hundred"
    case Thousand => "thousand"
    case Million => "million"
    case Minus => "minus"
  }

  predicate EndsWith(w: string, s: string) { |w| >= |s| && w[|w| - |s|..] == s }

  /** What comes before the first occurrence of "ty". */
  function BeforeTy(w: string): string {
    if w == [] || (|w| > 1 && w[0] == 't' && w[1] == 'y') then "" else [w[0]] + BeforeTy(w[1..])
  }

  /** The ordinal of the last word of a number. */
  function OrdinalText(w: string): string {
    if w == "zero" then "zeroth"
    else if w == "one" then "first"
    else if w == "two" then "second"
    else if w == "three" then "third"
    else if w == "four" then "fourth"
    else if w == "five" then "fifth"
    else if w == "six" then "sixth"
    else if w == "seven" then "seventh"
    else if w == "eight" then "eighth"
    else if w == "nine" then "ninth"
    else if w == "ten" then "tenth"
    else if w == "eleven" then "eleventh"
    else if w == "twelve" then "twelfth"
    else if EndsWith(w, "teen") then w + "th"
    else if EndsWith(w, "ty") then BeforeTy(w) + "tieth"
    else if w == "hundred" then "hundredth"
    else if w == "thousand" then "thousandth"
    else w + "th"
  }

  /** What the ordinals of the words come to. */
  function Expected(w: Word): string {
    match w
    case Unit(n) =>
      (match n
       case 0 => "zeroth" case 1 => "first" case 2 => "second" case 3 => "third" case 4 => "fourth"
       case 5 => "fifth" case 6 => "sixth" case 7 => "seventh" case 8 => "eighth" case 9 => "ninth"
       case 10 => "tenth" case 11 => "eleventh" case 12 => "twelfth" case 13 => "thirteenth"
       case 14 => "fourteenth" case 15 => "fifteenth" case 16 => "sixteenth" case 17 => "seventeenth"
       case 18 => "eighteenth" case _ => "nineteenth")
    case Ten(n) =>
      (match n
       case 2 => "twentieth" case 3 => "thirtieth" case 4 => "fortieth" case 5 => "fiftieth"
       case 6 => "sixtieth" case 7 => "seventieth" case 8 => "eightieth" case _ => "ninetieth")
    case And => "andth"
    case Hundred => "hundredth"
    case Thousand => "thousandth"
    case Million => "millionth"
    case Minus => "minusth"
  }

  lemma {:induction false} OrdinalOfUnit(n: nat)
    requires n < 13
    ensures OrdinalText(UnitText(n)) == Expected(Unit(n))
  {
  }

  lemma {:induction false} OrdinalOfTeen(a: string)
    requires |a| > 2
    ensures OrdinalText(a + "teen") == a + "teenth"
  {
  }

  lemma {:induction false} OrdinalOfTeens(n: nat)
    requires 13 <= n < 20
    ensures OrdinalText(UnitText(n)) == Expected(Unit(n))
  {
    var a := match n
      case 13 => "thir" case 14 => "four" case 15 => "fif" case 16 => "six" case 17 => "seven"
      case 18 => "eigh" case _ => "nine";
    assert UnitText(n) == a + "teen" && Expected(Unit(n)) == a + "teenth";
    OrdinalOfTeen(a);
  }

  lemma {:induction false} BeforeTyAt(a: string)
    requires 'y' !in a
    ensures BeforeTy(a + "ty") == a
  {
    var w := a + "ty";
    if a == [] {
      assert w[0] == 't' && w[1] == 'y';
    } else {
      assert w[1..] == a[1..] + "ty" && w[0] == a[0] && w[1] == if |a| > 1 then a[1] else 't';
      BeforeTyAt(a[1..]);
    }
  }

  lemma {:induction false} OrdinalOfTy(a: string)
    requires 'y' !in a
    ensures OrdinalText(a + "ty") == a + "tieth"
  {
    var w := a + "ty";
    BeforeTyAt(a);
    assert w[|w| - 1] == 'y' && w[|w| - |"ty"|..] == "ty";
    assert |w| >= 4 ==> w[|w| - |"teen"|..][3] == 'y' && "teen"[3] == 'n';
  }

  lemma {:induction false} OrdinalOfTen(n: nat)
    requires 2 <= n < 10
    ensures OrdinalText(TenText(n)) == Expected(Ten(n))
  {
    var a := match n
      case 2 => "twen" case 3 => "thir" case 4 => "for" case 5 => "fif"
      case 6 => "six" case 7 => "seven" case 8 => "eigh" case _ => "nine";
    assert TenText(n) == a + "ty" && Expected(Ten(n)) == a + "tieth";
    OrdinalOfTy(a);
  }

  lemma {:induction false} OrdinalOfScale()
    ensures OrdinalText("hundred") == "hundredth" && OrdinalText("thousand") == "thousandth"
    ensures OrdinalText("million") == "millionth"
  {
  }

  lemma {:induction false} OrdinalExpected(w: Word)
    requires IsWord(w) && w != And && w != Minus
    ensures OrdinalText(Text(w)) == Expected(w)
  {
    match w
    case Unit(n) => if n < 13 { OrdinalOfUnit(n); } else { OrdinalOfTeens(n); }
    case Ten(n) => OrdinalOfTen(n);
    case _ => OrdinalOfScale();
  }

  // ---------- Ordinals read back ----------

  /** The word that an ordinal comes from. */
  function FromOrdinal(o: string): Option<Word> {
    if o == "zeroth" then Some(Unit(0)) else if o == "first" then Some(Unit(1))
    else if o == "second" then Some(Unit(2)) else if o == "third" then Some(Unit(3))
    else if o == "fourth" then Some(Unit(4)) else if o == "fifth" then Some(Unit(5))
    else if o == "sixth" then Some(Unit(6)) else if o == "seventh" then Some(Unit(7))
    else if o == "eighth" then Some(Unit(8)) else if o == "ninth" then Some(Unit(9))
    else if o == "tenth" then Some(Unit(10)) else if o == "eleventh" then Some(Unit(11))
    else if o == "twelfth" then Some(Unit(12)) else if o == "thirteenth" then Some(Unit(13))
    else if o == "fourteenth" then Some(Unit(14)) else if o == "fifteenth" then Some(Unit(15))
    else if o == "sixteenth" then Some(Unit(16)) else if o == "seventeenth" then Some(Unit(17))
    else if o == "eighteenth" then Some(Unit(18)) else if o == "nineteenth" then Some(Unit(19))
    else if o == "twentieth" then Some(Ten(2)) else if o == "thirtieth" then Some(Ten(3))
    else if o == "fortieth" then Some(Ten(4)) else if o == "fiftieth" then Some(Ten(5))
    else if o == "sixtieth" then Some(Ten(6)) else if o == "seventieth" then Some(Ten(7))
    else if o == "eightieth" then Some(Ten(8)) else if o == "ninetieth" then Some(Ten(9))
    else if o == "hundredth" then Some(Hundred) else if o == "thousandth" then Some(Thousand)
    else if o == "millionth" then Some(Million) else None
  }

  lemma {:induction false} FromExpectedUnit(n: nat)
    requires n < 10
    ensures FromOrdinal(Expected(Unit(n))) == Some(Unit(n))
  {
  }

  lemma {:induction false} FromExpectedTeens(n: nat)
    requires 10 <= n < 20
    ensures FromOrdinal(Expected(Unit(n))) == Some(Unit(n))
  {
  }

  lemma {:induction false} FromExpectedTen(n: nat)
    requires 2 <= n < 6
    ensures FromOrdinal(Expected(Ten(n))) == Some(Ten(n))
  {
  }

  lemma {:induction false} FromExpectedHighTen(n: nat)
    requires 6 <= n < 10
    ensures FromOrdinal(Expected(Ten(n))) == Some(Ten(n))
  {
  }

  lemma {:induction false} FromExpectedScale()
    ensures FromOrdinal("hundredth") == Some(Hundred) && FromOrdinal("thousandth") == Some(Thousand)
    ensures FromOrdinal("millionth") == Some(Million)
  {
  }

  lemma {:induction false} OrdinalReadBack(w: Word)
    requires IsWord(w) && w != And && w != Minus
    ensures FromOrdinal(OrdinalText(Text(w))) == Some(w)
  {
    OrdinalExpected(w);
    match w
    case Unit(n) => if n < 10 { FromExpectedUnit(n); } else { FromExpectedTeens(n); }
    case Ten(n) => if n < 6 { FromExpectedTen(n); } else { FromExpectedHighTen(n); }
    case _ => FromExpectedScale();
  }

  // ---------- Whole numbers as ordinals ----------

  /** The words of a list as written. */
  function Texts(words: Words): (r: seq<string>)
    ensures |r| == |words| && forall i :: 0 <= i < |r| ==> r[i] == Text(words[i])
  {
    seq(|words|, i requires 0 <= i < |words| => Text(words[i]))
  }

  /** The number that an ordinal stands for: its last word is put back, and the rest are as spelled. */
  ghost predicate IsOrdinalOf(texts: seq<string>, n: int, american: bool) {
    var words := Num2Words(n, american);
    && |texts| == |words| > 0
    && texts[..|texts| - 1] == Texts(words)[..|texts| - 1]
    && FromOrdinal(texts[|texts| - 1]) == Some(words[|words| - 1])
  }

  /** Spells the number out, walks to the last word and overwrites it with its ordinal. */
  method SayNumAsOrdinal(n: int, american: bool) returns (texts: seq<string>)
    ensures IsOrdinalOf(texts, n, american)
  {
    ghost var words := Num2Words(n, american);
    LastWord(n, american);
    OrdinalReadBack(words[|words| - 1]);
    var numwords := Texts(Num2Words(n, american));
    var cells := new string[|numwords|](i requires 0 <= i < |numwords| => numwords[i]);
    var last := 0;
    while last + 1 < cells.Length
      invariant last < cells.Length
    {
      last := last + 1;
    }
    cells[last] := OrdinalText(cells[last]);
    texts := cells[..];
  }

  /** The word that a text is. */
  function FromText(t: string): Option<Word> {
    if t == "and" then Some(And) else if t == "hundred" then Some(Hundred)
    else if t == "thousand" then Some(Thousand) else if t == "million" then Some(Million)
    else if t == "minus" then Some(Minus)
    else if t == "zero" then Some(Unit(0)) else if t == "one" then Some(Unit(1))
    else if t == "two" then Some(Unit(2)) else if t == "three" then Some(Unit(3))
    else if t == "four" then Some(Unit(4)) else if t == "five" then Some(Unit(5))
    else if t == "six" then Some(Unit(6)) else if t == "seven" then Some(Unit(7))
    else if t == "eight" then Some(Unit(8)) else if t == "nine" then Some(Unit(9))
    else if t == "ten" then Some(Unit(10)) else if t == "eleven" then Some(Unit(11))
    else if t == "twelve" then Some(Unit(12)) else if t == "thirteen" then Some(Unit(13))
    else if t == "fourteen" then Some(Unit(14)) else if t == "fifteen" then Some(Unit(15))
    else if t == "sixteen" then Some(Unit(16)) else if t == "seventeen" then Some(Unit(17))
    else if t == "eighteen" then Some(Unit(18)) else if t == "nineteen" then Some(Unit(19))
    else if t == "twenty" then Some(Ten(2)) else if t == "thirty" then Some(Ten(3))
    else if t == "forty" then Some(Ten(4)) else if t == "fifty" then Some(Ten(5))
    else if t == "sixty" then Some(Ten(6)) else if t == "seventy" then Some(Ten(7))
    else if t == "eighty" then Some(Ten(8)) else if t == "ninety" then Some(Ten(9)) else None
  }

  lemma {:induction false} FromUnitText(n: nat)
    requires n < 10
    ensures FromText(UnitText(n)) == Some(Unit(n))
  {
  }

  lemma {:induction false} FromTeensText(n: nat)
    requires 10 <= n < 20
    ensures FromText(UnitText(n)) == Some(Unit(n))
  {
  }

  lemma {:induction false} FromTenText(n: nat)
    requires 2 <= n < 10
    ensures FromText(TenText(n)) == Some(Ten(n))
  {
  }

  lemma {:induction false} FromOtherText()
    ensures FromText("and") == Some(And) && FromText("hundred") == Some(Hundred)
    ensures FromText("thousand") == Some(Thousand) && FromText("million") == Some(Million)
    ensures FromText("minus") == Some(Minus)
  {
  }

  lemma {:induction false} TextReadBack(w: Word)
    requires IsWord(w)
    ensures FromText(Text(w)) == Some(w)
  {
    match w
    case Unit(n) => if n < 10 { FromUnitText(n); } else { FromTeensText(n); }
    case Ten(n) => FromTenText(n);
    case _ => FromOtherText();
  }

  lemma {:induction false} TextsReadBack(words: Words, i: nat)
    requires AreWords(words) && i < |words|
    ensures FromText(Texts(words)[i]) == Some(words[i])
  {
    TextReadBack(words[i]);
  }

  /** Different numbers have different ordinals, and are spelled differently. */
  lemma {:induction false} OrdinalsDistinct(m: int, n: int, american: bool, texts: seq<string>)
    requires IsOrdinalOf(texts, m, american) && IsOrdinalOf(texts, n, american)
    ensures m == n
  {
    var v, w := Num2Words(m, american), Num2Words(n, american);
    LastWord(m, american);
    LastWord(n, american);
    forall i | 0 <= i < |v| ensures v[i] == w[i] {
      if i < |v| - 1 {
        TextsReadBack(v, i);
        TextsReadBack(w, i);
        assert texts[..|texts| - 1][i] == texts[i];
      }
    }
    assert v == w;
    ReadBack(m, american);
    ReadBack(n, american);
  }

  /** What a reader of the written words makes of them. */
  function ReadTexts(texts: seq<string>): int {
    Read(seq(|texts|, i requires 0 <= i < |texts| =>
      if FromText(texts[i]).Some? then FromText(texts[i]).value else And))
  }

  /** The number round trip, through the written words. */
  lemma {:induction false} ReadTextsBack(n: int, american: bool)
    ensures ReadTexts(Texts(Num2Words(n, american))) == n
  {
    var words := Num2Words(n, american);
    var texts := Texts(words);
    LastWord(n, american);
    forall i | 0 <= i < |words| ensures FromText(texts[i]) == Some(words[i]) {
      TextsReadBack(words, i);
    }
    assert words == seq(|texts|, i requires 0 <= i < |texts| =>
      if FromText(texts[i]).Some? then FromText(texts[i]).value else And);
    ReadBack(n, american);
  }
}
