/** Compiling a lexicon: the order its entries are sorted by, and the file that the sorted entries make. */
module LexCompile {
  import opened WordOrder
  import L = LexFile

  /** An entry to be compiled: its headword, and its printed part of speech and printed whole. */
  datatype Record = Record(word: string, pos: string, entry: string)

  /** Headwords compare by folded characters; everything else byte by byte. */
  function Fcompare(fold: char -> int, a: string, b: string): int { CompareBy(fold, a, b) }

  function Strcmp(a: string, b: string): int { CompareBy(c => c as int, a, b) }

  function EntryCompare(fold: char -> int, a: Record, b: Record): int {
    if Fcompare(fold, a.word, b.word) != 0 then Fcompare(fold, a.word, b.word)
    else if Strcmp(a.pos, b.pos) != 0 then Strcmp(a.pos, b.pos)
    else if Strcmp(a.word, b.word) != 0 then Strcmp(a.word, b.word)
    else Strcmp(a.entry, b.entry)
  }

  lemma {:induction false} StrcmpTies(a: string, b: string)
    ensures Strcmp(a, b) == 0 ==> a == b
  {
    if Strcmp(a, b) == 0 {
      InjectiveWeightTies(c => c as int, a, b);
    }
  }

  /** Only equal records tie, so what is printed for tied entries is the same. */
  lemma {:induction false} EntryCompareTies(fold: char -> int, a: Record, b: Record)
    requires EntryCompare(fold, a, b) == 0
    ensures a == b
  {
    StrcmpTies(a.pos, b.pos);
    StrcmpTies(a.word, b.word);
    StrcmpTies(a.entry, b.entry);
  }

  lemma {:induction false} EntryCompareIsTotalPreorder(fold: char -> int)
    ensures TotalPreorder((a, b) => EntryCompare(fold, a, b))
  {
    forall a, b ensures EntryCompare(fold, a, b) < 0 <==> EntryCompare(fold, b, a) > 0 {
      EntryCompareFlips(fold, a, b);
    }
    forall a, b, c | EntryCompare(fold, a, b) <= 0 && EntryCompare(fold, b, c) <= 0
      ensures EntryCompare(fold, a, c) <= 0
    {
      EntryCompareTransitive(fold, a, b, c);
    }
  }

  lemma {:induction false} EntryCompareFlips(fold: char -> int, a: Record, b: Record)
    ensures EntryCompare(fold, a, b) < 0 <==> EntryCompare(fold, b, a) > 0
    ensures EntryCompare(fold, a, b) > 0 <==> EntryCompare(fold, b, a) < 0
  {
    Flips(fold, a.word, b.word);
    Flips(c => c as int, a.pos, b.pos);
    Flips(c => c as int, a.word, b.word);
    Flips(c => c as int, a.entry, b.entry);
  }

  lemma {:induction false} Flips(weight: char -> int, a: string, b: string)
    ensures CompareBy(weight, a, b) < 0 <==> CompareBy(weight, b, a) > 0
    ensures CompareBy(weight, a, b) > 0 <==> CompareBy(weight, b, a) < 0
  {
    CompareByFlips(weight, a, b);
    CompareByFlips(weight, b, a);
  }

  /** Transitivity of <=, and of ties as a consequence. */
  lemma {:induction false} Chains(weight: char -> int, a: string, b: string, c: string)
    requires CompareBy(weight, a, b) <= 0 && CompareBy(weight, b, c) <= 0
    ensures CompareBy(weight, a, c) <= 0
    ensures CompareBy(weight, a, c) == 0 ==> CompareBy(weight, a, b) == 0 && CompareBy(weight, b, c) == 0
  {
    CompareByTransitive(weight, a, b, c);
    Flips(weight, a, b);
    Flips(weight, b, c);
    Flips(weight, a, c);
    if CompareBy(weight, a, c) == 0 {
      CompareByTransitive(weight, c, a, b);
      CompareByTransitive(weight, b, c, a);
    }
  }

  lemma {:induction false} EntryCompareTransitive(fold: char -> int, a: Record, b: Record, c: Record)
    requires EntryCompare(fold, a, b) <= 0 && EntryCompare(fold, b, c) <= 0
    ensures EntryCompare(fold, a, c) <= 0
  {
    var byte := (x: char) => x as int;
    Chains(fold, a.word, b.word, c.word);
    if Fcompare(fold, a.word, c.word) == 0 {
      Chains(byte, a.pos, b.pos, c.pos);
      if Strcmp(a.pos, c.pos) == 0 {
        Chains(byte, a.word, b.word, c.word);
        if Strcmp(a.word, c.word) == 0 {
          Chains(byte, a.entry, b.entry, c.entry);
        }
      }
    }
  }

  ghost predicate SortedBy<T(!new)>(cmp: (T, T) -> int, s: seq<T>) {
    forall i, j :: 0 <= i <= j < |s| ==> cmp(s[i], s[j]) <= 0
  }

  lemma {:induction false} FirstIsLeast<T(!new)>(cmp: (T, T) -> int, s: seq<T>, t: seq<T>)
    requires SortedBy(cmp, s) && multiset(s) == multiset(t) && s != []
    ensures t != [] && cmp(s[0], t[0]) <= 0
  {
    assert s[0] in multiset(t);
    assert t[0] in multiset(s);
    var j :| 0 <= j < |s| && s[j] == t[0];
  }

  lemma {:induction false} RestOfMultiset<T>(s: seq<T>)
    requires s != []
    ensures s == [s[0]] + s[1..] && multiset(s[1..]) == multiset(s) - multiset{s[0]}
  {
  }

  /** A collection has one sorted arrangement when only equal elements are below each other. */
  lemma {:induction false} SortedUnique<T(!new)>(cmp: (T, T) -> int, s: seq<T>, t: seq<T>)
    requires forall a, b :: cmp(a, b) <= 0 && cmp(b, a) <= 0 ==> a == b
    requires SortedBy(cmp, s) && SortedBy(cmp, t) && multiset(s) == multiset(t)
    ensures s == t
  {
    if s == [] {
      assert |multiset(t)| == 0;
    } else {
      FirstIsLeast(cmp, s, t);
      FirstIsLeast(cmp, t, s);
      RestOfMultiset(s);
      RestOfMultiset(t);
      SortedUnique(cmp, s[1..], t[1..]);
    }
  }

  ghost predicate Sorted(fold: char -> int, s: seq<Record>) {
    SortedBy((a, b) => EntryCompare(fold, a, b), s)
  }

  /** What is written out: the magic number, then one entry to a line. */
  function Written(s: seq<Record>): string {
    if s == [] then "MNCL\n" else Written(s[..|s| - 1]) + s[|s| - 1].entry + "\n"
  }

  /** However the same entries were listed, and whichever sort was used, the same file is written. */
  lemma {:induction false} CompileDeterministic(fold: char -> int, input: seq<Record>, input': seq<Record>, s: seq<Record>, s': seq<Record>)
    requires multiset(input) == multiset(input')
    requires Sorted(fold, s) && multiset(s) == multiset(input)
    requires Sorted(fold, s') && multiset(s') == multiset(input')
    ensures Written(s) == Written(s')
  {
    forall a, b | EntryCompare(fold, a, b) <= 0 && EntryCompare(fold, b, a) <= 0 ensures a == b {
      EntryCompareFlips(fold, a, b);
      EntryCompareTies(fold, a, b);
    }
    SortedUnique((a, b) => EntryCompare(fold, a, b), s, s');
  }

  lemma {:induction false} SortedByHeadword(fold: char -> int, s: seq<Record>, i: nat, j: nat)
    requires Sorted(fold, s) && i <= j < |s|
    ensures Fcompare(fold, s[i].word, s[j].word) <= 0
  {
  }

  /** Entries whose headwords fold alike lie next to each other. */
  lemma {:induction false} HomographsContiguous(fold: char -> int, s: seq<Record>, i: nat, j: nat, k: nat)
    requires Sorted(fold, s) && i <= j <= k < |s|
    requires Fcompare(fold, s[i].word, s[k].word) == 0
    ensures Fcompare(fold, s[i].word, s[j].word) == 0
  {
    SortedByHeadword(fold, s, i, j);
    SortedByHeadword(fold, s, j, k);
    Chains(fold, s[i].word, s[j].word, s[k].word);
  }

  /** Entries whose headwords fold alike come in the order of their parts of speech, then of their headwords, then whole. */
  lemma {:induction false} HomographsOrdered(fold: char -> int, s: seq<Record>, i: nat, k: nat)
    requires Sorted(fold, s) && i <= k < |s| && Fcompare(fold, s[i].word, s[k].word) == 0
    ensures Strcmp(s[i].pos, s[k].pos) <= 0
    ensures s[i].pos == s[k].pos ==> Strcmp(s[i].word, s[k].word) <= 0
    ensures s[i].pos == s[k].pos && s[i].word == s[k].word ==> Strcmp(s[i].entry, s[k].entry) <= 0
  {
    assert EntryCompare(fold, s[i], s[k]) <= 0;
    Flips(c => c as int, s[i].pos, s[i].pos);
    Flips(c => c as int, s[i].word, s[i].word);
  }

  /** Where the newlines of the written file are. */
  function Newlines(s: seq<Record>): (r: seq<nat>)
    ensures |r| == |s| + 1
  {
    if s == [] then [4]
    else
      var r := Newlines(s[..|s| - 1]);
      r + [r[|s| - 1] + |s[|s| - 1].entry| + 1]
  }

  lemma {:induction false} NewlinesPlaced(s: seq<Record>)
    ensures Newlines(s)[|s|] == |Written(s)| - 1
    ensures forall i :: 0 <= i <= |s| ==> Newlines(s)[i] < |Written(s)| && Written(s)[Newlines(s)[i]] == '\n'
  {
    if s == [] {
    } else {
      NewlinesPlaced(s[..|s| - 1]);
    }
  }

  /** A byte is a newline exactly at the places given. */
  predicate NewlinesAt(bytes: string, places: seq<nat>) {
    forall p :: 0 <= p < |bytes| ==> (bytes[p] == '\n' <==> p in places)
  }

  predicate OneLineEach(s: seq<Record>) { forall e :: e in s ==> '\n' !in e.entry }

  /** There are no other newlines exactly when no entry is printed with one inside. */
  lemma {:induction false} NewlinesExactIff(s: seq<Record>)
    ensures NewlinesAt(Written(s), Newlines(s)) <==> OneLineEach(s)
  {
    if s == [] {
      assert Newlines(s) == [4];
    } else {
      var init, last := s[..|s| - 1], s[|s| - 1];
      NewlinesExactIff(init);
      NewlinesInside(init);
      LastEach(s);
      OneMoreLine(Written(init), Newlines(init), last.entry);
    }
  }

  lemma {:induction false} LastEach(s: seq<Record>)
    requires s != []
    ensures OneLineEach(s) <==> OneLineEach(s[..|s| - 1]) && '\n' !in s[|s| - 1].entry
  {
    assert forall e :: e in s <==> e in s[..|s| - 1] || e == s[|s| - 1];
  }

  lemma {:induction false} NewlinesInside(s: seq<Record>)
    ensures forall p :: p in Newlines(s) ==> p < |Written(s)|
    ensures Newlines(s)[|s|] == |Written(s)| - 1
  {
    NewlinesPlaced(s);
  }

  lemma {:induction false} OneMoreLine(bytes: string, places: seq<nat>, line: string)
    requires forall p :: p in places ==> p < |bytes|
    ensures NewlinesAt(bytes + line + "\n", places + [|bytes| + |line|]) <==>
            NewlinesAt(bytes, places) && '\n' !in line
  {
    var longer, more := bytes + line + "\n", places + [|bytes| + |line|];
    if NewlinesAt(longer, more) {
      forall p | 0 <= p < |bytes| ensures bytes[p] == '\n' <==> p in places {
        assert longer[p] == bytes[p];
      }
      forall c | 0 <= c < |line| ensures line[c] != '\n' {
        assert longer[|bytes| + c] == line[c];
      }
    }
  }

  lemma {:induction false} MagicFirst(s: seq<Record>)
    ensures |Written(s)| >= 5 && Written(s)[..5] == "MNCL\n" && Newlines(s)[0] == 4
  {
    if s == [] {
    } else {
      MagicFirst(s[..|s| - 1]);
      assert Written(s)[..5] == Written(s[..|s| - 1])[..5];
    }
  }

  /** After the line of the magic number, line after line holds the entries in order. */
  lemma {:induction false} LineIs(s: seq<Record>, i: nat)
    requires i < |s|
    ensures Newlines(s)[i] < Newlines(s)[i + 1] < |Written(s)|
    ensures Written(s)[Newlines(s)[i] + 1..Newlines(s)[i + 1]] == s[i].entry
  {
    var init, last := s[..|s| - 1], s[|s| - 1];
    NewlineGaps(s);
    NewlinesPlaced(s);
    NewlinesInside(init);
    if i < |init| {
      LineIs(init, i);
      LongerKeeps(Written(init), last.entry, Newlines(init)[i] + 1, Newlines(init)[i + 1]);
    } else {
      LongerEnds(Written(init), last.entry);
    }
  }

  lemma {:induction false} LongerKeeps(bytes: string, line: string, a: nat, b: nat)
    requires a <= b <= |bytes|
    ensures (bytes + line + "\n")[a..b] == bytes[a..b]
  {
  }

  lemma {:induction false} LongerEnds(bytes: string, line: string)
    ensures (bytes + line + "\n")[|bytes|..|bytes| + |line|] == line
  {
  }

  lemma {:induction false} NewlineGaps(s: seq<Record>)
    ensures forall i, j :: 0 <= i < j <= |s| ==> Newlines(s)[i] < Newlines(s)[j]
    ensures forall i {:trigger s[i]} :: 0 <= i < |s| ==> Newlines(s)[i + 1] == Newlines(s)[i] + |s[i].entry| + 1
  {
    if s == [] {
    } else {
      NewlineGaps(s[..|s| - 1]);
    }
  }

  /** The compiled file as the search sees it, given how the features of each entry read back. */
  function Compiled(fold: char -> int, s: seq<Record>, readBack: Record -> L.Features): L.LexFile {
    L.LexFile((a, b) => CompareBy(fold, a, b), Newlines(s),
              seq(|s|, i requires 0 <= i < |s| => L.Entry(s[i].word, readBack(s[i]))))
  }

  /** A compiled lexicon is a file the search relies on, as long as every entry is printed on one line... */
  lemma {:induction false} CompiledIsValid(fold: char -> int, s: seq<Record>, readBack: Record -> L.Features)
    requires Sorted(fold, s)
    ensures Compiled(fold, s, readBack).Valid()
    ensures Compiled(fold, s, readBack).FileEnd() == |Written(s)|
    ensures NewlinesAt(Written(s), Compiled(fold, s, readBack).newline) <==> OneLineEach(s)
  {
    CompareByIsTotalPreorder(fold);
    NewlinesExactIff(s);
    NewlinesPlaced(s);
    NewlineGaps(s);
    forall i, j | 0 <= i <= j < |s| ensures Fcompare(fold, s[i].word, s[j].word) <= 0 {
      SortedByHeadword(fold, s, i, j);
    }
  }

  /** ...and its lines are long enough when every printed entry has eight characters or more. */
  lemma {:induction false} CompiledLongLines(fold: char -> int, s: seq<Record>, readBack: Record -> L.Features)
    ensures Compiled(fold, s, readBack).LongLines() <==> forall e :: e in s ==> |e.entry| >= 8
  {
    var f := Compiled(fold, s, readBack);
    NewlineGaps(s);
    assert forall i :: 0 <= i < |s| ==> s[i] in s && f.newline[i + 1] == f.newline[i] + |s[i].entry| + 1;
    if f.LongLines() {
      forall e | e in s ensures |e.entry| >= 8 {
        var i :| 0 <= i < |s| && s[i] == e;
        assert f.newline[i] + 9 <= f.newline[i + 1];
      }
    }
  }
}
