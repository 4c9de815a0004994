/** Cutting a list of phones into syllables, and marking the first one as stressed. */
module Syllables {
  import opened Seqs

  datatype Phone = Phone(name: string)

  /** What the phone set in use says of a phone. */
  datatype PhoneSet = PhoneSet(isVowel: Phone -> bool, isSilence: Phone -> bool, sonority: Phone -> int)

  datatype Syllable = Syllable(phones: seq<Phone>, stress: int)

  /** The hack for vowels that carry a stress digit; the search also finds the terminator of an empty name. */
  predicate StartsLikeVowel(ph: Phone) {
    ph.name == "" || ph.name[0] in "aiueoAIUEO"
  }

  predicate SylContainsVowel(ps: PhoneSet, phones: seq<Phone>) {
    phones != [] &&
    if StartsLikeVowel(phones[0]) || ps.isVowel(phones[0]) then true
    else if ps.isSilence(phones[0]) then false
    else SylContainsVowel(ps, phones[1..])
  }

  predicate SylBreakable(ps: PhoneSet, syl: seq<Phone>, rest: seq<Phone>)
    requires syl != []
  {
    if rest == [] then true
    else if !SylContainsVowel(ps, rest) then false
    else if SylContainsVowel(ps, syl) then
      if ps.isVowel(rest[0]) then true
      else if rest[1..] == [] then false
      else ps.sonority(syl[0]) <= ps.sonority(rest[0]) <= ps.sonority(rest[1])
    else false
  }

  /** The syllables cut from a list, given the phones of the open syllable, last first. */
  function Cut(ps: PhoneSet, syl: seq<Phone>, rest: seq<Phone>): seq<seq<Phone>>
    decreases |rest|
  {
    if rest == [] then []
    else
      var grown := [rest[0]] + syl;
      if SylBreakable(ps, grown, rest[1..]) then [Reverse(grown)] + Cut(ps, [], rest[1..])
      else Cut(ps, grown, rest[1..])
  }

  function Stressed(syls: seq<seq<Phone>>): seq<Syllable> {
    seq(|syls|, i requires 0 <= i < |syls| => Syllable(syls[i], if i == 0 then 1 else 0))
  }

  method LexSyllabify(ps: PhoneSet, phones: seq<Phone>) returns (r: seq<Syllable>)
    ensures r == Stressed(Cut(ps, [], phones))
    ensures forall i :: 0 <= i < |r| ==> r[i].stress == if i == 0 then 1 else 0
  {
    var stress := 1;
    var syl: seq<Phone>, syls: seq<Syllable>, p := [], [], phones;
    ghost var done: seq<seq<Phone>> := [];
    while p != []
      invariant Cut(ps, [], phones) == done + Cut(ps, syl, p)
      invariant Reverse(syls) == Stressed(done)
      invariant stress == if done == [] then 1 else 0
      decreases |p|
    {
      syl := [p[0]] + syl;
      if SylBreakable(ps, syl, p[1..]) {
        done := done + [Reverse(syl)];
        syls := [Syllable(Reverse(syl), stress)] + syls;
        assert syls[1..] + [] == syls[1..];
        stress := 0;
        syl := [];
      }
      p := p[1..];
    }
    r := Reverse(syls);
  }

  // ---------- Nothing is lost ----------

  function Flatten(syls: seq<seq<Phone>>): seq<Phone> {
    if syls == [] then [] else syls[0] + Flatten(syls[1..])
  }

  /** Whatever the phone set says, the syllables in turn are the phones. */
  lemma {:induction false} CutConserves(ps: PhoneSet, syl: seq<Phone>, rest: seq<Phone>)
    requires rest == [] ==> syl == []
    ensures Flatten(Cut(ps, syl, rest)) == Reverse(syl) + rest
    decreases |rest|
  {
    if rest == [] {
    } else {
      var grown := [rest[0]] + syl;
      assert Reverse(grown) + rest[1..] == Reverse(syl) + rest;
      CutConserves(ps, if SylBreakable(ps, grown, rest[1..]) then [] else grown, rest[1..]);
    }
  }

  // ---------- One vowel each ----------

  function Vowels(ps: PhoneSet, phones: seq<Phone>): nat {
    if phones == [] then 0 else (if ps.isVowel(phones[0]) then 1 else 0) + Vowels(ps, phones[1..])
  }

  /** Only vowels of the phone set look like vowels. */
  ghost predicate Agree(ps: PhoneSet, phones: seq<Phone>) {
    forall ph :: ph in phones ==> StartsLikeVowel(ph) ==> ps.isVowel(ph)
  }

  predicate OneVowelEach(ps: PhoneSet, syls: seq<seq<Phone>>) {
    forall i :: 0 <= i < |syls| ==> Vowels(ps, syls[i]) == 1
  }

  /** A phone that stops the search for a vowel. */
  predicate Silent(ps: PhoneSet, ph: Phone) { ps.isSilence(ph) && !ps.isVowel(ph) }

  /** No silence lies between two vowels. */
  predicate SilencesOutside(ps: PhoneSet, phones: seq<Phone>) {
    forall a, b, c :: 0 <= a < b < c < |phones| && ps.isVowel(phones[a]) && ps.isVowel(phones[c]) ==> !Silent(ps, phones[b])
  }

  /** The test finds a vowel exactly when there is one with no silence before it. */
  lemma {:induction false} ContainsVowelIff(ps: PhoneSet, phones: seq<Phone>)
    requires Agree(ps, phones)
    ensures SylContainsVowel(ps, phones) <==>
            exists k :: 0 <= k < |phones| && ps.isVowel(phones[k]) && forall j :: 0 <= j < k ==> !Silent(ps, phones[j])
  {
    if phones == [] {
    } else {
      var rest := phones[1..];
      ContainsVowelIff(ps, rest);
      if k :| 0 <= k < |rest| && ps.isVowel(rest[k]) && forall j :: 0 <= j < k ==> !Silent(ps, rest[j]) {
        if !Silent(ps, phones[0]) {
          assert phones[k + 1] == rest[k];
          assert forall j :: 0 <= j < k + 1 ==> !Silent(ps, phones[j]);
        }
      }
      if k :| 0 <= k < |phones| && ps.isVowel(phones[k]) && forall j :: 0 <= j < k ==> !Silent(ps, phones[j]) {
        if k > 0 {
          assert rest[k - 1] == phones[k];
          assert forall j :: 0 <= j < k - 1 ==> rest[j] == phones[j + 1];
        }
      }
    }
  }

  lemma {:induction false} ContainsSome(ps: PhoneSet, phones: seq<Phone>)
    requires Agree(ps, phones) && SylContainsVowel(ps, phones)
    ensures Vowels(ps, phones) > 0
  {
    if StartsLikeVowel(phones[0]) || ps.isVowel(phones[0]) {
      assert phones[0] in phones;
    } else {
      assert forall ph :: ph in phones[1..] ==> ph in phones;
      ContainsSome(ps, phones[1..]);
    }
  }

  /** What one more phone in front does to the test. */
  lemma {:induction false} ContainsStep(ps: PhoneSet, ph: Phone, phones: seq<Phone>)
    requires Agree(ps, [ph] + phones)
    ensures SylContainsVowel(ps, [ph] + phones) <==>
            ps.isVowel(ph) || (!Silent(ps, ph) && SylContainsVowel(ps, phones))
    ensures Vowels(ps, [ph] + phones) == (if ps.isVowel(ph) then 1 else 0) + Vowels(ps, phones)
    ensures Agree(ps, phones)
  {
    assert ([ph] + phones)[1..] == phones;
    assert ph in [ph] + phones;
    assert forall x :: x in phones ==> x in [ph] + phones;
  }

  /** After each vowel, the search for the next one does not stop at a silence. */
  predicate Unbroken(ps: PhoneSet, phones: seq<Phone>) {
    phones == [] ||
    (Unbroken(ps, phones[1..]) &&
     (ps.isVowel(phones[0]) && Vowels(ps, phones[1..]) > 0 ==> SylContainsVowel(ps, phones[1..])))
  }

  lemma {:induction false} SomeVowel(ps: PhoneSet, phones: seq<Phone>)
    ensures Vowels(ps, phones) > 0 <==> exists k :: 0 <= k < |phones| && ps.isVowel(phones[k])
  {
    if phones == [] {
    } else {
      SomeVowel(ps, phones[1..]);
      if k :| 0 <= k < |phones[1..]| && ps.isVowel(phones[1..][k]) {
        assert phones[k + 1] == phones[1..][k];
      }
      if k :| 0 < k < |phones| && ps.isVowel(phones[k]) {
        assert phones[1..][k - 1] == phones[k];
      }
    }
  }

  /** Each vowel is followed by the next without a stop exactly when no silence lies between two vowels. */
  lemma {:induction false} UnbrokenIff(ps: PhoneSet, phones: seq<Phone>)
    requires Agree(ps, phones)
    ensures Unbroken(ps, phones) <==> SilencesOutside(ps, phones)
  {
    if phones == [] {
    } else {
      var rest := phones[1..];
      assert forall x :: x in rest ==> x in phones;
      UnbrokenIff(ps, rest);
      SilencesStep(ps, phones);
      if ps.isVowel(phones[0]) {
        ReachesIff(ps, rest);
      }
    }
  }

  /** No silence comes before a vowel. */
  predicate NoneBefore(ps: PhoneSet, phones: seq<Phone>) {
    forall b, c :: 0 <= b < c < |phones| && ps.isVowel(phones[c]) ==> !Silent(ps, phones[b])
  }

  lemma {:induction false} SilencesStep(ps: PhoneSet, phones: seq<Phone>)
    requires phones != []
    ensures SilencesOutside(ps, phones) <==>
            SilencesOutside(ps, phones[1..]) && (ps.isVowel(phones[0]) ==> NoneBefore(ps, phones[1..]))
  {
    var rest := phones[1..];
    assert forall i :: 0 <= i < |rest| ==> rest[i] == phones[i + 1];
    if SilencesOutside(ps, phones) {
      forall a, b, c | 0 <= a < b < c < |rest| && ps.isVowel(rest[a]) && ps.isVowel(rest[c]) ensures !Silent(ps, rest[b]) {
        assert phones[a + 1] == rest[a] && phones[b + 1] == rest[b] && phones[c + 1] == rest[c];
      }
      if ps.isVowel(phones[0]) {
        forall b, c | 0 <= b < c < |rest| && ps.isVowel(rest[c]) ensures !Silent(ps, rest[b]) {
          assert phones[b + 1] == rest[b] && phones[c + 1] == rest[c];
        }
      }
    }
    if SilencesOutside(ps, rest) && (ps.isVowel(phones[0]) ==> NoneBefore(ps, rest)) {
      forall a, b, c | 0 <= a < b < c < |phones| && ps.isVowel(phones[a]) && ps.isVowel(phones[c])
        ensures !Silent(ps, phones[b])
      {
        assert phones[b] == rest[b - 1] && phones[c] == rest[c - 1];
        if a > 0 {
          assert phones[a] == rest[a - 1];
        }
      }
    }
  }

  /** Where no silence lies between vowels, the first vowel is reached exactly when no silence comes before any. */
  lemma {:induction false} ReachesIff(ps: PhoneSet, phones: seq<Phone>)
    requires Agree(ps, phones)
    ensures SilencesOutside(ps, phones) ==>
              ((Vowels(ps, phones) > 0 ==> SylContainsVowel(ps, phones)) <==> NoneBefore(ps, phones))
  {
    SomeVowel(ps, phones);
    ContainsVowelIff(ps, phones);
    if SylContainsVowel(ps, phones) && SilencesOutside(ps, phones) {
      var k :| 0 <= k < |phones| && ps.isVowel(phones[k]) && forall j :: 0 <= j < k ==> !Silent(ps, phones[j]);
      forall b, c | 0 <= b < c < |phones| && ps.isVowel(phones[c]) ensures !Silent(ps, phones[b]) {
      }
    }
    if NoneBefore(ps, phones) {
      if k :| 0 <= k < |phones| && ps.isVowel(phones[k]) {
        assert forall j :: 0 <= j < k ==> !Silent(ps, phones[j]);
      }
    }
  }

  lemma {:induction false} VowelsAppend(ps: PhoneSet, s: seq<Phone>, t: seq<Phone>)
    ensures Vowels(ps, s + t) == Vowels(ps, s) + Vowels(ps, t)
  {
    if s == [] {
      assert s + t == t;
    } else {
      VowelsAppend(ps, s[1..], t);
      assert (s + t)[1..] == s[1..] + t;
    }
  }

  lemma {:induction false} VowelsReverse(ps: PhoneSet, s: seq<Phone>)
    ensures Vowels(ps, Reverse(s)) == Vowels(ps, s)
  {
    if s == [] {
    } else {
      VowelsReverse(ps, s[1..]);
      VowelsAppend(ps, Reverse(s[1..]), [s[0]]);
    }
  }

  /** Between the vowel of an open syllable and the next vowel there is no silence, and the two do not meet. */
  predicate Open(ps: PhoneSet, syl: seq<Phone>, rest: seq<Phone>) {
    && Vowels(ps, syl) + Vowels(ps, rest) > 0
    && Vowels(ps, syl) + (if rest != [] && ps.isVowel(rest[0]) then 1 else 0) <= 1
    && (Vowels(ps, syl) > 0 && Vowels(ps, rest) > 0 ==> SylContainsVowel(ps, syl) && SylContainsVowel(ps, rest))
    && Unbroken(ps, rest)
  }

  /** A syllable is broken off only with its one vowel in it. */
  lemma {:induction false} BrokenHasOne(ps: PhoneSet, syl: seq<Phone>, rest: seq<Phone>)
    requires rest != [] && Agree(ps, [rest[0]] + syl) && Open(ps, syl, rest)
    requires SylBreakable(ps, [rest[0]] + syl, rest[1..])
    ensures Vowels(ps, Reverse([rest[0]] + syl)) == 1
  {
    var grown := [rest[0]] + syl;
    VowelsReverse(ps, grown);
    ContainsStep(ps, rest[0], syl);
    if rest[1..] != [] {
      ContainsSome(ps, grown);
    } else {
      assert Vowels(ps, rest) == (if ps.isVowel(rest[0]) then 1 else 0) + Vowels(ps, rest[1..]);
    }
  }

  lemma {:induction false} BrokenLeavesOpen(ps: PhoneSet, rest: seq<Phone>)
    requires Agree(ps, rest) && rest != [] && SylContainsVowel(ps, rest) && Unbroken(ps, rest)
    ensures Open(ps, [], rest)
  {
    ContainsSome(ps, rest);
  }

  /** A syllable that is not broken off goes on with room for its vowel. */
  lemma {:induction false} UnbrokenStaysOpen(ps: PhoneSet, syl: seq<Phone>, rest: seq<Phone>)
    requires rest != [] && Agree(ps, [rest[0]] + syl) && Agree(ps, rest) && Open(ps, syl, rest)
    requires !SylBreakable(ps, [rest[0]] + syl, rest[1..])
    ensures rest[1..] != [] && Open(ps, [rest[0]] + syl, rest[1..])
  {
    assert rest == [rest[0]] + rest[1..] && rest[1..] == [rest[1]] + rest[2..];
    ContainsStep(ps, rest[0], syl);
    ContainsStep(ps, rest[0], rest[1..]);
    ContainsStep(ps, rest[1], rest[2..]);
  }

  lemma {:induction false} AgreeStep(ps: PhoneSet, syl: seq<Phone>, rest: seq<Phone>)
    requires Agree(ps, syl + rest) && rest != []
    ensures Agree(ps, ([rest[0]] + syl) + rest[1..]) && Agree(ps, [] + rest[1..]) && Agree(ps, rest[1..])
    ensures Agree(ps, [rest[0]] + syl) && Agree(ps, rest)
  {
    assert forall ph :: ph in [rest[0]] + syl || ph in rest || ph in rest[1..] ==> ph in syl + rest;
    assert [] + rest[1..] == rest[1..];
    assert forall ph :: ph in ([rest[0]] + syl) + rest[1..] ==> ph in [rest[0]] + syl || ph in rest[1..];
  }

  lemma {:induction false} CutOneVowel(ps: PhoneSet, syl: seq<Phone>, rest: seq<Phone>)
    requires Agree(ps, syl + rest) && rest != [] && Open(ps, syl, rest)
    ensures OneVowelEach(ps, Cut(ps, syl, rest))
    decreases |rest|
  {
    var grown := [rest[0]] + syl;
    AgreeStep(ps, syl, rest);
    if !SylBreakable(ps, grown, rest[1..]) {
      UnbrokenStaysOpen(ps, syl, rest);
      CutOneVowel(ps, grown, rest[1..]);
    } else {
      BrokenHasOne(ps, syl, rest);
      if rest[1..] != [] {
        BrokenLeavesOpen(ps, rest[1..]);
        CutOneVowel(ps, [], rest[1..]);
      }
    }
  }

  // ---------- When syllables have too many vowels ----------

  lemma {:induction false} BadLater(ps: PhoneSet, first: seq<Phone>, syls: seq<seq<Phone>>)
    requires !OneVowelEach(ps, syls)
    ensures !OneVowelEach(ps, [first] + syls)
  {
    var i :| 0 <= i < |syls| && Vowels(ps, syls[i]) != 1;
    assert ([first] + syls)[i + 1] == syls[i];
  }

  /** An open syllable that gets a second vowel keeps it. */
  lemma {:induction false} TwoVowels(ps: PhoneSet, syl: seq<Phone>, rest: seq<Phone>)
    requires rest != [] && Vowels(ps, [rest[0]] + syl) > 1
    ensures !OneVowelEach(ps, Cut(ps, syl, rest))
    decreases |rest|
  {
    var grown := [rest[0]] + syl;
    if SylBreakable(ps, grown, rest[1..]) {
      VowelsReverse(ps, grown);
      assert Cut(ps, syl, rest)[0] == Reverse(grown);
    } else {
      assert ([rest[1]] + grown)[1..] == grown;
      TwoVowels(ps, grown, rest[1..]);
    }
  }

  /** A syllable whose vowel is behind a silence stays open until the next vowel is in it. */
  lemma {:induction false} BehindSilence(ps: PhoneSet, syl: seq<Phone>, rest: seq<Phone>)
    requires Agree(ps, syl + rest)
    requires Vowels(ps, syl) > 0 && !SylContainsVowel(ps, syl) && Vowels(ps, rest) > 0
    ensures !OneVowelEach(ps, Cut(ps, syl, rest))
    decreases |rest|
  {
    var grown := [rest[0]] + syl;
    assert forall ph :: ph in grown + rest[1..] ==> ph in syl + rest;
    assert Agree(ps, grown) by { assert forall ph :: ph in grown ==> ph in grown + rest[1..]; }
    ContainsStep(ps, rest[0], syl);
    if ps.isVowel(rest[0]) {
      TwoVowels(ps, syl, rest);
    } else {
      BehindSilence(ps, grown, rest[1..]);
    }
  }

  /** A silence ahead of the next vowel gets into a syllable that has its vowel. */
  lemma {:induction false} SilenceAhead(ps: PhoneSet, syl: seq<Phone>, rest: seq<Phone>)
    requires Agree(ps, syl + rest)
    requires Vowels(ps, syl) > 0 && !SylContainsVowel(ps, rest) && Vowels(ps, rest) > 0
    ensures !OneVowelEach(ps, Cut(ps, syl, rest))
    decreases |rest|
  {
    var grown := [rest[0]] + syl;
    assert rest == [rest[0]] + rest[1..];
    assert forall ph :: ph in grown + rest[1..] ==> ph in syl + rest;
    assert forall ph :: ph in grown || ph in rest ==> ph in syl + rest;
    ContainsStep(ps, rest[0], syl);
    ContainsStep(ps, rest[0], rest[1..]);
    if Silent(ps, rest[0]) {
      BehindSilence(ps, grown, rest[1..]);
    } else {
      SilenceAhead(ps, grown, rest[1..]);
    }
  }

  lemma {:induction false} BrokenSpoils(ps: PhoneSet, syl: seq<Phone>, rest: seq<Phone>)
    requires Agree(ps, syl + rest) && !Unbroken(ps, rest)
    ensures !OneVowelEach(ps, Cut(ps, syl, rest))
    decreases |rest|
  {
    var grown := [rest[0]] + syl;
    assert forall ph :: ph in grown + rest[1..] ==> ph in syl + rest;
    assert forall ph :: ph in [] + rest[1..] ==> ph in syl + rest;
    if Unbroken(ps, rest[1..]) {
      assert ([rest[0]] + syl)[1..] == syl;
      SilenceAhead(ps, grown, rest[1..]);
    } else if SylBreakable(ps, grown, rest[1..]) {
      BrokenSpoils(ps, [], rest[1..]);
      BadLater(ps, Reverse(grown), Cut(ps, [], rest[1..]));
    } else {
      BrokenSpoils(ps, grown, rest[1..]);
    }
  }

  // ---------- Exactly one vowel each ----------

  lemma {:induction false} VowelsInNone(ps: PhoneSet, phones: seq<Phone>)
    requires phones != [] && Vowels(ps, phones) == 0
    ensures !OneVowelEach(ps, Cut(ps, [], phones))
  {
    var none: seq<Phone>, syls := [], Cut(ps, [], phones);
    CutConserves(ps, none, phones);
    assert Reverse(none) + phones == phones;
    VowelsAppend(ps, syls[0], Flatten(syls[1..]));
    assert Vowels(ps, syls[0]) == 0;
  }

  lemma {:induction false} SomeVowels(ps: PhoneSet, phones: seq<Phone>)
    requires Agree(ps, phones) && Vowels(ps, phones) > 0
    ensures OneVowelEach(ps, Cut(ps, [], phones)) <==> Unbroken(ps, phones)
  {
    var none: seq<Phone> := [];
    assert none + phones == phones;
    if Unbroken(ps, phones) {
      CutOneVowel(ps, none, phones);
    } else {
      BrokenSpoils(ps, none, phones);
    }
  }

  /** Each syllable has exactly one vowel exactly when there is a vowel, or no phone, and no silence between two vowels. */
  lemma {:induction false} OneVowelEachIff(ps: PhoneSet, phones: seq<Phone>)
    requires Agree(ps, phones)
    ensures OneVowelEach(ps, Cut(ps, [], phones)) <==>
            phones == [] || (Vowels(ps, phones) > 0 && SilencesOutside(ps, phones))
  {
    UnbrokenIff(ps, phones);
    if phones == [] {
    } else if Vowels(ps, phones) == 0 {
      VowelsInNone(ps, phones);
    } else {
      SomeVowels(ps, phones);
    }
  }

  /** With a vowel anywhere, no syllable goes without one. */
  predicate SomeVowelEach(ps: PhoneSet, syls: seq<seq<Phone>>) {
    forall i :: 0 <= i < |syls| ==> Vowels(ps, syls[i]) > 0
  }

  lemma {:induction false} CutSomeVowel(ps: PhoneSet, syl: seq<Phone>, rest: seq<Phone>)
    requires Agree(ps, syl + rest) && Vowels(ps, syl) + Vowels(ps, rest) > 0
    ensures SomeVowelEach(ps, Cut(ps, syl, rest))
    decreases |rest|
  {
    if rest == [] {
    } else {
      var grown := [rest[0]] + syl;
      assert forall ph :: ph in grown + rest[1..] ==> ph in syl + rest;
      assert forall ph :: ph in [] + rest[1..] ==> ph in syl + rest;
      assert Agree(ps, grown) by { assert forall ph :: ph in grown ==> ph in grown + rest[1..]; }
      ContainsStep(ps, rest[0], syl);
      VowelsReverse(ps, grown);
      if !SylBreakable(ps, grown, rest[1..]) {
        CutSomeVowel(ps, grown, rest[1..]);
      } else if rest[1..] != [] {
        assert Agree(ps, rest[1..]) by { assert forall ph :: ph in rest[1..] ==> ph in syl + rest; }
        ContainsSome(ps, grown);
        ContainsSome(ps, rest[1..]);
        CutSomeVowel(ps, [], rest[1..]);
      }
    }
  }

  lemma {:induction false} AsManyIff(ps: PhoneSet, syls: seq<seq<Phone>>)
    requires SomeVowelEach(ps, syls)
    ensures |syls| <= Vowels(ps, Flatten(syls))
    ensures |syls| == Vowels(ps, Flatten(syls)) <==> OneVowelEach(ps, syls)
  {
    if syls == [] {
    } else {
      VowelsAppend(ps, syls[0], Flatten(syls[1..]));
      assert forall i :: 0 <= i < |syls[1..]| ==> syls[1..][i] == syls[i + 1];
      AsManyIff(ps, syls[1..]);
      assert syls == [syls[0]] + syls[1..];
      if !OneVowelEach(ps, syls[1..]) {
        BadLater(ps, syls[0], syls[1..]);
      }
    }
  }

  /** With a vowel, syllables are never more than the vowels, and as many exactly when no silence lies between two vowels. */
  lemma {:induction false} AsManyAsVowelsIff(ps: PhoneSet, phones: seq<Phone>)
    requires Agree(ps, phones) && Vowels(ps, phones) > 0
    ensures |Cut(ps, [], phones)| <= Vowels(ps, phones)
    ensures |Cut(ps, [], phones)| == Vowels(ps, phones) <==> SilencesOutside(ps, phones)
  {
    var none: seq<Phone> := [];
    CutConserves(ps, none, phones);
    assert Reverse(none) + phones == phones && none + phones == phones;
    CutSomeVowel(ps, none, phones);
    AsManyIff(ps, Cut(ps, none, phones));
    OneVowelEachIff(ps, phones);
  }

  // ---------- Where the breaks are ----------

  predicate HasVowel(ps: PhoneSet, phones: seq<Phone>, a: int, b: int)
    requires 0 <= a && b <= |phones|
  {
    exists i :: a <= i < b && ps.isVowel(phones[i])
  }

  /** A syllable that has its vowel may end before phone `k`: a vowel comes there or later, and either it comes there, or
      the sonority does not fall from the phone before through this one to the one after. */
  predicate BreakPlace(ps: PhoneSet, phones: seq<Phone>, k: int) {
    && 0 < k < |phones| && HasVowel(ps, phones, k, |phones|)
    && (ps.isVowel(phones[k]) ||
        (k + 1 < |phones| && ps.sonority(phones[k - 1]) <= ps.sonority(phones[k]) <= ps.sonority(phones[k + 1])))
  }

  /** No place up to `p` where a syllable from `start` may end. */
  predicate NoneYet(ps: PhoneSet, phones: seq<Phone>, start: int, p: int)
    requires 0 <= start && p <= |phones|
  {
    forall k {:trigger BreakPlace(ps, phones, k)} :: start < k <= p && HasVowel(ps, phones, start, k) ==> !BreakPlace(ps, phones, k)
  }

  /** The phones from `start` to `end` have a vowel, and after the first one no such place comes before `end`; `end` is one,
      or the end of the phones. */
  predicate EndsFirst(ps: PhoneSet, phones: seq<Phone>, start: int, end: int) {
    && 0 <= start < end <= |phones| && HasVowel(ps, phones, start, end)
    && NoneYet(ps, phones, start, end - 1)
    && (end == |phones| || BreakPlace(ps, phones, end))
  }

  /** Each syllable, from `start` on, takes the next phones and ends at the first place it may. */
  predicate CutAt(ps: PhoneSet, phones: seq<Phone>, start: int, syls: seq<seq<Phone>>)
    decreases |syls|
  {
    if syls == [] then start == |phones|
    else
      var end := start + |syls[0]|;
      && EndsFirst(ps, phones, start, end) && syls[0] == phones[start..end]
      && CutAt(ps, phones, end, syls[1..])
  }

  lemma {:induction false} HasVowelIff(ps: PhoneSet, phones: seq<Phone>, a: nat, b: nat)
    requires a <= b <= |phones|
    ensures HasVowel(ps, phones, a, b) <==> Vowels(ps, phones[a..b]) > 0
  {
    SomeVowel(ps, phones[a..b]);
    if i :| a <= i < b && ps.isVowel(phones[i]) {
      assert phones[a..b][i - a] == phones[i];
    }
    if k :| 0 <= k < |phones[a..b]| && ps.isVowel(phones[a..b][k]) {
      assert phones[a + k] == phones[a..b][k];
    }
  }

  /** The open syllable is the phones from `start` to `p`, last first. */
  ghost predicate OpenAt(ps: PhoneSet, phones: seq<Phone>, start: int, p: int, syl: seq<Phone>) {
    && 0 <= start <= p < |phones| && syl == Reverse(phones[start..p])
    && Agree(ps, phones) && Open(ps, syl, phones[p..])
  }

  /** The break rule, in terms of places in the list. */
  lemma {:induction false} BreakableIff(ps: PhoneSet, phones: seq<Phone>, start: nat, p: nat, syl: seq<Phone>)
    requires OpenAt(ps, phones, start, p, syl)
    ensures SylBreakable(ps, [phones[p]] + syl, phones[p + 1..]) <==>
            p + 1 == |phones| || (HasVowel(ps, phones, start, p + 1) && BreakPlace(ps, phones, p + 1))
  {
    var grown, rest := [phones[p]] + syl, phones[p + 1..];
    GrownReversed(phones, start, p);
    HasVowelIff(ps, phones, start, p + 1);
    VowelsReverse(ps, phones[start..p + 1]);
    HasVowelIff(ps, phones, p + 1, |phones|);
    assert phones[p + 1..|phones|] == rest;
    if p + 1 < |phones| {
      assert rest[0] == phones[p + 1] && (p + 2 < |phones| ==> rest[1] == phones[p + 2]);
      assert |rest[1..]| == |phones| - p - 2;
      SeesBoth(ps, phones, start, p, syl);
    }
  }

  lemma {:induction false} GrownReversed(phones: seq<Phone>, start: nat, p: nat)
    requires start <= p < |phones|
    ensures [phones[p]] + Reverse(phones[start..p]) == Reverse(phones[start..p + 1])
  {
    assert phones[start..p + 1] == phones[start..p] + [phones[p]];
    ReverseAppend(phones[start..p], [phones[p]]);
    ReverseOne(phones[p]);
  }

  /** With a vowel in the grown syllable and one ahead, the test sees both; and it sees none where there is none. */
  lemma {:induction false} SeesBoth(ps: PhoneSet, phones: seq<Phone>, start: nat, p: nat, syl: seq<Phone>)
    requires OpenAt(ps, phones, start, p, syl) && p + 1 < |phones|
    ensures var grown, rest := [phones[p]] + syl, phones[p + 1..];
            SylContainsVowel(ps, rest) && SylContainsVowel(ps, grown) <==> Vowels(ps, rest) > 0 && Vowels(ps, grown) > 0
  {
    var grown, rest := [phones[p]] + syl, phones[p + 1..];
    forall ph | ph in grown || ph in rest ensures ph in phones {
      ReverseMembers(phones[start..p], ph);
    }
    assert phones[p..] == [phones[p]] + rest;
    assert Agree(ps, phones[p..]) by { assert forall ph :: ph in phones[p..] ==> ph in phones; }
    ContainsStep(ps, phones[p], syl);
    ContainsStep(ps, phones[p], rest);
    if SylContainsVowel(ps, rest) {
      ContainsSome(ps, rest);
    }
    if SylContainsVowel(ps, grown) {
      ContainsSome(ps, grown);
    }
  }

  lemma {:induction false} OpenNext(ps: PhoneSet, phones: seq<Phone>, start: nat, p: nat, syl: seq<Phone>)
    requires OpenAt(ps, phones, start, p, syl) && p + 1 < |phones|
    ensures if SylBreakable(ps, [phones[p]] + syl, phones[p + 1..]) then OpenAt(ps, phones, p + 1, p + 1, [])
            else OpenAt(ps, phones, start, p + 1, [phones[p]] + syl)
  {
    var rest := phones[p..];
    assert rest[0] == phones[p] && rest[1..] == phones[p + 1..];
    forall ph | ph in [phones[p]] + syl || ph in rest ensures ph in phones {
      ReverseMembers(phones[start..p], ph);
    }
    if SylBreakable(ps, [phones[p]] + syl, phones[p + 1..]) {
      assert forall ph :: ph in phones[p + 1..] ==> ph in phones;
      BrokenLeavesOpen(ps, phones[p + 1..]);
      assert phones[p + 1..p + 1] == [];
    } else {
      UnbrokenStaysOpen(ps, syl, rest);
      GrownReversed(phones, start, p);
    }
  }

  lemma {:induction false} CutEndsFirst(ps: PhoneSet, phones: seq<Phone>, start: nat, p: nat, syl: seq<Phone>)
    requires OpenAt(ps, phones, start, p, syl) && NoneYet(ps, phones, start, p)
    ensures CutAt(ps, phones, start, Cut(ps, syl, phones[p..]))
    decreases |phones| - p
  {
    var grown := [phones[p]] + syl;
    BreakableIff(ps, phones, start, p, syl);
    CutNext(ps, phones, start, p, syl);
    if p + 1 < |phones| {
      OpenNext(ps, phones, start, p, syl);
    }
    if SylBreakable(ps, grown, phones[p + 1..]) {
      LastHasVowel(ps, phones, start, p, syl);
      assert EndsFirst(ps, phones, start, p + 1);
      if p + 1 < |phones| {
        CutEndsFirst(ps, phones, p + 1, p + 1, []);
      }
      EndHere(ps, phones, start, p + 1, Cut(ps, [], phones[p + 1..]));
    } else {
      assert NoneYet(ps, phones, start, p + 1);
      CutEndsFirst(ps, phones, start, p + 1, grown);
    }
  }

  lemma {:induction false} CutNext(ps: PhoneSet, phones: seq<Phone>, start: nat, p: nat, syl: seq<Phone>)
    requires start <= p < |phones| && syl == Reverse(phones[start..p])
    ensures var grown, rest := [phones[p]] + syl, phones[p + 1..];
            Cut(ps, syl, phones[p..]) ==
            if SylBreakable(ps, grown, rest) then [phones[start..p + 1]] + Cut(ps, [], rest) else Cut(ps, grown, rest)
  {
    GrownReversed(phones, start, p);
    ReverseTwice(phones[start..p + 1]);
    assert phones[p..][0] == phones[p] && phones[p..][1..] == phones[p + 1..];
  }

  lemma {:induction false} EndHere(ps: PhoneSet, phones: seq<Phone>, start: int, end: int, syls: seq<seq<Phone>>)
    requires EndsFirst(ps, phones, start, end) && CutAt(ps, phones, end, syls)
    ensures CutAt(ps, phones, start, [phones[start..end]] + syls)
  {
    assert ([phones[start..end]] + syls)[1..] == syls;
  }

  lemma {:induction false} LastHasVowel(ps: PhoneSet, phones: seq<Phone>, start: nat, p: nat, syl: seq<Phone>)
    requires OpenAt(ps, phones, start, p, syl) && SylBreakable(ps, [phones[p]] + syl, phones[p + 1..])
    ensures HasVowel(ps, phones, start, p + 1)
  {
    BreakableIff(ps, phones, start, p, syl);
    if p + 1 == |phones| {
      GrownReversed(phones, start, p);
      VowelsReverse(ps, phones[start..p + 1]);
      HasVowelIff(ps, phones, start, p + 1);
      assert phones[p..] == [phones[p]];
      assert Vowels(ps, [phones[p]] + syl) == Vowels(ps, phones[p..]) + Vowels(ps, syl) by {
        assert ([phones[p]] + syl)[1..] == syl;
        assert phones[p..][1..] == [];
      }
    }
  }

  lemma {:induction false} CutAtUnique(ps: PhoneSet, phones: seq<Phone>, start: int, s: seq<seq<Phone>>, t: seq<seq<Phone>>)
    requires CutAt(ps, phones, start, s) && CutAt(ps, phones, start, t)
    ensures s == t
    decreases |s|
  {
    if s == [] || t == [] {
    } else {
      SameEnd(ps, phones, start, start + |s[0]|, start + |t[0]|);
      CutAtUnique(ps, phones, start + |s[0]|, s[1..], t[1..]);
      assert s == [s[0]] + s[1..] && t == [t[0]] + t[1..];
    }
  }

  lemma {:induction false} SameEnd(ps: PhoneSet, phones: seq<Phone>, start: int, a: int, b: int)
    requires EndsFirst(ps, phones, start, a) && EndsFirst(ps, phones, start, b)
    ensures a == b
  {
  }

  /** Where names do not mislead and no silence lies between two vowels, the phones of a list with a vowel are cut so that each
      syllable ends at the first place after its vowel where it may; there is one such cut. */
  lemma {:induction false} CutIff(ps: PhoneSet, phones: seq<Phone>, syls: seq<seq<Phone>>)
    requires Agree(ps, phones) && Vowels(ps, phones) > 0 && SilencesOutside(ps, phones)
    ensures CutAt(ps, phones, 0, syls) <==> syls == Cut(ps, [], phones)
  {
    UnbrokenIff(ps, phones);
    assert phones[0..] == phones && phones[0..0] == [];
    var none: seq<Phone> := [];
    assert Reverse(none) == none && Vowels(ps, none) == 0;
    CutEndsFirst(ps, phones, 0, 0, none);
    if CutAt(ps, phones, 0, syls) {
      CutAtUnique(ps, phones, 0, syls, Cut(ps, [], phones));
    }
  }

  // ---------- Two ways to go wrong ----------

  /** A silence between two vowels hides the second: they share a syllable. */
  lemma {:induction false} SilenceHidesVowel(ps: PhoneSet, v: Phone, silence: Phone, w: Phone)
    requires ps.isVowel(v) && ps.isVowel(w)
    requires ps.isSilence(silence) && !ps.isVowel(silence) && !StartsLikeVowel(silence)
    ensures Cut(ps, [], [v, silence, w]) == [[v, silence, w]]
    ensures Vowels(ps, [v, silence, w]) == 2
  {
    assert [v, silence, w][1..] == [silence, w];
    assert [silence, w][1..] == [w];
    assert [silence] + [v] == [silence, v];
    assert [w] + [silence, v] == [w, silence, v];
    assert Reverse([w, silence, v]) == [v, silence, w] by {
      ReverseAt([w, silence, v]);
      var r := Reverse([w, silence, v]);
      assert r[0] == v && r[1] == silence && r[2] == w;
    }
    assert Vowels(ps, [w]) == 1 && Vowels(ps, [silence, w]) == 1;
    assert [v] + [] == [v];
    assert !SylBreakable(ps, [v], [silence, w]);
    assert Cut(ps, [], [v, silence, w]) == Cut(ps, [v], [silence, w]);
    assert Cut(ps, [v], [silence, w]) == Cut(ps, [silence, v], [w]);
    assert Cut(ps, [silence, v], [w]) == [[v, silence, w]];
  }

  /** A consonant whose name starts like a vowel gets a syllable to itself. */
  lemma {:induction false} VowelLetterMisleads(ps: PhoneSet, c: Phone, v: Phone)
    requires StartsLikeVowel(c) && !ps.isVowel(c) && ps.isVowel(v)
    ensures Cut(ps, [], [c, v]) == [[c], [v]]
    ensures Vowels(ps, [c]) == 0
  {
    assert [c, v][1..] == [v];
    ReverseOne(c);
    ReverseOne(v);
    assert [c] + [] == [c] && [v] + [] == [v];
    assert Cut(ps, [], [v]) == [[v]];
  }
}
