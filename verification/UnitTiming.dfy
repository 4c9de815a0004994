/** The unit sequence of an utterance when diphones are missing, and the segment end times read off it. */
module UnitTiming {
  import opened Wrappers

  // ---------- Building the units ----------

  /** A phone to be spoken, and the word it is in, if any. */
  datatype Segment = Segment(name: string, word: Option<nat>)

  /** A unit for the diphone that starts at segment `ph1`. */
  datatype Unit = Unit(name: string, ph1: nat, extendLeft: bool, extendRight: bool)

  /** The voice: which diphones it has, what backing off from a missing one comes to, and its silence. */
  datatype Voice = Voice(available: string -> bool, backoff: (string, string) -> string, silence: string)

  function DiphoneName(l: string, r: string): string { l + "_" + r }

  /** The diphone finally asked for between two phones. */
  function Resolved(v: Voice, l: string, r: string): string {
    if v.available(DiphoneName(l, r)) then DiphoneName(l, r) else v.backoff(l, r)
  }

  /** Whether there is a unit between two segments. */
  predicate Joined(v: Voice, a: Segment, b: Segment) { v.available(Resolved(v, a.name, b.name)) }

  function Present(v: Voice, segs: seq<Segment>): (r: seq<bool>)
    requires segs != []
    ensures |r| == |segs| - 1
    ensures forall j :: 0 <= j < |r| ==> r[j] == Joined(v, segs[j], segs[j + 1])
  {
    seq(|segs| - 1, j requires 0 <= j < |segs| - 1 => Joined(v, segs[j], segs[j + 1]))
  }

  /** A silence goes between words where there is no diphone to join them. */
  predicate NeedsSilence(v: Voice, a: Segment, b: Segment) {
    && !v.available(DiphoneName(a.name, b.name))
    && a.word.Some? && b.word.Some? && a.word != b.word
  }

  function WithSilences(v: Voice, segs: seq<Segment>): (r: seq<Segment>)
    ensures |segs| <= |r| && (segs != [] ==> r[0] == segs[0])
  {
    if |segs| < 2 then segs
    else if NeedsSilence(v, segs[0], segs[1]) then [segs[0], Segment(v.silence, None)] + WithSilences(v, segs[1..])
    else [segs[0]] + WithSilences(v, segs[1..])
  }

  /** Two segments are in different words, and there is no diphone to join them. */
  predicate Apart(v: Voice, a: Segment, b: Segment) {
    !v.available(a.name + "_" + b.name) && a.word.Some? && b.word.Some? && a.word.value != b.word.value
  }

  /** Which segments are apart from the next. */
  function Aparts(v: Voice, segments: seq<Segment>): (r: seq<bool>)
    requires segments != []
    ensures |r| == |segments| - 1
  {
    seq(|segments| - 1, j requires 0 <= j < |segments| - 1 => Apart(v, segments[j], segments[j + 1]))
  }

  /** The segments are all there, `m` saying where. */
  ghost predicate PlacesAt<T>(segments: seq<T>, segs: seq<T>, m: seq<nat>) {
    |m| == |segments| && forall j :: 0 <= j < |m| ==> m[j] < |segs| && segs[m[j]] == segments[j]
  }

  /** Between places `x` and `y` stands one silence when that is asked for, and else nothing. */
  ghost predicate GapAt<T>(asked: bool, silence: T, segs: seq<T>, x: nat, y: nat) {
    if asked then y == x + 2 && x + 1 < |segs| && segs[x + 1] == silence else y == x + 1
  }

  ghost predicate GapsAt<T>(apart: seq<bool>, silence: T, segs: seq<T>, m: seq<nat>) {
    |m| == |apart| + 1 && forall j {:trigger apart[j]} :: 0 <= j < |apart| ==> GapAt(apart[j], silence, segs, m[j], m[j + 1])
  }

  /** The segments are all there in order, from the first to the last, with a silence put in exactly where that is asked for. */
  ghost predicate SilencesAt<T>(apart: seq<bool>, silence: T, segments: seq<T>, segs: seq<T>, m: seq<nat>) {
    && PlacesAt(segments, segs, m) && GapsAt(apart, silence, segs, m)
    && m[0] == 0 && m[|m| - 1] == |segs| - 1
  }

  /** Silences are put in exactly between segments in different words with no diphone to join them. */
  ghost predicate SilencesRight(v: Voice, segments: seq<Segment>, segs: seq<Segment>)
    requires segments != []
  {
    var apart, silence := Aparts(v, segments), Segment(v.silence, None);
    exists m: seq<nat> :: SilencesAt(apart, silence, segments, segs, m)
  }

  lemma {:induction false} SilencesPlaced(v: Voice, segments: seq<Segment>) returns (m: seq<nat>)
    requires segments != []
    ensures SilencesAt(Aparts(v, segments), Segment(v.silence, None), segments, WithSilences(v, segments), m)
  {
    if |segments| == 1 {
      m := [0];
    } else {
      var after := SilencesPlaced(v, segments[1..]);
      var first := Apart(v, segments[0], segments[1]);
      ApartsFirst(v, segments);
      WithSilencesFirst(v, segments);
      m := SilenceBefore(first, Aparts(v, segments[1..]), Segment(v.silence, None), segments, WithSilences(v, segments[1..]), after);
    }
  }

  lemma {:induction false} WithSilencesFirst(v: Voice, segments: seq<Segment>)
    requires |segments| > 1
    ensures WithSilences(v, segments) ==
            [segments[0]] + (if Apart(v, segments[0], segments[1]) then [Segment(v.silence, None)] else [])
            + WithSilences(v, segments[1..])
  {
  }

  lemma {:induction false} ApartsFirst(v: Voice, segments: seq<Segment>)
    requires |segments| > 1
    ensures Aparts(v, segments) == [Apart(v, segments[0], segments[1])] + Aparts(v, segments[1..])
  {
  }

  /** Places moved on by `n`, with the first place in front. */
  function Shifted(after: seq<nat>, n: nat): (m: seq<nat>)
    ensures |m| == |after| + 1 && m[0] == 0 && forall i :: 0 <= i < |after| ==> m[i + 1] == after[i] + n
  {
    [0] + seq(|after|, i requires 0 <= i < |after| => after[i] + n)
  }

  lemma {:induction false} SilenceBefore<T>(first: bool, apart: seq<bool>, silence: T, segments: seq<T>,
                                            rest: seq<T>, after: seq<nat>) returns (m: seq<nat>)
    requires |segments| > 1 && SilencesAt(apart, silence, segments[1..], rest, after)
    ensures SilencesAt([first] + apart, silence, segments, [segments[0]] + (if first then [silence] else []) + rest, m)
  {
    var front := [segments[0]] + if first then [silence] else [];
    m := Shifted(after, |front|);
    PlacesShifted(front, segments, rest, after);
    GapsShifted(first, apart, silence, front, rest, after);
  }

  lemma {:induction false} PlacesShifted<T>(front: seq<T>, segments: seq<T>, rest: seq<T>, after: seq<nat>)
    requires segments != [] && front != [] && front[0] == segments[0] && PlacesAt(segments[1..], rest, after)
    ensures PlacesAt(segments, front + rest, Shifted(after, |front|))
  {
    var m := Shifted(after, |front|);
    forall j | 0 <= j < |m| ensures m[j] < |front + rest| && (front + rest)[m[j]] == segments[j] {
      if j > 0 {
        FoundAt(front, rest, after[j - 1]);
        assert segments[1..][j - 1] == segments[j];
      }
    }
  }

  lemma {:induction false} GapsShifted<T>(first: bool, apart: seq<bool>, silence: T, front: seq<T>, rest: seq<T>, after: seq<nat>)
    requires GapsAt(apart, silence, rest, after) && after[0] == 0
    requires if first then |front| == 2 && front[1] == silence else |front| == 1
    ensures GapsAt([first] + apart, silence, front + rest, Shifted(after, |front|))
  {
    var flags, m, segs := [first] + apart, Shifted(after, |front|), front + rest;
    forall j | 0 <= j < |flags| ensures GapAt(flags[j], silence, segs, m[j], m[j + 1]) {
      if j > 0 {
        assert GapAt(apart[j - 1], silence, rest, after[j - 1], after[j]);
        GapShifted(apart[j - 1], silence, front, rest, after[j - 1], after[j]);
      }
    }
  }

  lemma {:induction false} GapShifted<T>(asked: bool, silence: T, front: seq<T>, rest: seq<T>, x: nat, y: nat)
    requires GapAt(asked, silence, rest, x, y)
    ensures GapAt(asked, silence, front + rest, x + |front|, y + |front|)
  {
  }

  lemma {:induction false} FoundAt<T>(front: seq<T>, rest: seq<T>, i: nat)
    requires i < |rest|
    ensures (front + rest)[i + |front|] == rest[i]
  {
  }

  /** One unit for each diphone there is among the first `n`, each told whether the one before it and the
      one after it are missing. */
  function Units(v: Voice, segs: seq<Segment>, present: seq<bool>, n: nat): seq<Unit>
    requires n <= |present| < |segs|
  {
    if n == 0 then []
    else
      var j := n - 1;
      Units(v, segs, present, j) +
      if present[j] then [Unit(Resolved(v, segs[j].name, segs[j + 1].name), j,
                               j > 0 && !present[j - 1], j + 1 < |present| && !present[j + 1])]
      else []
  }

  lemma {:induction false} UnitsExtend(v: Voice, segs: seq<Segment>, segs': seq<Segment>, p: seq<bool>, b: bool, n: nat)
    requires n <= |p| && |p| + 1 < |segs| && |p| + 1 < |segs'| && segs[..|p| + 1] == segs'[..|p| + 1]
    ensures n < |p| ==> Units(v, segs', p + [b], n) == Units(v, segs, p, n)
    ensures n == |p| ==>
              var us := Units(v, segs, p, n);
              Units(v, segs', p + [b], n) ==
              if !b && n > 0 && p[n - 1] then us[|us| - 1 := us[|us| - 1].(extendRight := true)] else us
    ensures n > 0 && p[n - 1] ==> Units(v, segs, p, n) != []
  {
    if n == 0 {
    } else {
      assert segs[n - 1] == segs'[n - 1] && segs[n] == segs'[n] by {
        assert segs[..|p| + 1][n] == segs'[..|p| + 1][n] && segs[..|p| + 1][n - 1] == segs'[..|p| + 1][n - 1];
      }
      UnitsExtend(v, segs, segs', p, b, n - 1);
    }
  }

  /** The words from segment `i` on: silences can be put in only as often as these run out. */
  function Words(segs: seq<Segment>, i: nat): nat
    requires i <= |segs|
    decreases |segs| - i
  {
    if i == |segs| then 0 else (if segs[i].word.Some? then 2 else 1) + Words(segs, i + 1)
  }

  lemma {:induction false} WordsInsert(segs: seq<Segment>, s: Segment, k: nat, i: nat)
    requires i <= k <= |segs| && s.word.None?
    ensures Words(segs[..k] + [s] + segs[k..], i) == Words(segs, i) + 1
    decreases k - i
  {
    var t := segs[..k] + [s] + segs[k..];
    if i < k {
      WordsInsert(segs, s, k, i + 1);
    } else {
      WordsSuffix(segs, k, t, k + 1);
    }
  }

  lemma {:induction false} WordsSuffix(s: seq<Segment>, i: nat, t: seq<Segment>, j: nat)
    requires i <= |s| && j <= |t| && s[i..] == t[j..]
    ensures Words(s, i) == Words(t, j)
    decreases |s| - i
  {
    assert |s[i..]| == |s| - i && |t[j..]| == |t| - j;
    if i >= |s| {
    } else {
      assert s[i] == s[i..][0] && t[j] == t[j..][0];
      assert s[i + 1..] == s[i..][1..] && t[j + 1..] == t[j..][1..];
      WordsSuffix(s, i + 1, t, j + 1);
    }
  }

  lemma {:induction false} TailExtends(v: Voice, segs: seq<Segment>, p: seq<bool>, n: nat)
    requires 0 < n <= |p| < |segs| && !p[n - 1]
    ensures var us := Units(v, segs, p, n); us != [] ==> us[|us| - 1].extendRight
  {
    if n > 1 && !p[n - 2] {
      TailExtends(v, segs, p, n - 1);
    } else if n > 1 {
      assert Units(v, segs, p, n) == Units(v, segs, p, n - 1);
    }
  }

  /** The flags say which of the first segments are joined to the next. */
  predicate Joins(v: Voice, segs: seq<Segment>, p: seq<bool>) {
    |p| < |segs| && forall j :: 0 <= j < |p| ==> p[j] == Joined(v, segs[j], segs[j + 1])
  }

  /** What is done at segment `it`, when the next segment (a silence, if one was put in) is `segs[it + 1]`. */
  function Extended(v: Voice, segs: seq<Segment>, it: nat, extendLeft: bool, units: seq<Unit>): seq<Unit>
    requires it + 1 < |segs|
  {
    if Joined(v, segs[it], segs[it + 1]) then
      units + [Unit(Resolved(v, segs[it].name, segs[it + 1].name), it, extendLeft, false)]
    else if units == [] then units
    else units[|units| - 1 := units[|units| - 1].(extendRight := true)]
  }

  /** The segments after the loop has looked at segment `it`. */
  function Stepped(v: Voice, segs: seq<Segment>, it: nat): (r: seq<Segment>)
    requires it + 1 < |segs|
    ensures it + 1 < |r| && r[..it + 1] == segs[..it + 1]
    ensures forall j :: 0 <= j <= it ==> r[j] == segs[j]
  {
    if NeedsSilence(v, segs[it], segs[it + 1]) then segs[..it + 1] + [Segment(v.silence, None)] + segs[it + 1..]
    else segs
  }

  lemma {:induction false} SteppedWords(v: Voice, segs: seq<Segment>, it: nat)
    requires it + 1 < |segs|
    ensures Words(Stepped(v, segs, it), it + 1) < Words(segs, it)
  {
    WordsInsert(segs, Segment(v.silence, None), it + 1, it + 1);
  }

  lemma {:induction false} BuildUnit(v: Voice, segs: seq<Segment>, segs': seq<Segment>, p: seq<bool>)
    requires |p| + 1 < |segs| && |p| + 1 < |segs'| && segs[..|p| + 1] == segs'[..|p| + 1]
    ensures var it := |p|;
            Units(v, segs', p + [Joined(v, segs'[it], segs'[it + 1])], it + 1)
            == Extended(v, segs', it, it > 0 && !p[it - 1], Units(v, segs, p, it))
  {
    var it := |p|;
    var b := Joined(v, segs'[it], segs'[it + 1]);
    UnitsExtend(v, segs, segs', p, b, it);
    if it > 0 && !p[it - 1] { TailExtends(v, segs, p, it); }
  }

  /** The loop's body. */
  method VisitSegment(v: Voice, segs: seq<Segment>, it: nat, units: seq<Unit>, extendLeft: bool)
      returns (segs': seq<Segment>, units': seq<Unit>, extendLeft': bool)
    requires it + 1 < |segs|
    ensures segs' == Stepped(v, segs, it)
    ensures extendLeft' == !Joined(v, segs'[it], segs'[it + 1])
    ensures units' == Extended(v, segs', it, extendLeft, units)
  {
    segs', units', extendLeft' := segs, units, extendLeft;
    var name := DiphoneName(segs[it].name, segs[it + 1].name);
    if !v.available(name) && segs[it].word.Some? && segs[it + 1].word.Some? && segs[it].word != segs[it + 1].word {
      segs' := segs[..it + 1] + [Segment(v.silence, None)] + segs[it + 1..];
      name := DiphoneName(segs'[it].name, segs'[it + 1].name);
    }
    if !v.available(name) {
      name := v.backoff(segs'[it].name, segs'[it + 1].name);
    }
    if !v.available(name) {
      if units != [] {
        units' := units[|units| - 1 := units[|units| - 1].(extendRight := true)];
      }
      extendLeft' := true;
    } else {
      units' := units + [Unit(name, it, extendLeft, false)];
      extendLeft' := false;
    }
  }

  /** The diphone between two phones: their own when there is one, else what backing off gives. */
  function Wanted(v: Voice, l: string, r: string): string {
    if v.available(l + "_" + r) then l + "_" + r else v.backoff(l, r)
  }

  /** The diphones wanted between the segments. */
  function AllWanted(v: Voice, segs: seq<Segment>): (r: seq<string>)
    requires segs != []
    ensures |r| == |segs| - 1
  {
    seq(|segs| - 1, j requires 0 <= j < |segs| - 1 => Wanted(v, segs[j].name, segs[j + 1].name))
  }

  /** A unit of a diphone that is available, named after it, and flagged on the side where the diphone next to it is not. */
  predicate RightUnit(available: string -> bool, wanted: seq<string>, u: Unit) {
    && u.ph1 < |wanted| && available(wanted[u.ph1]) && u.name == wanted[u.ph1]
    && (u.extendLeft <==> u.ph1 > 0 && !available(wanted[u.ph1 - 1]))
    && (u.extendRight <==> u.ph1 + 1 < |wanted| && !available(wanted[u.ph1 + 1]))
  }

  /** The units of the first `n` diphones wanted: one for each that is available, in order. */
  predicate UnitsOf(available: string -> bool, wanted: seq<string>, units: seq<Unit>, n: nat)
    requires n <= |wanted|
  {
    && (forall i, k :: 0 <= i < k < |units| ==> units[i].ph1 < units[k].ph1)
    && (forall k :: 0 <= k < |units| ==> units[k].ph1 < n && RightUnit(available, wanted, units[k]))
    && (forall j {:trigger Made(units, j)} :: 0 <= j < n ==> (available(wanted[j]) <==> Made(units, j)))
  }

  /** There is a unit for the diphone that starts at segment `j`. */
  predicate Made(units: seq<Unit>, j: nat) { exists k :: 0 <= k < |units| && units[k].ph1 == j }

  function UnitFor(available: string -> bool, wanted: seq<string>, j: nat): Unit
    requires j < |wanted|
  {
    Unit(wanted[j], j, j > 0 && !available(wanted[j - 1]), j + 1 < |wanted| && !available(wanted[j + 1]))
  }

  function UnitsFor(available: string -> bool, wanted: seq<string>, n: nat): seq<Unit>
    requires n <= |wanted|
  {
    if n == 0 then []
    else
      UnitsFor(available, wanted, n - 1) + if available(wanted[n - 1]) then [UnitFor(available, wanted, n - 1)] else []
  }

  lemma {:induction false} UnitsForWanted(v: Voice, segs: seq<Segment>, n: nat)
    requires n < |segs|
    ensures Units(v, segs, Present(v, segs), n) == UnitsFor(v.available, AllWanted(v, segs), n)
  {
    if n == 0 {
    } else {
      UnitsForWanted(v, segs, n - 1);
      PresentAre(v, segs);
      WantedIs(v, segs, n - 1);
    }
  }

  lemma {:induction false} WantedIs(v: Voice, segs: seq<Segment>, j: nat)
    requires j + 1 < |segs|
    ensures AllWanted(v, segs)[j] == Resolved(v, segs[j].name, segs[j + 1].name)
  {
  }

  lemma {:induction false} PresentAre(v: Voice, segs: seq<Segment>)
    requires segs != []
    ensures forall j :: 0 <= j < |segs| - 1 ==> Present(v, segs)[j] == v.available(AllWanted(v, segs)[j])
  {
  }

  lemma {:induction false} UnitsAreThose(available: string -> bool, wanted: seq<string>, n: nat)
    requires n <= |wanted|
    ensures UnitsOf(available, wanted, UnitsFor(available, wanted, n), n)
  {
    if n == 0 {
    } else {
      UnitsAreThose(available, wanted, n - 1);
      var before := UnitsFor(available, wanted, n - 1);
      if available(wanted[n - 1]) {
        OneMoreUnit(available, wanted, before, UnitFor(available, wanted, n - 1));
      } else {
        assert before + [] == before;
        NoMoreUnit(available, wanted, before, n - 1);
      }
    }
  }

  lemma {:induction false} OneMoreUnit(available: string -> bool, wanted: seq<string>, units: seq<Unit>, u: Unit)
    requires RightUnit(available, wanted, u) && UnitsOf(available, wanted, units, u.ph1)
    ensures UnitsOf(available, wanted, units + [u], u.ph1 + 1)
  {
    var more := units + [u];
    forall i | 0 <= i < u.ph1 + 1 ensures available(wanted[i]) <==> Made(more, i) {
      if i < u.ph1 {
        MadeStill(units, more, i);
      } else {
        assert more[|units|].ph1 == i;
      }
    }
  }

  lemma {:induction false} NoMoreUnit(available: string -> bool, wanted: seq<string>, units: seq<Unit>, j: nat)
    requires j < |wanted| && UnitsOf(available, wanted, units, j) && !available(wanted[j])
    ensures UnitsOf(available, wanted, units, j + 1)
  {
    assert !Made(units, j);
  }

  lemma {:induction false} MadeStill(units: seq<Unit>, more: seq<Unit>, i: nat)
    requires units <= more && forall k :: |units| <= k < |more| ==> more[k].ph1 != i
    ensures Made(more, i) <==> Made(units, i)
  {
    if k :| 0 <= k < |units| && units[k].ph1 == i {
      assert more[k].ph1 == i;
    }
    if k :| 0 <= k < |more| && more[k].ph1 == i {
      assert units[k].ph1 == i;
    }
  }

  /** Asks for a unit for each pair of neighbouring segments, putting in silences on the way. A diphone
      that is still missing leaves its mark on the units on either side. */
  method BuildUnits(v: Voice, segments: seq<Segment>) returns (segs: seq<Segment>, units: seq<Unit>)
    requires segments != []
    ensures segs == WithSilences(v, segments) && segs != []
    ensures units == Units(v, segs, Present(v, segs), |segs| - 1)
    ensures BuiltRight(v, segments, segs, units)
  {
    segs, units := segments, [];
    ghost var p: seq<bool> := [];
    var extendLeft := false;
    var it := 0;
    BuildStarts(v, segments);
    while it + 1 < |segs|
      invariant it == |p| && BuiltTo(v, segments, segs, p, units, extendLeft)
      decreases Words(segs, it)
    {
      SteppedWords(v, segs, it);
      BuildStep(v, segments, segs, p, units, extendLeft);
      segs, units, extendLeft := VisitSegment(v, segs, it, units, extendLeft);
      p := p + [!extendLeft];
      it := it + 1;
    }
    BuildEnds(v, segments, segs, p, units, extendLeft);
  }

  /** The segments with the silences they need, and the units of the diphones between them. */
  ghost predicate BuiltRight(v: Voice, segments: seq<Segment>, segs: seq<Segment>, units: seq<Unit>) {
    && segments != [] && segs != []
    && SilencesRight(v, segments, segs)
    && UnitsOf(v.available, AllWanted(v, segs), units, |segs| - 1)
  }

  lemma {:induction false} RightlyBuilt(v: Voice, segments: seq<Segment>, segs: seq<Segment>, units: seq<Unit>)
    requires segments != [] && segs == WithSilences(v, segments)
    requires units == Units(v, segs, Present(v, segs), |segs| - 1)
    ensures BuiltRight(v, segments, segs, units)
  {
    var m := SilencesPlaced(v, segments);
    UnitsForWanted(v, segs, |segs| - 1);
    UnitsAreThose(v.available, AllWanted(v, segs), |segs| - 1);
  }

  /** What has been built when the flags are those of the segments looked at. */
  ghost predicate BuiltTo(v: Voice, orig: seq<Segment>, segs: seq<Segment>, p: seq<bool>, units: seq<Unit>, extendLeft: bool) {
    && Joins(v, segs, p)
    && segs[..|p|] + WithSilences(v, segs[|p|..]) == WithSilences(v, orig)
    && units == Units(v, segs, p, |p|)
    && extendLeft == (|p| > 0 && !p[|p| - 1])
  }

  lemma {:induction false} BuildStarts(v: Voice, segments: seq<Segment>)
    requires segments != []
    ensures BuiltTo(v, segments, segments, [], [], false)
  {
  }

  lemma {:induction false} BuildStep(v: Voice, orig: seq<Segment>, segs: seq<Segment>, p: seq<bool>, units: seq<Unit>, extendLeft: bool)
    requires BuiltTo(v, orig, segs, p, units, extendLeft) && |p| + 1 < |segs|
    ensures var it, segs' := |p|, Stepped(v, segs, |p|);
            var joined := Joined(v, segs'[it], segs'[it + 1]);
            BuiltTo(v, orig, segs', p + [joined], Extended(v, segs', it, extendLeft, units), !joined)
  {
    var it, segs' := |p|, Stepped(v, segs, |p|);
    SilencesKept(v, segs, it);
    BuildUnit(v, segs, segs', p);
  }

  lemma {:induction false} SilencesKept(v: Voice, segs: seq<Segment>, it: nat)
    requires it + 1 < |segs|
    ensures Stepped(v, segs, it)[..it + 1] + WithSilences(v, Stepped(v, segs, it)[it + 1..])
            == segs[..it] + WithSilences(v, segs[it..])
  {
  }

  lemma {:induction false} BuildEnds(v: Voice, orig: seq<Segment>, segs: seq<Segment>, p: seq<bool>, units: seq<Unit>, extendLeft: bool)
    requires BuiltTo(v, orig, segs, p, units, extendLeft) && |p| == |segs| - 1
    requires orig != []
    ensures segs == WithSilences(v, orig) && units == Units(v, segs, Present(v, segs), |segs| - 1)
    ensures BuiltRight(v, orig, segs, units)
  {
    assert p == Present(v, segs);
    RightlyBuilt(v, orig, segs, units);
  }

  // ---------- Reading the end times off the units ----------

  /** The time to the middle of a unit and to its end, from its start. */
  datatype Span = Span(mid: real, dur: real)

  predicate WellTimed(spans: seq<Span>) { forall k :: 0 <= k < |spans| ==> 0.0 <= spans[k].mid <= spans[k].dur }

  function Elapsed(spans: seq<Span>, k: nat): real
    requires k <= |spans|
  {
    if k == 0 then 0.0 else Elapsed(spans, k - 1) + spans[k - 1].dur
  }

  /** How many segments have been given an end time after `k` units. */
  function Reached(units: seq<Unit>, k: nat): nat
    requires k <= |units|
  {
    if k == 0 then 0 else Reached(units, k - 1) + if units[k - 1].extendRight then 2 else 1
  }

  /** Times that do not decrease, none after `limit`. */
  predicate Ordered(times: seq<real>, limit: real) {
    && (forall i :: 0 <= i < |times| ==> times[i] <= limit)
    && (forall i, j :: 0 <= i <= j < |times| ==> times[i] <= times[j])
  }

  lemma {:induction false} OrderedPush(times: seq<real>, t: real, limit: real, limit': real)
    requires Ordered(times, limit) && limit <= t <= limit'
    ensures Ordered(times + [t], limit')
  {
  }

  /** The end times that the first `k` units give, in order of the segments. */
  function Times(units: seq<Unit>, spans: seq<Span>, k: nat): (r: seq<real>)
    requires k <= |units| == |spans|
    ensures |r| == Reached(units, k)
  {
    if k == 0 then []
    else
      Times(units, spans, k - 1) + [Elapsed(spans, k - 1) + spans[k - 1].mid]
      + if units[k - 1].extendRight then [Elapsed(spans, k)] else []
  }

  /** End times never decrease, and the last one is the sum of the durations. */
  lemma {:induction false} TimesOrdered(units: seq<Unit>, spans: seq<Span>, k: nat)
    requires k <= |units| == |spans| && WellTimed(spans)
    ensures Ordered(Times(units, spans, k), Elapsed(spans, k))
    ensures Ordered(Times(units, spans, k) + [Elapsed(spans, k)], Elapsed(spans, k))
  {
    if k == 0 {
    } else {
      TimesOrdered(units, spans, k - 1);
      var before, p, q := Times(units, spans, k - 1), Elapsed(spans, k - 1), Elapsed(spans, k);
      OrderedPush(before, p + spans[k - 1].mid, p, q);
      if units[k - 1].extendRight {
        OrderedPush(before + [p + spans[k - 1].mid], q, q, q);
      }
    }
    OrderedPush(Times(units, spans, k), Elapsed(spans, k), Elapsed(spans, k), Elapsed(spans, k));
  }

  /** The segment that a unit is paired with ends at the middle of the unit, and the next one, when the unit is stretched over
      it, at the end. */
  lemma {:induction false} TimesAtUnit(units: seq<Unit>, spans: seq<Span>, j: nat, k: nat)
    requires j < k <= |units| == |spans|
    ensures Reached(units, j) < Reached(units, k)
    ensures Times(units, spans, k)[Reached(units, j)] == Elapsed(spans, j) + spans[j].mid
    ensures units[j].extendRight ==>
              Reached(units, j) + 1 < Reached(units, k) && Times(units, spans, k)[Reached(units, j) + 1] == Elapsed(spans, j + 1)
    decreases k
  {
    if j >= k - 1 {
    } else {
      TimesAtUnit(units, spans, j, k - 1);
    }
  }

  /** The given times, and behind them what was there before. */
  function Fill(times: seq<real>, was: seq<Option<real>>): seq<Option<real>> {
    seq(|was|, i requires 0 <= i < |was| => if i < |times| then Some(times[i]) else was[i])
  }

  lemma {:induction false} FillNext(times: seq<real>, was: seq<Option<real>>, t: real)
    requires |times| < |was|
    ensures Fill(times, was)[|times| := Some(t)] == Fill(times + [t], was)
  {
  }

  /** The writes for one unit fill in the times that it gives. */
  lemma {:induction false} FillUnit(units: seq<Unit>, spans: seq<Span>, u: nat, was: seq<Option<real>>)
    requires u < |units| == |spans| && Reached(units, u + 1) < |was|
    ensures var s, mid, end := Reached(units, u), Some(Elapsed(spans, u) + spans[u].mid), Some(Elapsed(spans, u + 1));
            var first := Fill(Times(units, spans, u), was)[s := mid];
            Fill(Times(units, spans, u + 1), was) == if units[u].extendRight then first[s + 1 := end] else first
  {
    var before, mid := Times(units, spans, u), Elapsed(spans, u) + spans[u].mid;
    FillNext(before, was, mid);
    if units[u].extendRight {
      FillNext(before + [mid], was, Elapsed(spans, u + 1));
    } else {
      assert before + [mid] == Times(units, spans, u + 1);
    }
  }

  /** Gives segments their end times, one for each unit and one more for a unit stretched over a missing
      diphone; the segment after the last unit ends with it. `unitEnds` are the end times of the units. */
  method ParseDiphoneTimes(units: seq<Unit>, spans: seq<Span>, ends: array<Option<real>>, unitEnds: array<real>)
    requires |spans| == |units| == unitEnds.Length
    requires Reached(units, |units|) < ends.Length
    modifies ends, unitEnds
    ensures ends[..] == Fill(Times(units, spans, |units|) + [Elapsed(spans, |units|)], old(ends[..]))
    ensures forall k :: 0 <= k < |units| ==> unitEnds[k] == Elapsed(spans, k + 1)
  {
    ghost var was := ends[..];
    var s, u, pTime := 0, 0, 0.0;
    while u < |units| && s < ends.Length
      invariant 0 <= u <= |units| && s == Reached(units, u) < ends.Length && pTime == Elapsed(spans, u)
      invariant ends[..] == Fill(Times(units, spans, u), was)
      invariant forall k :: 0 <= k < u ==> unitEnds[k] == Elapsed(spans, k + 1)
    {
      ReachedGrows(units, u + 1, |units|);
      FillUnit(units, spans, u, was);
      var dur1, durU := spans[u].mid, spans[u].dur;
      ends[s] := Some(pTime + dur1);
      pTime := pTime + durU;
      unitEnds[u] := pTime;
      if units[u].extendRight {
        s := s + 1;
        ends[s] := Some(pTime);
      }
      s, u := s + 1, u + 1;
    }
    if s < ends.Length {
      FillNext(Times(units, spans, u), was, pTime);
      ends[s] := Some(pTime);
    }
  }

  lemma {:induction false} ReachedGrows(units: seq<Unit>, k: nat, n: nat)
    requires k <= n <= |units|
    ensures Reached(units, k) + (n - k) <= Reached(units, n)
    decreases n
  {
    if k == n {
    } else {
      ReachedGrows(units, k, n - 1);
    }
  }

  // ---------- When every segment gets an end time ----------

  /** The first diphone is there, and no two missing ones are next to each other. */
  predicate SingleGaps(present: seq<bool>) {
    && (present != [] ==> present[0])
    && forall j :: 0 < j < |present| ==> present[j - 1] || present[j]
  }

  /** How many of the first `n` diphones are there or just after one that is. */
  function Covered(present: seq<bool>, n: nat): nat
    requires n <= |present|
  {
    if n == 0 then 0
    else Covered(present, n - 1) + if present[n - 1] || (n > 1 && present[n - 2]) then 1 else 0
  }

  lemma {:induction false} CoveredAll(present: seq<bool>, n: nat)
    requires n <= |present|
    ensures Covered(present, n) <= n
    ensures Covered(present, n) == n <==> SingleGaps(present[..n])
  {
    if n == 0 {
    } else {
      CoveredAll(present, n - 1);
      var p, q := present[..n], present[..n - 1];
      assert forall j :: 0 <= j < n - 1 ==> p[j] == q[j];
      assert p[n - 1] == present[n - 1] && (n > 1 ==> p[n - 2] == present[n - 2]);
    }
  }

  /** The segments reached by the units of the first `n` diphones; a stretched last unit reaches one more. */
  lemma {:induction false} ReachedCovered(v: Voice, segs: seq<Segment>, present: seq<bool>, n: nat)
    requires n <= |present| < |segs|
    ensures var us := Units(v, segs, present, n);
            Reached(us, |us|) == Covered(present, n) + if 0 < n < |present| && present[n - 1] && !present[n] then 1 else 0
  {
    if n == 0 {
    } else {
      ReachedCovered(v, segs, present, n - 1);
      var us, before := Units(v, segs, present, n), Units(v, segs, present, n - 1);
      if present[n - 1] {
        ReachedPrefix(before, us, |before|);
      } else {
        assert us == before;
      }
    }
  }

  lemma {:induction false} ReachedPrefix(us: seq<Unit>, vs: seq<Unit>, k: nat)
    requires k <= |us| <= |vs| && vs[..|us|] == us
    ensures Reached(us, k) == Reached(vs, k)
  {
    if k == 0 {
    } else {
      ReachedPrefix(us, vs, k - 1);
      assert us[k - 1] == vs[..|us|][k - 1];
    }
  }

  /** The units always fit the segments, and every segment gets an end time exactly when the first diphone
      is there and no two missing ones are next to each other. */
  lemma {:induction false} AllTimedIff(v: Voice, segs: seq<Segment>)
    requires segs != []
    ensures var us := Units(v, segs, Present(v, segs), |segs| - 1);
            && Reached(us, |us|) < |segs|
            && (Reached(us, |us|) == |segs| - 1 <==> SingleGaps(Present(v, segs)))
  {
    var present := Present(v, segs);
    ReachedCovered(v, segs, present, |present|);
    CoveredAll(present, |present|);
    assert present[..|present|] == present;
  }

  /** Then each unit ends, up to its middle, the segment it starts at. */
  lemma {:induction false} UnitsAligned(v: Voice, segs: seq<Segment>, present: seq<bool>, n: nat, k: nat)
    requires n <= |present| < |segs| && SingleGaps(present) && k < |Units(v, segs, present, n)|
    ensures Reached(Units(v, segs, present, n), k) == Units(v, segs, present, n)[k].ph1
    decreases n
  {
    var us, before := Units(v, segs, present, n), Units(v, segs, present, n - 1);
    assert us[..|before|] == before;
    ReachedPrefix(before, us, if k < |before| then k else |before|);
    if k < |before| {
      UnitsAligned(v, segs, present, n - 1, k);
    } else {
      ReachedCovered(v, segs, present, n - 1);
      CoveredAll(present, n - 1);
      assert SingleGaps(present[..n - 1]);
    }
  }
}
