/** The diphone catalogue of a voice module as a value, and which segments it files under which name. */
module DiphoneIndex {

  datatype Phone = Phone(name: string, bad: bool)

  type Utterance = seq<Phone>

  /** A segment of the database: the utterance and the place in it. */
  datatype Item = Item(utt: nat, seg: nat)

  /** A catalogue: diphone names, each with the segments filed under it. */
  datatype Listing = Listing(name: string, items: seq<Item>)

  type Catalogue = seq<Listing>

  function Cat(ph1: string, ph2: string): string { ph1 + "_" + ph2 }

  function Items(c: Catalogue, name: string): seq<Item> {
    if c == [] then [] else if c[0].name == name then c[0].items else Items(c[1..], name)
  }

  function IndexOf(c: Catalogue, name: string): (i: nat)
    ensures i <= |c| && (i < |c| ==> c[i].name == name && Items(c, name) == c[i].items)
    ensures i == |c| ==> Items(c, name) == [] && forall j :: 0 <= j < |c| ==> c[j].name != name
  {
    if c == [] then 0
    else if c[0].name == name then 0
    else
      var i := IndexOf(c[1..], name);
      i + 1
  }

  function Units(c: Catalogue): nat {
    if c == [] then 0 else |c[0].items| + Units(c[1..])
  }

  /** Files an item under a name, making a new listing for a new name. */
  function Filed(c: Catalogue, name: string, item: Item): Catalogue {
    var i := IndexOf(c, name);
    if i == |c| then c + [Listing(name, [item])]
    else c[i := Listing(name, c[i].items + [item])]
  }

  lemma {:induction false} FiledItems(c: Catalogue, name: string, item: Item, other: string)
    ensures Items(Filed(c, name, item), other) == Items(c, other) + if other == name then [item] else []
    ensures Units(Filed(c, name, item)) == Units(c) + 1
  {
    if c != [] && c[0].name != name {
      FiledItems(c[1..], name, item, other);
      assert Filed(c, name, item) == [c[0]] + Filed(c[1..], name, item);
    } else if c != [] {
      assert Filed(c, name, item)[1..] == c[1..];
    }
  }

  // ---------- What an utterance adds ----------

  /** Segments flagged bad are left out when that is asked for; the last segment starts no diphone. */
  predicate Kept(u: Utterance, ignoreBad: bool, j: nat)
    requires j < |u|
  {
    !(u[j].bad && ignoreBad)
  }

  /** The phone name with which segment `j` is paired: that of the next segment not left out. */
  function RightName(u: Utterance, ignoreBad: bool, j: nat): string
    requires j + 1 < |u|
    decreases |u| - j
  {
    if j + 2 == |u| || Kept(u, ignoreBad, j + 1) then u[j + 1].name else RightName(u, ignoreBad, j + 1)
  }

  function FiledName(u: Utterance, ignoreBad: bool, j: nat): string
    requires j + 1 < |u|
  {
    Cat(u[j].name, RightName(u, ignoreBad, j))
  }

  /** The diphone that segment `j` starts. */
  function DiphoneName(u: Utterance, j: nat): string
    requires j + 1 < |u|
  {
    Cat(u[j].name, u[j + 1].name)
  }

  /** The items that an utterance files under a name, from segment `j` back to the first. */
  function Adds(u: Utterance, utt: nat, ignoreBad: bool, name: string, j: int): seq<Item>
    requires j + 1 < |u|
    decreases j
  {
    if j < 0 then []
    else
      (if Kept(u, ignoreBad, j) && FiledName(u, ignoreBad, j) == name then [Item(utt, j)] else [])
      + Adds(u, utt, ignoreBad, name, j - 1)
  }

  function KeptFrom(u: Utterance, ignoreBad: bool, j: int): nat
    requires j + 1 < |u|
    decreases j
  {
    if j < 0 then 0 else (if Kept(u, ignoreBad, j) then 1 else 0) + KeptFrom(u, ignoreBad, j - 1)
  }

  function AddsLast(db: seq<Utterance>, ignoreBad: bool, name: string): seq<Item>
    requires db != []
  {
    var n, u := |db| - 1, db[|db| - 1];
    if u == [] then [] else Adds(u, n, ignoreBad, name, |u| - 2)
  }

  function AddsAll(db: seq<Utterance>, ignoreBad: bool, name: string): seq<Item> {
    if db == [] then [] else AddsAll(db[..|db| - 1], ignoreBad, name) + AddsLast(db, ignoreBad, name)
  }

  function KeptAll(db: seq<Utterance>, ignoreBad: bool): nat {
    if db == [] then 0
    else
      var n, u := |db| - 1, db[|db| - 1];
      KeptAll(db[..n], ignoreBad) + if u == [] then 0 else KeptFrom(u, ignoreBad, |u| - 2)
  }

  /** The catalogue `c` is `was` with the segments of the utterance from `item` on filed. */
  ghost predicate FiledDownTo(was: Catalogue, c: Catalogue, u: Utterance, utt: nat, ignoreBad: bool, item: nat)
    requires item < |u|
  {
    && (forall name :: Items(was, name) + Adds(u, utt, ignoreBad, name, |u| - 2)
                       == Items(c, name) + Adds(u, utt, ignoreBad, name, item - 1))
    && Units(was) + KeptFrom(u, ignoreBad, |u| - 2) == Units(c) + KeptFrom(u, ignoreBad, item - 1)
  }

  lemma {:induction false} AddsOne(c: Catalogue, u: Utterance, utt: nat, ignoreBad: bool, item: nat, name: string)
    requires item + 1 < |u|
    ensures Kept(u, ignoreBad, item) ==>
              Items(Filed(c, FiledName(u, ignoreBad, item), Item(utt, item)), name) + Adds(u, utt, ignoreBad, name, item - 1)
              == Items(c, name) + Adds(u, utt, ignoreBad, name, item)
    ensures !Kept(u, ignoreBad, item) ==> Adds(u, utt, ignoreBad, name, item) == Adds(u, utt, ignoreBad, name, item - 1)
  {
    var key, rest := FiledName(u, ignoreBad, item), Adds(u, utt, ignoreBad, name, item - 1);
    if Kept(u, ignoreBad, item) {
      FiledItems(c, key, Item(utt, item), name);
      var one := if key == name then [Item(utt, item)] else [];
      assert (Items(c, name) + one) + rest == Items(c, name) + (one + rest);
    }
  }

  /** Filing segment `item`, or leaving it out when it is flagged. */
  lemma {:induction false} FileOne(was: Catalogue, c: Catalogue, u: Utterance, utt: nat, ignoreBad: bool, item: nat)
    requires item + 1 < |u| && FiledDownTo(was, c, u, utt, ignoreBad, item + 1)
    ensures Kept(u, ignoreBad, item) ==>
              FiledDownTo(was, Filed(c, FiledName(u, ignoreBad, item), Item(utt, item)), u, utt, ignoreBad, item)
    ensures !Kept(u, ignoreBad, item) ==> FiledDownTo(was, c, u, utt, ignoreBad, item)
  {
    var key := FiledName(u, ignoreBad, item);
    var c' := if Kept(u, ignoreBad, item) then Filed(c, key, Item(utt, item)) else c;
    FiledItems(c, key, Item(utt, item), key);
    forall name ensures Items(was, name) + Adds(u, utt, ignoreBad, name, |u| - 2)
                        == Items(c', name) + Adds(u, utt, ignoreBad, name, item - 1)
    {
      AddsOne(c, u, utt, ignoreBad, item, name);
    }
  }

  /** The catalogue with the segments of an utterance filed, from the last back to `item`. */
  function FiledFrom(c: Catalogue, u: Utterance, utt: nat, ignoreBad: bool, item: nat): Catalogue
    requires item < |u|
    decreases |u| - item
  {
    if item == |u| - 1 then c
    else
      var before := FiledFrom(c, u, utt, ignoreBad, item + 1);
      if Kept(u, ignoreBad, item) then Filed(before, FiledName(u, ignoreBad, item), Item(utt, item)) else before
  }

  lemma {:induction false} FiledFromKeeps(c: Catalogue, u: Utterance, utt: nat, ignoreBad: bool, item: nat)
    requires item < |u|
    ensures FiledDownTo(c, FiledFrom(c, u, utt, ignoreBad, item), u, utt, ignoreBad, item)
    decreases |u| - item
  {
    if item >= |u| - 1 {
    } else {
      FiledFromKeeps(c, u, utt, ignoreBad, item + 1);
      FileOne(c, FiledFrom(c, u, utt, ignoreBad, item + 1), u, utt, ignoreBad, item);
    }
  }

  // ---------- The law of the catalogue ----------

  /** Segment `j` of utterance `x` is one that is filed under the name. */
  predicate Belongs(db: seq<Utterance>, ignoreBad: bool, name: string, x: nat, j: nat) {
    x < |db| && j + 1 < |db[x]| && Kept(db[x], ignoreBad, j) && FiledName(db[x], ignoreBad, j) == name
  }

  predicate Before(a: Item, b: Item) { a.utt < b.utt || (a.utt == b.utt && a.seg > b.seg) }

  /** Utterances go forward, and segments backward within each: no item comes twice. */
  predicate InOrder(items: seq<Item>) {
    forall p, q :: 0 <= p < q < |items| ==> Before(items[p], items[q])
  }

  lemma {:induction false} AddsMember(u: Utterance, utt: nat, ignoreBad: bool, name: string, j: int, i: Item)
    requires j + 1 < |u|
    ensures i in Adds(u, utt, ignoreBad, name, j) <==>
            i.utt == utt && i.seg <= j && Kept(u, ignoreBad, i.seg) && FiledName(u, ignoreBad, i.seg) == name
    decreases j
  {
    if j < 0 {
    } else {
      AddsMember(u, utt, ignoreBad, name, j - 1, i);
      var here := if Kept(u, ignoreBad, j) && FiledName(u, ignoreBad, j) == name then [Item(utt, j)] else [];
      assert i in here + Adds(u, utt, ignoreBad, name, j - 1) <==> i in here || i in Adds(u, utt, ignoreBad, name, j - 1);
    }
  }

  lemma {:induction false} AddsInOrder(u: Utterance, utt: nat, ignoreBad: bool, name: string, j: int)
    requires j + 1 < |u|
    ensures InOrder(Adds(u, utt, ignoreBad, name, j))
    ensures forall p :: 0 <= p < |Adds(u, utt, ignoreBad, name, j)| ==>
              Adds(u, utt, ignoreBad, name, j)[p].utt == utt && Adds(u, utt, ignoreBad, name, j)[p].seg <= j
    decreases j
  {
    if j < 0 {
    } else {
      AddsInOrder(u, utt, ignoreBad, name, j - 1);
    }
  }

  /** A segment is filed under a name exactly when it belongs there... */
  lemma {:induction false} AddsAllMember(db: seq<Utterance>, ignoreBad: bool, name: string, i: Item)
    ensures i in AddsAll(db, ignoreBad, name) <==> Belongs(db, ignoreBad, name, i.utt, i.seg)
  {
    if db == [] {
    } else {
      var n := |db| - 1;
      AddsAllMember(db[..n], ignoreBad, name, i);
      InEither(AddsAll(db[..n], ignoreBad, name), AddsLast(db, ignoreBad, name), i);
      AddsLastMember(db, ignoreBad, name, i);
      if i.utt != n { BelongsBefore(db, ignoreBad, name, i.utt, i.seg); }
    }
  }

  lemma {:induction false} AddsLastMember(db: seq<Utterance>, ignoreBad: bool, name: string, i: Item)
    requires db != []
    ensures i in AddsLast(db, ignoreBad, name) <==> i.utt == |db| - 1 && Belongs(db, ignoreBad, name, i.utt, i.seg)
  {
    var n, u := |db| - 1, db[|db| - 1];
    if u != [] { AddsMember(u, n, ignoreBad, name, |u| - 2, i); }
  }

  lemma {:induction false} InEither(s: seq<Item>, t: seq<Item>, i: Item)
    ensures i in s + t <==> i in s || i in t
  {
  }

  lemma {:induction false} BelongsBefore(db: seq<Utterance>, ignoreBad: bool, name: string, x: nat, j: nat)
    requires db != [] && x != |db| - 1
    ensures Belongs(db, ignoreBad, name, x, j) <==> Belongs(db[..|db| - 1], ignoreBad, name, x, j)
  {
  }

  lemma {:induction false} JoinInOrder(s: seq<Item>, t: seq<Item>, n: nat)
    requires InOrder(s) && InOrder(t)
    requires (forall p :: 0 <= p < |s| ==> s[p].utt < n) && forall p :: 0 <= p < |t| ==> t[p].utt == n
    ensures InOrder(s + t) && forall p :: 0 <= p < |s + t| ==> (s + t)[p].utt <= n
  {
  }

  /** ...and then only once. */
  lemma {:induction false} AddsAllInOrder(db: seq<Utterance>, ignoreBad: bool, name: string)
    ensures InOrder(AddsAll(db, ignoreBad, name))
    ensures forall p :: 0 <= p < |AddsAll(db, ignoreBad, name)| ==> AddsAll(db, ignoreBad, name)[p].utt < |db|
  {
    if db == [] {
    } else {
      var n, u := |db| - 1, db[|db| - 1];
      AddsAllInOrder(db[..n], ignoreBad, name);
      if u != [] {
        AddsInOrder(u, n, ignoreBad, name, |u| - 2);
      }
      JoinInOrder(AddsAll(db[..n], ignoreBad, name), AddsLast(db, ignoreBad, name), n);
    }
  }

  /** Units are segments that start a diphone: all but the last of each utterance. */
  function Diphones(db: seq<Utterance>): nat {
    if db == [] then 0
    else Diphones(db[..|db| - 1]) + if db[|db| - 1] == [] then 0 else |db[|db| - 1]| - 1
  }

  lemma {:induction false} KeptAllUnflagged(db: seq<Utterance>)
    ensures KeptAll(db, false) == Diphones(db)
  {
    if db == [] {
    } else {
      KeptAllUnflagged(db[..|db| - 1]);
      var u := db[|db| - 1];
      if u != [] { KeptFromUnflagged(u, |u| - 2); }
    }
  }

  lemma {:induction false} KeptFromUnflagged(u: Utterance, j: int)
    requires -1 <= j && j + 1 < |u|
    ensures KeptFrom(u, false, j) == j + 1
    decreases j
  {
    if j < 0 {
    } else {
      KeptFromUnflagged(u, j - 1);
    }
  }

  lemma {:induction false} CatSame(a: string, x: string, y: string)
    ensures Cat(a, x) == Cat(a, y) <==> x == y
  {
    assert x == Cat(a, x)[|a| + 1..] && y == Cat(a, y)[|a| + 1..];
  }

  /** Segment `k` is the one that segment `j` is paired with: the next that is not left out, the last being never left out. */
  predicate Paired(u: Utterance, ignoreBad: bool, j: nat, k: nat) {
    && j < k < |u| && (k == |u| - 1 || Kept(u, ignoreBad, k))
    && forall i :: j < i < k ==> !Kept(u, ignoreBad, i)
  }

  lemma {:induction false} PairedName(u: Utterance, ignoreBad: bool, j: nat) returns (k: nat)
    requires j + 1 < |u|
    ensures Paired(u, ignoreBad, j, k) && RightName(u, ignoreBad, j) == u[k].name
    decreases |u| - j
  {
    if j + 2 == |u| || Kept(u, ignoreBad, j + 1) {
      k := j + 1;
    } else {
      k := PairedName(u, ignoreBad, j + 1);
    }
  }

  /** With bad segments ignored, a segment is filed under the diphone it starts exactly when the segment it is paired with
      has the name of the one after it. */
  lemma {:induction false} FiledRightIff(u: Utterance, ignoreBad: bool, j: nat, k: nat)
    requires Paired(u, ignoreBad, j, k)
    ensures FiledName(u, ignoreBad, j) == Cat(u[j].name, u[k].name)
    ensures FiledName(u, ignoreBad, j) == DiphoneName(u, j) <==> u[k].name == u[j + 1].name
  {
    var k' := PairedName(u, ignoreBad, j);
    assert k' == k;
    CatSame(u[j].name, u[k].name, u[j + 1].name);
  }

  /** So ignoring bad segments can misfile a good one. */
  lemma {:induction false} IgnoringBadMisfiles()
    ensures var u := [Phone("a", false), Phone("b", true), Phone("c", false)];
            FiledName(u, true, 0) == "a_c" && DiphoneName(u, 0) == "a_b"
  {
  }
}
