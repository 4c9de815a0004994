/** Voice modules with their catalogues, and the candidate lists that a voice splices together from them. */
module DiphoneVoice {
  import opened Seqs
  import opened DiphoneIndex

  /** The catalogue lists exactly what the utterances file. */
  ghost predicate Catalogues(c: Catalogue, db: seq<Utterance>, ignoreBad: bool) {
    && (forall name :: Items(c, name) == AddsAll(db, ignoreBad, name))
    && Units(c) == KeptAll(db, ignoreBad)
  }

  lemma {:induction false} AllFiled(db: seq<Utterance>, u: Utterance, was: Catalogue, c: Catalogue, ignoreBad: bool)
    requires Catalogues(was, db, ignoreBad)
    requires if u == [] then c == was else FiledDownTo(was, c, u, |db|, ignoreBad, 0)
    ensures Catalogues(c, db + [u], ignoreBad)
    ensures KeptAll(db + [u], ignoreBad) == KeptAll(db, ignoreBad) + if u == [] then 0 else KeptFrom(u, ignoreBad, |u| - 2)
  {
  }

  class DiphoneVoiceModule {
    var catalogue: Catalogue
    var ignoreBadTag: bool
    var numIgnoredPhones: nat
    /** The utterances catalogued so far. */
    var database: seq<Utterance>

    ghost predicate Valid()
      reads this
    {
      Catalogues(catalogue, database, ignoreBadTag)
    }

    constructor (ignoreBad: bool)
      ensures Valid() && database == [] && ignoreBadTag == ignoreBad && numIgnoredPhones == 0
    {
      catalogue, ignoreBadTag, numIgnoredPhones, database := [], ignoreBad, 0, [];
    }

    /** Files the diphones of an utterance, from its last segment back to its first. */
    method AddToCatalogue(u: Utterance)
      requires u != []
      modifies `catalogue, `numIgnoredPhones
      ensures catalogue == FiledFrom(old(catalogue), u, |database|, ignoreBadTag, 0)
      ensures numIgnoredPhones + KeptFrom(u, ignoreBadTag, |u| - 2) == old(numIgnoredPhones) + |u| - 1
    {
      ghost var was, utt, ignoring := catalogue, |database|, ignoreBadTag;
      var item := |u| - 1;
      var ph2 := u[item].name;
      while item != 0
        invariant 0 <= item < |u|
        invariant item > 0 ==> ph2 == RightName(u, ignoring, item - 1)
        invariant catalogue == FiledFrom(was, u, utt, ignoring, item)
        invariant numIgnoredPhones + KeptFrom(u, ignoring, |u| - 2) + item
                  == old(numIgnoredPhones) + KeptFrom(u, ignoring, item - 1) + |u| - 1
      {
        item := item - 1;
        if u[item].bad && ignoreBadTag {
          numIgnoredPhones := numIgnoredPhones + 1;
          if item == 0 {
            break;
          }
        } else {
          var ph1 := u[item].name;
          catalogue := Filed(catalogue, Cat(ph1, ph2), Item(|database|, item));
          ph2 := ph1;
        }
      }
    }

    method AddUtterance(u: Utterance)
      requires Valid()
      modifies this
      ensures Valid() && database == old(database) + [u] && ignoreBadTag == old(ignoreBadTag)
      ensures numIgnoredPhones + Units(catalogue) == old(numIgnoredPhones + Units(catalogue)) + if u == [] then 0 else |u| - 1
    {
      ghost var was := catalogue;
      if u != [] {
        AddToCatalogue(u);
        FiledFromKeeps(was, u, |database|, ignoreBadTag, 0);
      }
      AllFiled(database, u, was, catalogue, ignoreBadTag);
      database := database + [u];
    }

    /** Adds up the lengths of the listings. */
    method NumModuleUnits() returns (sum: nat)
      requires Valid()
      ensures sum == KeptAll(database, ignoreBadTag)
    {
      sum := 0;
      var i := 0;
      while i < |catalogue|
        invariant i <= |catalogue| && sum + Units(catalogue[i..]) == Units(catalogue)
      {
        sum := sum + |catalogue[i].items|;
        i := i + 1;
      }
    }

    function NumAvailableCandidates(unit: string): (number: nat)
      reads this
      ensures number == |Items(catalogue, unit)|
    {
      var i := IndexOf(catalogue, unit);
      if i < |catalogue| then |catalogue[i].items| else 0
    }

    /** Links a candidate for each segment listed under the unit; `head` and `tail` are set when there is one. */
    method GetCandidateList(target: string, m: nat, head0: VTCandidate?, tail0: VTCandidate?)
        returns (nfound: nat, head: VTCandidate?, tail: VTCandidate?, ghost nodes: seq<VTCandidate>)
      ensures nfound == |nodes| && Listed(head, tail, nodes)
      ensures forall n :: n in nodes ==> fresh(n)
      ensures Contents(nodes) == Tagged(m, Reverse(Items(catalogue, target)))
      ensures nfound == 0 ==> head == head0 && tail == tail0
    {
      nfound, head, tail, nodes := 0, head0, tail0, [];
      var i := IndexOf(catalogue, target);
      if i < |catalogue| {
        nfound := |catalogue[i].items|;
        head, tail, nodes := ItemListToCandidateList(catalogue[i].items, m, head, tail);
      }
    }
  }

  /** Where a candidate comes from: a segment of one of the voice's modules. */
  datatype Source = Source(voiceModule: nat, item: Item)

  class VTCandidate {
    var source: Source
    var next: VTCandidate?

    constructor (source: Source, next: VTCandidate?)
      ensures this.source == source && this.next == next
    {
      this.source, this.next := source, next;
    }
  }

  /** The nodes are distinct and linked one to the next, the last to `end`. */
  ghost predicate Chain(nodes: seq<VTCandidate>, end: VTCandidate?)
    reads nodes
  {
    && (forall i, j :: 0 <= i < j < |nodes| ==> nodes[i] != nodes[j])
    && forall i {:trigger nodes[i].next} :: 0 <= i < |nodes| ==>
         nodes[i].next == if i + 1 < |nodes| then nodes[i + 1] else end
  }

  lemma {:induction false} ChainJoin(front: seq<VTCandidate>, link: VTCandidate?, back: seq<VTCandidate>, end: VTCandidate?)
    requires Chain(front, link) && Chain(back, end)
    requires link == if |back| > 0 then back[0] else end
    requires forall n :: n in front ==> n !in back
    ensures Chain(front + back, end)
  {
    assert forall i :: 0 <= i < |front| ==> front[i] in front;
    assert forall i :: 0 <= i < |back| ==> back[i] in back;
  }

  ghost function Contents(nodes: seq<VTCandidate>): (r: seq<Source>)
    reads nodes
    ensures |r| == |nodes| && forall i :: 0 <= i < |nodes| ==> r[i] == nodes[i].source
  {
    seq(|nodes|, i requires 0 <= i < |nodes| reads nodes => nodes[i].source)
  }

  function Tagged(m: nat, items: seq<Item>): (r: seq<Source>)
    ensures |r| == |items| && forall i :: 0 <= i < |items| ==> r[i] == Source(m, items[i])
  {
    seq(|items|, i requires 0 <= i < |items| => Source(m, items[i]))
  }

  /** A chain with its ends, when it is not empty. */
  ghost predicate Listed(head: VTCandidate?, tail: VTCandidate?, nodes: seq<VTCandidate>)
    reads nodes
  {
    |nodes| > 0 ==> Chain(nodes, null) && head == nodes[0] && tail == nodes[|nodes| - 1]
  }

  /** The last candidate is made first, and each other is put in front of the list so far. */
  method ItemListToCandidateList(items: seq<Item>, m: nat, head0: VTCandidate?, tail0: VTCandidate?)
      returns (head: VTCandidate?, tail: VTCandidate?, ghost nodes: seq<VTCandidate>)
    ensures |nodes| == |items| && Listed(head, tail, nodes)
    ensures forall n :: n in nodes ==> fresh(n)
    ensures Contents(nodes) == Tagged(m, Reverse(items))
    ensures items == [] ==> head == head0 && tail == tail0
  {
    head, tail, nodes := head0, tail0, [];
    ReverseAt(items);
    if |items| > 0 {
      var c := new VTCandidate(Source(m, items[0]), null);
      tail := c;
      nodes := [c];
      var i := 1;
      while i < |items|
        invariant 1 <= i == |nodes| <= |items|
        invariant Chain(nodes, null) && c == nodes[0] && tail == nodes[|nodes| - 1]
        invariant forall n :: n in nodes ==> fresh(n)
        invariant forall k :: 0 <= k < i ==> nodes[k].source == Source(m, items[i - 1 - k])
      {
        c := new VTCandidate(Source(m, items[i]), c);
        ChainJoin([c], nodes[0], nodes, null);
        nodes := [c] + nodes;
        i := i + 1;
      }
      head := c;
    }
  }

  /** What each module lists under the name. */
  ghost function Lists(modules: seq<DiphoneVoiceModule>, target: string): (r: seq<seq<Item>>)
    reads modules
    ensures |r| == |modules|
    ensures forall m :: 0 <= m < |modules| ==> r[m] == Items(modules[m].catalogue, target)
  {
    seq(|modules|, m requires 0 <= m < |modules| reads modules => Items(modules[m].catalogue, target))
  }

  /** The candidates of the first `m` modules, in the order of the spliced list. */
  function Spliced(lists: seq<seq<Item>>, m: nat): seq<Source>
    requires m <= |lists|
  {
    if m == 0 then [] else Tagged(m - 1, Reverse(lists[m - 1])) + Spliced(lists, m - 1)
  }

  function Total(lists: seq<seq<Item>>, m: nat): nat
    requires m <= |lists|
  {
    if m == 0 then 0 else |lists[m - 1]| + Total(lists, m - 1)
  }

  lemma {:induction false} SplicedTotal(lists: seq<seq<Item>>, m: nat)
    requires m <= |lists|
    ensures |Spliced(lists, m)| == Total(lists, m)
  {
    if m == 0 {
    } else {
      SplicedTotal(lists, m - 1);
    }
  }

  ghost function Candidates(modules: seq<DiphoneVoiceModule>, target: string): seq<Source>
    reads modules
  {
    Spliced(Lists(modules, target), |modules|)
  }

  /** The list joined so far, its number of candidates, and its first one. */
  ghost predicate Whole(c: VTCandidate?, total: nat, nodes: seq<VTCandidate>)
    reads nodes
  {
    total == |nodes| && Chain(nodes, null) && c == if total > 0 then nodes[0] else null
  }

  /** Puts the list of each module before those of the modules already seen; nothing is found when all
      are empty. */
  method GetCandidates(modules: seq<DiphoneVoiceModule>, target: string)
      returns (c: VTCandidate?, total: nat, ghost nodes: seq<VTCandidate>)
    ensures Whole(c, total, nodes) && Contents(nodes) == Candidates(modules, target)
    ensures total == |Candidates(modules, target)| && (c == null <==> total == 0)
  {
    ghost var lists := Lists(modules, target);
    var head: VTCandidate?, tail: VTCandidate? := null, null;
    c, total, nodes := null, 0, [];
    for m := 0 to |modules|
      invariant Whole(c, total, nodes) && forall n :: n in nodes ==> fresh(n)
      invariant Contents(nodes) == Spliced(lists, m)
    {
      head, tail, c, total, nodes := JoinModule(modules[m], target, m, head, tail, c, total, nodes, lists);
    }
  }

  /** What one module contributes: its list, put in front. */
  method JoinModule(d: DiphoneVoiceModule, target: string, m: nat, head: VTCandidate?, tail: VTCandidate?,
                    c: VTCandidate?, total: nat, ghost nodes: seq<VTCandidate>, ghost lists: seq<seq<Item>>)
      returns (head': VTCandidate?, tail': VTCandidate?, c': VTCandidate?, total': nat, ghost nodes': seq<VTCandidate>)
    requires m < |lists| && Items(d.catalogue, target) == lists[m]
    requires Whole(c, total, nodes) && Contents(nodes) == Spliced(lists, m)
    ensures Whole(c', total', nodes') && forall n :: n in nodes' ==> n in nodes || fresh(n)
    ensures Contents(nodes') == Spliced(lists, m + 1)
  {
    var nfound: nat;
    ghost var more;
    nfound, head', tail', more := d.GetCandidateList(target, m, head, tail);
    assert nfound > 0 ==> tail' in more;
    c' := Splice(nfound, head', tail', c, more, nodes);
    total', nodes' := total + nfound, more + nodes;
  }

  /** Puts the list of a module, when it has one, in front of the list so far. */
  method Splice(nfound: nat, head: VTCandidate?, tail: VTCandidate?, c: VTCandidate?,
                ghost front: seq<VTCandidate>, ghost back: seq<VTCandidate>) returns (c': VTCandidate?)
    requires nfound == |front| && Listed(head, tail, front)
    requires Chain(back, null) && c == if |back| > 0 then back[0] else null
    requires forall n :: n in front ==> n !in back
    modifies if nfound > 0 then {tail} else {}
    ensures Chain(front + back, null) && c' == if |front + back| > 0 then (front + back)[0] else null
    ensures Contents(front + back) == old(Contents(front)) + old(Contents(back))
  {
    c' := c;
    if nfound > 0 {
      assert forall i :: 0 <= i < |back| ==> back[i] in back;
      assert tail in front;
      tail.next := c;
      ChainJoin(front, c, back, null);
      c' := head;
    } else {
      assert front + back == back;
    }
  }

  method UnitAvailable(modules: seq<DiphoneVoiceModule>, diphone: string) returns (r: bool)
    ensures r <==> Candidates(modules, diphone) != []
  {
    ghost var lists := Lists(modules, diphone);
    SplicedTotal(lists, |lists|);
    for m := 0 to |modules|
      invariant Total(lists, m) == 0
    {
      if modules[m].NumAvailableCandidates(diphone) > 0 {
        TotalGrows(lists, m + 1, |lists|);
        return true;
      }
    }
    return false;
  }

  lemma {:induction false} TotalGrows(lists: seq<seq<Item>>, m: nat, n: nat)
    requires m <= n <= |lists|
    ensures Total(lists, m) <= Total(lists, n)
    decreases n
  {
    if m == n {
    } else {
      TotalGrows(lists, m, n - 1);
    }
  }

  method NumAvailableCandidates(modules: seq<DiphoneVoiceModule>, diphone: string) returns (number: nat)
    ensures number == |Candidates(modules, diphone)|
  {
    ghost var lists := Lists(modules, diphone);
    SplicedTotal(lists, |lists|);
    number := 0;
    for m := 0 to |modules|
      invariant number == Total(lists, m)
    {
      number := number + modules[m].NumAvailableCandidates(diphone);
    }
  }

  lemma {:induction false} SplicedMember(lists: seq<seq<Item>>, m: nat, s: Source)
    requires m <= |lists|
    ensures s in Spliced(lists, m) <==> s.voiceModule < m && s.item in lists[s.voiceModule]
  {
    if m == 0 {
    } else {
      SplicedMember(lists, m - 1, s);
      ReverseMembers(lists[m - 1], s.item);
      var t := Tagged(m - 1, Reverse(lists[m - 1]));
      if s.voiceModule == m - 1 && s.item in lists[m - 1] {
        var i :| 0 <= i < |lists[m - 1]| && Reverse(lists[m - 1])[i] == s.item;
        assert t[i] == s;
      }
    }
  }

  lemma {:induction false} SplicedDistinct(lists: seq<seq<Item>>, m: nat)
    requires m <= |lists| && forall k :: 0 <= k < |lists| ==> InOrder(lists[k])
    ensures forall i, j :: 0 <= i < j < |Spliced(lists, m)| ==> Spliced(lists, m)[i] != Spliced(lists, m)[j]
  {
    if m == 0 {
    } else {
      var front, back := Tagged(m - 1, Reverse(lists[m - 1])), Spliced(lists, m - 1);
      SplicedDistinct(lists, m - 1);
      ReverseAt(lists[m - 1]);
      forall j | 0 <= j < |back| ensures back[j].voiceModule != m - 1 {
        SplicedMember(lists, m - 1, back[j]);
      }
      forall i, j | 0 <= i < j < |front| ensures front[i] != front[j] {
        assert Before(lists[m - 1][|front| - 1 - j], lists[m - 1][|front| - 1 - i]);
      }
    }
  }

  /** A segment is a candidate exactly when it belongs under the name in its own module's database... */
  lemma {:induction false} CandidateExact(modules: seq<DiphoneVoiceModule>, target: string, s: Source)
    requires forall m :: 0 <= m < |modules| ==> modules[m].Valid()
    ensures s in Candidates(modules, target) <==>
            && s.voiceModule < |modules|
            && Belongs(modules[s.voiceModule].database, modules[s.voiceModule].ignoreBadTag, target, s.item.utt, s.item.seg)
  {
    SplicedMember(Lists(modules, target), |modules|, s);
    if s.voiceModule < |modules| {
      AddsAllMember(modules[s.voiceModule].database, modules[s.voiceModule].ignoreBadTag, target, s.item);
    }
  }

  /** ...and no segment is a candidate twice. */
  lemma {:induction false} CandidatesDistinct(modules: seq<DiphoneVoiceModule>, target: string)
    requires forall m :: 0 <= m < |modules| ==> modules[m].Valid()
    ensures forall i, j :: 0 <= i < j < |Candidates(modules, target)| ==>
              Candidates(modules, target)[i] != Candidates(modules, target)[j]
  {
    forall m | 0 <= m < |modules| ensures InOrder(Lists(modules, target)[m]) {
      AddsAllInOrder(modules[m].database, modules[m].ignoreBadTag, target);
    }
    SplicedDistinct(Lists(modules, target), |modules|);
  }

  /** Without ignoring bad segments, belonging is starting the diphone of that name. */
  lemma {:induction false} BelongsUnflagged(db: seq<Utterance>, name: string, x: nat, j: nat)
    ensures Belongs(db, false, name, x, j) <==> x < |db| && j + 1 < |db[x]| && DiphoneName(db[x], j) == name
  {
  }
}
