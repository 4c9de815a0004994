/** Cutting a stream of tokens into utterances, each decided on once the token after it is there. */
module Chunker {

  /** A token in an utterance, and whether the token function was applied to it there. */
  datatype Item<T> = Item(token: T, applied: bool)

  type Utterance<T> = seq<Item<T>>

  /** What the stream yielded so far: the utterances handed on, in order, and the open one. */
  datatype Chunks<T> = Chunks(done: seq<Utterance<T>>, open: Utterance<T>)

  /** One token of the stream; the predictor looks at the last item but one of the grown utterance. */
  function Advance<T>(ends: Utterance<T> -> bool, c: Chunks<T>, t: T): Chunks<T> {
    var grown := c.open + [Item(t, true)];
    if |grown| > 1 && ends(grown) then Chunks(c.done + [c.open], [Item(t, false)])
    else Chunks(c.done, grown)
  }

  function Chunk<T>(ends: Utterance<T> -> bool, c: Chunks<T>, ts: seq<T>): Chunks<T>
    decreases |ts|
  {
    if ts == [] then c else Advance(ends, Chunk(ends, c, ts[..|ts| - 1]), ts[|ts| - 1])
  }

  /** The utterance is grown in place, and its last token is taken off again when it has ended. */
  method TtsChunkStream<T>(ts: seq<T>, ends: Utterance<T> -> bool, utt: Utterance<T>)
    returns (appUtt: seq<Utterance<T>>, appTok: seq<T>, rest: Utterance<T>)
    ensures Chunks(appUtt, rest) == Chunk(ends, Chunks([], utt), ts)
    ensures appTok == ts
  {
    appUtt, appTok, rest := [], [], utt;
    var i := 0;
    while i < |ts|
      invariant i <= |ts|
      invariant Chunks(appUtt, rest) == Chunk(ends, Chunks([], utt), ts[..i])
      invariant appTok == ts[..i]
    {
      assert ts[..i + 1][..i] == ts[..i];
      var t := ts[i];
      rest := rest + [Item(t, true)];
      appTok := appTok + [t];
      if |rest| > 1 && ends(rest) {
        rest := rest[..|rest| - 1];
        appUtt := appUtt + [rest];
        rest := [Item(t, false)];
      }
      i := i + 1;
    }
    assert ts[..|ts|] == ts;
  }

  // ---------- Conservation and composition ----------

  function Tokens<T>(u: Utterance<T>): seq<T> { seq(|u|, i requires 0 <= i < |u| => u[i].token) }

  function Spoken<T>(us: seq<Utterance<T>>): seq<T> {
    if us == [] then [] else Spoken(us[..|us| - 1]) + Tokens(us[|us| - 1])
  }

  /** The tokens of all the utterances, the open one last. */
  function All<T>(c: Chunks<T>): seq<T> { Spoken(c.done) + Tokens(c.open) }

  lemma {:induction false} AdvanceConserves<T>(ends: Utterance<T> -> bool, c: Chunks<T>, t: T)
    ensures All(Advance(ends, c, t)) == All(c) + [t]
  {
  }

  /** No token is lost, doubled or moved. */
  lemma {:induction false} ChunkConserves<T>(ends: Utterance<T> -> bool, c: Chunks<T>, ts: seq<T>)
    ensures All(Chunk(ends, c, ts)) == All(c) + ts
    decreases |ts|
  {
    if ts == [] {
    } else {
      var init, t := ts[..|ts| - 1], ts[|ts| - 1];
      ChunkConserves(ends, c, init);
      AdvanceConserves(ends, Chunk(ends, c, init), t);
      assert init + [t] == ts;
    }
  }

  /** Two streams in turn are one stream. */
  lemma {:induction false} ChunkComposes<T>(ends: Utterance<T> -> bool, c: Chunks<T>, s: seq<T>, t: seq<T>)
    ensures Chunk(ends, Chunk(ends, c, s), t) == Chunk(ends, c, s + t)
    decreases |t|
  {
    if t == [] {
      assert s + t == s;
    } else {
      ChunkComposes(ends, c, s, t[..|t| - 1]);
      assert (s + t)[..|s + t| - 1] == s + t[..|t| - 1];
    }
  }

  /** The utterances handed on before play no part. */
  lemma {:induction false} ChunkLocal<T>(ends: Utterance<T> -> bool, c: Chunks<T>, ts: seq<T>)
    ensures var r := Chunk(ends, Chunks([], c.open), ts);
            Chunk(ends, c, ts) == Chunks(c.done + r.done, r.open)
    decreases |ts|
  {
    if ts == [] {
      assert c.done + [] == c.done;
    } else {
      ChunkLocal(ends, c, ts[..|ts| - 1]);
    }
  }

  // ---------- Where the cuts are ----------

  /** The utterance with the first token of the next one attached. */
  function Attached<T>(u: Utterance<T>, next: Utterance<T>): Utterance<T>
    requires next != []
  {
    u + [next[0].(applied := true)]
  }

  /** No shorter beginning of the utterance, longer than `start`, ended with its next token attached. */
  predicate Unended<T>(ends: Utterance<T> -> bool, start: nat, u: Utterance<T>) {
    forall n {:trigger u[..n]} :: start < n <= |u| && n > 1 ==> !ends(u[..n])
  }

  /** The k-th utterance: the first one goes on from `utt`, and each other from the token that ended the last. */
  function Start(utt: nat, k: nat): nat { if k == 0 then utt else 1 }

  function Nth<T>(us: seq<Utterance<T>>, open: Utterance<T>, k: nat): Utterance<T>
    requires k <= |us|
  {
    if k < |us| then us[k] else open
  }

  /** Every utterance begins as it must, and ends where the predictor first says so. */
  ghost predicate WellCut<T>(ends: Utterance<T> -> bool, utt: Utterance<T>, c: Chunks<T>) {
    && (forall k {:trigger Nth(c.done, c.open, k)} :: 0 <= k <= |c.done| ==>
          var u := Nth(c.done, c.open, k);
          && Start(|utt|, k) <= |u| && Unended(ends, Start(|utt|, k), u)
          && (if k == 0 then u[..|utt|] == utt else !u[0].applied)
          && forall i :: Start(|utt|, k) <= i < |u| ==> u[i].applied)
    && (forall k {:trigger c.done[k]} :: 0 <= k < |c.done| ==>
          c.done[k] != [] && Nth(c.done, c.open, k + 1) != [] &&
          ends(Attached(c.done[k], Nth(c.done, c.open, k + 1))))
  }

  lemma {:induction false} ChunkWellCut<T>(ends: Utterance<T> -> bool, utt: Utterance<T>, ts: seq<T>)
    ensures WellCut(ends, utt, Chunk(ends, Chunks([], utt), ts))
    decreases |ts|
  {
    if ts == [] {
    } else {
      ChunkWellCut(ends, utt, ts[..|ts| - 1]);
      AdvanceWellCut(ends, utt, Chunk(ends, Chunks([], utt), ts[..|ts| - 1]), ts[|ts| - 1]);
    }
  }

  lemma {:induction false} GrowWellCut<T>(ends: Utterance<T> -> bool, utt: Utterance<T>, c: Chunks<T>, t: T)
    requires WellCut(ends, utt, c)
    requires var grown := c.open + [Item(t, true)]; |grown| > 1 ==> !ends(grown)
    ensures WellCut(ends, utt, Chunks(c.done, c.open + [Item(t, true)]))
  {
    var grown := c.open + [Item(t, true)];
    var r := Chunks(c.done, grown);
    assert Nth(c.done, c.open, |c.done|) == c.open;
    assert grown[..|grown|] == grown;
    assert forall n :: 0 <= n <= |c.open| ==> grown[..n] == c.open[..n];
    assert forall k {:trigger Nth(r.done, r.open, k)} :: 0 <= k < |c.done| ==>
             Nth(r.done, r.open, k) == Nth(c.done, c.open, k);
  }

  lemma {:induction false} CloseWellCut<T>(ends: Utterance<T> -> bool, utt: Utterance<T>, c: Chunks<T>, t: T)
    requires WellCut(ends, utt, c)
    requires c.open != [] && ends(c.open + [Item(t, true)])
    ensures WellCut(ends, utt, Chunks(c.done + [c.open], [Item(t, false)]))
  {
    var r := Chunks(c.done + [c.open], [Item(t, false)]);
    assert Nth(c.done, c.open, |c.done|) == c.open;
    assert Attached(c.open, r.open) == c.open + [Item(t, true)];
    assert forall k {:trigger Nth(r.done, r.open, k)} :: 0 <= k <= |c.done| ==>
             Nth(r.done, r.open, k) == Nth(c.done, c.open, k);
  }

  lemma {:induction false} AdvanceWellCut<T>(ends: Utterance<T> -> bool, utt: Utterance<T>, c: Chunks<T>, t: T)
    requires WellCut(ends, utt, c)
    ensures WellCut(ends, utt, Advance(ends, c, t))
  {
    var grown := c.open + [Item(t, true)];
    if |grown| > 1 && ends(grown) {
      CloseWellCut(ends, utt, c, t);
    } else {
      GrowWellCut(ends, utt, c, t);
    }
  }

  /** The utterances before their last token came. */
  function Before<T>(utt: nat, c: Chunks<T>): Chunks<T>
    requires |c.open| > Start(utt, |c.done|) || c.done != []
  {
    if |c.open| > Start(utt, |c.done|) then Chunks(c.done, c.open[..|c.open| - 1])
    else Chunks(c.done[..|c.done| - 1], c.done[|c.done| - 1])
  }

  lemma {:induction false} BeforeWellCut<T>(ends: Utterance<T> -> bool, utt: Utterance<T>, c: Chunks<T>)
    requires WellCut(ends, utt, c)
    requires |c.open| > Start(|utt|, |c.done|) || c.done != []
    ensures c.open != []
    ensures WellCut(ends, utt, Before(|utt|, c))
    ensures Advance(ends, Before(|utt|, c), c.open[|c.open| - 1].token) == c
  {
    var r, last := Before(|utt|, c), |c.done| - 1;
    assert Nth(c.done, c.open, |c.done|) == c.open;
    if |c.open| > Start(|utt|, |c.done|) {
      assert c.open == r.open + [Item(c.open[|c.open| - 1].token, true)];
      assert c.open[..|c.open|] == c.open;
      assert forall n :: 0 <= n <= |r.open| ==> r.open[..n] == c.open[..n];
      assert forall k :: 0 <= k < |c.done| ==> Nth(r.done, r.open, k) == Nth(c.done, c.open, k);
    } else {
      assert Nth(c.done, c.open, last) == c.done[last];
      assert c.open == [Item(c.open[0].token, false)];
      assert Attached(c.done[last], c.open) == r.open + [Item(c.open[0].token, true)];
      assert c.done == r.done + [c.done[last]];
      assert forall k :: 0 <= k <= |r.done| ==> Nth(r.done, r.open, k) == Nth(c.done, c.open, k);
    }
  }

  lemma {:induction false} OneMore<T>(all: seq<T>, before: seq<T>, from: nat, t: T)
    requires all == before + [t] && from <= |before|
    ensures var ts := all[from..]; ts != [] && ts[..|ts| - 1] == before[from..] && ts[|ts| - 1] == t
  {
  }

  lemma {:induction false} NothingYet<T>(ends: Utterance<T> -> bool, utt: Utterance<T>, c: Chunks<T>)
    requires WellCut(ends, utt, c) && c.done == [] && |c.open| <= |utt|
    ensures c == Chunks([], utt) && |All(c)| == |utt|
  {
    assert Nth(c.done, c.open, 0) == c.open;
    assert c.open[..|utt|] == c.open;
  }

  lemma {:induction false} StepBack<T>(ends: Utterance<T> -> bool, utt: Utterance<T>, c: Chunks<T>) returns (r: Chunks<T>, t: T)
    requires WellCut(ends, utt, c)
    requires |c.open| > Start(|utt|, |c.done|) || c.done != []
    ensures WellCut(ends, utt, r) && Advance(ends, r, t) == c && All(c) == All(r) + [t]
  {
    BeforeWellCut(ends, utt, c);
    r, t := Before(|utt|, c), c.open[|c.open| - 1].token;
    AdvanceConserves(ends, r, t);
  }

  /** There is one way to cut the tokens well, and the chunker finds it. */
  lemma {:induction false} WellCutIsChunk<T>(ends: Utterance<T> -> bool, utt: Utterance<T>, c: Chunks<T>)
    requires WellCut(ends, utt, c)
    ensures |utt| <= |All(c)|
    ensures c == Chunk(ends, Chunks([], utt), All(c)[|utt|..])
    decreases |All(c)|
  {
    if |c.open| > Start(|utt|, |c.done|) || c.done != [] {
      var r, t := StepBack(ends, utt, c);
      WellCutIsChunk(ends, utt, r);
      OneMore(All(c), All(r), |utt|, t);
    } else {
      NothingYet(ends, utt, c);
    }
  }
}
