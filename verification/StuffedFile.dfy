/** Files on a connection that stays open: the end is marked by a key, and data that begins to look like
    the key is stuffed. */
module StuffedFile {

  const KEY: string := "ft_StUfF_key"

  /** The length of the key without its last character. */
  const LAST := 11

  /** What the receiver has after some input: how much of the key it has just seen, and the data before that. */
  datatype Receiver = Receiver(k: nat, data: string)

  predicate Within(r: Receiver) { r.k <= |KEY| }

  function Receive1(c: char, r: Receiver): (r': Receiver)
    requires r.k < |KEY|
    ensures Within(r') && |r'.data| + r'.k <= |r.data| + r.k + 1
  {
    if KEY[r.k] == c then r.(k := r.k + 1)
    else if c == 'X' && r.k + 1 == |KEY| then Receiver(0, r.data + KEY[..r.k])
    else Receiver(0, r.data + KEY[..r.k] + [c])
  }

  /** Reads until the key is complete or the input ends; gives the data and what is left of the input. */
  function Receive(input: string, r: Receiver): (Receiver, string)
    requires Within(r)
    decreases |input|
  {
    if r.k == |KEY| || input == [] then (r, input) else Receive(input[1..], Receive1(input[0], r))
  }

  // ---------- The sender's side ----------

  /** The automaton that the sender runs over its data: it starts again on a mismatch. */
  function KeyStep(k: nat, c: char): (k': nat)
    requires k < LAST
    ensures k' <= LAST
  {
    if KEY[k] == c then k + 1 else 0
  }

  /** The data as sent: an X goes after anything that is the key but for its last character. */
  function Stuffed(payload: string, k: nat): string
    requires k < LAST
  {
    if payload == [] then []
    else
      var k' := KeyStep(k, payload[0]);
      if k' == LAST then [payload[0], 'X'] + Stuffed(payload[1..], 0)
      else [payload[0]] + Stuffed(payload[1..], k')
  }

  function KeyState(payload: string, k: nat): (k': nat)
    requires k < LAST
    ensures k' < LAST
  {
    if payload == [] then k
    else
      var k' := KeyStep(k, payload[0]);
      KeyState(payload[1..], if k' == LAST then 0 else k')
  }

  function Sent(payload: string): string { Stuffed(payload, 0) + KEY }

  /** What the receiver has in all, the key characters it is holding back included. */
  function Held(r: Receiver): string
    requires Within(r)
  {
    r.data + KEY[..r.k]
  }

  /** Over stuffed data the receiver's automaton is that of the sender, and it holds exactly the payload. */
  lemma {:induction false} FollowsSender(payload: string, r: Receiver, more: string) returns (r': Receiver)
    requires r.k < LAST
    ensures r'.k == KeyState(payload, r.k) && Held(r') == Held(r) + payload
    ensures Receive(Stuffed(payload, r.k) + more, r) == Receive(more, r')
    decreases |payload|
  {
    if payload == [] {
      assert Stuffed(payload, r.k) + more == more && Held(r) + payload == Held(r);
      return r;
    }
    var c := payload[0];
    var next := Receive1(c, r);
    var k' := KeyStep(r.k, c);
    HeldGrows(c, r);
    StuffedFirst(payload, r.k, more);
    Regroup(Held(r), payload);
    if k' == LAST {
      var after := Receive1('X', next);
      ReceiveOne(c, ['X'] + (Stuffed(payload[1..], 0) + more), r);
      ReceiveOne('X', Stuffed(payload[1..], 0) + more, next);
      StuffingDropped(next);
      r' := FollowsSender(payload[1..], after, more);
    } else {
      ReceiveOne(c, Stuffed(payload[1..], k') + more, r);
      r' := FollowsSender(payload[1..], next, more);
    }
  }

  lemma {:induction false} Regroup(held: string, payload: string)
    requires payload != []
    ensures held + payload == (held + [payload[0]]) + payload[1..]
  {
  }

  /** An X after the key but for its last character only puts back what was held. */
  lemma {:induction false} StuffingDropped(r: Receiver)
    requires r.k == LAST
    ensures Receive1('X', r).k == 0 && Held(Receive1('X', r)) == Held(r)
  {
  }

  lemma {:induction false} StuffedFirst(payload: string, k: nat, more: string)
    requires payload != [] && k < LAST
    ensures var c, k' := payload[0], KeyStep(k, payload[0]);
            Stuffed(payload, k) + more ==
            if k' == LAST then [c] + (['X'] + (Stuffed(payload[1..], 0) + more))
            else [c] + (Stuffed(payload[1..], k') + more)
  {
  }

  lemma {:induction false} ReceiveOne(c: char, rest: string, r: Receiver)
    requires r.k < |KEY|
    ensures Receive([c] + rest, r) == Receive(rest, Receive1(c, r))
  {
    assert ([c] + rest)[1..] == rest;
  }

  lemma {:induction false} HeldGrows(c: char, r: Receiver)
    requires r.k < |KEY| && !(c == 'X' && r.k == LAST)
    ensures Held(Receive1(c, r)) == Held(r) + [c]
  {
  }

  /** Reading the key from the beginning completes it, and leaves what follows. */
  lemma {:induction false} KeyEnds(i: nat, data: string, more: string)
    requires i <= |KEY|
    ensures Receive(KEY[i..] + more, Receiver(i, data)) == (Receiver(|KEY|, data), more)
    decreases |KEY| - i
  {
    if i < |KEY| {
      assert (KEY[i..] + more)[1..] == KEY[i + 1..] + more && (KEY[i..] + more)[0] == KEY[i];
      KeyEnds(i + 1, data, more);
    } else {
      assert KEY[i..] + more == more;
    }
  }

  /** Where the receiver's automaton is after the first `i` characters of a key that came when it was at `k`. */
  function Overlap(k: nat, i: nat): nat
    requires 0 < k < LAST && i <= |KEY|
  {
    if i == 0 then k else if i == 1 && k == 6 then 7 else if i == 7 then 1 else 0
  }

  lemma {:induction false} OneOff(held: string, key: string, i: nat, more: string)
    requires i < |key|
    ensures key[i..] + more == [key[i]] + (key[i + 1..] + more)
    ensures held + [key[i]] + key[i + 1..] == held + key[i..]
  {
  }

  /** A key that comes while another seems to have begun is taken for data. */
  lemma {:induction false} KeyMissed(k: nat, i: nat, r: Receiver, more: string) returns (r': Receiver)
    requires 0 < k < LAST && i <= |KEY| && r.k == Overlap(k, i)
    ensures r'.k == 0 && r'.data == Held(r) + KEY[i..]
    ensures Receive(KEY[i..] + more, r) == Receive(more, r')
    decreases |KEY| - i
  {
    if i == |KEY| {
      assert KEY[i..] + more == more && Held(r) == r.data + [] == r.data;
      return r;
    }
    var c := KEY[i];
    OverlapStep(k, i, r);
    HeldGrows(c, r);
    OneOff(Held(r), KEY, i, more);
    ReceiveOne(c, KEY[i + 1..] + more, r);
    r' := KeyMissed(k, i + 1, Receive1(c, r), more);
  }

  lemma {:induction false} OverlapStep(k: nat, i: nat, r: Receiver)
    requires 0 < k < LAST && i < |KEY| && r.k == Overlap(k, i)
    ensures r.k < |KEY| && KEY[i] != 'X' && Receive1(KEY[i], r).k == Overlap(k, i + 1)
  {
  }

  /** The receiver's data only ever grows. */
  lemma {:induction false} DataGrows(input: string, r: Receiver)
    requires Within(r)
    ensures |r.data| <= |Receive(input, r).0.data|
    decreases |input|
  {
    if r.k != |KEY| && input != [] {
      DataGrows(input[1..], Receive1(input[0], r));
    }
  }

  /** The receiver gets the payload and stops at the key, exactly when the payload leaves the sender's automaton at its
      start. */
  lemma {:induction false} ReceivedIff(payload: string, more: string)
    ensures Receive(Sent(payload) + more, Receiver(0, "")) == (Receiver(|KEY|, payload), more)
            <==> KeyState(payload, 0) == 0
  {
    var start := Receiver(0, "");
    assert Sent(payload) + more == Stuffed(payload, 0) + (KEY + more);
    assert KEY[0..] == KEY;
    var r := FollowsSender(payload, start, KEY + more);
    assert Held(start) + payload == payload;
    if r.k == 0 {
      assert Held(r) == r.data + [] == r.data;
      KeyEnds(0, r.data, more);
    } else {
      var r' := KeyMissed(r.k, 0, r, more);
      DataGrows(more, r');
    }
  }

  // ---------- The receiver in place ----------

  /** Reads into a buffer that grows by a quarter; there is always room for one more character. */
  method ReceiveToBuff(input: string) returns (buff: array<char>, size: nat, rest: string)
    ensures Receive(input, Receiver(0, "")).1 == rest
    ensures size < buff.Length && buff[..size] == Receive(input, Receiver(0, "")).0.data
    ensures fresh(buff)
  {
    buff := new char[1024](_ => '\0');
    size, rest := 0, input;
    var k := 0;
    while k < |KEY|
      invariant k <= |KEY| && size + k + 1 <= buff.Length && buff.Length >= 1024 && fresh(buff)
      invariant Receive(input, Receiver(0, "")) == Receive(rest, Receiver(k, buff[..size]))
      decreases |rest|, |KEY| - k
    {
      if rest == [] {
        break;
      }
      var c := rest[0];
      rest := rest[1..];
      ghost var data := buff[..size];
      if size + k + 1 >= buff.Length {
        buff := Realloc(buff, buff.Length + buff.Length / 4);
        assert buff[..size] == data;
      }
      if KEY[k] == c {
        k := k + 1;
      } else if c == 'X' && k + 1 == |KEY| {
        CopyKey(buff, size, k);
        size, k := size + k, 0;
        assert buff[..size] == data + KEY[..LAST];
      } else {
        CopyKey(buff, size, k);
        ghost var n := k;
        size, k := size + k, 0;
        buff[size] := c;
        size := size + 1;
        assert buff[..size] == data + KEY[..n] + [c];
      }
    }
  }

  method Realloc(buff: array<char>, n: nat) returns (bigger: array<char>)
    requires buff.Length <= n
    ensures fresh(bigger) && bigger.Length == n && bigger[..buff.Length] == buff[..]
  {
    bigger := new char[n](_ => '\0');
    forall i | 0 <= i < buff.Length {
      bigger[i] := buff[i];
    }
  }

  /** Writes the first `k` characters of the key after the first `size` of the buffer. */
  method CopyKey(buff: array<char>, size: nat, k: nat)
    requires k < |KEY| && size + k < buff.Length
    modifies buff
    ensures buff[..size + k] == old(buff[..size]) + KEY[..k]
  {
    for i := 0 to k
      invariant buff[..size + i] == old(buff[..size]) + KEY[..i]
    {
      buff[size + i] := KEY[i];
    }
  }

  /** An expression as a terminated string: the terminator fits. */
  method ClientAcceptSExpr(input: string) returns (expr: array<char>, size: nat, rest: string)
    ensures size < expr.Length && expr[size] == '\0'
    ensures expr[..size] == Receive(input, Receiver(0, "")).0.data && rest == Receive(input, Receiver(0, "")).1
  {
    expr, size, rest := ReceiveToBuff(input);
    expr[size] := '\0';
  }
}
