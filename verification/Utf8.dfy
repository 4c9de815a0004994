/** The UTF-8 codec of the Lisp functions: bytes to characters and characters to bytes. */
module Utf8 {
  import opened Seqs
  import opened Wrappers

  type Byte = bv8

  /** The length that a first byte promises. */
  function SequenceLength(c0: Byte): nat {
    if c0 < 0xC0 then 1 else if c0 < 0xE0 then 2 else if c0 < 0xF0 then 3 else 4
  }

  /** The length as the program looks it up: two bits of a constant, picked out by the byte. */
  function PackedLength(c0: Byte): bv32 {
    (((0xE5000000 as bv32) >> ((c0 >> 3) & 0x1E)) & 3) + 1
  }

  lemma {:induction false} PackedLengthIff(c0: Byte)
    ensures PackedLength(c0) == 1 <==> SequenceLength(c0) == 1
    ensures PackedLength(c0) == 2 <==> SequenceLength(c0) == 2
    ensures PackedLength(c0) == 3 <==> SequenceLength(c0) == 3
    ensures PackedLength(c0) == 4 <==> SequenceLength(c0) == 4
  {
  }

  function Low(ord: bv32): Byte { (ord & 0xFF) as Byte }

  function Continuation(ord: bv32): Byte { Low((ord | 0x80) & 0xBF) }

  /** The code is a signed integer: the upper half of the words are negative. */
  predicate Negative(ord: bv32) { ord >= 0x8000_0000 }

  /** The code without its last six bits. */
  function Rest(ord: bv32): bv32 { ord >> 6 }

  /** A length and the code in that many bytes: a marked first byte, then six bits in each other. */
  function Bytes(n: nat, ord: bv32): seq<Byte>
    requires 1 <= n <= 4
  {
    if n == 1 then [Low(ord)]
    else if n == 2 then [Low(Rest(ord) | 0xC0), Continuation(ord)]
    else if n == 3 then [Low(Rest(Rest(ord)) | 0xE0), Continuation(Rest(ord)), Continuation(ord)]
    else
      [Low(Rest(Rest(Rest(ord))) | 0xF0), Continuation(Rest(Rest(ord))), Continuation(Rest(ord)), Continuation(ord)]
  }

  function ChrLength(ord: bv32): (n: nat)
    ensures 1 <= n <= 4
  {
    if Negative(ord) || ord < 0x80 then 1
    else if ord < 0x800 then 2
    else if ord <= 0xFFFF then 3
    else if ord <= 0x200000 then 4
    else 2
  }

  /** A code that is too large is replaced. */
  function Accepted(ord: bv32): bv32 {
    if !Negative(ord) && ord > 0x200000 then 0xFFFD else ord
  }

  /** The bytes written for a code. */
  function Chr(ord: bv32): seq<Byte> { Bytes(ChrLength(ord), Accepted(ord)) }

  function Join2(c0: Byte, c1: Byte): bv32 { (((c0 & 0x1F) as bv32) << 6) | ((c1 & 0x3F) as bv32) }

  function Join3(c0: Byte, c1: Byte, c2: Byte): bv32 {
    (((c0 & 0x0F) as bv32) << 12) | (((c1 & 0x3F) as bv32) << 6) | ((c2 & 0x3F) as bv32)
  }

  function Join4(c0: Byte, c1: Byte, c2: Byte, c3: Byte): bv32 {
    (((c0 & 0x7) as bv32) << 18) | (((c1 & 0x3F) as bv32) << 12) | (((c2 & 0x3F) as bv32) << 6) | ((c3 & 0x3F) as bv32)
  }

  /** The code of a byte sequence (what stands before the terminator), if it is accepted. */
  function Ord(s: seq<Byte>): Option<bv32> {
    var c0: Byte := if s == [] then 0 else s[0];
    var len := SequenceLength(c0);
    if len != |s| then None
    else if len == 1 then Some(c0 as bv32)
    else if len == 2 then
      var ord := Join2(c0, s[1]);
      if ord < 0x80 then None else Some(ord)
    else if len == 3 then
      if (s[2] & 0xC0) != 0x80 then None
      else
        var ord := Join3(c0, s[1], s[2]);
        if ord < 0x800 || (ord >= 0xD800 && ord <= 0xDFFF) then None else Some(ord)
    else if (s[3] & 0xC0) != 0x80 then None
    else
      var ord := Join4(c0, s[1], s[2], s[3]);
      if ord < 0x10000 || ord > 0x10FFFF then None else Some(ord)
  }

  predicate Scalar(ord: bv32) { ord <= 0x10FFFF && !(ord >= 0xD800 && ord <= 0xDFFF) }

  // ---------- Bytes and their bits ----------

  lemma {:induction false} ContinuationBits(x: bv32)
    ensures ((Continuation(x) & 0x3F) as bv32) == x & 0x3F
    ensures Continuation(x) & 0xC0 == 0x80 && Continuation(x) != 0
  {
  }

  // ---------- One character ----------

  /** The bytes of a character: none is zero, and the first gives their number. */
  predicate Framed(s: seq<Byte>) {
    s != [] && SequenceLength(s[0]) == |s| && forall i :: 0 <= i < |s| ==> s[i] != 0
  }

  predicate Decodes(ord: bv32) { Framed(Chr(ord)) && Ord(Chr(ord)) == Some(ord) }

  lemma {:induction false} Joined3(x: bv32)
    requires x <= 0xFFFF
    ensures Join3(Low(Rest(Rest(x)) | 0xE0), Continuation(Rest(x)), Continuation(x)) == x
    ensures 0xE0 <= Low(Rest(Rest(x)) | 0xE0) < 0xF0
  {
  }

  lemma {:induction false} Joined4(x: bv32)
    requires x <= 0x1FFFFF
    ensures Join4(Low(Rest(Rest(Rest(x))) | 0xF0), Continuation(Rest(Rest(x))), Continuation(Rest(x)), Continuation(x)) == x
    ensures 0xF0 <= Low(Rest(Rest(Rest(x))) | 0xF0)
  {
  }

  lemma {:induction false} Bytes3(c0: Byte, c1: Byte, c2: Byte)
    requires 0xE0 <= c0 < 0xF0 && c1 != 0 && c2 != 0 && c2 & 0xC0 == 0x80
    ensures Framed([c0, c1, c2])
    ensures var x := Join3(c0, c1, c2);
            Ord([c0, c1, c2]) == if x < 0x800 || (x >= 0xD800 && x <= 0xDFFF) then None else Some(x)
  {
  }

  lemma {:induction false} Bytes4(c0: Byte, c1: Byte, c2: Byte, c3: Byte)
    requires 0xF0 <= c0 && c1 != 0 && c2 != 0 && c3 != 0 && c3 & 0xC0 == 0x80
    ensures Framed([c0, c1, c2, c3])
    ensures var x := Join4(c0, c1, c2, c3);
            Ord([c0, c1, c2, c3]) == if x < 0x10000 || x > 0x10FFFF then None else Some(x)
  {
  }

  lemma {:induction false} Decoded2(ord: bv32)
    requires 0x80 <= ord < 0x800
    ensures Decodes(ord)
  {
  }

  lemma {:induction false} Decoded3(ord: bv32)
    requires 0x800 <= ord <= 0xFFFF
    ensures Decodes(ord) <==> Scalar(ord)
  {
    ContinuationBits(Rest(ord));
    ContinuationBits(ord);
    Joined3(ord);
    Bytes3(Low(Rest(Rest(ord)) | 0xE0), Continuation(Rest(ord)), Continuation(ord));
  }

  lemma {:induction false} Decoded4(ord: bv32)
    requires 0x10000 <= ord <= 0x1FFFFF
    ensures Decodes(ord) <==> Scalar(ord)
  {
    ContinuationBits(Rest(Rest(ord)));
    ContinuationBits(Rest(ord));
    ContinuationBits(ord);
    Joined4(ord);
    Bytes4(Low(Rest(Rest(Rest(ord))) | 0xF0), Continuation(Rest(Rest(ord))), Continuation(Rest(ord)), Continuation(ord));
  }

  lemma {:induction false} TooLarge(ord: bv32)
    requires ord > 0x1FFFFF
    ensures !Decodes(ord)
  {
  }

  lemma {:induction false} Decoded1(ord: bv32)
    requires ord < 0x80
    ensures Decodes(ord) <==> ord != 0
  {
  }

  /** A code is what its bytes decode to exactly when it is a scalar value other than zero. */
  lemma {:induction false} DecodedIff(ord: bv32)
    ensures Decodes(ord) <==> ord != 0 && Scalar(ord)
  {
    if ord < 0x80 {
      Decoded1(ord);
    } else if ord < 0x800 {
      Decoded2(ord);
    } else if ord <= 0xFFFF {
      Decoded3(ord);
    } else if ord <= 0x1FFFFF {
      Decoded4(ord);
    } else {
      TooLarge(ord);
    }
  }

  /** The replacement for a code that is too large decodes to no replacement character. */
  lemma {:induction false} ReplacementWrong(ord: bv32)
    requires 0x200000 < ord && !Negative(ord)
    ensures Ord(Chr(ord)) != Some(0xFFFD)
  {
  }

  /** Exactly the codes above 0x200000 are replaced, always by the same two bytes. */
  lemma {:induction false} ReplacedIff(ord: bv32)
    ensures Chr(ord) == [0xFF, 0xBD] <==> 0x200000 < ord && !Negative(ord)
  {
    if ChrLength(ord) == 2 {
      assert |Chr(ord)| == 2 && Chr(ord)[0] == Low(Rest(Accepted(ord)) | 0xC0);
      FirstByte(Accepted(ord));
    }
  }

  lemma {:induction false} FirstByte(x: bv32)
    ensures x < 0x800 ==> Low(Rest(x) | 0xC0) != 0xFF
    ensures x == 0xFFFD ==> Low(Rest(x) | 0xC0) == 0xFF && Continuation(x) == 0xBD
  {
  }

  // ---------- The table of section 3 of RFC 3629 ----------

  predicate Between(lo: Byte, b: Byte, hi: Byte) { lo <= b && b < hi }

  /** A continuation byte, and the digit that it carries. */
  predicate Carries(b: Byte, digit: bv32) { Between(0x80, b, 0xC0) && (b - 0x80) as bv32 == digit }

  /** The rows of the table: the digits of the code in base 64, the highest first, on top of the marks of the bytes. */
  predicate Row2(c0: Byte, c1: Byte, ord: bv32) {
    && 0x80 <= ord && Between(0xC0, c0, 0xE0) && (c0 - 0xC0) as bv32 == ord / 64 && Carries(c1, ord % 64)
  }

  predicate Row3(c0: Byte, c1: Byte, c2: Byte, ord: bv32) {
    && 0x800 <= ord && Between(0xE0, c0, 0xF0) && (c0 - 0xE0) as bv32 == ord / 4096
    && Carries(c1, ord / 64 % 64) && Carries(c2, ord % 64)
  }

  predicate Row4(c0: Byte, c1: Byte, c2: Byte, c3: Byte, ord: bv32) {
    && 0x10000 <= ord && Between(0xF0, c0, 0xF8) && (c0 - 0xF0) as bv32 == ord / 262144
    && Carries(c1, ord / 4096 % 64) && Carries(c2, ord / 64 % 64) && Carries(c3, ord % 64)
  }

  predicate Encodes(s: seq<Byte>, ord: bv32) {
    || (|s| == 1 && s[0] < 0x80 && ord == s[0] as bv32)
    || (|s| == 2 && Row2(s[0], s[1], ord))
    || (|s| == 3 && Row3(s[0], s[1], s[2], ord))
    || (|s| == 4 && Row4(s[0], s[1], s[2], s[3], ord))
  }

  lemma {:induction false} CarriesIff(b: Byte, x: bv32)
    ensures b == Continuation(x) <==> Carries(b, x % 64)
  {
  }

  lemma {:induction false} RestIs(x: bv32)
    ensures Rest(x) == x / 64 && Rest(Rest(x)) == x / 4096 && Rest(Rest(Rest(x))) == x / 262144
  {
  }

  lemma {:induction false} LeadIff(c0: Byte, x: bv32)
    ensures x < 0x20 ==> (c0 == Low(x | 0xC0) <==> Between(0xC0, c0, 0xE0) && (c0 - 0xC0) as bv32 == x)
    ensures x < 0x10 ==> (c0 == Low(x | 0xE0) <==> Between(0xE0, c0, 0xF0) && (c0 - 0xE0) as bv32 == x)
    ensures x < 0x8 ==> (c0 == Low(x | 0xF0) <==> Between(0xF0, c0, 0xF8) && (c0 - 0xF0) as bv32 == x)
  {
  }

  lemma {:induction false} Bounds(c: Byte, x: bv32)
    ensures x / 64 < 0x20 <==> x < 0x800
    ensures x / 4096 < 0x10 <==> x <= 0xFFFF
    ensures x / 262144 < 0x8 <==> x <= 0x1FFFFF
    ensures Between(0xC0, c, 0xE0) ==> (c - 0xC0) as bv32 < 0x20
    ensures Between(0xE0, c, 0xF0) ==> (c - 0xE0) as bv32 < 0x10
    ensures Between(0xF0, c, 0xF8) ==> (c - 0xF0) as bv32 < 0x8
  {
  }

  lemma {:induction false} Row2Iff(c0: Byte, c1: Byte, x: bv32)
    ensures c0 == Low(Rest(x) | 0xC0) && c1 == Continuation(x) && 0x80 <= x < 0x800 <==> Row2(c0, c1, x)
  {
    Bounds(c0, x);
    RestIs(x);
    LeadIff(c0, Rest(x));
    CarriesIff(c1, x);
  }

  lemma {:induction false} Row3Iff(c0: Byte, c1: Byte, c2: Byte, x: bv32)
    ensures c0 == Low(Rest(Rest(x)) | 0xE0) && c1 == Continuation(Rest(x)) && c2 == Continuation(x) && 0x800 <= x <= 0xFFFF
            <==> Row3(c0, c1, c2, x)
  {
    Bounds(c0, x);
    RestIs(x);
    LeadIff(c0, Rest(Rest(x)));
    CarriesIff(c1, Rest(x));
    CarriesIff(c2, x);
  }

  lemma {:induction false} Row4Iff(c0: Byte, c1: Byte, c2: Byte, c3: Byte, x: bv32)
    ensures c0 == Low(Rest(Rest(Rest(x))) | 0xF0) && c1 == Continuation(Rest(Rest(x)))
            && c2 == Continuation(Rest(x)) && c3 == Continuation(x) && 0x10000 <= x <= 0x1FFFFF
            <==> Row4(c0, c1, c2, c3, x)
  {
    Bounds(c0, x);
    RestIs(x);
    LeadIff(c0, Rest(Rest(Rest(x))));
    CarriesIff(c1, Rest(Rest(x)));
    CarriesIff(c2, Rest(x));
    CarriesIff(c3, x);
  }

  /** The table has one sequence for each code up to 0x1FFFFF, the one that is written for it, and none for any other. */
  lemma {:induction false} EncodesIff(s: seq<Byte>, ord: bv32)
    ensures Encodes(s, ord) <==> s == Chr(ord) && ord <= 0x1FFFFF
  {
    if |s| == 1 {
      assert s == [s[0]];
    } else if |s| == 2 {
      assert s == [s[0], s[1]];
      Row2Iff(s[0], s[1], ord);
    } else if |s| == 3 {
      assert s == [s[0], s[1], s[2]];
      Row3Iff(s[0], s[1], s[2], ord);
    } else if |s| == 4 {
      assert s == [s[0], s[1], s[2], s[3]];
      Row4Iff(s[0], s[1], s[2], s[3], ord);
    }
  }

  // ---------- Bytes that are accepted ----------

  /** A sequence as it may be written: a first byte in its range, and continuation bytes after it. */
  predicate Strict(s: seq<Byte>) {
    && s != [] && (|s| == 1 ==> s[0] < 0x80) && (|s| == 4 ==> s[0] < 0xF8)
    && forall i :: 1 <= i < |s| ==> s[i] & 0xC0 == 0x80
  }

  lemma {:induction false} Rebuilt2(c0: Byte, c1: Byte)
    requires 0xC0 <= c0 < 0xE0
    ensures var x := Join2(c0, c1);
            x < 0x800 && Low(Rest(x) | 0xC0) == c0 && (Continuation(x) == c1 <==> c1 & 0xC0 == 0x80)
  {
  }

  lemma {:induction false} Rebuilt3(c0: Byte, c1: Byte, c2: Byte)
    requires 0xE0 <= c0 < 0xF0
    ensures var x := Join3(c0, c1, c2);
            && x <= 0xFFFF && Low(Rest(Rest(x)) | 0xE0) == c0
            && (Continuation(Rest(x)) == c1 <==> c1 & 0xC0 == 0x80) && (Continuation(x) == c2 <==> c2 & 0xC0 == 0x80)
  {
  }

  lemma {:induction false} Rebuilt4(c0: Byte, c1: Byte, c2: Byte, c3: Byte)
    requires 0xF0 <= c0
    ensures var x := Join4(c0, c1, c2, c3);
            && x <= 0x1FFFFF && (Low(Rest(Rest(Rest(x))) | 0xF0) == c0 <==> c0 < 0xF8)
            && (Continuation(Rest(Rest(x))) == c1 <==> c1 & 0xC0 == 0x80)
            && (Continuation(Rest(x)) == c2 <==> c2 & 0xC0 == 0x80) && (Continuation(x) == c3 <==> c3 & 0xC0 == 0x80)
  {
  }

  /** What is accepted in more than one byte takes as many bytes as its code needs, and ends in a continuation byte when
      there are more than two. */
  lemma {:induction false} AcceptedShape(s: seq<Byte>)
    requires Ord(s).Some? && |s| > 1
    ensures ChrLength(Ord(s).value) == |s| && (|s| > 2 ==> s[|s| - 1] & 0xC0 == 0x80)
  {
    if |s| == 2 {
      Rebuilt2(s[0], s[1]);
    } else if |s| == 3 {
      Rebuilt3(s[0], s[1], s[2]);
    } else {
      Rebuilt4(s[0], s[1], s[2], s[3]);
    }
  }

  lemma {:induction false} Rewritten2(c0: Byte, c1: Byte)
    requires Ord([c0, c1]).Some?
    ensures Chr(Ord([c0, c1]).value) == [c0, c1] <==> Strict([c0, c1])
  {
    var s := [c0, c1];
    AcceptedShape(s);
    Rebuilt2(c0, c1);
    assert s[1] == c1;
  }

  lemma {:induction false} Rewritten3(c0: Byte, c1: Byte, c2: Byte)
    requires Ord([c0, c1, c2]).Some?
    ensures Chr(Ord([c0, c1, c2]).value) == [c0, c1, c2] <==> Strict([c0, c1, c2])
  {
    var s := [c0, c1, c2];
    AcceptedShape(s);
    Rebuilt3(c0, c1, c2);
    assert s[1] == c1 && s[2] == c2;
  }

  lemma {:induction false} Rewritten4(c0: Byte, c1: Byte, c2: Byte, c3: Byte)
    requires Ord([c0, c1, c2, c3]).Some?
    ensures Chr(Ord([c0, c1, c2, c3]).value) == [c0, c1, c2, c3] <==> Strict([c0, c1, c2, c3])
  {
    var s := [c0, c1, c2, c3];
    AcceptedShape(s);
    Rebuilt4(c0, c1, c2, c3);
    assert s[1] == c1 && s[2] == c2 && s[3] == c3;
  }

  /** Of what is accepted, exactly the strict sequences are the ones that their code is written as. */
  lemma {:induction false} RewrittenIff(s: seq<Byte>)
    requires Ord(s).Some?
    ensures Chr(Ord(s).value) == s <==> Strict(s)
  {
    if |s| == 1 {
      assert s == [s[0]];
      OneByte(s[0]);
    } else if |s| == 2 {
      assert s == [s[0], s[1]];
      Rewritten2(s[0], s[1]);
    } else if |s| == 3 {
      assert s == [s[0], s[1], s[2]];
      Rewritten3(s[0], s[1], s[2]);
    } else {
      assert s == [s[0], s[1], s[2], s[3]];
      Rewritten4(s[0], s[1], s[2], s[3]);
    }
  }

  lemma {:induction false} OneByte(c0: Byte)
    ensures c0 < 0x80 ==> Chr(c0 as bv32) == [c0]
    ensures c0 >= 0x80 ==> |Chr(c0 as bv32)| != 1
  {
  }

  /** Sequences that are not strict are accepted: here the second byte is a letter. */
  lemma {:induction false} LetterAccepted()
    ensures Ord([0xC3, 0x41]) == Some(0xC1) && !Strict([0xC3, 0x41])
  {
    var s: seq<Byte> := [0xC3, 0x41];
    assert s[1] & 0xC0 == 0x40;
  }

  // ---------- Writing a character into a buffer ----------

  /** One fallthrough case: six bits of the code go into the buffer, and the index moves down. */
  method PutContinuation(utf8char: array<Byte>, at: nat, code: bv32) returns (i: int, ord: bv32)
    requires at < utf8char.Length
    modifies utf8char
    ensures i == at - 1 && ord == Rest(code)
    ensures utf8char[..] == old(utf8char[..])[at := Continuation(code)]
  {
    utf8char[at] := Continuation(code);
    i, ord := at - 1, code >> 6;
  }

  /** Fills the buffer from the terminator backwards. */
  method Fill(utf8len: nat, code: bv32, utf8char: array<Byte>)
    requires 1 <= utf8len <= 4 && utf8char.Length >= 5
    modifies utf8char
    ensures utf8char[..] == Bytes(utf8len, code) + [0] + old(utf8char[utf8len + 1..])
  {
    var ord := code;
    var i := utf8len;
    utf8char[i], i := 0, i - 1;
    if utf8len >= 4 {
      i, ord := PutContinuation(utf8char, i, ord);
    }
    if utf8len >= 3 {
      i, ord := PutContinuation(utf8char, i, ord);
    }
    if utf8len >= 2 {
      i, ord := PutContinuation(utf8char, i, ord);
    }
    utf8char[i] :=
      if utf8len == 1 then Low(ord)
      else if utf8len == 2 then Low(ord | 0xC0)
      else if utf8len == 3 then Low(ord | 0xE0)
      else Low(ord | 0xF0);
  }

  /** The length is decided first; a code that is too large is replaced on the way. */
  method Utf8Chr(code: bv32, utf8char: array<Byte>) returns (utf8len: nat)
    requires utf8char.Length >= 5
    modifies utf8char
    ensures 1 <= utf8len <= 4
    ensures utf8char[..] == Chr(code) + [0] + old(utf8char[utf8len + 1..])
  {
    var ord := code;
    if Negative(ord) || ord < 0x80 {
      utf8len := 1;
    } else if ord < 0x800 {
      utf8len := 2;
    } else if ord <= 0xFFFF {
      utf8len := 3;
    } else if ord <= 0x200000 {
      utf8len := 4;
    } else {
      utf8len := 2;
      ord := 0xFFFD;
    }
    Fill(utf8len, ord, utf8char);
  }

  // ---------- A text and its characters ----------

  /** No character of the text is cut short by its end or by a terminator. */
  predicate Complete(s: seq<Byte>) {
    s == [] || s[0] == 0 ||
    (SequenceLength(s[0]) <= |s| && 0 !in s[..SequenceLength(s[0])] && Complete(s[SequenceLength(s[0])..]))
  }

  function Explode(s: seq<Byte>): seq<seq<Byte>>
    requires Complete(s)
  {
    if s == [] || s[0] == 0 then []
    else
      var n := SequenceLength(s[0]);
      [s[..n]] + Explode(s[n..])
  }

  /** The pointer loop: it takes the promised length at every step and reverses the list at the end. */
  method Utf8Explode(name: seq<Byte>) returns (chars: seq<seq<Byte>>)
    requires Complete(name)
    ensures chars == Explode(name)
  {
    chars := [];
    var str := name;
    while str != [] && str[0] != 0
      invariant Complete(str)
      invariant Explode(name) == Reverse(chars) + Explode(str)
      decreases |str|
    {
      var charlength := SequenceLength(str[0]);
      ReverseAppend([str[..charlength]], chars);
      ReverseOne(str[..charlength]);
      chars := [str[..charlength]] + chars;
      str := str[charlength..];
    }
    chars := Reverse(chars);
  }

  function Write(codes: seq<bv32>): seq<Byte> {
    if codes == [] then [] else Chr(codes[0]) + Write(codes[1..])
  }

  predicate Encodable(codes: seq<bv32>) {
    forall i :: 0 <= i < |codes| ==> codes[i] != 0 && Scalar(codes[i])
  }

  /** Taking the text apart and decoding each piece gives the codes back. */
  predicate ReadsBack(s: seq<Byte>, codes: seq<bv32>) {
    Complete(s) && |Explode(s)| == |codes| &&
    forall i :: 0 <= i < |codes| ==> Ord(Explode(s)[i]) == Some(codes[i])
  }

  lemma {:induction false} FirstOff(c: seq<Byte>, rest: seq<Byte>)
    requires Framed(c) && Complete(rest)
    ensures Complete(c + rest) && Explode(c + rest) == [c] + Explode(rest)
  {
  }

  lemma {:induction false} WrittenReadsBack(codes: seq<bv32>)
    requires Encodable(codes)
    ensures ReadsBack(Write(codes), codes)
  {
    if codes == [] {
    } else {
      WrittenReadsBack(codes[1..]);
      DecodedIff(codes[0]);
      FirstOff(Chr(codes[0]), Write(codes[1..]));
    }
  }

  lemma {:induction false} PieceStarts(s: seq<Byte>, i: nat)
    requires Complete(s) && i < |Explode(s)|
    ensures Explode(s)[i] != [] && Explode(s)[i][0] != 0
  {
    if i == 0 {
    } else {
      PieceStarts(s[SequenceLength(s[0])..], i - 1);
    }
  }

  lemma {:induction false} OrdIsScalar(s: seq<Byte>)
    requires s != [] && s[0] != 0 && Ord(s).Some?
    ensures Ord(s).value != 0 && Scalar(Ord(s).value)
  {
  }

  /** The round trip of section 3 of RFC 3629 holds for exactly the sequences of non-zero scalar values. */
  lemma {:induction false} ReadsBackIff(codes: seq<bv32>)
    ensures ReadsBack(Write(codes), codes) <==> Encodable(codes)
  {
    if Encodable(codes) {
      WrittenReadsBack(codes);
    } else if ReadsBack(Write(codes), codes) {
      forall i | 0 <= i < |codes| ensures codes[i] != 0 && Scalar(codes[i]) {
        PieceStarts(Write(codes), i);
        OrdIsScalar(Explode(Write(codes))[i]);
      }
    }
  }
}
