/** How the client tells where one expression ends and waits for the server before sending the next. */
module ClientFraming {

  /** What the framing automaton is in the middle of: nothing yet, a completed expression, an escaped
      character, a comment, a quoted string, an expression, an escaped character of a string. */
  datatype State = Start | Complete | Escape | Comment | Quoted | Inside | QuotedEscape

  datatype Framing = Framing(state: State, bdepth: int)

  predicate IsSpace(c: char) { c == ' ' || c == '\t' || c == '\n' || c == '\r' }

  /** How a character that may start part of an expression moves the automaton. */
  function Opened(c: char, f: Framing): Framing {
    if c == '\\' then f.(state := Escape)
    else if c == ';' then f.(state := Comment)
    else if c == '"' then f.(state := Quoted)
    else if c == '(' then Framing(Inside, f.bdepth + 1)
    else f.(state := Inside)
  }

  /** One character's effect. */
  function Next(c: char, f: Framing): Framing {
    match f.state
    case Start => if IsSpace(c) then f else Opened(c, f)
    case Escape => f.(state := Inside)
    case Comment => if c == '\n' then f.(state := Inside) else f
    case Quoted => if c == '\\' then f.(state := QuotedEscape) else if c == '"' then f.(state := Inside) else f
    case QuotedEscape => f.(state := Quoted)
    case Inside =>
      if IsSpace(c) then (if f.bdepth == 0 then f.(state := Complete) else f)
      else if c == ')' then f.(bdepth := f.bdepth - 1)
      else Opened(c, f)
    case Complete => f.(state := Inside)
  }

  /** The automaton of the client, whose state is put back to the start after each completion. */
  function Reset(f: Framing): Framing { if f.state == Complete then f.(state := Start) else f }

  /** The state in which text leaves the client. */
  function After(text: string, f: Framing): Framing {
    if text == [] then f else After(text[1..], Reset(Next(text[0], f)))
  }

  /** Where in the text, counted from `at`, the client takes an expression to be complete. */
  function Completions(text: string, f: Framing, at: nat): seq<nat> {
    if text == [] then []
    else
      var g := Next(text[0], f);
      (if g.state == Complete then [at] else []) + Completions(text[1..], Reset(g), at + 1)
  }

  lemma {:induction false} AfterAppend(s: string, t: string, f: Framing)
    ensures After(s + t, f) == After(t, After(s, f))
  {
    if s == [] {
      assert s + t == t;
    } else {
      assert (s + t)[1..] == s[1..] + t && (s + t)[0] == s[0];
      AfterAppend(s[1..], t, Reset(Next(s[0], f)));
    }
  }

  lemma {:induction false} CompletionsAppend(s: string, t: string, f: Framing, at: nat)
    ensures Completions(s + t, f, at) == Completions(s, f, at) + Completions(t, After(s, f), at + |s|)
  {
    if s == [] {
      assert s + t == t;
    } else {
      var g := Next(s[0], f);
      assert (s + t)[1..] == s[1..] + t && (s + t)[0] == s[0];
      CompletionsAppend(s[1..], t, Reset(g), at + 1);
      var here := if g.state == Complete then [at] else [];
      assert here + (Completions(s[1..], Reset(g), at + 1) + Completions(t, After(s, f), at + |s|))
          == Completions(s, f, at) + Completions(t, After(s, f), at + |s|);
    }
  }

  /** Reading `text` takes the automaton from `f` to `g` with no completion on the way. */
  predicate Passes(text: string, f: Framing, g: Framing) {
    After(text, f) == g && Completions(text, f, 0) == []
  }

  lemma {:induction false} NoCompletionsShift(text: string, f: Framing, at: nat, at': nat)
    ensures Completions(text, f, at) == [] <==> Completions(text, f, at') == []
  {
    if text == [] {
    } else {
      NoCompletionsShift(text[1..], Reset(Next(text[0], f)), at + 1, at' + 1);
    }
  }

  lemma {:induction false} PassesAppend(s: string, t: string, f: Framing, g: Framing, h: Framing)
    requires Passes(s, f, g) && Passes(t, g, h)
    ensures Passes(s + t, f, h)
  {
    AfterAppend(s, t, f);
    CompletionsAppend(s, t, f, 0);
    NoCompletionsShift(t, g, 0, |s|);
  }

  lemma {:induction false} PassesOne(c: char, f: Framing)
    requires Next(c, f).state != Complete
    ensures Passes([c], f, Next(c, f))
  {
  }

  // ---------- Expressions ----------

  /** An atom's characters, plain or escaped; strings; comments within lists; lists. */
  datatype Letter = Plain(c: char) | Escaped(c: char)

  datatype Expr =
    | Atom(letters: seq<Letter>)
    | Str(text: string)
    | List(elements: seq<Element>, last: string)
    | Remark(text: string)

  /** An element of a list and the whitespace before it; the whitespace before the closing bracket is `last`. Either may
      be empty. */
  datatype Element = Element(gap: string, expr: Expr)

  /** Characters that open or close something. */
  predicate IsSpecial(c: char) { c == '\\' || c == ';' || c == '"' || c == '(' || c == ')' }

  predicate Ordinary(c: char) { !IsSpace(c) && !IsSpecial(c) }

  predicate AllSpace(s: string) { forall i :: 0 <= i < |s| ==> IsSpace(s[i]) }

  /** Expressions that print as one thing: atoms have letters, gaps are whitespace, remarks stay within their line. */
  predicate WellFormed(e: Expr) {
    match e
    case Atom(letters) => letters != [] && forall i :: 0 <= i < |letters| ==> letters[i].Plain? ==> Ordinary(letters[i].c)
    case Str(_) => true
    case List(elements, last) =>
      AllSpace(last) && forall i :: 0 <= i < |elements| ==> AllSpace(elements[i].gap) && WellFormed(elements[i].expr)
    case Remark(text) => '\n' !in text
  }

  function EscapeText(text: string): string {
    if text == [] then []
    else (if text[0] == '"' || text[0] == '\\' then ['\\', text[0]] else [text[0]]) + EscapeText(text[1..])
  }

  function PrintLetters(letters: seq<Letter>): string {
    if letters == [] then []
    else (if letters[0].Plain? then [letters[0].c] else ['\\', letters[0].c]) + PrintLetters(letters[1..])
  }

  function Print(e: Expr): string
    decreases e, 0
  {
    match e
    case Atom(letters) => PrintLetters(letters)
    case Str(text) => "\"" + EscapeText(text) + "\""
    case List(elements, last) => "(" + PrintAll(elements) + last + ")"
    case Remark(text) => ";" + text + "\n"
  }

  function PrintAll(elements: seq<Element>): string
    decreases elements, 1
  {
    if elements == [] then [] else elements[0].gap + Print(elements[0].expr) + PrintAll(elements[1..])
  }

  /** The elements of a list as usually printed: a blank between every two of them, and no other whitespace. */
  function Spaced(es: seq<Expr>): seq<Element> {
    seq(|es|, i requires 0 <= i < |es| => Element(if i == 0 then "" else " ", es[i]))
  }

  function Joined(es: seq<Expr>): string {
    if es == [] then [] else if |es| == 1 then Print(es[0]) else Joined(es[..|es| - 1]) + " " + Print(es[|es| - 1])
  }

  lemma {:induction false} PrintAllAppend(s: seq<Element>, t: seq<Element>)
    ensures PrintAll(s + t) == PrintAll(s) + PrintAll(t)
  {
    if s == [] {
      assert s + t == t;
    } else {
      PrintAllAppend(s[1..], t);
      assert (s + t)[1..] == s[1..] + t && (s + t)[0] == s[0];
    }
  }

  lemma {:induction false} PrintOne(x: Element)
    ensures PrintAll([x]) == x.gap + Print(x.expr)
  {
    assert PrintAll([x]) == x.gap + Print(x.expr) + PrintAll([x][1..]);
  }

  /** A list printed in the usual way is one of those covered. */
  lemma {:induction false} UsualList(es: seq<Expr>)
    ensures Print(List(Spaced(es), "")) == "(" + Joined(es) + ")"
    ensures (forall i :: 0 <= i < |es| ==> WellFormed(es[i])) ==> WellFormed(List(Spaced(es), ""))
  {
    JoinedPrinted(es);
    assert PrintAll(Spaced(es)) + "" == PrintAll(Spaced(es));
  }

  lemma {:induction false} JoinedPrinted(es: seq<Expr>)
    ensures PrintAll(Spaced(es)) == Joined(es)
  {
    if es == [] {
    } else {
      var init, x := es[..|es| - 1], Spaced(es)[|es| - 1];
      JoinedPrinted(init);
      PrintAllAppend(Spaced(init), [x]);
      PrintOne(x);
      assert Spaced(es) == Spaced(init) + [x];
    }
  }

  /** From the start, or from inside an expression. */
  predicate Ready(f: Framing) { f.state == Start || f.state == Inside }

  lemma {:induction false} LettersPass(letters: seq<Letter>, f: Framing)
    requires Ready(f) && letters != []
    requires forall i :: 0 <= i < |letters| ==> letters[i].Plain? ==> Ordinary(letters[i].c)
    ensures Passes(PrintLetters(letters), f, f.(state := Inside))
  {
    var g := f.(state := Inside);
    var c := letters[0].c;
    var first := if letters[0].Plain? then [c] else ['\\', c];
    if letters[0].Plain? {
      PassesOne(c, f);
    } else {
      PassesOne('\\', f);
      PassesOne(c, f.(state := Escape));
      PassesAppend(['\\'], [c], f, f.(state := Escape), g);
      assert ['\\'] + [c] == first;
    }
    if |letters| == 1 {
      assert PrintLetters(letters[1..]) == [] && first + [] == first;
    } else {
      LettersPass(letters[1..], g);
      PassesAppend(first, PrintLetters(letters[1..]), f, g, g);
    }
  }

  /** Escaped text never closes the string it is in. */
  lemma {:induction false} EscapedPasses(text: string, f: Framing)
    requires f.state == Quoted
    ensures Passes(EscapeText(text), f, f)
  {
    if text == [] {
    } else {
      var c := text[0];
      EscapedPasses(text[1..], f);
      if c == '"' || c == '\\' {
        PassesOne('\\', f);
        PassesOne(c, f.(state := QuotedEscape));
        PassesAppend(['\\'], [c], f, f.(state := QuotedEscape), f);
        assert ['\\'] + [c] == ['\\', c];
        PassesAppend(['\\', c], EscapeText(text[1..]), f, f, f);
      } else {
        PassesOne(c, f);
        PassesAppend([c], EscapeText(text[1..]), f, f, f);
      }
    }
  }

  lemma {:induction false} RemarkPasses(text: string, f: Framing)
    requires f.state == Comment && '\n' !in text
    ensures Passes(text, f, f)
  {
    if text == [] {
    } else {
      PassesOne(text[0], f);
      RemarkPasses(text[1..], f);
      PassesAppend([text[0]], text[1..], f, f, f);
      assert [text[0]] + text[1..] == text;
    }
  }

  lemma {:induction false} QuotedPasses(body: string, f: Framing)
    requires Ready(f) && Passes(body, f.(state := Quoted), f.(state := Quoted))
    ensures Passes("\"" + body + "\"", f, f.(state := Inside))
  {
    var q, g := f.(state := Quoted), f.(state := Inside);
    PassesOne('"', f);
    PassesOne('"', q);
    PassesAppend("\"", body, f, q, q);
    PassesAppend("\"" + body, "\"", f, q, g);
  }

  /** A printed expression is passed without a completion, and leaves the depth as it was. */
  lemma {:induction false} PrintedPasses(e: Expr, f: Framing)
    requires WellFormed(e) && Ready(f) && f.bdepth >= 0
    ensures Passes(Print(e), f, f.(state := Inside))
    decreases e, 0
  {
    var g := f.(state := Inside);
    match e
    case Atom(letters) =>
      LettersPass(letters, f);
    case Str(text) =>
      EscapedPasses(text, f.(state := Quoted));
      QuotedPasses(EscapeText(text), f);
    case List(elements, last) =>
      var deep, inside := Framing(Inside, f.bdepth + 1), PrintAll(elements);
      PassesOne('(', f);
      PrintedAllPass(elements, deep);
      SpacesPass(last, deep);
      PassesOne(')', deep);
      PassesAppend("(", inside, f, deep, deep);
      PassesAppend("(" + inside, last, f, deep, deep);
      PassesAppend("(" + inside + last, ")", f, deep, g);
    case Remark(text) =>
      var c := f.(state := Comment);
      PassesOne(';', f);
      RemarkPasses(text, c);
      PassesOne('\n', c);
      PassesAppend(";", text, f, c, c);
      PassesAppend(";" + text, "\n", f, c, g);
  }

  lemma {:induction false} SpacesPass(gap: string, f: Framing)
    requires AllSpace(gap) && f.state == Inside && f.bdepth > 0
    ensures Passes(gap, f, f)
  {
    if gap == [] {
    } else {
      PassesOne(gap[0], f);
      SpacesPass(gap[1..], f);
      PassesAppend([gap[0]], gap[1..], f, f, f);
      assert [gap[0]] + gap[1..] == gap;
    }
  }

  lemma {:induction false} PrintedAllPass(elements: seq<Element>, f: Framing)
    requires forall i :: 0 <= i < |elements| ==> AllSpace(elements[i].gap) && WellFormed(elements[i].expr)
    requires f.state == Inside && f.bdepth > 0
    ensures Passes(PrintAll(elements), f, f)
    decreases elements, 1
  {
    if elements == [] {
    } else {
      var gap, p, rest := elements[0].gap, Print(elements[0].expr), PrintAll(elements[1..]);
      SpacesPass(gap, f);
      PrintedPasses(elements[0].expr, f);
      PassesAppend(gap, p, f, f, f);
      PrintedAllPass(elements[1..], f);
      PassesAppend(gap + p, rest, f, f, f);
    }
  }

  /** What is passed at the top level is complete exactly at the whitespace after it. */
  lemma {:induction false} LineCompletes(text: string, space: char, f: Framing, at: nat)
    requires Passes(text, f, Framing(Inside, 0)) && IsSpace(space)
    ensures Completions(text + [space], f, at) == [at + |text|]
    ensures After(text + [space], f) == Framing(Start, 0)
  {
    CompletionsAppend(text, [space], f, at);
    NoCompletionsShift(text, f, 0, at);
    AfterAppend(text, [space], f);
    assert [space][1..] == [];
  }

  /** An expression is complete exactly at the whitespace after it, with the depth back to 0. */
  lemma {:induction false} ExpressionFramed(e: Expr, space: char, f: Framing, at: nat)
    requires WellFormed(e) && IsSpace(space) && Ready(f) && f.bdepth == 0
    ensures Completions(Print(e) + [space], f, at) == [at + |Print(e)|]
    ensures After(Print(e) + [space], f) == Framing(Start, 0)
  {
    PrintedPasses(e, f);
    LineCompletes(Print(e), space, f, at);
  }

  // ---------- Whole inputs ----------

  /** What an input is made of: an expression with a whitespace character after it, a comment line, or more whitespace. */
  datatype Piece = Form(e: Expr, space: char) | Note(text: string) | Blank(c: char)

  predicate WellFormedPiece(p: Piece) {
    match p
    case Form(e, space) => WellFormed(e) && !e.Remark? && IsSpace(space)
    case Note(text) => '\n' !in text
    case Blank(c) => IsSpace(c)
  }

  function PrintPiece(p: Piece): string {
    match p
    case Form(e, space) => Print(e) + [space]
    case Note(text) => ";" + text + "\n"
    case Blank(c) => [c]
  }

  function PrintInput(ps: seq<Piece>): string {
    if ps == [] then [] else PrintPiece(ps[0]) + PrintInput(ps[1..])
  }

  /** The ends of the expressions of an input, which are the completions that are wanted. */
  function FormEnds(ps: seq<Piece>, at: nat): seq<nat> {
    if ps == [] then []
    else
      (if ps[0].Form? then [at + |Print(ps[0].e)|] else []) + FormEnds(ps[1..], at + |PrintPiece(ps[0])|)
  }

  /** The automaton between two pieces: a comment leaves it inside an expression. */
  function Between(afterNote: bool): Framing { Framing(if afterNote then Inside else Start, 0) }

  /** The completions there are: a blank that directly follows a comment makes one, too. */
  function Signals(ps: seq<Piece>, afterNote: bool, at: nat): seq<nat> {
    if ps == [] then []
    else
      (match ps[0]
       case Form(e, _) => [at + |Print(e)|]
       case Note(_) => []
       case Blank(_) => if afterNote then [at] else [])
      + Signals(ps[1..], ps[0].Note?, at + |PrintPiece(ps[0])|)
  }

  lemma {:induction false} SignalsFirst(ps: seq<Piece>, afterNote: bool, at: nat)
    requires ps != []
    ensures Signals(ps, afterNote, at) ==
            Signals([ps[0]], afterNote, at) + Signals(ps[1..], ps[0].Note?, at + |PrintPiece(ps[0])|)
  {
    assert [ps[0]][1..] == [];
  }

  lemma {:induction false} PieceFramed(p: Piece, afterNote: bool, at: nat)
    requires WellFormedPiece(p)
    ensures Completions(PrintPiece(p), Between(afterNote), at) == Signals([p], afterNote, at)
    ensures After(PrintPiece(p), Between(afterNote)) == Between(p.Note?)
  {
    var f := Between(afterNote);
    assert [p][1..] == [];
    match p
    case Form(e, space) =>
      ExpressionFramed(e, space, f, at);
    case Note(text) =>
      PrintedPasses(Remark(text), f);
      NoCompletionsShift(PrintPiece(p), f, 0, at);
    case Blank(c) =>
      assert [c][1..] == [];
  }

  /** The completions of a whole input, and the state it leaves. */
  lemma {:induction false} InputFramed(ps: seq<Piece>, afterNote: bool, at: nat)
    requires forall i :: 0 <= i < |ps| ==> WellFormedPiece(ps[i])
    ensures Completions(PrintInput(ps), Between(afterNote), at) == Signals(ps, afterNote, at)
    ensures After(PrintInput(ps), Between(afterNote)) == Between(if ps == [] then afterNote else ps[|ps| - 1].Note?)
  {
    if ps == [] {
    } else {
      var first, rest := PrintPiece(ps[0]), PrintInput(ps[1..]);
      PieceFramed(ps[0], afterNote, at);
      InputFramed(ps[1..], ps[0].Note?, at + |first|);
      CompletionsAppend(first, rest, Between(afterNote), at);
      AfterAppend(first, rest, Between(afterNote));
      SignalsFirst(ps, afterNote, at);
    }
  }

  /** No comment is followed directly by whitespace. */
  predicate NotesEnd(ps: seq<Piece>, afterNote: bool) {
    ps == [] || (!(afterNote && ps[0].Blank?) && NotesEnd(ps[1..], ps[0].Note?))
  }

  lemma {:induction false} NotesEndIff(ps: seq<Piece>, afterNote: bool)
    ensures NotesEnd(ps, afterNote) <==>
            !(afterNote && ps != [] && ps[0].Blank?) &&
            forall i :: 0 < i < |ps| && ps[i - 1].Note? ==> !ps[i].Blank?
  {
    if ps == [] {
    } else {
      var rest := ps[1..];
      NotesEndIff(rest, ps[0].Note?);
      assert rest != [] ==> rest[0] == ps[1];
      assert forall i :: 0 <= i < |rest| ==> rest[i] == ps[i + 1];
      if NotesEnd(ps, afterNote) {
        forall i | 0 < i < |ps| && ps[i - 1].Note? ensures !ps[i].Blank? {
          assert ps[i] == rest[i - 1];
        }
      }
      if forall i :: 0 < i < |ps| && ps[i - 1].Note? ==> !ps[i].Blank? {
        forall i | 0 < i < |rest| && rest[i - 1].Note? ensures !rest[i].Blank? {
          assert rest[i] == ps[i + 1] && rest[i - 1] == ps[i];
        }
      }
    }
  }

  lemma {:induction false} SameFirst(first: seq<nat>, s: seq<nat>, t: seq<nat>)
    ensures first + s == first + t <==> s == t
  {
    assert (first + s)[|first|..] == s && (first + t)[|first|..] == t;
  }

  lemma {:induction false} SignalsIff(ps: seq<Piece>, afterNote: bool, at: nat)
    ensures |FormEnds(ps, at)| <= |Signals(ps, afterNote, at)|
    ensures Signals(ps, afterNote, at) == FormEnds(ps, at) <==> NotesEnd(ps, afterNote)
  {
    if ps == [] {
    } else {
      var next := at + |PrintPiece(ps[0])|;
      SignalsIff(ps[1..], ps[0].Note?, next);
      SameFirst(if ps[0].Form? then [at + |Print(ps[0].e)|] else [], Signals(ps[1..], ps[0].Note?, next), FormEnds(ps[1..], next));
    }
  }

  /** Over a whole input, completion is signalled at the end of each expression and nowhere else exactly when no comment
      line is directly followed by whitespace. */
  lemma {:induction false} InputFramedIff(ps: seq<Piece>, at: nat)
    requires forall i :: 0 <= i < |ps| ==> WellFormedPiece(ps[i])
    ensures Completions(PrintInput(ps), Framing(Start, 0), at) == FormEnds(ps, at) <==>
            forall i :: 0 < i < |ps| && ps[i - 1].Note? ==> !ps[i].Blank?
  {
    InputFramed(ps, false, at);
    SignalsIff(ps, false, at);
    NotesEndIff(ps, false);
  }

  /** A comment line at the top level leaves the automaton inside an expression: it signals a completion of
      its own exactly when whitespace comes next. */
  lemma {:induction false} TopLevelComment(text: string, c: char)
    requires '\n' !in text
    ensures Completions(";" + text + "\n" + [c], Framing(Start, 0), 0) != [] <==> IsSpace(c)
  {
    var f, g := Framing(Start, 0), Framing(Inside, 0);
    var line := ";" + text + "\n";
    PrintedPasses(Remark(text), f);
    CompletionsAppend(line, [c], f, 0);
    assert [c][1..] == [];
  }

  // ---------- Escaping ----------

  /** Takes back the escaping of a string. */
  function Unescape(s: string): string {
    if s == [] then []
    else if s[0] == '\\' && |s| > 1 then [s[1]] + Unescape(s[2..])
    else [s[0]] + Unescape(s[1..])
  }

  lemma {:induction false} UnescapeEscape(text: string)
    ensures Unescape(EscapeText(text)) == text
  {
    if text == [] {
    } else {
      var rest, s := EscapeText(text[1..]), EscapeText(text);
      UnescapeEscape(text[1..]);
      if text[0] == '"' || text[0] == '\\' {
        assert s[2..] == rest;
      } else {
        assert s[1..] == rest;
      }
    }
  }
}
