/** The client at work: the automaton run in place, a text sent as a command, and the wait for each answer. */
module TextToWave {
  import opened ClientFraming

  function StateOf(n: int): State {
    match n
    case 0 => Start
    case 1 => Complete
    case 2 => Escape
    case 3 => Comment
    case 4 => Quoted
    case 6 => QuotedEscape
    case _ => Inside
  }

  class Framer {
    var state: int
    var bdepth: int

    ghost predicate Valid()
      reads this
    {
      0 <= state <= 6
    }

    ghost function Value(): Framing
      reads this
    {
      Framing(StateOf(state), bdepth)
    }

    constructor ()
      ensures Valid() && Value() == Framing(Start, 0)
    {
      state, bdepth := 0, 0;
    }

    method NewState(c: char)
      requires Valid()
      modifies this
      ensures Valid() && Value() == Next(c, old(Value()))
    {
      if state == 0 {
        if c == ' ' || c == '\t' || c == '\n' || c == '\r' {
          state := 0;
        } else if c == '\\' {
          state := 2;
        } else if c == ';' {
          state := 3;
        } else if c == '"' {
          state := 4;
        } else if c == '(' {
          bdepth := bdepth + 1;
          state := 5;
        } else {
          state := 5;
        }
      } else if state == 2 {
        state := 5;
      } else if state == 3 {
        if c == '\n' {
          state := 5;
        } else {
          state := 3;
        }
      } else if state == 4 {
        if c == '\\' {
          state := 6;
        } else if c == '"' {
          state := 5;
        } else {
          state := 4;
        }
      } else if state == 6 {
        state := 4;
      } else if state == 5 {
        if c == ' ' || c == '\t' || c == '\n' || c == '\r' {
          if bdepth == 0 {
            state := 1;
          } else {
            state := 5;
          }
        } else if c == '\\' {
          state := 2;
        } else if c == ';' {
          state := 3;
        } else if c == '"' {
          state := 4;
        } else if c == '(' {
          bdepth := bdepth + 1;
          state := 5;
        } else if c == ')' {
          bdepth := bdepth - 1;
          state := 5;
        } else {
          state := 5;
        }
      } else {
        state := 5;
      }
    }
  }

  // ---------- Waiting for the server ----------

  /** What the server sends: a waveform, an expression, an error, or that it is done. */
  datatype Ack = WV | LP | ER | OK | Unknown

  predicate Ends(a: Ack) { a == OK || a == ER }

  /** The answers left when those to one command have been read. */
  function AfterAnswer(acks: seq<Ack>): seq<Ack> {
    if acks == [] then [] else if Ends(acks[0]) then acks[1..] else AfterAnswer(acks[1..])
  }

  function AfterAnswers(acks: seq<Ack>, n: nat): seq<Ack>
    decreases n
  {
    if n == 0 then acks else AfterAnswers(AfterAnswer(acks), n - 1)
  }

  /** The server has answered at least `n` commands. */
  predicate Answered(acks: seq<Ack>, n: nat)
    decreases n
  {
    n == 0 || (HasEnd(acks) && Answered(AfterAnswer(acks), n - 1))
  }

  predicate HasEnd(acks: seq<Ack>) { exists i :: 0 <= i < |acks| && Ends(acks[i]) }

  /** What is left comes after the first answer that says the command is done or failed. */
  lemma {:induction false} AfterFirstEnd(acks: seq<Ack>) returns (k: nat)
    requires HasEnd(acks)
    ensures k < |acks| && acks[k] in {OK, ER} && AfterAnswer(acks) == acks[k + 1..]
    ensures forall j :: 0 <= j < k ==> acks[j] in {WV, LP, Unknown}
  {
    if Ends(acks[0]) {
      k := 0;
    } else {
      assert HasEnd(acks[1..]) by {
        var i :| 0 <= i < |acks| && Ends(acks[i]);
        assert acks[1..][i - 1] == acks[i];
      }
      k := AfterFirstEnd(acks[1..]);
      k := k + 1;
    }
  }

  method AwaitAnswer(acks: seq<Ack>) returns (rest: seq<Ack>)
    requires HasEnd(acks)
    ensures rest == AfterAnswer(acks)
    ensures exists k :: 0 <= k < |acks| && acks[k] in {OK, ER} && rest == acks[k + 1..] &&
                        forall j :: 0 <= j < k ==> acks[j] in {WV, LP, Unknown}
  {
    ghost var k := AfterFirstEnd(acks);
    rest := acks;
    var ack: Ack;
    while true
      invariant HasEnd(rest)
      invariant AfterAnswer(rest) == AfterAnswer(acks)
      decreases |rest|
    {
      ack := rest[0];
      rest := rest[1..];
      if ack == ER || ack == OK {
        break;
      }
    }
  }

  lemma {:induction false} CompletionsStep(text: string, i: nat, f: Framing)
    requires i < |text|
    ensures var g := Next(text[i], f);
            |Completions(text[i..], f, i)|
            == (if g.state == Complete then 1 else 0) + |Completions(text[i + 1..], Reset(g), i + 1)|
  {
    assert text[i..][1..] == text[i + 1..];
  }

  /** Sends the text; at each completed expression, waits until the server has answered it. */
  method CopyToServer(text: string, acks: seq<Ack>) returns (sent: string, rest: seq<Ack>)
    requires Answered(acks, |Completions(text, Framing(Start, 0), 0)|)
    ensures sent == text
    ensures rest == AfterAnswers(acks, |Completions(text, Framing(Start, 0), 0)|)
  {
    var framer := new Framer();
    sent, rest := [], acks;
    for i := 0 to |text|
      invariant sent == text[..i] && fresh(framer) && framer.Valid()
      invariant Answered(rest, |Completions(text[i..], framer.Value(), i)|)
      invariant AfterAnswers(rest, |Completions(text[i..], framer.Value(), i)|)
                == AfterAnswers(acks, |Completions(text, Framing(Start, 0), 0)|)
    {
      var c := text[i];
      CompletionsStep(text, i, framer.Value());
      sent := sent + [c];
      framer.NewState(c);
      if framer.state == 1 {
        framer.state := 0;
        rest := AwaitAnswer(rest);
      }
    }
  }

  function Flatten(answers: seq<seq<Ack>>): seq<Ack> {
    if answers == [] then [] else answers[0] + Flatten(answers[1..])
  }

  /** Waveforms and expressions, then the end. */
  predicate IsAnswer(a: seq<Ack>) {
    a != [] && Ends(a[|a| - 1]) && forall i :: 0 <= i < |a| - 1 ==> !Ends(a[i])
  }

  /** Against a server that gives one answer to each command, the client reads every answer and no more. */
  lemma {:induction false} ReadsEveryAnswer(answers: seq<seq<Ack>>)
    requires forall i :: 0 <= i < |answers| ==> IsAnswer(answers[i])
    ensures Answered(Flatten(answers), |answers|) && AfterAnswers(Flatten(answers), |answers|) == []
  {
    if answers == [] {
    } else {
      var a, rest := answers[0], Flatten(answers[1..]);
      OneAnswer(a, rest);
      ReadsEveryAnswer(answers[1..]);
    }
  }

  lemma {:induction false} OneAnswer(a: seq<Ack>, rest: seq<Ack>)
    requires IsAnswer(a)
    ensures AfterAnswer(a + rest) == rest && HasEnd(a + rest)
  {
    assert Ends((a + rest)[|a| - 1]);
    if |a| == 1 {
      assert (a + rest)[1..] == rest;
    } else {
      assert (a + rest)[1..] == a[1..] + rest;
      OneAnswer(a[1..], rest);
    }
  }

  // ---------- A text as a command ----------

  const SET_TYPE := "Parameter.set 'Wavefiletype 'nist"
  const RETURN := "tts_return_to_client"

  function Speak(asyncMode: bool): string { if asyncMode then "tts_text" else "tts_textall" }

  /** The commands that have the server speak a text. */
  function Commands(asyncMode: bool, text: string, mode: string): string {
    (if asyncMode then "(" + SET_TYPE + ")\n" + "(" + RETURN + ")\n" else "(" + SET_TYPE + ")\n")
    + Spoken(Speak(asyncMode), EscapeText(text), mode)
  }

  function Spoken(name: string, escaped: string, mode: string): string {
    "(" + name + " \"\n" + escaped + "\" \"" + mode + "\")\n"
  }

  lemma {:induction false} EscapeAppend(s: string, c: char)
    ensures EscapeText(s + [c]) == EscapeText(s) + if c == '"' || c == '\\' then ['\\', c] else [c]
  {
    if s == [] {
    } else {
      EscapeAppend(s[1..], c);
      assert (s + [c])[1..] == s[1..] + [c];
    }
  }

  method TtwFile(asyncMode: bool, text: string, mode: string) returns (out: string)
    ensures out == Commands(asyncMode, text, mode)
  {
    out := "(" + SET_TYPE + ")\n";
    if asyncMode {
      out := out + "(" + RETURN + ")\n";
      out := out + "(tts_text \"\n";
    } else {
      out := out + "(tts_textall \"\n";
    }
    assert "(tts_text \"\n" == "(" + "tts_text" + " \"\n" && "(tts_textall \"\n" == "(" + "tts_textall" + " \"\n";
    out := CopyEscaped(out, text);
    out := out + "\" \"" + mode + "\")\n";
  }

  /** Copies the text, a backslash before each quote and backslash. */
  method CopyEscaped(before: string, text: string) returns (out: string)
    ensures out == before + EscapeText(text)
  {
    out := before;
    for i := 0 to |text|
      invariant out == before + EscapeText(text[..i])
    {
      var c := text[i];
      assert text[..i + 1] == text[..i] + [c];
      EscapeAppend(text[..i], c);
      if c == '"' || c == '\\' {
        out := out + ['\\'];
      }
      out := out + [c];
    }
    assert text[..|text|] == text;
  }

  /** Characters that neither open nor close anything. */
  predicate AllPlain(s: string) { forall i :: 0 <= i < |s| ==> !IsSpecial(s[i]) }

  lemma {:induction false} PlainPasses(s: string, f: Framing)
    requires AllPlain(s) && f.state == Inside && f.bdepth > 0
    ensures Passes(s, f, f)
  {
    if s == [] {
    } else {
      PassesOne(s[0], f);
      PlainPasses(s[1..], f);
      PassesAppend([s[0]], s[1..], f, f, f);
      assert [s[0]] + s[1..] == s;
    }
  }

  lemma {:induction false} ModePasses(mode: string, f: Framing)
    requires '"' !in mode && '\\' !in mode && f.state == Quoted
    ensures Passes(mode, f, f)
  {
    if mode == [] {
    } else {
      PassesOne(mode[0], f);
      ModePasses(mode[1..], f);
      PassesAppend([mode[0]], mode[1..], f, f, f);
      assert [mode[0]] + mode[1..] == mode;
    }
  }

  const TOP := Framing(Start, 0)
  const DEEP := Framing(Inside, 1)

  lemma {:induction false} BracketPasses(body: string)
    requires Passes(body, DEEP, DEEP)
    ensures Passes("(" + body + ")", TOP, Framing(Inside, 0))
  {
    PassesOne('(', TOP);
    PassesOne(')', DEEP);
    PassesAppend("(", body, TOP, DEEP, DEEP);
    PassesAppend("(" + body, ")", TOP, DEEP, Framing(Inside, 0));
  }

  /** What the speaking command has between its brackets. */
  function SpeakBody(name: string, text: string, mode: string): string {
    name + " " + ("\"" + ("\n" + EscapeText(text)) + "\"") + (" " + ("\"" + mode + "\""))
  }

  /** Whatever the text, the command that speaks it is one expression. */
  lemma {:induction false} SpeakPasses(name: string, text: string, mode: string)
    requires AllPlain(name) && '"' !in mode && '\\' !in mode
    ensures Passes("(" + SpeakBody(name, text, mode) + ")", TOP, Framing(Inside, 0))
  {
    var q := DEEP.(state := Quoted);
    PlainPasses(name, DEEP);
    PlainPasses(" ", DEEP);
    PassesOne('\n', q);
    EscapedPasses(text, q);
    PassesAppend("\n", EscapeText(text), q, q, q);
    QuotedPasses("\n" + EscapeText(text), DEEP);
    ModePasses(mode, q);
    QuotedPasses(mode, DEEP);
    PassesAppend(" ", "\"" + mode + "\"", DEEP, DEEP, DEEP);
    PassesAppend(name, " ", DEEP, DEEP, DEEP);
    PassesAppend(name + " ", "\"" + ("\n" + EscapeText(text)) + "\"", DEEP, DEEP, DEEP);
    PassesAppend(name + " " + ("\"" + ("\n" + EscapeText(text)) + "\""), " " + ("\"" + mode + "\""), DEEP, DEEP, DEEP);
    BracketPasses(SpeakBody(name, text, mode));
  }

  /** The bracketed commands sent, in order. */
  function CommandList(asyncMode: bool, text: string, mode: string): seq<string> {
    var speak := "(" + SpeakBody(Speak(asyncMode), text, mode) + ")";
    if asyncMode then ["(" + SET_TYPE + ")", "(" + RETURN + ")", speak] else ["(" + SET_TYPE + ")", speak]
  }

  function Lines(commands: seq<string>): string {
    if commands == [] then [] else commands[0] + "\n" + Lines(commands[1..])
  }

  function CommandEnds(commands: seq<string>, at: nat): seq<nat> {
    if commands == [] then [] else [at + |commands[0]|] + CommandEnds(commands[1..], at + |commands[0]| + 1)
  }

  lemma {:induction false} SpeakSpelled(name: string, text: string, mode: string)
    ensures "(" + SpeakBody(name, text, mode) + ")" + "\n" == Spoken(name, EscapeText(text), mode)
  {
  }

  lemma {:induction false} CommandsAreLines(asyncMode: bool, text: string, mode: string)
    ensures Commands(asyncMode, text, mode) == Lines(CommandList(asyncMode, text, mode))
  {
    var speak := "(" + SpeakBody(Speak(asyncMode), text, mode) + ")";
    SpeakSpelled(Speak(asyncMode), text, mode);
    Bracketed(SET_TYPE);
    Bracketed(RETURN);
    LinesOfTwo("(" + SET_TYPE + ")", speak);
    LinesOfThree("(" + SET_TYPE + ")", "(" + RETURN + ")", speak);
  }

  lemma {:induction false} Bracketed(s: string)
    ensures "(" + s + ")" + "\n" == "(" + s + ")\n"
  {
  }

  lemma {:induction false} LinesOfTwo(a: string, b: string)
    ensures Lines([a, b]) == a + "\n" + (b + "\n")
  {
    assert [a, b][1..] == [b] && [b][1..] == [];
    assert Lines([b]) == b + "\n" + Lines([]);
    assert b + "\n" + [] == b + "\n";
  }

  lemma {:induction false} LinesOfThree(a: string, b: string, c: string)
    ensures Lines([a, b, c]) == a + "\n" + (b + "\n") + (c + "\n")
  {
    assert [a, b, c][1..] == [b, c];
    LinesOfTwo(b, c);
  }

  lemma {:induction false} LinesComplete(commands: seq<string>, at: nat)
    requires forall i :: 0 <= i < |commands| ==> Passes(commands[i], TOP, Framing(Inside, 0))
    ensures Completions(Lines(commands), TOP, at) == CommandEnds(commands, at) && After(Lines(commands), TOP) == TOP
  {
    if commands == [] {
    } else {
      LineCompletes(commands[0], '\n', TOP, at);
      LinesComplete(commands[1..], at + |commands[0]| + 1);
      CompletionsAppend(commands[0] + "\n", Lines(commands[1..]), TOP, at);
      AfterAppend(commands[0] + "\n", Lines(commands[1..]), TOP);
    }
  }

  /** Completion is signalled at the end of each command sent and nowhere else, whatever the text, and for
      every mode without quotes and backslashes. */
  lemma {:induction false} TextFramed(asyncMode: bool, text: string, mode: string)
    requires '"' !in mode && '\\' !in mode
    ensures var l := CommandList(asyncMode, text, mode);
            && Completions(Commands(asyncMode, text, mode), TOP, 0) == CommandEnds(l, 0)
            && |CommandEnds(l, 0)| == (if asyncMode then 3 else 2)
            && After(Commands(asyncMode, text, mode), TOP) == TOP
  {
    var l := CommandList(asyncMode, text, mode);
    CommandsPass(asyncMode, text, mode);
    CommandsAreLines(asyncMode, text, mode);
    LinesComplete(l, 0);
    EndsCounted(l, 0);
  }

  lemma {:induction false} CommandsPass(asyncMode: bool, text: string, mode: string)
    requires '"' !in mode && '\\' !in mode
    ensures forall i :: 0 <= i < |CommandList(asyncMode, text, mode)| ==>
              Passes(CommandList(asyncMode, text, mode)[i], TOP, Framing(Inside, 0))
  {
    NamesPlain();
    SpeakPasses(Speak(asyncMode), text, mode);
    EachPasses(SET_TYPE, RETURN, "(" + SpeakBody(Speak(asyncMode), text, mode) + ")");
  }

  lemma {:induction false} EachPasses(x: string, y: string, z: string)
    requires AllPlain(x) && AllPlain(y) && Passes(z, TOP, Framing(Inside, 0))
    ensures forall i :: 0 <= i < 2 ==> Passes(["(" + x + ")", z][i], TOP, Framing(Inside, 0))
    ensures forall i :: 0 <= i < 3 ==> Passes(["(" + x + ")", "(" + y + ")", z][i], TOP, Framing(Inside, 0))
  {
    PlainPasses(x, DEEP);
    BracketPasses(x);
    PlainPasses(y, DEEP);
    BracketPasses(y);
  }

  lemma {:induction false} NamesPlain()
    ensures AllPlain(SET_TYPE) && AllPlain(RETURN) && AllPlain("tts_text") && AllPlain("tts_textall")
  {
  }

  lemma {:induction false} EndsCounted(commands: seq<string>, at: nat)
    ensures |CommandEnds(commands, at)| == |commands|
  {
    if commands == [] {
    } else {
      EndsCounted(commands[1..], at + |commands[0]| + 1);
    }
  }
}
