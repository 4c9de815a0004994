/** What the audio spooler does with the lines it reads and the players it starts, over whole runs. */
module SpoolerRuns {
  import opened CommandQueue

  /** The first word of a line, with what follows where it matters here. */
  datatype Comm = Quit | Nothing | Play(command: Command) | Setting | Close | Shutup | Query | Unknown

  /** A line: whether its first bytes are "close", and whether the end of input stood at its end. */
  datatype Line = Line(comm: Comm, startsClose: bool, ended: bool)

  /** What the wait for input gave. */
  datatype Input = Idle | SelectFailed | Ready(line: Line)

  datatype Fork = Child(pid: int) | ForkFailed

  /** What waiting for a child would give, and what forking one would. */
  datatype Output = Output(reaped: bool, fork: Fork)

  datatype Event = Event(input: Input, output: Output)

  datatype Fate = Played(command: Command) | Dropped(command: Command) | Unplayed(command: Command)

  datatype State = State(
    queue: seq<Command>, kids: int, childPid: int, currentFile: string, noMoreInput: bool, pendingClose: bool,
    acks: nat, killed: seq<int>, unlinked: seq<string>,
    // The history: plays read, what became of them, lines read, players reaped.
    arrived: seq<Command>, fates: seq<Fate>, lines: nat, finished: nat)

  const START := State([], 0, 0, "", false, false, 0, [], [], [], [], 0, 0)

  function AllDropped(cs: seq<Command>): seq<Fate> { seq(|cs|, i requires 0 <= i < |cs| => Dropped(cs[i])) }

  // ---------- One turn of the loop ----------

  function ReadALine(s: State, line: Line): State {
    s.(noMoreInput := s.noMoreInput || line.ended,
       acks := if line.startsClose then s.acks else s.acks + 1,
       lines := s.lines + 1)
  }

  function ProcessCommand(s: State, comm: Comm): State {
    match comm
    case Quit | Nothing => s.(noMoreInput := true)
    case Play(c) => s.(queue := s.queue + [c], arrived := s.arrived + [c])
    case Close => s.(pendingClose := true, noMoreInput := true)
    case Shutup =>
      var cleared := s.(queue := [], fates := s.fates + AllDropped(s.queue), unlinked := s.unlinked + Files(s.queue));
      if s.childPid == 0 then cleared
      else cleared.(killed := s.killed + [s.childPid], unlinked := cleared.unlinked + [s.currentFile])
    case Setting | Query | Unknown => s
  }

  function CheckNewInput(s: State, maxqueue: int, input: Input): State {
    if |s.queue| >= maxqueue || s.noMoreInput then s
    else match input
      case Ready(line) => ProcessCommand(ReadALine(s, line), line.comm)
      case SelectFailed => s.(noMoreInput := true)
      case Idle => s
  }

  function CheckNewOutput(s: State, output: Output): State {
    if s.kids > 0 then
      if output.reaped then s.(kids := s.kids - 1, childPid := 0, finished := s.finished + 1) else s
    else if s.queue != [] then
      var c, popped := s.queue[0], s.(queue := s.queue[1..], currentFile := s.queue[0].file);
      match output.fork
      case Child(pid) => popped.(childPid := pid, kids := s.kids + 1, fates := s.fates + [Played(c)])
      case ForkFailed => popped.(fates := s.fates + [Unplayed(c)])
    else s
  }

  function Turn(s: State, maxqueue: int, e: Event): State {
    CheckNewOutput(CheckNewInput(s, maxqueue, e.input), e.output)
  }

  predicate Terminated(s: State) { s.noMoreInput && s.queue == [] }

  /** The loop, for as long as events are given. */
  function Run(s: State, maxqueue: int, es: seq<Event>): State
    decreases |es|
  {
    if es == [] || Terminated(s) then s else Run(Turn(s, maxqueue, es[0]), maxqueue, es[1..])
  }

  /** The last wait for players, when the input was closed by name. */
  function TidyUp(s: State): State {
    if s.pendingClose then
      s.(kids := if s.kids > 0 then 0 else s.kids, finished := s.finished + (if s.kids > 0 then s.kids else 0),
         acks := s.acks + 1)
    else s
  }

  // ---------- Safety ----------

  function Commands(fs: seq<Fate>): seq<Command> {
    seq(|fs|, i requires 0 <= i < |fs| => fs[i].command)
  }

  function Started(fs: seq<Fate>): seq<Command> {
    if fs == [] then []
    else
      var last := fs[|fs| - 1];
      Started(fs[..|fs| - 1]) + if last.Played? then [last.command] else []
  }

  /** A forked child has a process number. */
  predicate Forks(e: Event) { e.output.fork.Child? ==> e.output.fork.pid > 0 }

  predicate Safe(s: State, maxqueue: int) {
    // Everything that arrived was dealt with in its order, or waits in its order.
    && s.arrived == Commands(s.fates) + s.queue
    // There is at most one player, and a player to kill is one that was not waited for yet.
    && 0 <= s.kids <= 1 && (s.childPid != 0 <==> s.kids == 1)
    && |Started(s.fates)| == s.finished + s.kids
    && (s.kids == 1 ==> s.currentFile == Started(s.fates)[|Started(s.fates)| - 1].file)
    && |s.queue| <= (if maxqueue > 0 then maxqueue else 0)
    && (s.pendingClose ==> s.noMoreInput)
  }

  /** What was dropped is gone from the disk. */
  predicate Removed(s: State) { forall f :: f in s.fates && f.Dropped? ==> f.command.file in s.unlinked }

  lemma {:induction false} DroppedNotStarted(fs: seq<Fate>, cs: seq<Command>)
    ensures Started(fs + AllDropped(cs)) == Started(fs)
    ensures Commands(fs + AllDropped(cs)) == Commands(fs) + cs
  {
    if cs == [] {
      assert fs + AllDropped(cs) == fs;
    } else {
      var init := cs[..|cs| - 1];
      DroppedNotStarted(fs, init);
      assert (fs + AllDropped(cs))[..|fs| + |cs| - 1] == fs + AllDropped(init);
    }
  }

  /** Shutting up empties the queue, and kills the player of the last command started if it is still running. */
  lemma {:induction false} ShutupKeepsSafe(s: State, maxqueue: int)
    requires Safe(s, maxqueue)
    ensures var r := ProcessCommand(s, Shutup);
            && Safe(r, maxqueue) && r.queue == [] && |r.fates| == |s.fates| + |s.queue|
            && (s.kids == 1 ==>
                  && r.killed == s.killed + [s.childPid]
                  && r.unlinked == s.unlinked + Files(s.queue) + [Started(s.fates)[|Started(s.fates)| - 1].file])
            && (s.kids == 0 ==> r.killed == s.killed && r.unlinked == s.unlinked + Files(s.queue))
  {
    DroppedNotStarted(s.fates, s.queue);
  }

  lemma {:induction false} PlayKeepsSafe(s: State, maxqueue: int, c: Command)
    requires Safe(s, maxqueue) && |s.queue| < maxqueue
    ensures Safe(ProcessCommand(s, Play(c)), maxqueue)
  {
    assert Commands(s.fates) + (s.queue + [c]) == s.arrived + [c];
  }

  lemma {:induction false} InputKeepsSafe(s: State, maxqueue: int, input: Input)
    requires Safe(s, maxqueue)
    ensures Safe(CheckNewInput(s, maxqueue, input), maxqueue)
  {
    if |s.queue| < maxqueue && !s.noMoreInput && input.Ready? {
      var read := ReadALine(s, input.line);
      match input.line.comm
      case Play(c) => PlayKeepsSafe(read, maxqueue, c);
      case Shutup => ShutupKeepsSafe(read, maxqueue);
      case _ =>
    }
  }

  lemma {:induction false} OutputKeepsSafe(s: State, maxqueue: int, output: Output)
    requires Safe(s, maxqueue) && (output.fork.Child? ==> output.fork.pid > 0)
    ensures Safe(CheckNewOutput(s, output), maxqueue)
  {
  }

  /** In every run the spooler is safe, and it stops by itself only when nothing that arrived is left over. */
  lemma {:induction false} RunIsSafe(s: State, maxqueue: int, es: seq<Event>)
    requires Safe(s, maxqueue) && forall i :: 0 <= i < |es| ==> Forks(es[i])
    ensures Safe(Run(s, maxqueue, es), maxqueue)
    ensures Terminated(Run(s, maxqueue, es)) ==>
              Run(s, maxqueue, es).arrived == Commands(Run(s, maxqueue, es).fates)
    decreases |es|
  {
    if es == [] || Terminated(s) {
      assert s.queue == [] ==> Commands(s.fates) + s.queue == Commands(s.fates);
    } else {
      assert Forks(es[0]);
      InputKeepsSafe(s, maxqueue, es[0].input);
      OutputKeepsSafe(CheckNewInput(s, maxqueue, es[0].input), maxqueue, es[0].output);
      RunIsSafe(Turn(s, maxqueue, es[0]), maxqueue, es[1..]);
    }
  }

  lemma {:induction false} ShutupRemoves(s: State)
    requires Removed(s)
    ensures Removed(ProcessCommand(s, Shutup))
  {
    var r := ProcessCommand(s, Shutup);
    forall f | f in r.fates && f.Dropped? ensures f.command.file in r.unlinked {
      if f !in s.fates {
        var i :| 0 <= i < |s.queue| && AllDropped(s.queue)[i] == f;
        assert Files(s.queue)[i] == f.command.file;
      }
    }
  }

  lemma {:induction false} InputRemoves(s: State, maxqueue: int, input: Input)
    requires Removed(s)
    ensures Removed(CheckNewInput(s, maxqueue, input))
  {
    if input.Ready? {
      ShutupRemoves(ReadALine(s, input.line));
    }
  }

  lemma {:induction false} OutputRemoves(s: State, output: Output)
    requires Removed(s)
    ensures Removed(CheckNewOutput(s, output))
  {
  }

  /** In every run, the file of every command that was dropped is removed. */
  lemma {:induction false} RunRemoves(s: State, maxqueue: int, es: seq<Event>)
    requires Removed(s)
    ensures Removed(Run(s, maxqueue, es))
    decreases |es|
  {
    if es != [] && !Terminated(s) {
      InputRemoves(s, maxqueue, es[0].input);
      OutputRemoves(CheckNewInput(s, maxqueue, es[0].input), es[0].output);
      RunRemoves(Turn(s, maxqueue, es[0]), maxqueue, es[1..]);
    }
  }

  // ---------- How often each line is acknowledged ----------

  function Owed(s: State): int { s.acks + if s.pendingClose then 1 else 0 }

  /** The test on the bytes of a line agrees with its first word. */
  predicate ClosesPlainly(line: Line) { line.startsClose <==> line.comm.Close? }

  /** A line is acknowledged once, at once or at the end, exactly when its bytes and its first word agree about closing. A
      close with a blank before it is acknowledged twice, and a longer word that begins with close never. */
  lemma {:induction false} LineAcknowledgedIff(s: State, maxqueue: int, line: Line)
    requires |s.queue| < maxqueue && !s.noMoreInput && !s.pendingClose
    ensures var answers := Owed(CheckNewInput(s, maxqueue, Ready(line))) - Owed(s);
            && (answers == 1 <==> ClosesPlainly(line))
            && (answers == 2 <==> line.comm.Close? && !line.startsClose)
            && (answers == 0 <==> !line.comm.Close? && line.startsClose)
  {
  }

  /** The lines read in a run. */
  function LinesRead(s: State, maxqueue: int, es: seq<Event>): seq<Line>
    decreases |es|
  {
    if es == [] || Terminated(s) then []
    else
      (if CanRead(s, maxqueue) && es[0].input.Ready? then [es[0].input.line] else [])
      + LinesRead(Turn(s, maxqueue, es[0]), maxqueue, es[1..])
  }

  function Doubled(ls: seq<Line>): nat {
    if ls == [] then 0 else (if ls[0].comm.Close? && !ls[0].startsClose then 1 else 0) + Doubled(ls[1..])
  }

  function Missed(ls: seq<Line>): nat {
    if ls == [] then 0 else (if !ls[0].comm.Close? && ls[0].startsClose then 1 else 0) + Missed(ls[1..])
  }

  lemma {:induction false} TurnAcknowledges(s: State, maxqueue: int, e: Event)
    requires s.pendingClose ==> s.noMoreInput
    ensures var r := Turn(s, maxqueue, e);
            && (r.pendingClose ==> r.noMoreInput)
            && if |s.queue| < maxqueue && !s.noMoreInput && e.input.Ready?
               then r.lines == s.lines + 1 &&
                    Owed(r) == Owed(s) + 1 + Doubled([e.input.line]) - Missed([e.input.line])
               else r.lines == s.lines && Owed(r) == Owed(s)
  {
  }

  lemma {:induction false} CountedFirst(line: Line, ls: seq<Line>)
    ensures Doubled([line] + ls) == Doubled([line]) + Doubled(ls)
    ensures Missed([line] + ls) == Missed([line]) + Missed(ls)
  {
    assert ([line] + ls)[1..] == ls;
  }

  /** In every run, the acknowledgements written are the lines read, and one more for each that is doubled and one less for
      each that is missed; all lines read are numbered. */
  lemma {:induction false} RunAcknowledges(s: State, maxqueue: int, es: seq<Event>)
    requires s.pendingClose ==> s.noMoreInput
    ensures var r, ls := Run(s, maxqueue, es), LinesRead(s, maxqueue, es);
            && r.lines == s.lines + |ls|
            && TidyUp(r).acks - r.lines == Owed(s) - s.lines + Doubled(ls) - Missed(ls)
    decreases |es|
  {
    if es == [] || Terminated(s) {
    } else {
      var rest := LinesRead(Turn(s, maxqueue, es[0]), maxqueue, es[1..]);
      TurnAcknowledges(s, maxqueue, es[0]);
      RunAcknowledges(Turn(s, maxqueue, es[0]), maxqueue, es[1..]);
      if |s.queue| < maxqueue && !s.noMoreInput && es[0].input.Ready? {
        CountedFirst(es[0].input.line, rest);
      } else {
        assert [] + rest == rest;
      }
    }
  }

  /** Nothing is doubled or missed exactly when every line read closes plainly. */
  lemma {:induction false} AllPlainIff(ls: seq<Line>)
    ensures Doubled(ls) == 0 && Missed(ls) == 0 <==> forall i :: 0 <= i < |ls| ==> ClosesPlainly(ls[i])
  {
    if ls == [] {
    } else {
      AllPlainIff(ls[1..]);
      assert forall i :: 0 < i < |ls| ==> ls[i] == ls[1..][i - 1];
    }
  }

  /** A line that only begins like a close is never acknowledged. */
  lemma {:induction false} CloseLikeLine(maxqueue: int, o: Output)
    requires maxqueue > 0
    ensures var es := [Event(Ready(Line(Unknown, true, false)), o), Event(Ready(Line(Quit, false, false)), o)];
            var r := TidyUp(Run(START, maxqueue, es));
            Terminated(r) && r.lines == 2 && r.acks == 1
  {
    var es := [Event(Ready(Line(Unknown, true, false)), o), Event(Ready(Line(Quit, false, false)), o)];
    assert es[1..] == [es[1]];
    assert es[1..][1..] == [];
    var s := Turn(START, maxqueue, es[0]);
    var r := Turn(s, maxqueue, es[1]);
    assert Run(START, maxqueue, es) == Run(s, maxqueue, es[1..]) == Run(r, maxqueue, es[1..][1..]);
  }

  /** A close with a blank before it is acknowledged twice. */
  lemma {:induction false} BlankBeforeClose(maxqueue: int, o: Output)
    requires maxqueue > 0
    ensures var r := TidyUp(Run(START, maxqueue, [Event(Ready(Line(Close, false, false)), o)]));
            Terminated(r) && r.lines == 1 && r.acks == 2
  {
  }

  // ---------- What a run takes from outside ----------

  predicate CanRead(s: State, maxqueue: int) { |s.queue| < maxqueue && !s.noMoreInput }

  /** What the waits for input gave, in the turns that look at it. */
  function InputsTaken(s: State, maxqueue: int, es: seq<Event>): seq<Input>
    decreases |es|
  {
    if es == [] || Terminated(s) then []
    else (if CanRead(s, maxqueue) then [es[0].input] else []) + InputsTaken(Turn(s, maxqueue, es[0]), maxqueue, es[1..])
  }

  predicate Starts(s: State, maxqueue: int, e: Event) {
    var read := CheckNewInput(s, maxqueue, e.input);
    read.kids <= 0 && read.queue != []
  }

  /** What forking gave, in the turns that start a player. */
  function ForksTaken(s: State, maxqueue: int, es: seq<Event>): seq<Fork>
    decreases |es|
  {
    if es == [] || Terminated(s) then []
    else
      (if Starts(s, maxqueue, es[0]) then [es[0].output.fork] else [])
      + ForksTaken(Turn(s, maxqueue, es[0]), maxqueue, es[1..])
  }

  /** How many waits for a running player succeeded. */
  function WaitsTaken(s: State, maxqueue: int, es: seq<Event>): nat
    decreases |es|
  {
    if es == [] || Terminated(s) then 0
    else
      (if s.kids > 0 && es[0].output.reaped then 1 else 0) + WaitsTaken(Turn(s, maxqueue, es[0]), maxqueue, es[1..])
  }

  /** The commands of the lines that ask to play. */
  function Asked(ls: seq<Line>): seq<Command> {
    if ls == [] then [] else (if ls[0].comm.Play? then [ls[0].comm.command] else []) + Asked(ls[1..])
  }

  lemma {:induction false} AskedFirst(line: Line, ls: seq<Line>)
    ensures Asked([line] + ls) == (if line.comm.Play? then [line.comm.command] else []) + Asked(ls)
  {
    assert ([line] + ls)[1..] == ls;
  }

  lemma {:induction false} TurnArrives(s: State, maxqueue: int, e: Event)
    ensures Turn(s, maxqueue, e).arrived ==
            s.arrived + if CanRead(s, maxqueue) && e.input.Ready? && e.input.line.comm.Play? then [e.input.line.comm.command] else []
  {
  }

  /** In every run, what arrives in the queue is every command of a line read that asks to play, in order, and nothing else. */
  lemma {:induction false} RunArrives(s: State, maxqueue: int, es: seq<Event>)
    ensures Run(s, maxqueue, es).arrived == s.arrived + Asked(LinesRead(s, maxqueue, es))
    decreases |es|
  {
    if es == [] || Terminated(s) {
    } else {
      var next, e := Turn(s, maxqueue, es[0]), es[0];
      var rest := LinesRead(next, maxqueue, es[1..]);
      TurnArrives(s, maxqueue, e);
      RunArrives(next, maxqueue, es[1..]);
      if CanRead(s, maxqueue) && e.input.Ready? {
        AskedFirst(e.input.line, rest);
      } else {
        assert [] + rest == rest;
      }
    }
  }

  /** What ends the input: a failed wait, the end of input, an empty line, a quit or a close. */
  predicate EndsInput(i: Input) {
    i.SelectFailed? || (i.Ready? && (i.line.ended || i.line.comm == Nothing || i.line.comm == Quit || i.line.comm == Close))
  }

  predicate Closes(i: Input) { i.Ready? && i.line.comm == Close }

  lemma {:induction false} TurnEnds(s: State, maxqueue: int, e: Event)
    ensures Turn(s, maxqueue, e).noMoreInput <==> s.noMoreInput || (CanRead(s, maxqueue) && EndsInput(e.input))
    ensures Turn(s, maxqueue, e).pendingClose <==> s.pendingClose || (CanRead(s, maxqueue) && Closes(e.input))
  {
  }

  lemma {:induction false} InFirst(i: Input, here: bool, rest: seq<Input>)
    ensures (exists x :: x in (if here then [i] else []) + rest && EndsInput(x)) <==>
            (here && EndsInput(i)) || exists x :: x in rest && EndsInput(x)
    ensures (exists x :: x in (if here then [i] else []) + rest && Closes(x)) <==>
            (here && Closes(i)) || exists x :: x in rest && Closes(x)
  {
    assert forall x :: x in (if here then [i] else []) + rest <==> (here && x == i) || x in rest;
    assert i == i;
  }

  /** Reading stops exactly when something read ends the input, and the last acknowledgement is due exactly when a close
      was read. */
  lemma {:induction false} RunEndsIff(s: State, maxqueue: int, es: seq<Event>)
    ensures Run(s, maxqueue, es).noMoreInput <==>
            s.noMoreInput || exists i :: i in InputsTaken(s, maxqueue, es) && EndsInput(i)
    ensures Run(s, maxqueue, es).pendingClose <==>
            s.pendingClose || exists i :: i in InputsTaken(s, maxqueue, es) && Closes(i)
    decreases |es|
  {
    if es == [] || Terminated(s) {
    } else {
      var next := Turn(s, maxqueue, es[0]);
      TurnEnds(s, maxqueue, es[0]);
      RunEndsIff(next, maxqueue, es[1..]);
      InFirst(es[0].input, CanRead(s, maxqueue), InputsTaken(next, maxqueue, es[1..]));
    }
  }

  /** Commands that a player was to be started for, and whether one was. */
  function Tried(fs: seq<Fate>): seq<bool> {
    if fs == [] then []
    else
      var last := fs[|fs| - 1];
      Tried(fs[..|fs| - 1]) + if last.Dropped? then [] else [last.Played?]
  }

  function Forked(forks: seq<Fork>): seq<bool> { seq(|forks|, i requires 0 <= i < |forks| => forks[i].Child?) }

  /** The process number of the last child. */
  function LastPid(before: int, forks: seq<Fork>): int
    decreases |forks|
  {
    if forks == [] then before
    else LastPid(if forks[0].Child? then forks[0].pid else before, forks[1..])
  }

  lemma {:induction false} TriedDropped(fs: seq<Fate>, cs: seq<Command>)
    ensures Tried(fs + AllDropped(cs)) == Tried(fs)
  {
    if cs == [] {
      assert fs + AllDropped(cs) == fs;
    } else {
      TriedDropped(fs, cs[..|cs| - 1]);
      assert (fs + AllDropped(cs))[..|fs| + |cs| - 1] == fs + AllDropped(cs[..|cs| - 1]);
    }
  }

  lemma {:induction false} InputTries(s: State, maxqueue: int, input: Input)
    ensures var r := CheckNewInput(s, maxqueue, input);
            Tried(r.fates) == Tried(s.fates) && r.kids == s.kids && r.childPid == s.childPid && r.finished == s.finished
  {
    if input.Ready? && input.line.comm.Shutup? {
      TriedDropped(s.fates, s.queue);
    }
  }

  lemma {:induction false} OutputTries(s: State, output: Output)
    requires 0 <= s.kids <= 1
    ensures var r, starts := CheckNewOutput(s, output), s.kids == 0 && s.queue != [];
            && Tried(r.fates) == Tried(s.fates) + (if starts then [output.fork.Child?] else [])
            && r.finished == s.finished + (if s.kids > 0 && output.reaped then 1 else 0)
            && (r.kids == 1 <==> if s.kids == 1 then !output.reaped else starts && output.fork.Child?)
            && (r.kids == 1 ==> r.childPid == if s.kids == 1 then s.childPid else output.fork.pid)
            && 0 <= r.kids <= 1
  {
    assert forall f :: (s.fates + [f])[..|s.fates|] == s.fates;
  }

  lemma {:induction false} TurnTries(s: State, maxqueue: int, e: Event)
    requires 0 <= s.kids <= 1
    ensures var r, starts := Turn(s, maxqueue, e), Starts(s, maxqueue, e);
            && Tried(r.fates) == Tried(s.fates) + (if starts then [e.output.fork.Child?] else [])
            && r.finished == s.finished + (if s.kids > 0 && e.output.reaped then 1 else 0)
            && (r.kids == 1 ==> r.childPid == if starts && e.output.fork.Child? then e.output.fork.pid else s.childPid)
            && (r.kids == 1 && !(starts && e.output.fork.Child?) ==> s.kids == 1)
            && 0 <= r.kids <= 1 && (starts && e.output.fork.Child? ==> r.kids == 1)
  {
    InputTries(s, maxqueue, e.input);
    OutputTries(CheckNewInput(s, maxqueue, e.input), e.output);
  }

  /** In every run: players are started and fail to start as forking goes, in order; the number kept is that of the last child
      as long as that one runs; and as many players are done as waits succeeded. */
  lemma {:induction false} RunTries(s: State, maxqueue: int, es: seq<Event>, last: int)
    requires 0 <= s.kids <= 1 && (s.kids == 1 ==> s.childPid == last)
    ensures Tried(Run(s, maxqueue, es).fates) == Tried(s.fates) + Forked(ForksTaken(s, maxqueue, es))
    ensures Run(s, maxqueue, es).kids == 1 ==> Run(s, maxqueue, es).childPid == LastPid(last, ForksTaken(s, maxqueue, es))
    ensures Run(s, maxqueue, es).finished == s.finished + WaitsTaken(s, maxqueue, es)
    decreases |es|
  {
    if es == [] || Terminated(s) {
      assert Tried(s.fates) + Forked([]) == Tried(s.fates);
    } else {
      var next, e := Turn(s, maxqueue, es[0]), es[0];
      var starts, rest := Starts(s, maxqueue, e), ForksTaken(next, maxqueue, es[1..]);
      TurnTries(s, maxqueue, e);
      RunTries(next, maxqueue, es[1..], if starts && e.output.fork.Child? then e.output.fork.pid else last);
      ForkFirst(last, e.output.fork, starts, rest);
      Regroup(Tried(s.fates), if starts then [e.output.fork.Child?] else [], Forked(rest));
    }
  }

  lemma {:induction false} Regroup(a: seq<bool>, b: seq<bool>, c: seq<bool>)
    ensures (a + b) + c == a + (b + c)
  {
  }

  lemma {:induction false} ForkFirst(last: int, fork: Fork, starts: bool, rest: seq<Fork>)
    ensures var forks := (if starts then [fork] else []) + rest;
            && Forked(forks) == (if starts then [fork.Child?] else []) + Forked(rest)
            && LastPid(last, forks) == LastPid(if starts && fork.Child? then fork.pid else last, rest)
  {
    if starts {
      assert ([fork] + rest)[1..] == rest;
    } else {
      assert [] + rest == rest;
    }
  }

  /** Without a shutup nothing is dropped. */
  lemma {:induction false} RunDropsNothing(s: State, maxqueue: int, es: seq<Event>)
    requires forall i :: 0 <= i < |es| ==> !(es[i].input.Ready? && es[i].input.line.comm.Shutup?)
    ensures s.fates <= Run(s, maxqueue, es).fates
    ensures forall k :: |s.fates| <= k < |Run(s, maxqueue, es).fates| ==> !Run(s, maxqueue, es).fates[k].Dropped?
    ensures Run(s, maxqueue, es).killed == s.killed && Run(s, maxqueue, es).unlinked == s.unlinked
    decreases |es|
  {
    if es == [] || Terminated(s) {
    } else {
      TurnDropsNothing(s, maxqueue, es[0]);
      RunDropsNothing(Turn(s, maxqueue, es[0]), maxqueue, es[1..]);
    }
  }

  lemma {:induction false} TurnDropsNothing(s: State, maxqueue: int, e: Event)
    requires !(e.input.Ready? && e.input.line.comm.Shutup?)
    ensures var r := Turn(s, maxqueue, e);
            && s.fates <= r.fates && (forall k :: |s.fates| <= k < |r.fates| ==> !r.fates[k].Dropped?)
            && r.killed == s.killed && r.unlinked == s.unlinked
  {
  }

  /** After a close no player is left, and every player started has been waited for; without one nothing is waited for. */
  lemma {:induction false} TidyUpWaits(s: State, maxqueue: int)
    requires Safe(s, maxqueue)
    ensures s.pendingClose ==> TidyUp(s).kids == 0 && TidyUp(s).finished == |Started(s.fates)| && TidyUp(s).acks == s.acks + 1
    ensures !s.pendingClose ==> TidyUp(s) == s
  {
  }

  // ---------- Once input has ended, the loop ends too ----------

  function Energy(s: State): int { 2 * |s.queue| + s.kids }

  function Reaps(es: seq<Event>): nat {
    if es == [] then 0 else (if es[0].output.reaped then 1 else 0) + Reaps(es[1..])
  }

  lemma {:induction false} TurnDrains(s: State, maxqueue: int, e: Event)
    requires Safe(s, maxqueue) && s.noMoreInput && s.queue != []
    ensures var r := Turn(s, maxqueue, e);
            r.noMoreInput && Energy(r) <= Energy(s) && (e.output.reaped ==> Energy(r) < Energy(s))
  {
  }

  /** Players that end are enough: one turn in which waiting succeeds for each file and each player left. */
  lemma {:induction false} RunDrains(s: State, maxqueue: int, es: seq<Event>)
    requires Safe(s, maxqueue) && s.noMoreInput
    requires forall i :: 0 <= i < |es| ==> Forks(es[i])
    requires Energy(s) <= Reaps(es)
    ensures Terminated(Run(s, maxqueue, es))
    decreases |es|
  {
    if es != [] && s.queue != [] {
      assert Forks(es[0]);
      TurnDrains(s, maxqueue, es[0]);
      InputKeepsSafe(s, maxqueue, es[0].input);
      OutputKeepsSafe(CheckNewInput(s, maxqueue, es[0].input), maxqueue, es[0].output);
      RunDrains(Turn(s, maxqueue, es[0]), maxqueue, es[1..]);
    }
  }
}

/** The spooler process: its global variables and the functions of its loop. */
module Spooler {
  import opened CommandQueue
  import opened SpoolerRuns

  class AudioSpooler {
    const maxqueue: int
    const commandQueue: CQueue
    var kids: int
    var childPid: int
    var currentFile: string
    var noMoreInput: bool
    var pendingClose: bool
    /** Effects outside the process: acknowledgements written, processes killed, files unlinked. */
    var acks: nat
    var killed: seq<int>
    var unlinked: seq<string>
    ghost var arrived: seq<Command>
    ghost var fates: seq<Fate>
    ghost var lines: nat
    ghost var finished: nat

    ghost function Repr(): set<object>
      reads this, commandQueue
    {
      {this} + commandQueue.Repr()
    }

    ghost predicate Valid()
      reads this, Repr()
    {
      this !in commandQueue.Repr() && commandQueue.Valid()
    }

    ghost function Snapshot(): State
      requires Valid()
      reads this, Repr()
    {
      State(commandQueue.Contents(), kids, childPid, currentFile, noMoreInput, pendingClose, acks, killed,
                  unlinked, arrived, fates, lines, finished)
    }

    constructor (maxqueue: int)
      ensures Valid() && Snapshot() == START && this.maxqueue == maxqueue && fresh(Repr())
      ensures Safe(Snapshot(), maxqueue)
    {
      this.maxqueue := maxqueue;
      commandQueue := new CQueue();
      kids, childPid, currentFile, noMoreInput, pendingClose := 0, 0, "", false, false;
      acks, killed, unlinked, arrived, fates, lines, finished := 0, [], [], [], [], 0, 0;
    }

    method SpTerminate() returns (r: bool)
      requires Valid()
      ensures r == Terminated(Snapshot())
    {
      var length := commandQueue.Length();
      r := noMoreInput && length == 0;
    }

    method ReadALine(line: Line)
      requires Valid()
      modifies this
      ensures Valid() && Snapshot() == SpoolerRuns.ReadALine(old(Snapshot()), line)
    {
      if line.ended {
        noMoreInput := true;
      }
      if !line.startsClose {
        acks := acks + 1;
      }
      lines := lines + 1;
    }

    method Enqueue(c: Command)
      requires Valid()
      modifies Repr()
      ensures Valid() && fresh(Repr() - old(Repr()))
      ensures Snapshot() == SpoolerRuns.ProcessCommand(old(Snapshot()), Play(c))
    {
      commandQueue.Push(c);
      arrived := arrived + [c];
    }

    method FallSilent()
      requires Valid()
      modifies Repr()
      ensures Valid() && Repr() <= old(Repr())
      ensures Snapshot() == SpoolerRuns.ProcessCommand(old(Snapshot()), Shutup)
    {
      fates := fates + AllDropped(commandQueue.Contents());
      var files := commandQueue.Clear();
      unlinked := unlinked + files;
      if childPid != 0 {
        killed := killed + [childPid];
        unlinked := unlinked + [currentFile];
      }
    }

    method ProcessCommand(comm: Comm)
      requires Valid()
      modifies Repr()
      ensures Valid() && fresh(Repr() - old(Repr()))
      ensures Snapshot() == SpoolerRuns.ProcessCommand(old(Snapshot()), comm)
    {
      match comm {
        case Quit =>
          noMoreInput := true;
        case Nothing =>
          noMoreInput := true;
        case Play(c) =>
          Enqueue(c);
        case Close =>
          pendingClose := true;
          noMoreInput := true;
        case Shutup =>
          FallSilent();
        case Setting =>
        case Query =>
        case Unknown =>
      }
    }

    method CheckNewInput(input: Input)
      requires Valid()
      modifies Repr()
      ensures Valid() && fresh(Repr() - old(Repr()))
      ensures Snapshot() == SpoolerRuns.CheckNewInput(old(Snapshot()), maxqueue, input)
    {
      var length := commandQueue.Length();
      if length >= maxqueue || noMoreInput {
        return;
      }
      match input {
        case Ready(line) =>
          ReadALine(line);
          ProcessCommand(line.comm);
        case SelectFailed =>
          noMoreInput := true;
        case Idle =>
      }
    }

    /** The parent's side of the fork. */
    method ExecuteCommand(c: Command, fork: Fork) returns (r: int)
      modifies this`currentFile, this`childPid
      ensures currentFile == c.file
      ensures if fork.Child? then r == 0 && childPid == fork.pid else r == -1 && childPid == old(childPid)
    {
      currentFile := c.file;
      match fork {
        case Child(pid) =>
          childPid := pid;
          r := 0;
        case ForkFailed =>
          r := -1;
      }
    }

    method LaunchNext(output: Output)
      requires Valid() && kids <= 0 && commandQueue.Contents() != []
      modifies Repr()
      ensures Valid() && Repr() <= old(Repr())
      ensures Snapshot() == SpoolerRuns.CheckNewOutput(old(Snapshot()), output)
    {
      var c := commandQueue.Pop();
      var failed := ExecuteCommand(c.value, output.fork);
      if failed == 0 {
        kids := kids + 1;
      }
      fates := fates + [if failed == 0 then Played(c.value) else Unplayed(c.value)];
    }

    method CheckNewOutput(output: Output)
      requires Valid()
      modifies Repr()
      ensures Valid() && Repr() <= old(Repr())
      ensures Snapshot() == SpoolerRuns.CheckNewOutput(old(Snapshot()), output)
    {
      var length := commandQueue.Length();
      if kids > 0 {
        if output.reaped {
          kids := kids - 1;
          childPid := 0;
          finished := finished + 1;
        }
      } else if length != 0 {
        LaunchNext(output);
      }
    }

    method Turn(e: Event)
      requires Valid()
      modifies Repr()
      ensures Valid() && fresh(Repr() - old(Repr()))
      ensures Snapshot() == SpoolerRuns.Turn(old(Snapshot()), maxqueue, e)
    {
      CheckNewInput(e.input);
      CheckNewOutput(e.output);
    }

    /** The main loop, for as long as events are given. */
    method Loop(es: seq<Event>)
      requires Valid() && Safe(Snapshot(), maxqueue) && forall i :: 0 <= i < |es| ==> Forks(es[i])
      modifies Repr()
      ensures Valid() && Snapshot() == Run(old(Snapshot()), maxqueue, es)
      ensures Safe(Snapshot(), maxqueue)
    {
      RunIsSafe(Snapshot(), maxqueue, es);
      var i := 0;
      var done := SpTerminate();
      while i < |es| && !done
        invariant i <= |es| && Valid() && fresh(Repr() - old(Repr()))
        invariant done == Terminated(Snapshot())
        invariant Run(Snapshot(), maxqueue, es[i..]) == Run(old(Snapshot()), maxqueue, es)
      {
        assert es[i..][0] == es[i] && es[i..][1..] == es[i + 1..];
        Turn(es[i]);
        done := SpTerminate();
        i := i + 1;
      }
    }

    method TidyUp()
      requires Valid()
      modifies this
      ensures Valid() && Snapshot() == SpoolerRuns.TidyUp(old(Snapshot()))
    {
      if pendingClose {
        while kids > 0
          invariant Valid() && kids <= old(kids) && (old(kids) > 0 ==> kids >= 0)
          invariant (old(kids) <= 0 ==> kids == old(kids))
          invariant Snapshot() == old(Snapshot()).(kids := kids, finished := old(finished) + (old(kids) - kids))
        {
          kids := kids - 1;
          finished := finished + 1;
        }
        acks := acks + 1;
      }
    }
  }
}
