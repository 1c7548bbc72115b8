/** Typed commands: aliases that expand to further commands, guarded by a flag per command and one for all. */
module Commands {
  import opened Basics
  import MessageText

  datatype Kind = Normal | SystemAlias | UserAlias

  class Command {
    const kind: Kind
    const minArgs: nat
    // -1 stands for no maximum.
    const maxArgs: int
    const authorized: bool
    // An alias's text for the given arguments; what a Normal command's handler sends when given them.
    const expansion: string -> string
    const resends: string -> seq<string>
    var processing: bool

    constructor (kind: Kind, minArgs: nat, maxArgs: int, authorized: bool,
                 expansion: string -> string, resends: string -> seq<string>)
      ensures !processing && this.kind == kind && this.minArgs == minArgs && this.maxArgs == maxArgs
      ensures this.authorized == authorized && this.expansion == expansion && this.resends == resends
    {
      this.kind := kind;
      this.minArgs := minArgs;
      this.maxArgs := maxArgs;
      this.authorized := authorized;
      this.expansion := expansion;
      this.resends := resends;
      processing := false;
    }

    /** Command::processCommand; typed or chosen from a menu. */
    method ProcessCommand(args: string, handler: CommandHandler)
      requires this in handler.InUse().commands.Values
      modifies handler`inCommand, handler`log, handler.InUse().commands.Values
      ensures handler.Snapshot() == AfterCommand(handler.InUse(), old(handler.Snapshot()), this, args)
      decreases Idle(handler.InUse(), handler.Snapshot()), 1, 0
    {
      hide InForce;
      var count := handler.argCount(args);
      if processing {
        handler.PrintError(this, Loops);
      } else if count < minArgs {
        handler.PrintError(this, TooFew);
      } else if maxArgs > -1 && count > maxArgs {
        handler.PrintError(this, TooMany);
      } else if !authorized {
        handler.PrintError(this, Forbidden);
      } else {
        OneLessIdle(handler.InUse(), handler.Snapshot(), this);
        handler.Begin(this);
        if kind == UserAlias || kind == SystemAlias {
          var _ := handler.ProcessMessage("/" + expansion(args));
        } else {
          handler.SendAll(resends(args));
        }
        handler.End(this);
      }
    }
  }

  // ---------- splitting a typed line ----------

  function Word(s: string): (n: nat)
    ensures n <= |s| && (forall i | 0 <= i < n :: !MessageText.IsSpace(s[i])) && (n < |s| ==> MessageText.IsSpace(s[n]))
  {
    if s == [] || MessageText.IsSpace(s[0]) then 0 else 1 + Word(s[1..])
  }

  /** The command and the arguments of a line that starts with a slash and a word. */
  function Split(msg: string): Option<(string, string)> {
    if msg == [] || msg[0] != '/' || Word(msg[1..]) == 0 then None
    else
      var n := 1 + Word(msg[1..]);
      Some((msg[1..n], if n < |msg| then msg[n + 1..] else []))
  }

  /** A slash, a word, one space and any text come apart into that word and that text. */
  lemma SplitJoined(word: string, args: string)
    requires word != [] && forall c | c in word :: !MessageText.IsSpace(c)
    ensures Split("/" + word + " " + args) == Some((word, args))
    ensures Split("/" + word) == Some((word, ""))
  {
    var msg := "/" + word + " " + args;
    WordEnds(word, " " + args);
    assert msg[1..] == word + (" " + args);
    assert msg[1..1 + |word|] == word && msg[|word| + 2..] == args;
    var bare := "/" + word;
    WordEnds(word, "");
    assert bare[1..] == word + "" && bare[1..1 + |word|] == word;
  }

  /**
    A line is split exactly if it starts with a slash and then anything but white space: into the longest
    word after the slash, and what stands behind the one white-space character that ends it.
   */
  lemma SplitMeans(msg: string)
    ensures Split(msg) == None <==> |msg| < 2 || msg[0] != '/' || MessageText.IsSpace(msg[1])
    ensures Split(msg) != None ==>
              var (word, args) := Split(msg).value;
              && word != [] && (forall c | c in word :: !MessageText.IsSpace(c))
              && (if |msg| == |word| + 1 then msg == "/" + word && args == ""
                  else |msg| > |word| + 1 && MessageText.IsSpace(msg[|word| + 1])
                       && msg == "/" + word + [msg[|word| + 1]] + args)
  {
  }

  lemma {:induction false} WordEnds(word: string, rest: string)
    requires forall c | c in word :: !MessageText.IsSpace(c)
    requires rest == [] || MessageText.IsSpace(rest[0])
    ensures Word(word + rest) == |word|
  {
    if word == [] {
      assert word + rest == rest;
    } else {
      assert (word + rest)[1..] == word[1..] + rest;
      WordEnds(word[1..], rest);
    }
  }

  // ---------- the rules of processing ----------

  datatype Reason = Loops | TooFew | TooMany | Forbidden

  datatype Entry = Ran(command: Command) | Failed(command: Command, why: Reason) | Sent(text: string)

  datatype State = State(inCommand: bool, processing: set<Command>, log: seq<Entry>)

  /** The commands in force, and how many arguments a text holds. */
  datatype Table = Table(commands: map<string, Command>, argCount: string -> nat)

  ghost function Idle(t: Table, st: State): nat {
    |t.commands.Values - st.processing|
  }

  lemma OneLessIdle(t: Table, st: State, c: Command)
    requires c in t.commands.Values && c !in st.processing
    ensures Idle(t, st.(processing := st.processing + {c})) < Idle(t, st)
  {
    var rest := t.commands.Values - (st.processing + {c});
    assert t.commands.Values - st.processing == rest + {c};
  }

  ghost function Refusal(t: Table, st: State, c: Command, args: string): Option<Reason> {
    if c in st.processing then Some(Loops)
    else if t.argCount(args) < c.minArgs then Some(TooFew)
    else if c.maxArgs > -1 && t.argCount(args) > c.maxArgs then Some(TooMany)
    else if !c.authorized then Some(Forbidden)
    else None
  }

  /** Command::processCommand */
  ghost function AfterCommand(t: Table, st: State, c: Command, args: string): (r: State)
    requires c in t.commands.Values
    ensures r.inCommand == st.inCommand && r.processing == st.processing && st.log <= r.log
    decreases Idle(t, st), 1, 0
  {
    var no := Refusal(t, st, c, args);
    if no.Some? then st.(log := st.log + [Failed(c, no.value)])
    else
      var running := st.(processing := st.processing + {c}, log := st.log + [Ran(c)]);
      OneLessIdle(t, st, c);
      var after := if c.kind != Normal then AfterMessage(t, running, "/" + c.expansion(args)).0
                   else AfterSending(t, running, c.resends(args));
      after.(processing := after.processing - {c})
  }

  /** CommandHandler::processMessage: the new state, and whether the text was a command. */
  ghost function AfterMessage(t: Table, st: State, msg: string): (r: (State, bool))
    ensures r.0.inCommand == st.inCommand && r.0.processing == st.processing && st.log <= r.0.log
    decreases Idle(t, st), 2, 0
  {
    if st.inCommand || Split(msg).None? then (st, false)
    else
      var (word, args) := Split(msg).value;
      if word !in t.commands then (st, false)
      else
        var c := t.commands[word];
        var begun := if c.kind == Normal then st.(inCommand := true) else st;
        (AfterCommand(t, begun, c, args).(inCommand := false), true)
  }

  /** ChatSession::sendMessage on each text in turn: what is no command is sent. */
  ghost function AfterSending(t: Table, st: State, texts: seq<string>): (r: State)
    ensures r.inCommand == st.inCommand && r.processing == st.processing && st.log <= r.log
    decreases Idle(t, st), 3, |texts|
  {
    if texts == [] then st
    else
      var (after, handled) := AfterMessage(t, st, texts[0]);
      AfterSending(t, if handled then after else after.(log := after.log + [Sent(texts[0])]), texts[1..])
  }

  /**
    A command that is not being processed already, gets as many arguments as it asks for and is allowed
    runs; of any other the only news is an error, for the first of these reasons.
   */
  lemma RunsOrFails(t: Table, st: State, c: Command, args: string)
    requires c in t.commands.Values
    ensures var n, log := t.argCount(args), News(st, AfterCommand(t, st, c, args));
            if c in st.processing then log == [Failed(c, Loops)]
            else if n < c.minArgs then log == [Failed(c, TooFew)]
            else if 0 <= c.maxArgs < n then log == [Failed(c, TooMany)]
            else if !c.authorized then log == [Failed(c, Forbidden)]
            else log != [] && log[0] == Ran(c)
  {
    if Refusal(t, st, c, args) == None {
      RunFirst(t, st, c, args, st.(processing := st.processing + {c}, log := st.log + [Ran(c)]));
    }
    hide AfterMessage, AfterSending;
  }

  // ---------- what one typed line can set off ----------

  ghost predicate AllSent(log: seq<Entry>) {
    forall e | e in log :: e.Sent?
  }

  /** Aliases one after another, each for the first time; then nothing, one error, or one handler and what it sends. */
  ghost predicate OneLine(log: seq<Entry>, processing: set<Command>)
    decreases |log|
  {
    log == [] ||
    match log[0]
    case Failed(_, _) => |log| == 1
    case Sent(_) => false
    case Ran(c) =>
      c !in processing && if c.kind == Normal then AllSent(log[1..]) else OneLine(log[1..], processing + {c})
  }

  ghost function News(before: State, after: State): seq<Entry>
    requires before.log <= after.log
  {
    after.log[|before.log|..]
  }

  lemma {:induction false} RefusedAreSent(t: Table, st: State, texts: seq<string>)
    requires st.inCommand
    ensures AllSent(News(st, AfterSending(t, st, texts)))
    decreases |texts|
  {
    if texts != [] {
      var next := st.(log := st.log + [Sent(texts[0])]);
      RefusedAreSent(t, next, texts[1..]);
      var r := AfterSending(t, st, texts);
      assert AfterMessage(t, st, texts[0]) == (st, false);
      assert r == AfterSending(t, next, texts[1..]);
      assert News(st, r) == [Sent(texts[0])] + News(next, r);
    }
  }

  function Sents(texts: seq<string>): seq<Entry> {
    seq(|texts|, i requires 0 <= i < |texts| => Sent(texts[i]))
  }

  /** While a handler runs, whatever is sent is sent as it is. */
  lemma {:induction false} RefusedIsSent(t: Table, st: State, texts: seq<string>)
    requires st.inCommand
    ensures News(st, AfterSending(t, st, texts)) == Sents(texts)
    decreases |texts|
  {
    if texts != [] {
      var next := st.(log := st.log + [Sent(texts[0])]);
      RefusedIsSent(t, next, texts[1..]);
      var r := AfterSending(t, st, texts);
      assert AfterMessage(t, st, texts[0]) == (st, false);
      assert r == AfterSending(t, next, texts[1..]);
      assert News(st, r) == [Sent(texts[0])] + News(next, r);
    }
  }

  lemma {:induction false} CommandIsOneLine(t: Table, st: State, c: Command, args: string)
    requires c in t.commands.Values && st.inCommand == (c.kind == Normal)
    ensures OneLine(News(st, AfterCommand(t, st, c, args)), st.processing)
    decreases Idle(t, st), 1
  {
    if Refusal(t, st, c, args).None? {
      var running := st.(processing := st.processing + {c}, log := st.log + [Ran(c)]);
      OneLessIdle(t, st, c);
      RunFirst(t, st, c, args, running);
      hide AfterCommand, AfterMessage, AfterSending, Refusal, Idle;
      if c.kind == Normal {
        RefusedAreSent(t, running, c.resends(args));
      } else {
        MessageIsOneLine(t, running, "/" + c.expansion(args));
      }
    }
  }

  /** The first news of an accepted command is that it runs. */
  lemma RunFirst(t: Table, st: State, c: Command, args: string, running: State)
    requires c in t.commands.Values && Refusal(t, st, c, args).None?
    requires running == st.(processing := st.processing + {c}, log := st.log + [Ran(c)])
    ensures Idle(t, running) < Idle(t, st)
    ensures var log := News(st, AfterCommand(t, st, c, args));
            && log != [] && log[0] == Ran(c)
            && log[1..] == (if c.kind == Normal then News(running, AfterSending(t, running, c.resends(args)))
                            else News(running, AfterMessage(t, running, "/" + c.expansion(args)).0))
  {
    OneLessIdle(t, st, c);
    var after := if c.kind != Normal then AfterMessage(t, running, "/" + c.expansion(args)).0
                 else AfterSending(t, running, c.resends(args));
    assert AfterCommand(t, st, c, args).log == after.log;
    assert News(st, AfterCommand(t, st, c, args)) == News(st, after);
    NewsChain(st, running, after);
    OneEntry(st, Ran(c));
    HeadAndTail(Ran(c), News(running, after));
    hide *;
  }

  lemma HeadAndTail(e: Entry, log: seq<Entry>)
    ensures [e] + log != [] && ([e] + log)[0] == e && ([e] + log)[1..] == log
  {
  }

  /** A typed line, whatever the aliases expand to. */
  lemma {:induction false} MessageIsOneLine(t: Table, st: State, msg: string)
    requires !st.inCommand
    ensures OneLine(News(st, AfterMessage(t, st, msg).0), st.processing)
    decreases Idle(t, st), 2
  {
    if Split(msg).Some? && Split(msg).value.0 in t.commands {
      var (word, args) := Split(msg).value;
      var c := t.commands[word];
      var begun := if c.kind == Normal then st.(inCommand := true) else st;
      CommandIsOneLine(t, begun, c, args);
      assert News(st, AfterMessage(t, st, msg).0) == News(begun, AfterCommand(t, begun, c, args));
    }
  }

  /** In such a log no command runs twice and at most one of those that run is no alias. */
  lemma {:induction false} OneLineMeans(log: seq<Entry>, processing: set<Command>)
    requires OneLine(log, processing)
    ensures forall i | 0 <= i < |log| && log[i].Ran? :: log[i].command !in processing
    ensures forall i, j | 0 <= i < j < |log| && log[i].Ran? && log[j].Ran? :: log[i].command != log[j].command
    ensures forall i, j | 0 <= i < j < |log| && log[i].Ran? && log[j].Ran? :: log[i].command.kind != Normal
    decreases |log|
  {
    if log != [] && log[0].Ran? {
      var rest := log[1..];
      assert forall i | 0 < i < |log| :: log[i] == rest[i - 1] && log[i] in rest;
      if log[0].command.kind != Normal {
        OneLineMeans(rest, processing + {log[0].command});
      }
    }
  }

  /** However the aliases are defined, a typed line runs each command at most once and at most one handler. */
  lemma TypedLine(t: Table, st: State, msg: string)
    requires !st.inCommand
    ensures var r := AfterMessage(t, st, msg).0;
            var log := News(st, r);
            && r.inCommand == st.inCommand && r.processing == st.processing
            && (forall i, j | 0 <= i < j < |log| && log[i].Ran? && log[j].Ran? ::
                  log[i].command != log[j].command && log[i].command.kind != Normal)
  {
    MessageIsOneLine(t, st, msg);
    OneLineMeans(News(st, AfterMessage(t, st, msg).0), st.processing);
  }

  // ---------- where an alias chain ends ----------

  /** A text ends at a text that is no known command, at a command that is refused, or at a handler. */
  datatype End = Unknown(text: string) | Refused(command: Command, why: Reason) | Handler(command: Command)

  ghost function EndOf(t: Table, st: State, msg: string): End
    decreases Idle(t, st)
  {
    if Split(msg).None? || Split(msg).value.0 !in t.commands then Unknown(msg)
    else
      var (word, args) := Split(msg).value;
      var c := t.commands[word];
      if Refusal(t, st, c, args).Some? then Refused(c, Refusal(t, st, c, args).value)
      else if c.kind == Normal then Handler(c)
      else
        OneLessIdle(t, st, c);
        EndOf(t, st.(processing := st.processing + {c}), "/" + c.expansion(args))
  }

  /** Only the commands being processed matter to where a text ends. */
  lemma {:induction false} EndAgrees(t: Table, st: State, other: State, msg: string)
    requires st.processing == other.processing
    ensures EndOf(t, st, msg) == EndOf(t, other, msg)
    decreases Idle(t, st)
  {
    if Split(msg).Some? && Split(msg).value.0 in t.commands {
      var (word, args) := Split(msg).value;
      var c := t.commands[word];
      if Refusal(t, st, c, args).None? {
        OneLessIdle(t, st, c);
        EndAgrees(t, st.(processing := st.processing + {c}), other.(processing := st.processing + {c}),
                  "/" + c.expansion(args));
      }
    }
  }

  /** Some handler ran. */
  ghost predicate RunsHandler(log: seq<Entry>) {
    exists e :: e in log && e.Ran? && e.command.kind == Normal
  }

  /** Nothing ran but aliases: no handler, no error, nothing sent. */
  ghost predicate Quiet(log: seq<Entry>) {
    forall e | e in log :: e.Ran? && e.command.kind != Normal
  }

  lemma Concatenated(a: seq<Entry>, b: seq<Entry>)
    ensures RunsHandler(a + b) <==> RunsHandler(a) || RunsHandler(b)
    ensures Quiet(a + b) <==> Quiet(a) && Quiet(b)
  {
    assert forall e :: e in a + b <==> e in a || e in b;
  }

  lemma NewsChain(a: State, b: State, c: State)
    requires a.log <= b.log <= c.log
    ensures News(a, c) == News(a, b) + News(b, c)
  {
  }

  lemma OneEntry(st: State, e: Entry)
    ensures News(st, st.(log := st.log + [e])) == [e]
    ensures RunsHandler([e]) <==> e.Ran? && e.command.kind == Normal
    ensures Quiet([e]) <==> e.Ran? && e.command.kind != Normal
  {
    assert e in [e];
  }

  lemma NoEntry(st: State)
    ensures News(st, st) == [] && !RunsHandler([]) && Quiet([])
  {
  }

  /** A text sent while no handler runs: its chain's end decides whether a handler runs, and whether it is quiet. */
  lemma {:induction false} EndDecides(t: Table, st: State, msg: string)
    requires !st.inCommand
    ensures RunsHandler(News(st, AfterMessage(t, st, msg).0)) <==> EndOf(t, st, msg).Handler?
    ensures Quiet(News(st, AfterMessage(t, st, msg).0)) <==> EndOf(t, st, msg).Unknown?
    decreases Idle(t, st)
  {
    if Split(msg).None? || Split(msg).value.0 !in t.commands {
      NoEntry(st);
    } else {
      var (word, args) := Split(msg).value;
      var c := t.commands[word];
      var begun := if c.kind == Normal then st.(inCommand := true) else st;
      var after := AfterCommand(t, begun, c, args);
      assert News(st, AfterMessage(t, st, msg).0) == News(begun, after);
      assert Refusal(t, begun, c, args) == Refusal(t, st, c, args);
      if Refusal(t, st, c, args).Some? {
        OneEntry(begun, Failed(c, Refusal(t, st, c, args).value));
      } else {
        CommandDecides(t, begun, c, args);
        if c.kind != Normal {
          OneLessIdle(t, st, c);
          var running := begun.(processing := begun.processing + {c}, log := begun.log + [Ran(c)]);
          EndDecides(t, running, "/" + c.expansion(args));
          EndAgrees(t, running, st.(processing := st.processing + {c}), "/" + c.expansion(args));
        }
      }
    }
  }

  /** What an accepted command adds: itself, and what its expansion, or what its handler sends, sets off. */
  lemma CommandDecides(t: Table, st: State, c: Command, args: string)
    requires c in t.commands.Values && Refusal(t, st, c, args).None?
    ensures var running := st.(processing := st.processing + {c}, log := st.log + [Ran(c)]);
            var log := News(st, AfterCommand(t, st, c, args));
            if c.kind == Normal then
              && RunsHandler(log) && !Quiet(log)
              && log == [Ran(c)] + News(running, AfterSending(t, running, c.resends(args)))
            else
              var inner := News(running, AfterMessage(t, running, "/" + c.expansion(args)).0);
              (RunsHandler(log) <==> RunsHandler(inner)) && (Quiet(log) <==> Quiet(inner))
  {
    var running := st.(processing := st.processing + {c}, log := st.log + [Ran(c)]);
    var after := if c.kind != Normal then AfterMessage(t, running, "/" + c.expansion(args)).0
                 else AfterSending(t, running, c.resends(args));
    assert AfterCommand(t, st, c, args).log == after.log;
    NewsChain(st, running, after);
    OneEntry(st, Ran(c));
    Concatenated([Ran(c)], News(running, after));
    hide AfterMessage, AfterSending, AfterCommand;
  }

  /** Some text ends at an accepted handler. */
  ghost predicate AnyEnds(t: Table, st: State, texts: seq<string>) {
    exists text :: text in texts && EndOf(t, st, text).Handler?
  }

  lemma AnyEndsStep(t: Table, st: State, next: State, texts: seq<string>)
    requires texts != [] && st.processing == next.processing
    ensures AnyEnds(t, st, texts) <==> EndOf(t, st, texts[0]).Handler? || AnyEnds(t, next, texts[1..])
  {
    assert texts == [texts[0]] + texts[1..];
    forall text ensures EndOf(t, st, text) == EndOf(t, next, text) {
      EndAgrees(t, st, next, text);
    }
    hide EndOf;
  }

  /** One text, and the state after ChatSession::sendMessage of it. */
  lemma OneText(t: Table, st: State, text: string, next: State)
    requires !st.inCommand
    requires var (after, handled) := AfterMessage(t, st, text);
             next == if handled then after else after.(log := after.log + [Sent(text)])
    ensures st.log <= next.log && next.processing == st.processing && next.inCommand == st.inCommand
    ensures RunsHandler(News(st, next)) <==> EndOf(t, st, text).Handler?
  {
    var (after, handled) := AfterMessage(t, st, text);
    EndDecides(t, st, text);
    if !handled {
      OneEntry(after, Sent(text));
      NewsChain(st, after, next);
      Concatenated(News(st, after), News(after, next));
    }
    hide News, RunsHandler, Quiet, EndOf;
  }

  /** Texts sent one after the other, with no handler running, run a handler exactly when one of them ends at one. */
  lemma {:induction false} SendingDecides(t: Table, st: State, texts: seq<string>)
    requires !st.inCommand
    ensures RunsHandler(News(st, AfterSending(t, st, texts))) <==> AnyEnds(t, st, texts)
    decreases |texts|
  {
    if texts == [] {
      NoEntry(st);
    } else {
      var (after, handled) := AfterMessage(t, st, texts[0]);
      var next := if handled then after else after.(log := after.log + [Sent(texts[0])]);
      var r := AfterSending(t, next, texts[1..]);
      assert r == AfterSending(t, st, texts);
      OneText(t, st, texts[0], next);
      SendingDecides(t, next, texts[1..]);
      NewsChain(st, next, r);
      Concatenated(News(st, next), News(next, r));
      AnyEndsStep(t, st, next, texts);
      hide *;
    }
  }

  /**
    A handler chosen from a menu is not under the protection of the flag. It runs no second handler
    exactly when none of the texts it sends ends at an accepted one.
   */
  lemma MenuStart(t: Table, st: State, c: Command, args: string)
    requires c in t.commands.Values && c.kind == Normal && !st.inCommand && Refusal(t, st, c, args).None?
    ensures var log := News(st, AfterCommand(t, st, c, args));
            var running := st.(processing := st.processing + {c});
            log != [] && log[0] == Ran(c) && (RunsHandler(log[1..]) <==> AnyEnds(t, running, c.resends(args)))
  {
    var running := st.(processing := st.processing + {c}, log := st.log + [Ran(c)]);
    CommandDecides(t, st, c, args);
    SendingDecides(t, running, c.resends(args));
    AnyEndsAgrees(t, running, st.(processing := st.processing + {c}), c.resends(args));
    var log := News(st, AfterCommand(t, st, c, args));
    assert log[1..] == News(running, AfterSending(t, running, c.resends(args)));
    hide AfterCommand, AfterSending, AnyEnds, RunsHandler;
  }

  lemma AnyEndsAgrees(t: Table, st: State, other: State, texts: seq<string>)
    requires st.processing == other.processing
    ensures AnyEnds(t, st, texts) <==> AnyEnds(t, other, texts)
  {
    forall text ensures EndOf(t, st, text) == EndOf(t, other, text) {
      EndAgrees(t, st, other, text);
    }
    hide EndOf;
  }

  /** A handler started from the menu may run a second one: a handler that sends a command for another. */
  lemma MenuRunsTwo(t: Table, st: State, a: Command, b: Command, word: string)
    requires a in t.commands.Values && a.kind == Normal && b.kind == Normal && a != b && !st.inCommand
    requires word != [] && (forall c | c in word :: !MessageText.IsSpace(c))
    requires word in t.commands && t.commands[word] == b
    requires a.resends("") == ["/" + word] && b.resends("") == []
    requires Refusal(t, st, a, "").None? && Refusal(t, st, b, "").None?
    ensures News(st, AfterCommand(t, st, a, "")) == [Ran(a), Ran(b)]
  {
    SplitJoined(word, "");
    var running := st.(processing := st.processing + {a}, log := st.log + [Ran(a)]);
    var begun := running.(inCommand := true);
    assert Refusal(t, begun, b, "").None?;
    var busy := begun.(processing := begun.processing + {b}, log := begun.log + [Ran(b)]);
    assert AfterSending(t, busy, []) == busy;
    assert AfterCommand(t, begun, b, "").log == busy.log;
    var inner := AfterMessage(t, running, "/" + word).0;
    assert inner.log == running.log + [Ran(b)];
    assert AfterSending(t, running, ["/" + word]) == inner by {
      assert ["/" + word][1..] == [];
    }
  }

  /**
    A typed line that counts as a command is swallowed, with no handler run, nothing sent and no error,
    exactly when its alias chain ends in a text that is no known command.
   */
  lemma Swallowed(t: Table, st: State, msg: string)
    requires !st.inCommand && AfterMessage(t, st, msg).1
    ensures Quiet(News(st, AfterMessage(t, st, msg).0)) <==> EndOf(t, st, msg).Unknown?
  {
    EndDecides(t, st, msg);
  }

  /** An alias for a word nobody knows is such a line. */
  lemma AliasForNothing(t: Table, st: State, c: Command, word: string)
    requires !st.inCommand && word != [] && (forall x | x in word :: !MessageText.IsSpace(x))
    requires word in t.commands && t.commands[word] == c && c.kind != Normal && Refusal(t, st, c, "").None?
    requires Split("/" + c.expansion("")).None? || Split("/" + c.expansion("")).value.0 !in t.commands
    ensures var r := AfterMessage(t, st, "/" + word);
            r.1 && News(st, r.0) == [Ran(c)]
  {
    SplitJoined(word, "");
    var running := st.(processing := st.processing + {c}, log := st.log + [Ran(c)]);
    assert AfterMessage(t, running, "/" + c.expansion("")) == (running, false);
    OneEntry(st, Ran(c));
  }

  /** A typed command that is no alias runs, and what its handler sends is sent, commands or not. */
  lemma TypedCommand(t: Table, st: State, c: Command, word: string, args: string)
    requires !st.inCommand && word != [] && (forall x | x in word :: !MessageText.IsSpace(x))
    requires word in t.commands && t.commands[word] == c && c.kind == Normal && Refusal(t, st, c, args) == None
    ensures var r := AfterMessage(t, st, "/" + word + " " + args);
            r.1 && News(st, r.0) == [Ran(c)] + Sents(c.resends(args))
  {
    SplitJoined(word, args);
    var begun := st.(inCommand := true);
    assert Refusal(t, begun, c, args) == None;
    CommandDecides(t, begun, c, args);
    RefusedIsSent(t, begun.(processing := begun.processing + {c}, log := begun.log + [Ran(c)]), c.resends(args));
    hide AfterCommand, Sents, AfterSending;
  }

  /** A typed alias runs, and then the command that its text names, on the arguments that follow there. */
  lemma TypedAlias(t: Table, st: State, a: Command, c: Command, word: string, args: string, name: string, more: string)
    requires !st.inCommand && word != [] && (forall x | x in word :: !MessageText.IsSpace(x))
    requires name != [] && (forall x | x in name :: !MessageText.IsSpace(x))
    requires word in t.commands && t.commands[word] == a && a.kind != Normal && Refusal(t, st, a, args) == None
    requires name in t.commands && t.commands[name] == c && c.kind == Normal && Refusal(t, st, c, more) == None
    requires a.expansion(args) == name + " " + more
    ensures var r := AfterMessage(t, st, "/" + word + " " + args);
            r.1 && News(st, r.0) == [Ran(a), Ran(c)] + Sents(c.resends(more))
  {
    var running := st.(processing := st.processing + {a}, log := st.log + [Ran(a)]);
    hide *;
    StillAccepted(t, st, a, c, more);
    TypedIs(t, st, a, word, args);
    RunFirst(t, st, a, args, running);
    TypedCommand(t, running, c, name, more);
    var text := "/" + name + " " + more;
    assert "/" + a.expansion(args) == text;
    var inner := News(running, AfterMessage(t, running, text).0);
    HeadTail(News(st, AfterCommand(t, st, a, args)));
    Prepend(Ran(a), Ran(c), Sents(c.resends(more)));
  }

  lemma Prepend(x: Entry, y: Entry, log: seq<Entry>)
    ensures [x] + ([y] + log) == [x, y] + log
  {
  }

  lemma StillAccepted(t: Table, st: State, a: Command, c: Command, args: string)
    requires a != c && Refusal(t, st, c, args) == None
    ensures Refusal(t, st.(processing := st.processing + {a}, log := st.log + [Ran(a)]), c, args) == None
  {
  }

  lemma HeadTail(log: seq<Entry>)
    requires log != []
    ensures log == [log[0]] + log[1..]
  {
  }

  /** A typed alias is what it is as a command. */
  lemma TypedIs(t: Table, st: State, a: Command, word: string, args: string)
    requires !st.inCommand && word != [] && (forall x | x in word :: !MessageText.IsSpace(x))
    requires word in t.commands && t.commands[word] == a && a.kind != Normal
    ensures var r := AfterMessage(t, st, "/" + word + " " + args);
            r.1 && News(st, r.0) == News(st, AfterCommand(t, st, a, args))
  {
    SplitJoined(word, args);
    hide AfterCommand, Split;
  }

  // ---------- the commands in force ----------

  /** A dictionary of commands in the order it is iterated in. */
  type Bucket = seq<(string, Command)>

  function OfKind(from: Bucket, kind: Option<Kind>): Bucket {
    if from == [] then []
    else (if kind == None || kind == Some(from[0].1.kind) then [from[0]] else []) + OfKind(from[1..], kind)
  }

  function Merge(to: map<string, Command>, from: Bucket): map<string, Command>
    decreases from
  {
    if from == [] then to
    else Merge(if from[0].0 in to then to else to[from[0].0 := from[0].1], from[1..])
  }

  function FirstNamed(from: Bucket, word: string): Option<Command> {
    if from == [] then None else if from[0].0 == word then Some(from[0].1) else FirstNamed(from[1..], word)
  }

  function Lookup(m: map<string, Command>, word: string): Option<Command> {
    if word in m then Some(m[word]) else None
  }

  function OrElse(a: Option<Command>, b: Option<Command>): Option<Command> {
    if a.Some? then a else b
  }

  /** Nothing merged later replaces what is there; among the newcomers the first of a name is taken. */
  lemma {:induction false} FirstWins(to: map<string, Command>, from: Bucket, word: string)
    ensures Lookup(Merge(to, from), word) == OrElse(Lookup(to, word), FirstNamed(from, word))
    decreases from
  {
    if from != [] {
      FirstWins(if from[0].0 in to then to else to[from[0].0 := from[0].1], from[1..], word);
    }
  }

  function MergeAll(to: map<string, Command>, buckets: seq<Bucket>): map<string, Command>
    decreases buckets
  {
    if buckets == [] then to else MergeAll(Merge(to, buckets[0]), buckets[1..])
  }

  function FirstOf(buckets: seq<Bucket>, word: string): Option<Command> {
    if buckets == [] then None else OrElse(FirstNamed(buckets[0], word), FirstOf(buckets[1..], word))
  }

  lemma {:induction false} FirstBucketWins(to: map<string, Command>, buckets: seq<Bucket>, word: string)
    ensures Lookup(MergeAll(to, buckets), word) == OrElse(Lookup(to, word), FirstOf(buckets, word))
    decreases buckets
  {
    if buckets != [] {
      FirstWins(to, buckets[0], word);
      FirstBucketWins(Merge(to, buckets[0]), buckets[1..], word);
    }
  }

  /** A dictionary in order of precedence: user aliases, system aliases, then everything. */
  function Ranked(from: Bucket): seq<Bucket> {
    [OfKind(from, Some(UserAlias)), OfKind(from, Some(SystemAlias)), OfKind(from, None)]
  }

  function InForce(protocol: Bucket, plugins: seq<Bucket>, own: Bucket): map<string, Command> {
    MergeAll(MergeAll(MergeAll(map[], Ranked(protocol)), plugins), Ranked(own))
  }

  /** The protocol's commands come before the plugins', those before the built-in ones; aliases before the rest. */
  lemma Precedence(protocol: Bucket, plugins: seq<Bucket>, own: Bucket, word: string)
    ensures Lookup(InForce(protocol, plugins, own), word)
            == OrElse(FirstOf(Ranked(protocol), word), OrElse(FirstOf(plugins, word), FirstOf(Ranked(own), word)))
  {
    FirstBucketWins(map[], Ranked(protocol), word);
    FirstBucketWins(MergeAll(map[], Ranked(protocol)), plugins, word);
    FirstBucketWins(MergeAll(MergeAll(map[], Ranked(protocol)), plugins), Ranked(own), word);
  }

  ghost predicate NamesDiffer(from: Bucket) {
    forall i, j | 0 <= i < j < |from| :: from[i].0 != from[j].0
  }

  lemma {:induction false} OfKindNamed(from: Bucket, kind: Option<Kind>, word: string)
    requires NamesDiffer(from)
    ensures FirstNamed(OfKind(from, kind), word) ==
            var c := FirstNamed(from, word);
            if c != None && kind != None && c.value.kind != kind.value then None else c
  {
    if from != [] {
      var rest := from[1..];
      assert forall i | 0 <= i < |rest| :: rest[i] == from[i + 1];
      OfKindNamed(rest, kind, word);
      NotNamed(rest, from[0].0);
      assert forall i | 0 <= i < |rest| :: rest[i].0 != from[0].0;
      if kind == None || kind == Some(from[0].1.kind) {
        assert ([from[0]] + OfKind(rest, kind))[1..] == OfKind(rest, kind);
      } else {
        assert [] + OfKind(rest, kind) == OfKind(rest, kind);
      }
    }
  }

  lemma {:induction false} NotNamed(from: Bucket, word: string)
    ensures FirstNamed(from, word) == None <==> forall i | 0 <= i < |from| :: from[i].0 != word
  {
    if from != [] {
      var rest := from[1..];
      assert forall i | 0 <= i < |rest| :: rest[i] == from[i + 1];
      NotNamed(rest, word);
    }
  }

  /**
    A dictionary has one command of a name. So whatever the ranking of aliases in it is meant for, a name
    stands for the protocol's command, else for that of the first plugin that has one, else for the built-in one.
   */
  lemma RankingIsMoot(protocol: Bucket, plugins: seq<Bucket>, own: Bucket, word: string)
    requires NamesDiffer(protocol) && NamesDiffer(own)
    ensures Lookup(InForce(protocol, plugins, own), word)
            == OrElse(FirstNamed(protocol, word), OrElse(FirstOf(plugins, word), FirstNamed(own, word)))
  {
    Precedence(protocol, plugins, own, word);
    RankedNamed(protocol, word);
    RankedNamed(own, word);
  }

  lemma RankedNamed(from: Bucket, word: string)
    requires NamesDiffer(from)
    ensures FirstOf(Ranked(from), word) == FirstNamed(from, word)
  {
    OfKindNamed(from, Some(UserAlias), word);
    OfKindNamed(from, Some(SystemAlias), word);
    OfKindNamed(from, None, word);
    var u, s, e := OfKind(from, Some(UserAlias)), OfKind(from, Some(SystemAlias)), OfKind(from, None);
    var all: seq<Bucket>, two: seq<Bucket>, last: seq<Bucket> := [u, s, e], [s, e], [e];
    assert all[1..] == two && two[1..] == last && last[1..] == [];
    hide OfKind, FirstNamed;
    assert FirstOf(all, word) == OrElse(FirstNamed(u, word), FirstOf(two, word));
    assert FirstOf(two, word) == OrElse(FirstNamed(s, word), FirstOf(last, word));
    assert FirstOf(last, word) == OrElse(FirstNamed(e, word), None);
  }

  lemma MergeOne(to: map<string, Command>, entry: (string, Command), rest: Bucket)
    ensures Merge(to, [entry] + rest) == Merge(if entry.0 in to then to else to[entry.0 := entry.1], rest)
  {
    assert ([entry] + rest)[1..] == rest;
  }

  lemma MergeThree(to: map<string, Command>, from: Bucket)
    ensures MergeAll(to, Ranked(from))
            == Merge(Merge(Merge(to, OfKind(from, Some(UserAlias))), OfKind(from, Some(SystemAlias))),
                     OfKind(from, None))
  {
    var u, s, e := OfKind(from, Some(UserAlias)), OfKind(from, Some(SystemAlias)), OfKind(from, None);
    var all: seq<Bucket>, two: seq<Bucket>, last: seq<Bucket> := [u, s, e], [s, e], [e];
    assert all[1..] == two && two[1..] == last && last[1..] == [];
    assert MergeAll(Merge(Merge(to, u), s), last) == MergeAll(Merge(Merge(Merge(to, u), s), e), []);
    assert MergeAll(Merge(to, u), two) == MergeAll(Merge(Merge(to, u), s), last);
  }

  /** CommandHandler::addCommands */
  method AddCommands(from: Bucket, to: map<string, Command>, kind: Option<Kind>) returns (r: map<string, Command>)
    ensures r == Merge(to, OfKind(from, kind))
  {
    r := to;
    for i := 0 to |from|
      invariant Merge(r, OfKind(from[i..], kind)) == Merge(to, OfKind(from, kind))
    {
      assert from[i..][0] == from[i] && from[i..][1..] == from[i + 1..];
      MergeOne(r, from[i], OfKind(from[i + 1..], kind));
      assert kind != None && kind != Some(from[i].1.kind) ==> OfKind(from[i..], kind) == OfKind(from[i + 1..], kind);
      if from[i].0 !in r && (kind == None || kind == Some(from[i].1.kind)) {
        r := r[from[i].0 := from[i].1];
      }
    }
  }

  method AddRanked(from: Bucket, to: map<string, Command>) returns (r: map<string, Command>)
    ensures r == MergeAll(to, Ranked(from))
  {
    r := AddCommands(from, to, Some(UserAlias));
    r := AddCommands(from, r, Some(SystemAlias));
    r := AddCommands(from, r, None);
    MergeThree(to, from);
  }

  class CommandHandler {
    var inCommand: bool
    // The registered commands: the protocol's, each plugin's, and the handler's own.
    const protocol: Bucket
    const plugins: seq<Bucket>
    const own: Bucket
    const argCount: string -> nat
    // Everything that ran, failed or was sent, in order.
    var log: seq<Entry>

    constructor (protocol: Bucket, plugins: seq<Bucket>, own: Bucket, argCount: string -> nat)
      ensures !inCommand && log == [] && InUse() == Table(InForce(protocol, plugins, own), argCount)
    {
      this.protocol := protocol;
      this.plugins := plugins;
      this.own := own;
      this.argCount := argCount;
      inCommand := false;
      log := [];
    }

    function InUse(): Table
    {
      Table(InForce(protocol, plugins, own), argCount)
    }

    ghost function Snapshot(): State
      reads this, InUse().commands.Values
    {
      State(inCommand, (set c | c in InUse().commands.Values && c.processing), log)
    }

    /** CommandHandler::commands */
    method CommandsFor() returns (r: map<string, Command>)
      ensures r == InUse().commands
    {
      r := AddRanked(protocol, map[]);
      for i := 0 to |plugins|
        invariant MergeAll(r, plugins[i..]) == MergeAll(MergeAll(map[], Ranked(protocol)), plugins)
      {
        assert plugins[i..][0] == plugins[i] && plugins[i..][1..] == plugins[i + 1..];
        EveryKind(plugins[i]);
        r := AddCommands(plugins[i], r, None);
      }
      r := AddRanked(own, r);
    }

    method PrintError(c: Command, why: Reason)
      modifies this`log
      ensures Snapshot() == old(Snapshot()).(log := old(log) + [Failed(c, why)])
    {
      log := log + [Failed(c, why)];
    }

    method Begin(c: Command)
      requires c in InUse().commands.Values
      modifies this`log, c`processing
      ensures Snapshot() == old(Snapshot()).(processing := old(Snapshot()).processing + {c}, log := old(log) + [Ran(c)])
    {
      c.processing := true;
      log := log + [Ran(c)];
    }

    method End(c: Command)
      modifies c`processing
      ensures Snapshot() == old(Snapshot()).(processing := old(Snapshot()).processing - {c})
    {
      c.processing := false;
    }

    method SetInCommand(b: bool)
      modifies this`inCommand
      ensures Snapshot() == old(Snapshot()).(inCommand := b)
    {
      inCommand := b;
    }

    method ProcessMessage(msg: string) returns (handled: bool)
      modifies this`inCommand, this`log, InUse().commands.Values
      ensures (Snapshot(), handled) == AfterMessage(InUse(), old(Snapshot()), msg)
      decreases Idle(InUse(), Snapshot()), 2, 0
    {
      hide InForce, AfterCommand, Split;
      if inCommand {
        return false;
      }
      var split := Split(msg);
      if split == None {
        return false;
      }
      var (word, args) := split.value;
      assert allocated(InUse().commands);
      var commands := CommandsFor();
      assert commands == InUse().commands;
      assert Snapshot().processing == old(Snapshot()).processing;
      hide Word;
      if word !in commands {
        return false;
      }
      var c := commands[word];
      if c.kind != SystemAlias && c.kind != UserAlias {
        SetInCommand(true);
      }
      c.ProcessCommand(args, this);
      SetInCommand(false);
      return true;
    }

    method Send(text: string)
      modifies this`log
      ensures Snapshot() == old(Snapshot()).(log := old(log) + [Sent(text)])
    {
      log := log + [Sent(text)];
    }

    /** A handler's calls of ChatSession::sendMessage. */
    method SendAll(texts: seq<string>)
      modifies this`inCommand, this`log, InUse().commands.Values
      ensures Snapshot() == AfterSending(InUse(), old(Snapshot()), texts)
      decreases Idle(InUse(), Snapshot()), 3, |texts|
    {
      hide InForce, AfterMessage;
      if texts != [] {
        var handled := ProcessMessage(texts[0]);
        if !handled {
          Send(texts[0]);
        }
        SendAll(texts[1..]);
      }
    }
  }

  lemma {:induction false} EveryKind(from: Bucket)
    ensures OfKind(from, None) == from
  {
    if from != [] {
      EveryKind(from[1..]);
    }
  }
}
