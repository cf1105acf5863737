/**
 The host's test-output interpreter (boot.py: parse_host_command, forward_output). What a command
 does to the serial port is a parameter; when it is executed, and with which bytes still unread, is the model.
 */
module HostCommands {
  import opened Bytes

  type Text = seq<Byte>

  const NEWLINE: Byte := 0x0A
  const SPACE: Byte := 0x20
  /** "# HOST-CMD: " */
  const PREFIX: Text := [0x23, 0x20, 0x48, 0x4F, 0x53, 0x54, 0x2D, 0x43, 0x4D, 0x44, 0x3A, 0x20]
  const BEGIN: Text := [0x42, 0x45, 0x47, 0x49, 0x4E]
  const END: Text := [0x45, 0x4E, 0x44]
  const EXPECT: Text := [0x45, 0x58, 0x50, 0x45, 0x43, 0x54]
  const EXPECT_RESET: Text := [0x45, 0x58, 0x50, 0x45, 0x43, 0x54, 0x5F, 0x52, 0x45, 0x53, 0x45, 0x54]

  datatype Command = Command(name: Text, argument: Text)
  datatype Config = Config(baudRate: nat, byteSize: nat, parity: nat, stopBits: nat)
  datatype Queue = Queue(commands: seq<Command>, saved: Config)
  /** What the interpreter keeps between lines. */
  datatype Machine = Machine(config: Config, queue: Option<Queue>, log: seq<Command>, reset: Option<Text>)
  /** What commands do: a new configuration or an error; and which bytes an EXPECT argument stands for. */
  datatype Env = Env(execute: (Config, Command, Option<Config>) -> Option<Config>, expected: Text -> Option<Text>)
  /** A successful line, and the reads still to come. */
  datatype After = After(machine: Machine, port: seq<Text>)
  datatype Outcome =
    | Failed
    | Finished(config: Config, log: seq<Command>, forwarded: Text)
    | ResetExpected(argument: Text, config: Config, log: seq<Command>, forwarded: Text)
    | Waiting(machine: Machine, pending: Text, forwarded: Text)

  // ----- lines and commands

  /** The complete lines of a text, without their newlines. */
  function Lines(s: Text): seq<Text> {
    if NEWLINE !in s then []
    else
      var n := FirstOf(NEWLINE, s);
      [s[..n]] + Lines(s[n + 1..])
  }

  /** What follows the last newline. */
  function Rest(s: Text): Text {
    if NEWLINE !in s then s else Rest(s[FirstOf(NEWLINE, s) + 1..])
  }

  /** parse_host_command. */
  function ParseHostCommand(line: Text): Option<Command> {
    if !(PREFIX <= line) then None
    else
      var text := line[|PREFIX|..];
      if SPACE !in text then Some(Command(text, []))
      else
        var n := FirstOf(SPACE, text);
        Some(Command(text[..n], text[n + 1..]))
  }

  // ----- the port as the sequence of reads still to come

  function Flat(port: seq<Text>): Text {
    if port == [] then [] else port[0] + Flat(port[1..])
  }

  /** What is left after a read of n bytes that does not care where the reads were cut. */
  function Drop(port: seq<Text>, n: nat): (r: seq<Text>)
    ensures |r| <= |port|
    ensures n <= |Flat(port)| ==> Flat(r) == Flat(port)[n..]
    decreases |port|
  {
    if port == [] || n == 0 then port
    else if n < |port[0]| then
      assert [port[0][n..]] + port[1..] != [];
      [port[0][n..]] + port[1..]
    else Drop(port[1..], n - |port[0]|)
  }

  // ----- executing lines

  /** execute_host_command: EXPECT reads its bytes from the port itself. */
  function Execute(env: Env, m: Machine, c: Command, restore: Option<Config>, port: seq<Text>): (r: Option<After>)
    ensures r.Some? ==> |r.value.port| <= |port|
  {
    if c.name == EXPECT then
      match env.expected(c.argument)
      case None => None
      case Some(bytes) =>
        if bytes <= Flat(port) then Some(After(m.(log := m.log + [c]), Drop(port, |bytes|))) else None
    else
      match env.execute(m.config, c, restore)
      case None => None
      case Some(config) => Some(After(m.(config := config, log := m.log + [c]), port))
  }

  function ExecuteAll(env: Env, m: Machine, cs: seq<Command>, restore: Option<Config>,
                      port: seq<Text>): (r: Option<After>)
    ensures r.Some? ==> |r.value.port| <= |port|
    decreases |cs|
  {
    if cs == [] then Some(After(m, port))
    else
      match Execute(env, m, cs[0], restore, port)
      case None => None
      case Some(a) => ExecuteAll(env, a.machine, cs[1..], restore, a.port)
  }

  /** One line of the loop in forward_output. */
  function RunLine(env: Env, m: Machine, line: Text, port: seq<Text>): (r: Option<After>)
    ensures r.Some? ==> |r.value.port| <= |port|
  {
    match ParseHostCommand(line)
    case None => Some(After(m, port))
    case Some(c) =>
      if c.name == BEGIN then
        if c.argument != [] || m.queue.Some? then None
        else Some(After(m.(queue := Some(Queue([], m.config))), port))
      else if c.name == END then
        if c.argument != [] || m.queue.None? then None
        else
          match ExecuteAll(env, m, m.queue.value.commands, Some(m.queue.value.saved), port)
          case None => None
          case Some(a) => Some(After(a.machine.(queue := None), a.port))
      else if c.name == EXPECT_RESET then
        if m.queue.Some? || m.reset.Some? then None
        else Some(After(m.(reset := Some(c.argument)), port))
      else if m.queue.None? then Execute(env, m, c, None, port)
      else
        var q := m.queue.value;
        Some(After(m.(queue := Some(q.(commands := q.commands + [c]))), port))
  }

  function RunLines(env: Env, m: Machine, ls: seq<Text>, port: seq<Text>): (r: Option<After>)
    ensures r.Some? ==> |r.value.port| <= |port|
    decreases |ls|
  {
    if ls == [] then Some(After(m, port))
    else
      match RunLine(env, m, ls[0], port)
      case None => None
      case Some(a) => RunLines(env, a.machine, ls[1..], a.port)
  }

  // ----- the loop over reads

  /**
   Variables of forward_output: the machine, the unfinished line, the last byte seen, and what has been
   written out.
   */
  datatype Loop = Loop(machine: Machine, pending: Text, previous: Option<Byte>, forwarded: Text)

  /** The byte just before position n of a read. */
  function Before(previous: Option<Byte>, data: Text, n: nat): Option<Byte>
    requires n <= |data|
  {
    if n == 0 then previous else Some(data[n - 1])
  }

  /** forward_output on the reads to come; `Waiting` when they run out. */
  function Forward(env: Env, s: Loop, port: seq<Text>): Outcome
    decreases |port|
  {
    if port == [] then Waiting(s.machine, s.pending, s.forwarded)
    else
      var data := port[0];
      if data == [] then Forward(env, s, port[1..])
      else if 0 in data then
        var n := FirstOf(0, data);
        if Before(s.previous, data, n) != Some(NEWLINE) then Failed
        else
          match RunLines(env, s.machine.(reset := None), Lines(s.pending + data[..n]), port[1..])
          case None => Failed
          case Some(a) =>
            if a.machine.queue.Some? then Failed
            else Finished(a.machine.config, a.machine.log, s.forwarded + data[..n])
      else
        match RunLines(env, s.machine.(reset := None), Lines(s.pending + data), port[1..])
        case None => Failed
        case Some(a) =>
          var next := Loop(a.machine, Rest(s.pending + data), Some(data[|data| - 1]), s.forwarded + data);
          if a.machine.reset.Some? then
            ResetExpected(a.machine.reset.value, a.machine.config, a.machine.log, next.forwarded)
          else Forward(env, next, a.port)
  }

  function Start(config: Config): Loop {
    Loop(Machine(config, None, [], None), [], None, [])
  }

  // ----- the meaning of a stream, with no reads in sight

  /** The bytes an EXPECT waits for; nothing for any other command. */
  function Answer(env: Env, c: Command): Text {
    if c.name == EXPECT && env.expected(c.argument).Some? then env.expected(c.argument).value else []
  }

  function AnswersTo(env: Env, cs: seq<Command>): Text {
    if cs == [] then [] else Answer(env, cs[0]) + AnswersTo(env, cs[1..])
  }

  /** The commands have bytes to wait for, and would all succeed if those came. */
  predicate CommandsLook(env: Env, m: Machine, cs: seq<Command>, restore: Option<Config>) {
    AnswersTo(env, cs) != [] && ExecuteAll(env, m, cs, restore, [AnswersTo(env, cs)]).Some?
  }

  /** A line whose effect depends on what has been read together with it. */
  predicate LineLooks(env: Env, m: Machine, line: Text) {
    var c := ParseHostCommand(line);
    c.Some? &&
    if c.value.name == BEGIN then false
    else if c.value.name == END then
      c.value.argument == [] && m.queue.Some? && CommandsLook(env, m, m.queue.value.commands, Some(m.queue.value.saved))
    else if c.value.name == EXPECT_RESET then m.queue.None?
    else m.queue.None? && CommandsLook(env, m, [c.value], None)
  }

  /** Some line does, in a run that gets that far. */
  predicate LinesLook(env: Env, m: Machine, ls: seq<Text>)
    decreases |ls|
  {
    ls != [] &&
    (LineLooks(env, m, ls[0]) ||
     match RunLine(env, m, ls[0], [])
     case None => false
     case Some(a) => LinesLook(env, a.machine, ls[1..]))
  }

  /** The part of a stream up to its first completion byte. */
  function Body(stream: Text): (body: Text)
    ensures |body| <= |stream|
  {
    if 0 in stream then stream[..FirstOf(0, stream)] else stream
  }

  predicate StreamLooks(env: Env, config: Config, stream: Text) {
    LinesLook(env, Start(config).machine, Lines(Body(stream)))
  }

  /** The lines run with nothing left to read. */
  function RunAlone(env: Env, m: Machine, ls: seq<Text>): Option<Machine> {
    match RunLines(env, m, ls, [])
    case None => None
    case Some(a) => Some(a.machine)
  }

  /** Success needs every line to run, no open block, and a newline before the completion byte. */
  function Meaning(env: Env, s: Loop, stream: Text): Outcome {
    var body := Body(stream);
    if 0 in stream && Before(s.previous, stream, |body|) != Some(NEWLINE) then Failed
    else
      match RunAlone(env, s.machine, Lines(s.pending + body))
      case None => Failed
      case Some(m) =>
        if !(0 in stream) then Waiting(m, Rest(s.pending + body), s.forwarded + body)
        else if m.queue.Some? then Failed
        else Finished(m.config, m.log, s.forwarded + body)
  }

  // ----- cutting a text does not change its lines

  lemma FirstLine(s: Text)
    ensures NEWLINE !in s ==> Lines(s) == [] && Rest(s) == s
    ensures NEWLINE in s ==>
      var n := FirstOf(NEWLINE, s);
      Lines(s) == [s[..n]] + Lines(s[n + 1..]) && Rest(s) == Rest(s[n + 1..])
  {
    hide FirstOf;
  }

  lemma {:induction false} LinesAppend(x: Text, y: Text)
    ensures Lines(x + y) == Lines(x) + Lines(Rest(x) + y)
    ensures Rest(x + y) == Rest(Rest(x) + y)
    decreases |x|
  {
    hide FirstOf, Lines, Rest;
    FirstLine(x);
    if NEWLINE in x {
      var n := FirstOf(NEWLINE, x);
      FirstOfAppend(NEWLINE, x, y);
      FirstLine(x + y);
      assert (x + y)[..n] == x[..n];
      assert (x + y)[n + 1..] == x[n + 1..] + y;
      LinesAppend(x[n + 1..], y);
    }
  }

  lemma {:induction false} RestHasNoNewline(x: Text)
    ensures NEWLINE !in Rest(x)
    decreases |x|
  {
    if NEWLINE in x {
      RestHasNoNewline(x[FirstOf(NEWLINE, x) + 1..]);
    }
  }

  // ----- commands and the port

  function Lift(alone: Option<After>, port: seq<Text>): Option<After> {
    if alone.None? then None else Some(After(alone.value.machine, port))
  }

  lemma {:induction false} KeepsQueue(env: Env, m: Machine, cs: seq<Command>, restore: Option<Config>, port: seq<Text>)
    ensures var a := ExecuteAll(env, m, cs, restore, port);
            a.Some? ==> a.value.machine.reset == m.reset && a.value.machine.queue == m.queue
    decreases |cs|
  {
    if cs != [] {
      var a := Execute(env, m, cs[0], restore, port);
      if a.Some? {
        KeepsQueue(env, a.value.machine, cs[1..], restore, a.value.port);
      }
    }
  }

  /** A command that succeeds on some port succeeds, with the same effect, on any that begins with its answer. */
  lemma AnsweredOne(env: Env, m: Machine, c: Command, restore: Option<Config>, port: seq<Text>, port': seq<Text>,
                    more: Text)
    requires Execute(env, m, c, restore, port).Some?
    requires Flat(port') == Answer(env, c) + more
    ensures var a, a' := Execute(env, m, c, restore, port), Execute(env, m, c, restore, port');
            a'.Some? && a'.value.machine == a.value.machine && Flat(a'.value.port) == more
  {
    hide Flat, Drop;
    if c.name != EXPECT {
      assert [] + more == more;
    } else {
      var bytes := env.expected(c.argument).value;
      PrefixOfBoth(bytes, more);
    }
  }

  lemma PrefixOfBoth(bytes: Text, more: Text)
    ensures bytes <= bytes + more && (bytes + more)[|bytes|..] == more && |bytes| <= |bytes + more|
  {}

  lemma {:induction false} AnsweredAll(env: Env, m: Machine, cs: seq<Command>, restore: Option<Config>,
                                       port: seq<Text>, port': seq<Text>, more: Text)
    requires ExecuteAll(env, m, cs, restore, port).Some?
    requires Flat(port') == AnswersTo(env, cs) + more
    ensures var a, a' := ExecuteAll(env, m, cs, restore, port), ExecuteAll(env, m, cs, restore, port');
            a'.Some? && a'.value.machine == a.value.machine && Flat(a'.value.port) == more
    decreases |cs|
  {
    hide Execute, Flat;
    if cs == [] {
      assert [] + more == more;
    } else {
      var others := AnswersTo(env, cs[1..]) + more;
      assert Flat(port') == Answer(env, cs[0]) + others;
      AnsweredOne(env, m, cs[0], restore, port, port', others);
      var a, a' := Execute(env, m, cs[0], restore, port).value, Execute(env, m, cs[0], restore, port').value;
      AnsweredAll(env, a.machine, cs[1..], restore, a.port, a'.port, more);
    }
  }

  lemma SilentOne(env: Env, m: Machine, c: Command, restore: Option<Config>, port: seq<Text>)
    requires Answer(env, c) == []
    ensures Execute(env, m, c, restore, port) == Lift(Execute(env, m, c, restore, []), port)
    ensures Execute(env, m, c, restore, []).Some? ==> Execute(env, m, c, restore, []).value.port == []
  {}

  /** Commands without answers do not look at the port. */
  lemma {:induction false} SilentAll(env: Env, m: Machine, cs: seq<Command>, restore: Option<Config>, port: seq<Text>)
    requires AnswersTo(env, cs) == []
    ensures ExecuteAll(env, m, cs, restore, port) == Lift(ExecuteAll(env, m, cs, restore, []), port)
    decreases |cs|
  {
    hide Execute, Answer;
    if cs != [] {
      SilentOne(env, m, cs[0], restore, port);
      var a := Execute(env, m, cs[0], restore, []);
      if a.Some? {
        SilentAll(env, a.value.machine, cs[1..], restore, port);
      }
    }
  }

  /** With answers outstanding and nothing left to read, they fail. */
  lemma {:induction false} UnansweredFails(env: Env, m: Machine, cs: seq<Command>, restore: Option<Config>)
    requires AnswersTo(env, cs) != []
    ensures ExecuteAll(env, m, cs, restore, []) == None
    decreases |cs|
  {
    if Answer(env, cs[0]) == [] {
      SilentOne(env, m, cs[0], restore, []);
      var a := Execute(env, m, cs[0], restore, []);
      if a.Some? {
        UnansweredFails(env, a.value.machine, cs[1..], restore);
      }
    }
  }

  /** Commands that do not look at the port have the same effect whatever is left to read. */
  lemma DeafAll(env: Env, m: Machine, cs: seq<Command>, restore: Option<Config>, port: seq<Text>)
    requires !CommandsLook(env, m, cs, restore)
    ensures ExecuteAll(env, m, cs, restore, port) == Lift(ExecuteAll(env, m, cs, restore, []), port)
  {
    hide ExecuteAll;
    var answers := AnswersTo(env, cs);
    if answers == [] {
      SilentAll(env, m, cs, restore, port);
    } else {
      UnansweredFails(env, m, cs, restore);
      FlatOne(answers);
      assert answers + [] == answers;
      if ExecuteAll(env, m, cs, restore, port).Some? {
        AnsweredAll(env, m, cs, restore, port, [answers], []);
      }
    }
  }

  lemma FlatOne(text: Text)
    ensures Flat([text]) == text
  {
    assert text + [] == text;
  }

  lemma OneCommand(env: Env, m: Machine, c: Command, restore: Option<Config>, port: seq<Text>)
    ensures ExecuteAll(env, m, [c], restore, port) == Execute(env, m, c, restore, port)
  {
    hide Execute;
    assert [c][1..] == [];
    var a := Execute(env, m, c, restore, port);
    if a.Some? {
      assert ExecuteAll(env, a.value.machine, [], restore, a.value.port) == Some(After(a.value.machine, a.value.port));
    }
  }

  // ----- lines and the port

  lemma DeafLine(env: Env, m: Machine, line: Text, port: seq<Text>)
    requires m.reset.None? && !LineLooks(env, m, line)
    ensures RunLine(env, m, line, port) == Lift(RunLine(env, m, line, []), port)
    ensures var alone := RunLine(env, m, line, []);
            alone.Some? ==> alone.value.machine.reset.None?
  {
    hide ParseHostCommand, Execute, ExecuteAll, CommandsLook;
    var c := ParseHostCommand(line);
    if c.Some? {
      if m.queue.Some? {
        var q := m.queue.value;
        KeepsQueue(env, m, q.commands, Some(q.saved), []);
        if c.value.name == END && c.value.argument == [] {
          DeafAll(env, m, q.commands, Some(q.saved), port);
        }
      } else {
        OneCommand(env, m, c.value, None, []);
        OneCommand(env, m, c.value, None, port);
        KeepsQueue(env, m, [c.value], None, []);
        if !IsControl(c.value) {
          DeafAll(env, m, [c.value], None, port);
        }
      }
    }
  }

  /** The names that are not executed by themselves. */
  predicate IsControl(c: Command) {
    c.name == BEGIN || c.name == END || c.name == EXPECT_RESET
  }

  lemma {:induction false} DeafLines(env: Env, m: Machine, ls: seq<Text>, port: seq<Text>)
    requires m.reset.None? && !LinesLook(env, m, ls)
    ensures RunLines(env, m, ls, port) ==
            if RunAlone(env, m, ls).None? then None else Some(After(RunAlone(env, m, ls).value, port))
    ensures RunAlone(env, m, ls).Some? ==> RunAlone(env, m, ls).value.reset.None?
    decreases |ls|
  {
    hide LineLooks, RunLine;
    if ls != [] {
      DeafLine(env, m, ls[0], port);
      var a := RunLine(env, m, ls[0], []);
      if a.Some? {
        DeafLines(env, a.value.machine, ls[1..], port);
      }
    }
  }

  /** Running, and looking, go on from where the first lines end. */
  lemma {:induction false} AloneAppend(env: Env, m: Machine, xs: seq<Text>, ys: seq<Text>)
    requires m.reset.None? && !LinesLook(env, m, xs)
    ensures RunAlone(env, m, xs + ys) ==
            if RunAlone(env, m, xs).None? then None else RunAlone(env, RunAlone(env, m, xs).value, ys)
    ensures LinesLook(env, m, xs + ys) <==> RunAlone(env, m, xs).Some? && LinesLook(env, RunAlone(env, m, xs).value, ys)
    decreases |xs|
  {
    hide LineLooks, RunLine;
    if xs == [] {
      assert xs + ys == ys;
    } else {
      assert (xs + ys)[1..] == xs[1..] + ys;
      DeafLine(env, m, xs[0], []);
      var a := RunLine(env, m, xs[0], []);
      if a.Some? {
        AloneAppend(env, a.value.machine, xs[1..], ys);
      }
    }
  }

  lemma {:induction false} LooksEarly(env: Env, m: Machine, xs: seq<Text>, ys: seq<Text>)
    requires LinesLook(env, m, xs)
    ensures LinesLook(env, m, xs + ys)
    decreases |xs|
  {
    hide LineLooks, RunLine;
    assert (xs + ys)[1..] == xs[1..] + ys;
    if !LineLooks(env, m, xs[0]) {
      LooksEarly(env, RunLine(env, m, xs[0], []).value.machine, xs[1..], ys);
    }
  }

  // ----- chunking independence

  ghost predicate Ready(env: Env, s: Loop, stream: Text) {
    && NEWLINE !in s.pending && s.machine.reset.None?
    && !LinesLook(env, s.machine, Lines(s.pending + Body(stream)))
  }

  function NextLoop(s: Loop, m: Machine, data: Text): Loop
    requires data != []
  {
    Loop(m, Rest(s.pending + data), Some(data[|data| - 1]), s.forwarded + data)
  }

  /** The lines of a piece and those of the stream after it. */
  lemma LinesSplit(s: Loop, data: Text, more: Text)
    requires 0 !in data
    ensures Lines(s.pending + Body(data + more)) == Lines(s.pending + data) + Lines(Rest(s.pending + data) + Body(more))
    ensures Rest(s.pending + Body(data + more)) == Rest(Rest(s.pending + data) + Body(more))
  {
    hide Lines, Rest, Body;
    BodyAppend(data, more);
    assert s.pending + (data + Body(more)) == (s.pending + data) + Body(more);
    LinesAppend(s.pending + data, Body(more));
  }

  lemma ReadyStep(env: Env, s: Loop, data: Text, more: Text)
    requires Ready(env, s, data + more) && data != [] && 0 !in data
    ensures !LinesLook(env, s.machine, Lines(s.pending + data))
    ensures var run := RunAlone(env, s.machine, Lines(s.pending + data));
            run.Some? ==> Ready(env, NextLoop(s, run.value, data), more)
  {
    hide LinesLook, RunAlone, Lines, Rest, Body;
    LinesSplit(s, data, more);
    var first, second := Lines(s.pending + data), Lines(Rest(s.pending + data) + Body(more));
    if LinesLook(env, s.machine, first) {
      LooksEarly(env, s.machine, first, second);
    }
    DeafLines(env, s.machine, first, []);
    AloneAppend(env, s.machine, first, second);
    RestHasNoNewline(s.pending + data);
  }

  /** Reading one more piece without a completion byte moves the meaning along. */
  lemma MeaningStep(env: Env, s: Loop, data: Text, more: Text)
    requires Ready(env, s, data + more) && data != [] && 0 !in data
    ensures var run := RunAlone(env, s.machine, Lines(s.pending + data));
            Meaning(env, s, data + more) == if run.None? then Failed
              else Meaning(env, NextLoop(s, run.value, data), more)
  {
    hide LinesLook, RunAlone, Lines, Rest, Body, Meaning;
    ReadyStep(env, s, data, more);
    BodyAppend(data, more);
    LinesSplit(s, data, more);
    var first, second := Lines(s.pending + data), Lines(Rest(s.pending + data) + Body(more));
    AloneAppend(env, s.machine, first, second);
    MeaningJoin(env, s, data, more, first, second);
  }

  lemma BodyAppend(data: Text, more: Text)
    requires 0 !in data
    ensures Body(data + more) == data + Body(more)
    ensures 0 in data + more <==> 0 in more
  {
    hide FirstOf;
    FirstOfAppend(0, data, more);
  }

  lemma MeaningJoin(env: Env, s: Loop, data: Text, more: Text, first: seq<Text>, second: seq<Text>)
    requires data != [] && 0 !in data
    requires first == Lines(s.pending + data) && second == Lines(Rest(s.pending + data) + Body(more))
    requires Lines(s.pending + (data + Body(more))) == first + second
    requires Rest(s.pending + (data + Body(more))) == Rest(Rest(s.pending + data) + Body(more))
    requires RunAlone(env, s.machine, first + second) ==
             if RunAlone(env, s.machine, first).None? then None
             else RunAlone(env, RunAlone(env, s.machine, first).value, second)
    ensures var run := RunAlone(env, s.machine, first);
            Meaning(env, s, data + more) == if run.None? then Failed
              else Meaning(env, NextLoop(s, run.value, data), more)
  {
    hide RunAlone, Lines, Rest, Body;
    BodyAppend(data, more);
    var body := Body(more);
    assert s.forwarded + (data + body) == s.forwarded + data + body;
    if 0 in more {
      assert Before(s.previous, data + more, |data + body|) == Before(Some(data[|data| - 1]), more, |body|);
    }
  }

  /** However the bytes are cut into reads, forward_output does what the stream means. */
  lemma {:induction false} ForwardIsMeaning(env: Env, s: Loop, port: seq<Text>)
    requires Ready(env, s, Flat(port))
    ensures Forward(env, s, port) == Meaning(env, s, Flat(port))
    decreases |port|
  {
    hide LinesLook, RunLines, RunAlone, FirstOf;
    if port == [] {
      NothingRead(env, s);
    } else {
      var data, more := port[0], Flat(port[1..]);
      if data == [] {
        assert Flat(port) == more;
        ForwardIsMeaning(env, s, port[1..]);
      } else if 0 in data {
        LastRead(env, s, data, port[1..]);
      } else {
        ReadyStep(env, s, data, more);
        MeaningStep(env, s, data, more);
        var run := RunAlone(env, s.machine, Lines(s.pending + data));
        DeafLines(env, s.machine, Lines(s.pending + data), port[1..]);
        assert s.machine.(reset := None) == s.machine;
        if run.Some? {
          ForwardIsMeaning(env, NextLoop(s, run.value, data), port[1..]);
        }
      }
    }
  }

  lemma NothingRead(env: Env, s: Loop)
    requires Ready(env, s, [])
    ensures Meaning(env, s, []) == Waiting(s.machine, s.pending, s.forwarded)
  {
    hide LinesLook;
    assert s.pending + [] == s.pending;
    assert Lines(s.pending) == [] && Rest(s.pending) == s.pending;
  }

  lemma LastRead(env: Env, s: Loop, data: Text, after: seq<Text>)
    requires 0 in data && Ready(env, s, data + Flat(after))
    ensures Forward(env, s, [data] + after) == Meaning(env, s, data + Flat(after))
  {
    hide LinesLook, RunLines, RunAlone, FirstOf;
    var stream := data + Flat(after);
    FirstOfAppend(0, data, Flat(after));
    var n := FirstOf(0, data);
    assert stream[..n] == data[..n];
    DeafLines(env, s.machine, Lines(s.pending + data[..n]), after);
    assert s.machine.(reset := None) == s.machine;
    assert ([data] + after)[1..] == after;
    assert Before(s.previous, stream, n) == Before(s.previous, data, n);
  }

  /**
   Two ways of cutting a stream none of whose lines looks at the port give the same outcome: success,
   commands, configuration, output.
   */
  lemma ChunkingIndependent(env: Env, config: Config, port: seq<Text>, port': seq<Text>)
    requires Flat(port) == Flat(port') && !StreamLooks(env, config, Flat(port))
    ensures Forward(env, Start(config), port) == Forward(env, Start(config), port')
  {
    hide LinesLook, Forward, Meaning;
    assert [] + Body(Flat(port)) == Body(Flat(port));
    ForwardIsMeaning(env, Start(config), port);
    ForwardIsMeaning(env, Start(config), port');
  }

  // ----- quiet text never looks at the port

  /** Anything but an EXPECT that has bytes to wait for. */
  predicate Calm(env: Env, c: Command) {
    Answer(env, c) == []
  }

  /** A line that is none of the commands that look at the port, in whatever state it is met. */
  predicate Quiet(env: Env, line: Text) {
    var c := ParseHostCommand(line);
    c.Some? ==> Calm(env, c.value) && c.value.name != EXPECT_RESET
  }

  predicate AllQuiet(env: Env, ls: seq<Text>) {
    forall line <- ls :: Quiet(env, line)
  }

  /** An open block does not look at the port either. */
  predicate QueueDeaf(env: Env, m: Machine) {
    m.queue.Some? ==> !CommandsLook(env, m, m.queue.value.commands, Some(m.queue.value.saved))
  }

  lemma {:induction false} AnswersAppend(env: Env, xs: seq<Command>, c: Command)
    ensures AnswersTo(env, xs + [c]) == AnswersTo(env, xs) + Answer(env, c)
    decreases |xs|
  {
    hide Answer;
    if xs == [] {
      assert [] + [c] == [c] && [c][1..] == [];
      assert Answer(env, c) + [] == Answer(env, c) == [] + Answer(env, c);
    } else {
      assert (xs + [c])[1..] == xs[1..] + [c];
      AnswersAppend(env, xs[1..], c);
      assert Answer(env, xs[0]) + (AnswersTo(env, xs[1..]) + Answer(env, c)) == AnswersTo(env, xs) + Answer(env, c);
    }
  }

  /** A longer list succeeds only if the shorter does, and the open block plays no part. */
  lemma {:induction false} ShorterSucceeds(env: Env, m: Machine, xs: seq<Command>, c: Command, restore: Option<Config>,
                                           port: seq<Text>, queue: Option<Queue>)
    requires ExecuteAll(env, m.(queue := queue), xs + [c], restore, port).Some?
    ensures ExecuteAll(env, m, xs, restore, port).Some?
    decreases |xs|
  {
    hide Drop, Flat;
    if xs != [] {
      assert (xs + [c])[1..] == xs[1..] + [c];
      var a, a' := Execute(env, m, xs[0], restore, port), Execute(env, m.(queue := queue), xs[0], restore, port);
      assert a'.Some? ==>
          a.Some? && a'.value.machine == a.value.machine.(queue := queue) && a'.value.port == a.value.port;
      ShorterSucceeds(env, a.value.machine, xs[1..], c, restore, a.value.port, queue);
    }
  }

  lemma CalmQueue(env: Env, m: Machine, c: Command)
    requires m.queue.Some? && QueueDeaf(env, m) && Calm(env, c)
    ensures var q := m.queue.value;
            QueueDeaf(env, m.(queue := Some(q.(commands := q.commands + [c]))))
  {
    hide ExecuteAll, Answer;
    var q := m.queue.value;
    var m' := m.(queue := Some(q.(commands := q.commands + [c])));
    AnswersAppend(env, q.commands, c);
    assert AnswersTo(env, q.commands) + [] == AnswersTo(env, q.commands);
    if CommandsLook(env, m', q.commands + [c], Some(q.saved)) {
      ShorterSucceeds(env, m, q.commands, c, Some(q.saved), [AnswersTo(env, q.commands)], m'.queue);
    }
  }

  lemma QuietLine(env: Env, m: Machine, line: Text)
    requires m.reset.None? && QueueDeaf(env, m) && Quiet(env, line)
    ensures !LineLooks(env, m, line)
    ensures var a := RunLine(env, m, line, []);
            a.Some? ==> a.value.machine.reset.None? && QueueDeaf(env, a.value.machine)
  {
    hide ParseHostCommand, Execute, ExecuteAll, Answer;
    var c := ParseHostCommand(line);
    if c.Some? {
      SilentList(env, c.value);
      if m.queue.Some? {
        CalmQueue(env, m, c.value);
        KeepsQueue(env, m, m.queue.value.commands, Some(m.queue.value.saved), []);
      } else {
        OneCommand(env, m, c.value, None, []);
        KeepsQueue(env, m, [c.value], None, []);
        assert AnswersTo(env, []) == [];
      }
    }
  }

  lemma SilentList(env: Env, c: Command)
    ensures AnswersTo(env, [c]) == Answer(env, c)
  {
    hide Answer;
    assert [c][1..] == [];
    assert Answer(env, c) + [] == Answer(env, c);
  }

  lemma {:induction false} QuietNeverLooks(env: Env, m: Machine, ls: seq<Text>)
    requires m.reset.None? && QueueDeaf(env, m) && AllQuiet(env, ls)
    ensures !LinesLook(env, m, ls)
    decreases |ls|
  {
    hide Quiet, QueueDeaf, LineLooks, RunLine;
    if ls != [] {
      assert ls[0] in ls;
      QuietLine(env, m, ls[0]);
      var a := RunLine(env, m, ls[0], []);
      if a.Some? {
        QuietNeverLooks(env, a.value.machine, ls[1..]);
      }
    }
  }

  // ----- exactly which lines make the outcome depend on the cuts

  ghost predicate Independent(env: Env, config: Config, stream: Text) {
    forall port: seq<Text>, port': seq<Text> :: Flat(port) == stream && Flat(port') == stream ==>
      Forward(env, Start(config), port) == Forward(env, Start(config), port')
  }

  /** After `head`, quiet text does not make the outcome depend on the cuts. */
  ghost predicate SafeAfter(env: Env, config: Config, head: Text, rest: Text) {
    AllQuiet(env, Lines(Body(rest))) ==> Independent(env, config, head + rest)
  }

  ghost predicate WholeLines(text: Text) {
    0 !in text && (text == [] || text[|text| - 1] == NEWLINE)
  }

  /** Lines that do not look at the port and bring the interpreter to `m`. */
  ghost predicate Leads(env: Env, config: Config, prefix: Text, m: Machine) {
    && WholeLines(prefix)
    && !LinesLook(env, Start(config).machine, Lines(prefix))
    && RunAlone(env, Start(config).machine, Lines(prefix)) == Some(m)
  }

  lemma {:induction false} WholeLinesRest(text: Text)
    requires text == [] || text[|text| - 1] == NEWLINE
    ensures Rest(text) == []
    decreases |text|
  {
    hide FirstOf, Lines, Rest;
    FirstLine(text);
    if text != [] {
      var n := FirstOf(NEWLINE, text);
      var more := text[n + 1..];
      assert more != [] ==> more[|more| - 1] == NEWLINE;
      WholeLinesRest(more);
    }
  }

  lemma LinesAfterWhole(text: Text, more: Text)
    requires text == [] || text[|text| - 1] == NEWLINE
    ensures Lines(text + more) == Lines(text) + Lines(more)
  {
    hide Lines, Rest;
    WholeLinesRest(text);
    LinesAppend(text, more);
    assert [] + more == more;
  }

  lemma LinesOfOne(line: Text)
    requires NEWLINE !in line
    ensures Lines(line + [NEWLINE]) == [line]
  {
    hide FirstOf, Lines, Rest;
    var s := line + [NEWLINE];
    assert s[|line|] == NEWLINE && s[..|line|] == line && s[|line| + 1..] == [];
    FirstOfUnique(NEWLINE, s, |line|);
    FirstLine(s);
    FirstLine([]);
  }

  /** One more line on the way. */
  lemma LeadsNext(env: Env, config: Config, prefix: Text, m: Machine, line: Text)
    requires Leads(env, config, prefix, m) && NEWLINE !in line && 0 !in line && !LineLooks(env, m, line)
    ensures WholeLines(prefix + line + [NEWLINE])
    ensures Lines(prefix + line + [NEWLINE]) == Lines(prefix) + [line]
    ensures !LinesLook(env, Start(config).machine, Lines(prefix + line + [NEWLINE]))
    ensures RunAlone(env, Start(config).machine, Lines(prefix + line + [NEWLINE]))
            == if RunLine(env, m, line, []).None? then None else Some(RunLine(env, m, line, []).value.machine)
  {
    hide Lines, RunLine, LineLooks;
    assert prefix + line + [NEWLINE] == prefix + (line + [NEWLINE]);
    LinesAfterWhole(prefix, line + [NEWLINE]);
    LinesOfOne(line);
    AloneAppend(env, Start(config).machine, Lines(prefix), [line]);
    OneLine(env, m, line, []);
    OneLineLooks(env, m, line);
  }

  lemma OneLine(env: Env, m: Machine, line: Text, port: seq<Text>)
    ensures RunLines(env, m, [line], port) == RunLine(env, m, line, port)
  {
    hide RunLine;
    var a := RunLine(env, m, line, port);
    assert [line][1..] == [];
    if a.Some? {
      assert RunLines(env, a.value.machine, [], a.value.port) == Some(After(a.value.machine, a.value.port));
    }
  }

  lemma OneLineLooks(env: Env, m: Machine, line: Text)
    ensures LinesLook(env, m, [line]) <==> LineLooks(env, m, line)
  {
    hide RunLine, LineLooks;
    assert [line][1..] == [];
  }

  /** Text that does not look at the port, and an open block that does not either, keep quiet text harmless. */
  lemma DeafIsSafe(env: Env, config: Config, head: Text, rest: Text)
    requires WholeLines(head) && !LinesLook(env, Start(config).machine, Lines(head))
    requires var run := RunAlone(env, Start(config).machine, Lines(head));
             run.Some? ==> QueueDeaf(env, run.value)
    ensures SafeAfter(env, config, head, rest)
  {
    hide LinesLook, Quiet, QueueDeaf, RunAlone, Forward, Lines, Body;
    if AllQuiet(env, Lines(Body(rest))) {
      var start := Start(config).machine;
      BodyAppend(head, rest);
      LinesAfterWhole(head, Body(rest));
      DeafLines(env, start, Lines(head), []);
      AloneAppend(env, start, Lines(head), Lines(Body(rest)));
      var run := RunAlone(env, start, Lines(head));
      if run.Some? {
        QuietNeverLooks(env, run.value, Lines(Body(rest)));
      }
      var stream := head + rest;
      forall port: seq<Text>, port': seq<Text> | Flat(port) == stream && Flat(port') == stream
        ensures Forward(env, Start(config), port) == Forward(env, Start(config), port')
      {
        ChunkingIndependent(env, config, port, port');
      }
    }
  }

  /** What a line that is not queued executes. */
  function LineCommands(m: Machine, line: Text): seq<Command>
    requires ParseHostCommand(line).Some?
  {
    if m.queue.Some? then m.queue.value.commands else [ParseHostCommand(line).value]
  }

  function LineRestore(m: Machine): Option<Config> {
    if m.queue.Some? then Some(m.queue.value.saved) else None
  }

  /** A line that leaves no block open: END in a block, anything but BEGIN outside. */
  predicate LeavesNoBlock(m: Machine, line: Text) {
    var c := ParseHostCommand(line);
    if m.queue.Some? then c.Some? && c.value.name == END else c.Some? ==> c.value.name != BEGIN
  }

  predicate IsReset(line: Text) {
    var c := ParseHostCommand(line);
    c.Some? && c.value.name == EXPECT_RESET
  }

  lemma LookingLine(env: Env, m: Machine, line: Text, port: seq<Text>)
    requires LineLooks(env, m, line) && !IsReset(line)
    ensures ParseHostCommand(line).Some? && CommandsLook(env, m, LineCommands(m, line), LineRestore(m))
    ensures var a := ExecuteAll(env, m, LineCommands(m, line), LineRestore(m), port);
            RunLine(env, m, line, port) == if a.None? then None
              else Some(After(a.value.machine.(queue := None), a.value.port))
  {
    hide ParseHostCommand, Execute, ExecuteAll, CommandsLook;
    var c := ParseHostCommand(line).value;
    OneCommand(env, m, c, None, port);
    KeepsQueue(env, m, [c], None, port);
  }

  /** A stream that ends in the read that holds its head. */
  lemma LastLines(env: Env, config: Config, head: Text, data: Text, port: seq<Text>)
    requires WholeLines(head) && head != [] && head + [0] <= data
    ensures Forward(env, Start(config), [data] + port) ==
            match RunLines(env, Start(config).machine, Lines(head), port)
            case None => Failed
            case Some(a) => if a.machine.queue.Some? then Failed else Finished(a.machine.config, a.machine.log, head)
  {
    hide Lines, RunLines;
    var n := |head|;
    assert data[n] == (head + [0])[n] == 0 && data[..n] == (head + [0])[..n] == head;
    FirstOfUnique(0, data, n);
    assert ([data] + port)[1..] == port;
    assert [] + head == head;
  }

  /** A line that looks at the port: the same stream completes under one cut and fails under another. */
  lemma LookingDependsOnCuts(env: Env, config: Config, prefix: Text, m: Machine, line: Text) returns (answers: Text)
    requires Leads(env, config, prefix, m) && NEWLINE !in line && 0 !in line
    requires LineLooks(env, m, line) && !IsReset(line)
    ensures ParseHostCommand(line).Some? && answers == AnswersTo(env, LineCommands(m, line))
    ensures var head := prefix + line + [NEWLINE];
            && Flat([head + [0], answers]) == Flat([head + [0] + answers]) == head + ([0] + answers)
            && Forward(env, Start(config), [head + [0], answers]).Finished?
            && Forward(env, Start(config), [head + [0] + answers]) == Failed
  {
    hide ParseHostCommand, Forward, Lines, RunLine, RunLines, LineLooks, LinesLook, ExecuteAll, AnswersTo;
    var start, head := Start(config).machine, prefix + line + [NEWLINE];
    LookingLine(env, m, line, []);
    var cs, restore := LineCommands(m, line), LineRestore(m);
    answers := AnswersTo(env, cs);
    UnansweredFails(env, m, cs, restore);
    LookingLine(env, m, line, [answers]);
    HeadRuns(env, config, prefix, m, line, []);
    HeadRuns(env, config, prefix, m, line, [answers]);
    LastLines(env, config, head, head + [0], [answers]);
    LastLines(env, config, head, head + [0] + answers, []);
    assert [head + [0]] + [answers] == [head + [0], answers];
    assert [head + [0] + answers] + [] == [head + [0] + answers];
    FlatTwo(head + [0], answers);
    FlatOne(head + [0] + answers);
  }

  /** Outside a block a command looks at the port exactly when it is an EXPECT with bytes to wait for. */
  lemma PlainLineLooks(env: Env, m: Machine, line: Text)
    requires m.queue.None? && ParseHostCommand(line).Some? && !IsControl(ParseHostCommand(line).value)
    ensures LineLooks(env, m, line) <==> !Calm(env, ParseHostCommand(line).value)
  {
    hide ParseHostCommand, ExecuteAll, Execute, Flat;
    var c := ParseHostCommand(line).value;
    SilentList(env, c);
    if !Calm(env, c) {
      FlatOne(Answer(env, c));
      OneCommand(env, m, c, None, [Answer(env, c)]);
      ExpectSucceeds(env, m, c, None, [Answer(env, c)]);
    }
  }

  lemma ExpectSucceeds(env: Env, m: Machine, c: Command, restore: Option<Config>, port: seq<Text>)
    requires !Calm(env, c) && Flat(port) == Answer(env, c)
    ensures Execute(env, m, c, restore, port).Some?
  {}

  /** Quiet lines that run without an error are such a lead-in. */
  lemma QuietLeads(env: Env, config: Config, prefix: Text, m: Machine)
    requires WholeLines(prefix) && AllQuiet(env, Lines(prefix))
    requires RunAlone(env, Start(config).machine, Lines(prefix)) == Some(m)
    ensures Leads(env, config, prefix, m)
  {
    hide LinesLook, RunAlone, Lines, AllQuiet;
    QuietNeverLooks(env, Start(config).machine, Lines(prefix));
  }

  /** The plainest failure: an EXPECT line at the start, its bytes in a read of their own or not. */
  lemma ExpectDependsOnCuts(env: Env, config: Config, line: Text, bytes: Text)
    requires NEWLINE !in line && 0 !in line && bytes != []
    requires var c := ParseHostCommand(line);
             c.Some? && c.value.name == EXPECT && env.expected(c.value.argument) == Some(bytes)
    ensures var head := line + [NEWLINE];
            && Flat([head + [0], bytes]) == Flat([head + [0] + bytes])
            && Forward(env, Start(config), [head + [0], bytes]).Finished?
            && Forward(env, Start(config), [head + [0] + bytes]) == Failed
  {
    hide ParseHostCommand, Forward, LineLooks, Flat;
    var m := Start(config).machine;
    assert Lines([]) == [];
    assert Leads(env, config, [], m);
    PlainLineLooks(env, m, line);
    var answers := LookingDependsOnCuts(env, config, [], m, line);
    SilentList(env, ParseHostCommand(line).value);
    assert [] + line + [NEWLINE] == line + [NEWLINE];
  }

  lemma FlatTwo(x: Text, y: Text)
    ensures Flat([x, y]) == x + y
  {
    assert [x, y][1..] == [y];
    FlatOne(y);
  }

  lemma HeadRuns(env: Env, config: Config, prefix: Text, m: Machine, line: Text, port: seq<Text>)
    requires Leads(env, config, prefix, m) && NEWLINE !in line && 0 !in line
    ensures WholeLines(prefix + line + [NEWLINE])
    ensures RunLines(env, Start(config).machine, Lines(prefix + line + [NEWLINE]), port) == RunLine(env, m, line, port)
  {
    hide Lines, RunLine, LinesLook;
    assert prefix + line + [NEWLINE] == prefix + (line + [NEWLINE]);
    LinesAfterWhole(prefix, line + [NEWLINE]);
    LinesOfOne(line);
    DeafLines(env, Start(config).machine, Lines(prefix), port);
    RunLinesAppend(env, Start(config).machine, Lines(prefix), [line], port);
    OneLine(env, m, line, port);
  }

  lemma {:induction false} RunLinesAppend(env: Env, m: Machine, xs: seq<Text>, ys: seq<Text>, port: seq<Text>)
    ensures var a := RunLines(env, m, xs, port);
            RunLines(env, m, xs + ys, port) == if a.None? then None
              else RunLines(env, a.value.machine, ys, a.value.port)
    decreases |xs|
  {
    hide RunLine;
    if xs == [] {
      assert xs + ys == ys;
    } else {
      assert (xs + ys)[1..] == xs[1..] + ys;
      var a := RunLine(env, m, xs[0], port);
      if a.Some? {
        RunLinesAppend(env, a.value.machine, xs[1..], ys, a.value.port);
      }
    }
  }

  lemma CutsDiffer(env: Env, config: Config, stream: Text, port: seq<Text>, port': seq<Text>)
    requires Flat(port) == stream && Flat(port') == stream
    requires Forward(env, Start(config), port) != Forward(env, Start(config), port')
    ensures !Independent(env, config, stream)
  {}

  lemma NothingQuiet(env: Env, answers: Text)
    ensures AllQuiet(env, Lines(Body([0] + answers)))
  {
    BodyOfZero(answers);
  }

  lemma LookingIsUnsafe(env: Env, config: Config, prefix: Text, m: Machine, line: Text) returns (answers: Text)
    requires Leads(env, config, prefix, m) && NEWLINE !in line && 0 !in line
    requires LineLooks(env, m, line) && !IsReset(line)
    ensures !Independent(env, config, prefix + line + [NEWLINE] + ([0] + answers))
  {
    hide ParseHostCommand, Forward, Flat, Leads, LineLooks;
    answers := LookingDependsOnCuts(env, config, prefix, m, line);
    var head := prefix + line + [NEWLINE];
    CutsDiffer(env, config, head + ([0] + answers), [head + [0], answers], [head + [0] + answers]);
  }

  /**
   After any lines that do not look at the port, one more line that leaves no block open keeps the
   outcome independent of the cuts, whatever quiet text follows, exactly when it does not look either.
   */
  lemma SafeLineIff(env: Env, config: Config, prefix: Text, m: Machine, line: Text)
    requires Leads(env, config, prefix, m) && NEWLINE !in line && 0 !in line
    requires LeavesNoBlock(m, line) && !IsReset(line)
    ensures (forall rest: Text :: SafeAfter(env, config, prefix + line + [NEWLINE], rest)) <==> !LineLooks(env, m, line)
  {
    hide ParseHostCommand, LineLooks, LinesLook, Leads, Independent, Lines, Body, AllQuiet, RunLine, WholeLines;
    if LineLooks(env, m, line) {
      var answers := LookingIsUnsafe(env, config, prefix, m, line);
      NothingQuiet(env, answers);
      assert !SafeAfter(env, config, prefix + line + [NEWLINE], [0] + answers);
    } else {
      LeadsNext(env, config, prefix, m, line);
      NoBlockLeft(env, m, line);
      forall rest: Text ensures SafeAfter(env, config, prefix + line + [NEWLINE], rest) {
        DeafIsSafe(env, config, prefix + line + [NEWLINE], rest);
      }
    }
  }

  lemma NoBlockLeft(env: Env, m: Machine, line: Text)
    requires LeavesNoBlock(m, line)
    ensures RunLine(env, m, line, []).Some? ==> RunLine(env, m, line, []).value.machine.queue.None?
  {
    hide ParseHostCommand, Execute;
    var c := ParseHostCommand(line);
    if c.Some? && m.queue.None? {
      OneCommand(env, m, c.value, None, []);
      KeepsQueue(env, m, [c.value], None, []);
    }
  }

  const END_LINE: Text := PREFIX + END
  const BEGIN_LINE: Text := PREFIX + BEGIN

  lemma BareCommand(name: Text)
    requires SPACE !in name && NEWLINE !in name && 0 !in name
    ensures ParseHostCommand(PREFIX + name) == Some(Command(name, []))
    ensures NEWLINE !in PREFIX + name && 0 !in PREFIX + name
  {
    PlainPrefix();
    hide PREFIX;
    assert (PREFIX + name)[|PREFIX|..] == name;
  }

  lemma PlainPrefix()
    ensures NEWLINE !in PREFIX && 0 !in PREFIX
  {}

  lemma BlockLines()
    ensures ParseHostCommand(END_LINE) == Some(Command(END, []))
      && ParseHostCommand(BEGIN_LINE) == Some(Command(BEGIN, []))
    ensures NEWLINE !in END_LINE && 0 !in END_LINE && NEWLINE !in BEGIN_LINE && 0 !in BEGIN_LINE
  {
    hide ParseHostCommand;
    BareCommand(END);
    BareCommand(BEGIN);
  }

  lemma EndIsQuiet(env: Env, answers: Text)
    ensures AllQuiet(env, Lines(Body(END_LINE + [NEWLINE] + ([0] + answers))))
  {
    hide ParseHostCommand, Lines, FirstOf;
    BlockLines();
    var head := END_LINE + [NEWLINE];
    BodyAppend(head, [0] + answers);
    BodyOfZero(answers);
    assert head + [] == head;
    LinesOfOne(END_LINE);
  }

  lemma BodyOfZero(answers: Text)
    ensures Body([0] + answers) == []
  {
    var s := [0] + answers;
    assert s[..0] == [];
    FirstOfUnique(0, s, 0);
  }

  /**
   With a block left open, quiet text after it is harmless exactly when the queued commands do not look
   at the port.
   */
  lemma OpenBlockIff(env: Env, config: Config, prefix: Text, m: Machine)
    requires Leads(env, config, prefix, m) && m.queue.Some?
    ensures (forall rest: Text :: SafeAfter(env, config, prefix, rest))
       <==> !CommandsLook(env, m, m.queue.value.commands, Some(m.queue.value.saved))
  {
    hide LinesLook, Independent, Lines, Body, AllQuiet, CommandsLook, ParseHostCommand;
    BlockLines();
    if CommandsLook(env, m, m.queue.value.commands, Some(m.queue.value.saved)) {
      var answers := LookingIsUnsafe(env, config, prefix, m, END_LINE);
      var rest := END_LINE + [NEWLINE] + ([0] + answers);
      EndIsQuiet(env, answers);
      assert prefix + END_LINE + [NEWLINE] + ([0] + answers) == prefix + rest;
      assert !SafeAfter(env, config, prefix, rest);
    } else {
      forall rest: Text ensures SafeAfter(env, config, prefix, rest) {
        DeafIsSafe(env, config, prefix, rest);
      }
    }
  }

  // ----- a whole block

  /** A line that is queued inside a block. */
  predicate Queued(line: Text) {
    var c := ParseHostCommand(line);
    NEWLINE !in line && 0 !in line && c.Some? && !IsControl(c.value)
  }

  function CommandsOf(lines: seq<Text>): seq<Command>
    requires forall line <- lines :: Queued(line)
  {
    if lines == [] then []
    else
      assert Queued(lines[|lines| - 1]);
      CommandsOf(lines[..|lines| - 1]) + [ParseHostCommand(lines[|lines| - 1]).value]
  }

  function TextOf(lines: seq<Text>): Text {
    if lines == [] then [] else TextOf(lines[..|lines| - 1]) + lines[|lines| - 1] + [NEWLINE]
  }

  lemma QueuedLine(env: Env, m: Machine, line: Text)
    requires Queued(line) && m.queue.Some?
    ensures !LineLooks(env, m, line)
    ensures var q := m.queue.value;
            RunLine(env, m, line, [])
            == Some(After(m.(queue := Some(q.(commands := q.commands + [ParseHostCommand(line).value]))), []))
  {
    hide ParseHostCommand;
  }

  lemma BeginLine(env: Env, m: Machine)
    requires m.queue.None?
    ensures !LineLooks(env, m, BEGIN_LINE)
    ensures RunLine(env, m, BEGIN_LINE, []) == Some(After(m.(queue := Some(Queue([], m.config))), []))
  {
    hide ParseHostCommand;
    BlockLines();
  }

  lemma {:induction false} BlockLeads(env: Env, config: Config, prefix: Text, m: Machine, lines: seq<Text>)
    requires Leads(env, config, prefix, m) && m.queue.None?
    requires forall line <- lines :: Queued(line)
    ensures Leads(env, config, prefix + BEGIN_LINE + [NEWLINE] + TextOf(lines),
        m.(queue := Some(Queue(CommandsOf(lines), m.config))))
    decreases |lines|
  {
    hide ParseHostCommand, Queued, LineLooks, LinesLook, RunLine, RunAlone, Lines, WholeLines;
    var head := prefix + BEGIN_LINE + [NEWLINE];
    if lines == [] {
      BlockLines();
      BeginLine(env, m);
      LeadsNext(env, config, prefix, m, BEGIN_LINE);
      assert head + [] == head;
    } else {
      var init, line := lines[..|lines| - 1], lines[|lines| - 1];
      assert line in lines;
      BlockLeads(env, config, prefix, m, init);
      var m' := m.(queue := Some(Queue(CommandsOf(init), m.config)));
      QueuedText(line);
      QueuedLine(env, m', line);
      LeadsNext(env, config, head + TextOf(init), m', line);
      assert head + TextOf(init) + line + [NEWLINE] == head + TextOf(lines);
    }
  }

  lemma QueuedText(line: Text)
    requires Queued(line)
    ensures NEWLINE !in line && 0 !in line
  {}

  /** BEGIN, queued commands and END: safe exactly when the commands do not look at the port. */
  lemma SafeBlockIff(env: Env, config: Config, prefix: Text, m: Machine, lines: seq<Text>)
    requires Leads(env, config, prefix, m) && m.queue.None?
    requires forall line <- lines :: Queued(line)
    ensures var block := BEGIN_LINE + [NEWLINE] + TextOf(lines) + END_LINE + [NEWLINE];
            (forall rest: Text :: SafeAfter(env, config, prefix + block, rest))
            <==> !CommandsLook(env, m.(queue := Some(Queue(CommandsOf(lines), m.config))), CommandsOf(lines),
                Some(m.config))
  {
    hide ParseHostCommand, Queued, LinesLook, Leads, SafeAfter, CommandsLook;
    BlockLines();
    BlockLeads(env, config, prefix, m, lines);
    var open := prefix + BEGIN_LINE + [NEWLINE] + TextOf(lines);
    var m' := m.(queue := Some(Queue(CommandsOf(lines), m.config)));
    SafeLineIff(env, config, open, m', END_LINE);
    var block := BEGIN_LINE + [NEWLINE] + TextOf(lines) + END_LINE + [NEWLINE];
    assert open + END_LINE + [NEWLINE] == prefix + block;
  }

  /**
   Commands that succeed once answered look at the port exactly when one of them is an EXPECT with
   bytes to wait for.
   */
  lemma LooksIffNotCalm(env: Env, m: Machine, cs: seq<Command>, restore: Option<Config>)
    requires ExecuteAll(env, m, cs, restore, [AnswersTo(env, cs)]).Some?
    ensures CommandsLook(env, m, cs, restore) <==> exists c :: c in cs && !Calm(env, c)
  {
    hide ExecuteAll;
    AnswersIff(env, cs);
  }

  lemma {:induction false} AnswersIff(env: Env, cs: seq<Command>)
    ensures AnswersTo(env, cs) == [] <==> forall c <- cs :: Calm(env, c)
    decreases |cs|
  {
    hide Answer;
    if cs != [] {
      AnswersIff(env, cs[1..]);
      assert |AnswersTo(env, cs)| == |Answer(env, cs[0])| + |AnswersTo(env, cs[1..])|;
      assert cs == [cs[0]] + cs[1..];
      if AnswersTo(env, cs) == [] {
        forall c | c in cs ensures Calm(env, c) {
          assert c == cs[0] || c in cs[1..];
        }
      } else if Calm(env, cs[0]) {
        var c :| c in cs[1..] && !Calm(env, c);
        assert c in cs;
      } else {
        assert cs[0] in cs;
      }
    }
  }

  // ----- forward_output

  /** Whether a read holds the completion byte, and where; tracks the byte seen before. */
  method FindTerminator(data: Text, before: Option<Byte>)
    returns (ok: bool, terminator: Option<nat>, previous: Option<Byte>)
    ensures ok == (0 in data ==> Before(before, data, FirstOf(0, data)) == Some(NEWLINE))
    ensures ok && 0 in data ==> terminator == Some(FirstOf(0, data))
    ensures 0 !in data ==> terminator == None && previous == Before(before, data, |data|)
  {
    previous, terminator := before, None;
    for offset := 0 to |data|
      invariant 0 !in data[..offset]
      invariant previous == Before(before, data, offset)
    {
      if data[offset] == 0 {
        FirstOfUnique(0, data, offset);
        if previous != Some(NEWLINE) {
          return false, None, previous;
        }
        return true, Some(offset), previous;
      }
      assert data[..offset + 1] == data[..offset] + [data[offset]];
      previous := Some(data[offset]);
    }
    assert data[..|data|] == data;
    return true, None, previous;
  }

  /** The loop over the complete lines of one read. */
  method RunLinesOf(env: Env, start: Machine, lines: seq<Text>, arrivals: seq<Text>) returns (r: Option<After>)
    ensures r == RunLines(env, start, lines, arrivals)
  {
    hide RunLine;
    var m, port := start, arrivals;
    for i := 0 to |lines|
      invariant |port| <= |arrivals|
      invariant RunLines(env, m, lines[i..], port) == RunLines(env, start, lines, arrivals)
    {
      assert lines[i..][0] == lines[i] && lines[i..][1..] == lines[i + 1..];
      var a := RunLine(env, m, lines[i], port);
      if a == None {
        return None;
      }
      m, port := a.value.machine, a.value.port;
    }
    assert lines[|lines|..] == [];
    return Some(After(m, port));
  }

  method ForwardOutput(env: Env, config: Config, arrivals: seq<Text>) returns (outcome: Outcome)
    ensures outcome == Forward(env, Start(config), arrivals)
  {
    hide RunLines, Lines, Rest, FirstOf;
    var m := Machine(config, None, [], None);
    var pending: Text := [];
    var previous: Option<Byte> := None;
    var forwarded: Text := [];
    var port := arrivals;
    while port != []
      invariant Forward(env, Loop(m, pending, previous, forwarded), port) == Forward(env, Start(config), arrivals)
      decreases |port|
    {
      var data := port[0];
      if data == [] {
        port := port[1..];
        continue;
      }
      var ok, terminator, last := FindTerminator(data, previous);
      if !ok {
        return Failed;
      }
      if terminator.Some? {
        data := data[..terminator.value];
      }
      var a := RunLinesOf(env, m.(reset := None), Lines(pending + data), port[1..]);
      if a == None {
        return Failed;
      }
      if terminator.Some? {
        if a.value.machine.queue.Some? {
          return Failed;
        }
        return Finished(a.value.machine.config, a.value.machine.log, forwarded + data);
      }
      m, pending, previous, forwarded := a.value.machine, Rest(pending + data), last, forwarded + data;
      port := a.value.port;
      if m.reset.Some? {
        return ResetExpected(m.reset.value, m.config, m.log, forwarded);
      }
    }
    return Waiting(m, pending, forwarded);
  }
}
