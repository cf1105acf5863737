/**
 Test output with host commands in it, written as a script, and what boot.py makes of it. The script
 and its meaning know nothing of the interpreter: lines of output, single commands, and blocks of
 commands that share the configuration saved when the block began.
 */
module HostScript {
  import opened Bytes
  import opened HostCommands

  /** The byte of an ASCII character. */
  function Code(c: char): Byte {
    if c as int < 0x80 then c as int else 0
  }

  function Ascii(s: string): (t: Text)
    ensures |t| == |s|
  {
    seq(|s|, i requires 0 <= i < |s| => Code(s[i]))
  }

  datatype Item = Output(line: Text) | Single(command: Command) | Block(commands: seq<Command>)

  predicate OneLineOf(text: Text) {
    0x0A !in text && 0 !in text
  }

  /** A line of output is anything that does not start like a command. */
  predicate PlainOutput(line: Text) {
    OneLineOf(line) && !(Ascii("# HOST-CMD: ") <= line)
  }

  /** A command whose effect does not depend on bytes read, and which is not part of a block's frame. */
  predicate PlainCommand(c: Command) {
    && OneLineOf(c.name) && 0x20 !in c.name && OneLineOf(c.argument)
    && c.name != Ascii("BEGIN") && c.name != Ascii("END")
    && c.name != Ascii("EXPECT") && c.name != Ascii("EXPECT_RESET")
  }

  predicate PlainItem(item: Item) {
    match item
    case Output(line) => PlainOutput(line)
    case Single(c) => PlainCommand(c)
    case Block(cs) => forall c <- cs :: PlainCommand(c)
  }

  // ----- how a script is written

  function LineOf(c: Command): Text {
    Ascii("# HOST-CMD: ") + c.name + if c.argument == [] then [] else [0x20] + c.argument
  }

  function LinesOf(cs: seq<Command>): seq<Text> {
    if cs == [] then [] else [LineOf(cs[0])] + LinesOf(cs[1..])
  }

  function ItemLines(item: Item): seq<Text> {
    match item
    case Output(line) => [line]
    case Single(c) => [LineOf(c)]
    case Block(cs) => [Ascii("# HOST-CMD: BEGIN")] + LinesOf(cs) + [Ascii("# HOST-CMD: END")]
  }

  function ScriptLines(items: seq<Item>): seq<Text> {
    if items == [] then [] else ItemLines(items[0]) + ScriptLines(items[1..])
  }

  /** Every line ends in a newline. */
  function Written(lines: seq<Text>): Text {
    if lines == [] then [] else lines[0] + [0x0A] + Written(lines[1..])
  }

  // ----- what a script means

  /** The commands in order, each from the configuration the one before has left. */
  function Folded(env: Env, config: Config, cs: seq<Command>, saved: Option<Config>): Option<Config>
    decreases |cs|
  {
    if cs == [] then Some(config)
    else
      match env.execute(config, cs[0], saved)
      case None => None
      case Some(next) => Folded(env, next, cs[1..], saved)
  }

  /** A block saves the configuration it begins with; a command outside a block has none to go back to. */
  function ItemRuns(env: Env, config: Config, item: Item): Option<Config> {
    match item
    case Output(_) => Some(config)
    case Single(c) => env.execute(config, c, None)
    case Block(cs) => Folded(env, config, cs, Some(config))
  }

  function ScriptRuns(env: Env, config: Config, items: seq<Item>): Option<Config>
    decreases |items|
  {
    if items == [] then Some(config)
    else
      match ItemRuns(env, config, items[0])
      case None => None
      case Some(next) => ScriptRuns(env, next, items[1..])
  }

  function ItemCommands(item: Item): seq<Command> {
    match item
    case Output(_) => []
    case Single(c) => [c]
    case Block(cs) => cs
  }

  function ScriptCommands(items: seq<Item>): seq<Command> {
    if items == [] then [] else ItemCommands(items[0]) + ScriptCommands(items[1..])
  }

  // ----- spelling

  lemma Spelling()
    ensures Ascii("# HOST-CMD: ") == PREFIX
    ensures Ascii("BEGIN") == BEGIN && Ascii("END") == END
    ensures Ascii("EXPECT") == EXPECT && Ascii("EXPECT_RESET") == EXPECT_RESET
  {}

  lemma FrameLines()
    ensures Ascii("# HOST-CMD: BEGIN") == BEGIN_LINE && Ascii("# HOST-CMD: END") == END_LINE
  {}

  lemma AfterPrefix(text: Text)
    ensures ParseHostCommand(PREFIX + text) ==
            if SPACE !in text then Some(Command(text, []))
            else Some(Command(text[..FirstOf(SPACE, text)], text[FirstOf(SPACE, text) + 1..]))
  {
    hide FirstOf, PREFIX;
    assert (PREFIX + text)[|PREFIX|..] == text;
  }

  /** A command is recovered from its line. */
  lemma LineParses(c: Command)
    requires 0x20 !in c.name
    ensures ParseHostCommand(LineOf(c)) == Some(c)
  {
    hide FirstOf, Ascii, PREFIX, ParseHostCommand;
    Spelling();
    if c.argument == [] {
      AfterPrefix(c.name);
      assert PREFIX + c.name + [] == PREFIX + c.name;
    } else {
      var text := c.name + ([0x20] + c.argument);
      AfterPrefix(text);
      assert PREFIX + c.name + ([0x20] + c.argument) == PREFIX + text;
      assert text[..|c.name|] == c.name && text[|c.name| + 1..] == c.argument;
      FirstOfUnique(SPACE, text, |c.name|);
    }
  }

  lemma LineIsOneLine(c: Command)
    requires PlainCommand(c)
    ensures OneLineOf(LineOf(c))
  {
    hide Ascii, PREFIX;
    Spelling();
    PlainPrefix();
  }

  // ----- the interpreter follows the script

  lemma CommandQueued(env: Env, m: Machine, c: Command, port: seq<Text>)
    requires PlainCommand(c) && m.queue.Some?
    ensures var q := m.queue.value;
            RunLine(env, m, LineOf(c), port)
            == Some(After(m.(queue := Some(q.(commands := q.commands + [c]))), port))
  {
    hide ParseHostCommand, Ascii, LineOf, BEGIN, END, EXPECT_RESET;
    LineParses(c);
    Spelling();
  }

  lemma {:induction false} CommandsQueued(env: Env, m: Machine, cs: seq<Command>)
    requires (forall c <- cs :: PlainCommand(c)) && m.queue.Some?
    ensures var q := m.queue.value;
            RunLines(env, m, LinesOf(cs), []) == Some(After(m.(queue := Some(q.(commands := q.commands + cs))), []))
    decreases |cs|
  {
    hide RunLine, LineOf, PlainCommand;
    var q := m.queue.value;
    if cs == [] {
      assert q.commands + [] == q.commands;
    } else {
      CommandQueued(env, m, cs[0], []);
      var next := m.(queue := Some(q.(commands := q.commands + [cs[0]])));
      CommandsQueued(env, next, cs[1..]);
      assert q.commands + [cs[0]] + cs[1..] == q.commands + cs;
      assert LinesOf(cs)[1..] == LinesOf(cs[1..]);
    }
  }

  /** The machine after commands that have left this configuration. */
  function Moved(m: Machine, config: Option<Config>, cs: seq<Command>): Option<After> {
    if config.None? then None else Some(After(m.(config := config.value, log := m.log + cs), []))
  }

  lemma {:induction false} CommandsExecuted(env: Env, m: Machine, cs: seq<Command>, saved: Option<Config>)
    requires forall c <- cs :: PlainCommand(c)
    ensures ExecuteAll(env, m, cs, saved, []) == Moved(m, Folded(env, m.config, cs, saved), cs)
    decreases |cs|
  {
    hide PlainCommand, Execute;
    if cs == [] {
      assert m.log + [] == m.log;
    } else {
      CommandExecuted(env, m, cs[0], saved);
      var next := env.execute(m.config, cs[0], saved);
      if next.Some? {
        CommandsExecuted(env, m.(config := next.value, log := m.log + [cs[0]]), cs[1..], saved);
        assert m.log + [cs[0]] + cs[1..] == m.log + cs;
      }
    }
  }

  lemma CommandExecuted(env: Env, m: Machine, c: Command, saved: Option<Config>)
    requires PlainCommand(c)
    ensures Execute(env, m, c, saved, []) == Moved(m, env.execute(m.config, c, saved), [c])
  {
    hide Ascii, EXPECT;
    Spelling();
  }

  lemma BeginRuns(env: Env, m: Machine)
    requires m.queue.None?
    ensures RunLine(env, m, Ascii("# HOST-CMD: BEGIN"), []) == Some(After(m.(queue := Some(Queue([], m.config))), []))
  {
    hide ParseHostCommand, Ascii;
    FrameLines();
    BeginLine(env, m);
  }

  lemma EndRuns(env: Env, m: Machine)
    requires m.queue.Some?
    ensures var a := ExecuteAll(env, m, m.queue.value.commands, Some(m.queue.value.saved), []);
            RunLine(env, m, Ascii("# HOST-CMD: END"), [])
            == if a.None? then None else Some(After(a.value.machine.(queue := None), a.value.port))
  {
    hide ParseHostCommand, ExecuteAll, Ascii;
    FrameLines();
    BlockLines();
  }

  lemma OutputRuns(env: Env, m: Machine, line: Text)
    requires PlainOutput(line)
    ensures RunLine(env, m, line, []) == Some(After(m, []))
  {
    hide Ascii, PREFIX;
    Spelling();
  }

  lemma SingleRuns(env: Env, m: Machine, c: Command)
    requires PlainCommand(c) && m.queue.None?
    ensures RunLine(env, m, LineOf(c), []) == Moved(m, env.execute(m.config, c, None), [c])
  {
    CommandExecuted(env, m, c, None);
    LineParses(c);
    Spelling();
    hide ParseHostCommand, Ascii, LineOf, Execute, BEGIN, END, EXPECT_RESET;
  }

  lemma BlockRuns(env: Env, m: Machine, cs: seq<Command>)
    requires (forall c <- cs :: PlainCommand(c)) && m.queue.None?
    ensures RunLines(env, m, ItemLines(Block(cs)), []) == Moved(m, Folded(env, m.config, cs, Some(m.config)), cs)
  {
    hide RunLine, PlainCommand, LineOf, Ascii, ExecuteAll, RunLines;
    var begin, end := Ascii("# HOST-CMD: BEGIN"), Ascii("# HOST-CMD: END");
    var open := m.(queue := Some(Queue([], m.config)));
    var full := m.(queue := Some(Queue(cs, m.config)));
    BeginRuns(env, m);
    OneLine(env, m, begin, []);
    CommandsQueued(env, open, cs);
    assert [] + cs == cs;
    EndRuns(env, full);
    OneLine(env, full, end, []);
    CommandsExecuted(env, full, cs, Some(m.config));
    RunLinesAppend(env, m, [begin], LinesOf(cs), []);
    RunLinesAppend(env, m, [begin] + LinesOf(cs), [end], []);
  }

  lemma ItemRunsSo(env: Env, m: Machine, item: Item)
    requires PlainItem(item) && m.queue.None?
    ensures RunLines(env, m, ItemLines(item), []) == Moved(m, ItemRuns(env, m.config, item), ItemCommands(item))
  {
    hide RunLine, LineOf, Ascii, RunLines, Folded, PlainCommand, PlainOutput;
    match item {
      case Output(line) =>
        OutputRuns(env, m, line);
        OneLine(env, m, line, []);
        assert m.log + [] == m.log;
      case Single(c) =>
        SingleRuns(env, m, c);
        OneLine(env, m, LineOf(c), []);
      case Block(cs) =>
        BlockRuns(env, m, cs);
    }
  }

  lemma {:induction false} ScriptRunsSo(env: Env, m: Machine, items: seq<Item>)
    requires (forall item <- items :: PlainItem(item)) && m.queue.None?
    ensures RunLines(env, m, ScriptLines(items), [])
         == Moved(m, ScriptRuns(env, m.config, items), ScriptCommands(items))
    decreases |items|
  {
    hide RunLines, ItemLines, ItemRuns, ItemCommands, PlainItem;
    if items == [] {
      NothingRuns(env, m);
      assert m.log + [] == m.log;
    } else {
      ItemRunsSo(env, m, items[0]);
      RunLinesAppend(env, m, ItemLines(items[0]), ScriptLines(items[1..]), []);
      var next := ItemRuns(env, m.config, items[0]);
      if next.Some? {
        var done := ItemCommands(items[0]);
        ScriptRunsSo(env, m.(config := next.value, log := m.log + done), items[1..]);
        assert m.log + done + ScriptCommands(items[1..]) == m.log + ScriptCommands(items);
      }
    }
  }

  lemma NothingRuns(env: Env, m: Machine)
    ensures RunLines(env, m, [], []) == Some(After(m, []))
  {}

  // ----- no line of a script looks at the port

  /** A line of its own that no EXPECT or EXPECT_RESET is on. */
  predicate Harmless(env: Env, line: Text) {
    OneLineOf(line) && Quiet(env, line)
  }

  lemma CommandHarmless(env: Env, c: Command)
    requires PlainCommand(c)
    ensures Harmless(env, LineOf(c))
  {
    hide ParseHostCommand, Ascii, LineOf, EXPECT, EXPECT_RESET;
    LineIsOneLine(c);
    LineParses(c);
    Spelling();
  }

  lemma {:induction false} CommandsHarmless(env: Env, cs: seq<Command>)
    requires forall c <- cs :: PlainCommand(c)
    ensures forall line <- LinesOf(cs) :: Harmless(env, line)
    decreases |cs|
  {
    hide PlainCommand, LineOf, Harmless;
    if cs != [] {
      CommandHarmless(env, cs[0]);
      CommandsHarmless(env, cs[1..]);
    }
  }

  lemma FrameHarmless(env: Env)
    ensures Harmless(env, Ascii("# HOST-CMD: BEGIN")) && Harmless(env, Ascii("# HOST-CMD: END"))
  {
    hide ParseHostCommand, Ascii;
    FrameLines();
    BlockLines();
  }

  lemma OutputHarmless(env: Env, line: Text)
    requires PlainOutput(line)
    ensures Harmless(env, line)
  {
    hide Ascii, PREFIX;
    Spelling();
  }

  lemma ItemHarmless(env: Env, item: Item)
    requires PlainItem(item)
    ensures forall line <- ItemLines(item) :: Harmless(env, line)
  {
    hide PlainCommand, PlainOutput, LineOf, Harmless, Ascii;
    match item {
      case Output(line) => OutputHarmless(env, line);
      case Single(c) => CommandHarmless(env, c);
      case Block(cs) =>
        FrameHarmless(env);
        CommandsHarmless(env, cs);
    }
  }

  lemma {:induction false} ScriptHarmless(env: Env, items: seq<Item>)
    requires forall item <- items :: PlainItem(item)
    ensures forall line <- ScriptLines(items) :: Harmless(env, line)
    decreases |items|
  {
    hide PlainItem, ItemLines, Harmless;
    if items != [] {
      ItemHarmless(env, items[0]);
      ScriptHarmless(env, items[1..]);
    }
  }

  // ----- the text of a script and its lines

  lemma {:induction false} LinesWritten(lines: seq<Text>)
    requires forall line <- lines :: OneLineOf(line)
    ensures Lines(Written(lines)) == lines && 0 !in Written(lines)
    ensures Written(lines) == [] || Written(lines)[|Written(lines)| - 1] == NEWLINE
    decreases |lines|
  {
    hide Lines, Rest, FirstOf;
    if lines == [] {
      FirstLine([]);
    } else {
      assert lines[0] in lines;
      LinesWritten(lines[1..]);
      LinesOfOne(lines[0]);
      LinesAfterWhole(lines[0] + [NEWLINE], Written(lines[1..]));
    }
  }

  /** The reads in which a text, a completion byte and anything after it arrive. */
  ghost predicate Delivers(port: seq<Text>, text: Text, after: Text) {
    Flat(port) == text + [0] + after
  }

  lemma BodyIs(text: Text, after: Text)
    requires 0 !in text
    ensures 0 in text + [0] + after && Body(text + [0] + after) == text
  {
    var s := text + [0] + after;
    assert s[|text|] == 0 && s[..|text|] == text;
    FirstOfUnique(0, s, |text|);
  }

  /** What the loop makes of harmless lines and a completion byte, whatever the cuts. */
  lemma LinesForwarded(env: Env, config: Config, lines: seq<Text>, port: seq<Text>, after: Text)
    requires (forall line <- lines :: Harmless(env, line)) && lines != []
    requires Delivers(port, Written(lines), after)
    ensures var a := RunLines(env, Start(config).machine, lines, []);
            Forward(env, Start(config), port)
            == if a.None? || a.value.machine.queue.Some? then Failed
               else Finished(a.value.machine.config, a.value.machine.log, Written(lines))
  {
    hide RunLines, LinesLook, Lines, Rest, FirstOf, Forward, Quiet, Body;
    var text, s := Written(lines), Start(config);
    LinesWritten(lines);
    BodyIs(text, after);
    assert [] + text == text;
    QuietNeverLooks(env, s.machine, lines);
    ForwardIsMeaning(env, s, port);
    assert text != [];
    assert (text + [0] + after)[|text| - 1] == text[|text| - 1];
  }

  // ----- the results

  /**
   Whatever the cuts, a script whose lines all arrive with a newline before the completion byte ends in the
   configuration its meaning gives, with exactly its commands executed in order and its text written out;
   it fails when its meaning does.
   */
  lemma ScriptForwarded(env: Env, config: Config, items: seq<Item>, port: seq<Text>, after: Text)
    requires (forall item <- items :: PlainItem(item)) && items != []
    requires Delivers(port, Written(ScriptLines(items)), after)
    ensures var run := ScriptRuns(env, config, items);
            Forward(env, Start(config), port)
            == if run.None? then Failed else Finished(run.value, ScriptCommands(items), Written(ScriptLines(items)))
  {
    hide PlainItem, Harmless, Forward, ScriptRuns, ScriptCommands, RunLines, Written, Delivers, ItemLines;
    ScriptHarmless(env, items);
    ItemHasLine(items[0]);
    LinesForwarded(env, config, ScriptLines(items), port, after);
    ScriptRunsSo(env, Start(config).machine, items);
    assert [] + ScriptCommands(items) == ScriptCommands(items);
  }

  lemma ItemHasLine(item: Item)
    ensures ItemLines(item) != []
  {
    hide Ascii, LinesOf, LineOf;
  }

  /** The environment of boot.py for RESTORE: back to the saved configuration, an error without one. */
  ghost predicate Restores(env: Env) {
    forall config: Config, saved: Option<Config> ::
      env.execute(config, Command(Ascii("RESTORE"), []), saved) == saved
  }

  lemma {:induction false} FoldedAppend(env: Env, config: Config, cs: seq<Command>, c: Command, saved: Option<Config>)
    ensures var before := Folded(env, config, cs, saved);
            Folded(env, config, cs + [c], saved) == if before.None? then None else env.execute(before.value, c, saved)
    decreases |cs|
  {
    var all := cs + [c];
    if cs == [] {
      assert all[0] == c && all[1..] == [];
    } else {
      assert all[0] == cs[0] && all[1..] == cs[1..] + [c];
      var next := env.execute(config, cs[0], saved);
      if next.Some? {
        FoldedAppend(env, next.value, cs[1..], c, saved);
      }
    }
  }

  lemma RestoreIsPlain()
    ensures PlainCommand(Command(Ascii("RESTORE"), []))
  {
    assert Ascii("RESTORE") == [0x52, 0x45, 0x53, 0x54, 0x4F, 0x52, 0x45];
    hide Ascii;
    Spelling();
  }

  /** A block that ends with RESTORE leaves the configuration it began with; outside a block RESTORE fails. */
  lemma BlockRestores(env: Env, config: Config, cs: seq<Command>, port: seq<Text>, after: Text)
    requires Restores(env) && forall c <- cs :: PlainCommand(c)
    ensures var restore := Command(Ascii("RESTORE"), []);
            var block := [Block(cs + [restore])];
            && (Delivers(port, Written(ScriptLines(block)), after) && Folded(env, config, cs, Some(config)).Some? ==>
                  Forward(env, Start(config), port)
                  == Finished(config, cs + [restore], Written(ScriptLines(block))))
            && (Delivers(port, Written(ScriptLines([Single(restore)])), after) ==>
                  Forward(env, Start(config), port) == Failed)
  {
    hide PlainCommand, Forward, Written, ItemLines, Delivers, Folded, Ascii;
    var restore := Command(Ascii("RESTORE"), []);
    var block, single := [Block(cs + [restore])], [Single(restore)];
    RestoreIsPlain();
    if Delivers(port, Written(ScriptLines(block)), after) && Folded(env, config, cs, Some(config)).Some? {
      ScriptForwarded(env, config, block, port, after);
      FoldedAppend(env, config, cs, restore, Some(config));
      OneItem(env, config, block[0]);
    }
    if Delivers(port, Written(ScriptLines(single)), after) {
      ScriptForwarded(env, config, single, port, after);
      OneItem(env, config, single[0]);
    }
  }

  lemma OneItem(env: Env, config: Config, item: Item)
    ensures ScriptRuns(env, config, [item]) == ItemRuns(env, config, item)
    ensures ScriptCommands([item]) == ItemCommands(item)
  {
    hide ItemRuns, ItemCommands;
    assert [item][1..] == [];
    var next := ItemRuns(env, config, item);
    if next.Some? {
      assert ScriptRuns(env, next.value, []) == next;
    }
    assert ScriptCommands([]) == [];
  }

  // ----- what a script cannot say

  /** The frame of a block broken: an END too many, a BEGIN inside, or no END before the completion byte. */
  datatype Break = StrayEnd | NestedBegin(inside: seq<Command>) | Unfinished(queued: seq<Command>)

  predicate PlainBreak(b: Break) {
    match b
    case StrayEnd => true
    case NestedBegin(cs) => forall c <- cs :: PlainCommand(c)
    case Unfinished(cs) => forall c <- cs :: PlainCommand(c)
  }

  function BreakLines(b: Break): seq<Text> {
    match b
    case StrayEnd => [Ascii("# HOST-CMD: END")]
    case NestedBegin(cs) => [Ascii("# HOST-CMD: BEGIN")] + LinesOf(cs) + [Ascii("# HOST-CMD: BEGIN")]
    case Unfinished(cs) => [Ascii("# HOST-CMD: BEGIN")] + LinesOf(cs)
  }

  lemma BreakHarmless(env: Env, b: Break)
    requires PlainBreak(b)
    ensures forall line <- BreakLines(b) :: Harmless(env, line)
  {
    hide PlainCommand, LineOf, Harmless, Ascii;
    FrameHarmless(env);
    if b.NestedBegin? {
      CommandsHarmless(env, b.inside);
    } else if b.Unfinished? {
      CommandsHarmless(env, b.queued);
    }
  }

  lemma FrameRefused(env: Env, m: Machine)
    ensures m.queue.None? ==> RunLine(env, m, Ascii("# HOST-CMD: END"), []) == None
    ensures m.queue.Some? ==> RunLine(env, m, Ascii("# HOST-CMD: BEGIN"), []) == None
  {
    hide ParseHostCommand, Ascii;
    FrameLines();
    BlockLines();
  }

  lemma OpenedRuns(env: Env, m: Machine, cs: seq<Command>)
    requires (forall c <- cs :: PlainCommand(c)) && m.queue.None?
    ensures RunLines(env, m, [Ascii("# HOST-CMD: BEGIN")] + LinesOf(cs), [])
         == Some(After(m.(queue := Some(Queue(cs, m.config))), []))
  {
    hide RunLine, PlainCommand, LineOf, Ascii, RunLines;
    var begin := Ascii("# HOST-CMD: BEGIN");
    BeginRuns(env, m);
    OneLine(env, m, begin, []);
    CommandsQueued(env, m.(queue := Some(Queue([], m.config))), cs);
    assert [] + cs == cs;
    RunLinesAppend(env, m, [begin], LinesOf(cs), []);
  }

  lemma BreakRuns(env: Env, m: Machine, b: Break)
    requires PlainBreak(b) && m.queue.None?
    ensures var a := RunLines(env, m, BreakLines(b), []);
            a.None? || a.value.machine.queue.Some?
  {
    hide RunLine, PlainCommand, LineOf, Ascii, RunLines;
    match b {
      case StrayEnd =>
        FrameRefused(env, m);
        OneLine(env, m, Ascii("# HOST-CMD: END"), []);
      case NestedBegin(cs) =>
        var begin, open := Ascii("# HOST-CMD: BEGIN"), m.(queue := Some(Queue(cs, m.config)));
        OpenedRuns(env, m, cs);
        FrameRefused(env, open);
        OneLine(env, open, begin, []);
        RunLinesAppend(env, m, [begin] + LinesOf(cs), [begin], []);
      case Unfinished(cs) =>
        OpenedRuns(env, m, cs);
    }
  }

  /** A script whose last lines break the frame of a block fails, whatever the cuts. */
  lemma BrokenFrameFails(env: Env, config: Config, items: seq<Item>, b: Break, port: seq<Text>, after: Text)
    requires (forall item <- items :: PlainItem(item)) && PlainBreak(b)
    requires Delivers(port, Written(ScriptLines(items) + BreakLines(b)), after)
    ensures Forward(env, Start(config), port) == Failed
  {
    hide PlainItem, PlainBreak, Harmless, Forward, ScriptRuns, ScriptCommands, ScriptLines, RunLines, Written, Delivers;
    var m, lines := Start(config).machine, ScriptLines(items) + BreakLines(b);
    ScriptHarmless(env, items);
    BreakHarmless(env, b);
    assert BreakLines(b) != [];
    LinesForwarded(env, config, lines, port, after);
    ScriptRunsSo(env, m, items);
    RunLinesAppend(env, m, ScriptLines(items), BreakLines(b), []);
    var run := RunLines(env, m, ScriptLines(items), []);
    if run.Some? {
      BreakRuns(env, run.value.machine, b);
    }
  }

  /** A line that announces a reset, last in its read, ends the loop with the state the script has reached. */
  lemma ResetAnnounced(env: Env, config: Config, items: seq<Item>, argument: Text, later: seq<Text>)
    requires (forall item <- items :: PlainItem(item)) && argument != [] && OneLineOf(argument)
    ensures var line := Ascii("# HOST-CMD: ") + Ascii("EXPECT_RESET") + [0x20] + argument;
            var text := Written(ScriptLines(items) + [line]);
            var run := ScriptRuns(env, config, items);
            Forward(env, Start(config), [text] + later)
            == if run.None? then Failed else ResetExpected(argument, run.value, ScriptCommands(items), text)
  {
    hide PlainItem, Harmless, ScriptRuns, ScriptCommands, ScriptLines, RunLines, Lines, Rest, FirstOf, LinesLook, Ascii,
         Written, RunLine, LineOf;
    var m, line := Start(config).machine, LineOf(Command(Ascii("EXPECT_RESET"), argument));
    ResetLine(env, argument);
    var lines := ScriptLines(items) + [line];
    var text := Written(lines);
    ScriptHarmless(env, items);
    HarmlessLines(env, ScriptLines(items));
    LinesWritten(lines);
    WrittenSome(lines);
    assert [] + text == text && ([text] + later)[1..] == later;
    QuietNeverLooks(env, m, ScriptLines(items));
    DeafLines(env, m, ScriptLines(items), later);
    ScriptRunsSo(env, m, items);
    assert [] + ScriptCommands(items) == ScriptCommands(items);
    RunLinesAppend(env, m, ScriptLines(items), [line], later);
    var end := ScriptRuns(env, config, items);
    assert m.(reset := None) == m;
    if end.Some? {
      var reached := m.(config := end.value, log := ScriptCommands(items));
      ResetRuns(env, reached, argument, later);
      OneLine(env, reached, line, later);
    }
  }

  lemma HarmlessLines(env: Env, lines: seq<Text>)
    requires forall line <- lines :: Harmless(env, line)
    ensures (forall line <- lines :: OneLineOf(line)) && AllQuiet(env, lines)
  {
    hide Quiet, OneLineOf;
  }

  lemma WrittenSome(lines: seq<Text>)
    requires lines != []
    ensures Written(lines) != []
  {}

  lemma ResetLine(env: Env, argument: Text)
    requires argument != [] && OneLineOf(argument)
    ensures LineOf(Command(Ascii("EXPECT_RESET"), argument))
         == Ascii("# HOST-CMD: ") + Ascii("EXPECT_RESET") + [0x20] + argument
    ensures OneLineOf(LineOf(Command(Ascii("EXPECT_RESET"), argument)))
  {
    hide Ascii, OneLineOf;
    NamesAreOneLine();
    var x, y := Ascii("# HOST-CMD: "), Ascii("EXPECT_RESET");
    OneLineJoined(x, y);
    OneLineJoined(x + y, [0x20]);
    OneLineJoined(x + y + [0x20], argument);
    assert x + y + ([0x20] + argument) == x + y + [0x20] + argument;
  }

  lemma NamesAreOneLine()
    ensures OneLineOf(Ascii("# HOST-CMD: ")) && OneLineOf(Ascii("EXPECT_RESET")) && OneLineOf([0x20])
  {
    hide Ascii, PREFIX;
    Spelling();
    PlainPrefix();
  }

  lemma OneLineJoined(x: Text, y: Text)
    ensures OneLineOf(x + y) <==> OneLineOf(x) && OneLineOf(y)
  {}

  lemma ResetRuns(env: Env, m: Machine, argument: Text, port: seq<Text>)
    requires m.queue.None? && m.reset.None?
    ensures RunLine(env, m, LineOf(Command(Ascii("EXPECT_RESET"), argument)), port)
         == Some(After(m.(reset := Some(argument)), port))
  {
    hide ParseHostCommand, Ascii, LineOf;
    Spelling();
    LineParses(Command(Ascii("EXPECT_RESET"), argument));
  }
}
