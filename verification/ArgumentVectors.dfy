/** The argument vectors `run` hands to its two steps, and the option loops that read them. */
module ArgumentVectors {
  import opened Wrappers

  const CAPTURE_ARGUMENT_OVERHEAD: nat := 7

  // ----- The vector for the capture program -----

  /** What comes before the command. */
  function CaptureHead(tool: string, logArguments: bool, logResults: bool, capture: string): (words: seq<string>)
    ensures |words| <= 6
  {
    var first := if logArguments then [tool, "-A"] else [tool];
    var second := if logResults then first + ["-R"] else first;
    second + ["-o", capture, "--"]
  }

  /** What the capture program is started with. */
  function CaptureWords(tool: string, logArguments: bool, logResults: bool, capture: string, command: seq<string>): (r: seq<string>) {
    CaptureHead(tool, logArguments, logResults, capture) + command
  }

  /** A vector holding the words and then only null pointers. */
  ghost predicate Holds(slots: seq<Option<string>>, words: seq<string>) {
    && |words| <= |slots|
    && (forall i :: 0 <= i < |words| ==> slots[i] == Some(words[i]))
    && (forall i :: |words| <= i < |slots| ==> slots[i] == None)
  }

  /** The vector as `run_command` allocates and fills it. */
  method BuildCaptureArguments(tool: string, logArguments: bool, logResults: bool, capture: string, command: seq<string>)
    returns (argv: array<Option<string>>)
    ensures fresh(argv) && argv.Length == |command| + 7
    ensures Holds(argv[..], CaptureWords(tool, logArguments, logResults, capture, command))
    ensures argv[argv.Length - 1] == None
  {
    argv := new Option<string>[|command| + CAPTURE_ARGUMENT_OVERHEAD](_ => None);
    assert Holds(argv[..], []);
    hide Holds;
    hide CaptureHead;
    var count := StoreHead(argv, tool, logArguments, logResults, capture);
    ghost var head := CaptureHead(tool, logArguments, logResults, capture);
    StoreCommand(argv, count, command, head);
    LastIsNull(argv[..], head + command);
  }

  /** The program, the flags that were asked for, the directory and the terminator. */
  method StoreHead(argv: array<Option<string>>, tool: string, logArguments: bool, logResults: bool, capture: string)
    returns (count: nat)
    requires argv.Length >= CAPTURE_ARGUMENT_OVERHEAD && Holds(argv[..], [])
    modifies argv
    ensures count == |CaptureHead(tool, logArguments, logResults, capture)|
    ensures Holds(argv[..], CaptureHead(tool, logArguments, logResults, capture))
  {
    hide Holds;
    ghost var words: seq<string> := [];
    count, words := Store(argv, 0, tool, words);
    if logArguments { count, words := Store(argv, count, "-A", words); }
    assert words == if logArguments then [tool, "-A"] else [tool];
    if logResults { count, words := Store(argv, count, "-R", words); }
    ghost var flags := words;
    count, words := Store(argv, count, "-o", words);
    count, words := Store(argv, count, capture, words);
    count, words := Store(argv, count, "--", words);
    assert words == flags + ["-o", capture, "--"];
  }

  lemma LastIsNull(slots: seq<Option<string>>, words: seq<string>)
    requires Holds(slots, words) && |words| < |slots|
    ensures slots[|slots| - 1] == None
  {
  }

  /** The closing loop: the words of the command. */
  method StoreCommand(argv: array<Option<string>>, start: nat, command: seq<string>, ghost head: seq<string>)
    requires start == |head| && |head| + |command| <= argv.Length && Holds(argv[..], head)
    modifies argv
    ensures Holds(argv[..], head + command)
  {
    hide Holds;
    assert head + command[..0] == head;
    ghost var words := head;
    var count, index := start, 0;
    while index < |command|
      invariant index <= |command| && count == |words| == |head| + index
      invariant words == head + command[..index]
      invariant Holds(argv[..], words)
    {
      assert head + command[..index + 1] == head + command[..index] + [command[index]];
      count, words := Store(argv, count, command[index], words);
      index := index + 1;
    }
    assert command[..|command|] == command;
  }

  /** `argv[count] = word; count++`, while the vector still has room. */
  method Store(argv: array<Option<string>>, count: nat, word: string, ghost words: seq<string>)
    returns (next: nat, ghost stored: seq<string>)
    requires count == |words| < argv.Length && Holds(argv[..], words)
    modifies argv
    ensures next == count + 1 && stored == words + [word]
    ensures Holds(argv[..], stored)
  {
    argv[count] := Some(word);
    next, stored := count + 1, words + [word];
  }

  /** The words a new program finds in a vector: those before the first null pointer. */
  function Terminated(slots: seq<Option<string>>): (r: seq<string>) {
    if slots == [] || slots[0].None? then [] else [slots[0].value] + Terminated(slots[1..])
  }

  lemma {:induction false} TerminatedHolds(slots: seq<Option<string>>, words: seq<string>)
    requires Holds(slots, words)
    ensures Terminated(slots) == words
  {
    if words != [] {
      assert slots[0] == Some(words[0]);
      assert forall i :: 0 <= i < |words[1..]| ==> slots[1..][i] == slots[i + 1] && words[1..][i] == words[i + 1];
      TerminatedHolds(slots[1..], words[1..]);
    }
  }

  // ----- `getopt` with the option string ":hvARo:" -----

  datatype Event = End | Flag(option: char) | Given(argument: string) | Missing | Unknown

  predicate IsFlag(c: char) {
    c == 'h' || c == 'v' || c == 'A' || c == 'R'
  }

  /** The next option, and where the following call goes on: the argument and the character within it
      (0 when a new argument is to be looked at). */
  function NextOption(argv: seq<string>, index: nat, at: nat): (r: (Event, nat, nat))
    requires at > 0 ==> index < |argv| && at < |argv[index]|
    ensures r.2 > 0 ==> r.1 < |argv| && r.2 < |argv[r.1]|
    ensures r.0 != End ==> index < |argv| && (r.1 > index || (r.1 == index && r.2 > at))
    ensures r.1 >= index && (index <= |argv| ==> r.1 <= |argv|)
  {
    if at == 0 && (index >= |argv| || argv[index] == "" || argv[index][0] != '-' || argv[index] == "-") then (End, index, 0)
    else if at == 0 && argv[index] == "--" then (End, index + 1, 0)
    else
      var word := argv[index];
      var k := if at == 0 then 1 else at;
      var c := word[k];
      var more := k + 1 < |word|;
      if c == 'o' then
        if more then (Given(word[k + 1..]), index + 1, 0)
        else if index + 1 < |argv| then (Given(argv[index + 1]), index + 2, 0)
        else (Missing, index + 1, 0)
      else
        var option := if IsFlag(c) then Flag(c) else Unknown;
        if more then (option, index, k + 1) else (option, index + 1, 0)
  }

  /** The state `getopt` keeps between calls. */
  class Getopt {
    const argv: seq<string>
    var optind: nat
    var at: nat

    ghost predicate Valid()
      reads this
    {
      1 <= optind && (at > 0 ==> optind < |argv| && at < |argv[optind]|)
    }

    constructor (argv: seq<string>)
      ensures this.argv == argv && optind == 1 && at == 0
    {
      this.argv, optind, at := argv, 1, 0;
    }

    method Next() returns (option: Event)
      requires Valid()
      modifies this
      ensures Valid()
      ensures (option, optind, at) == NextOption(argv, old(optind), old(at))
    {
      var (o, i, k) := NextOption(argv, optind, at);
      option, optind, at := o, i, k;
    }
  }

  // ----- The reader of the capture program -----

  datatype Arguments = Arguments(
    reportDir: Option<string>, command: seq<string>,
    verbose: bool, logArguments: bool, logResults: bool, showHelp: bool)

  function WithFlag(arguments: Arguments, c: char): (r: Arguments) {
    if c == 'h' then arguments.(showHelp := true)
    else if c == 'v' then arguments.(verbose := true)
    else if c == 'A' then arguments.(logArguments := true)
    else if c == 'R' then arguments.(logResults := true)
    else arguments
  }

  /** What the option loop makes of the rest of a vector; none is a usage error. */
  function ReadOptions(argv: seq<string>, index: nat, at: nat, arguments: Arguments): (r: Option<Arguments>)
    requires index <= |argv| && (at > 0 ==> index < |argv| && at < |argv[index]|)
    decreases |argv| - index, if index < |argv| then |argv[index]| - at else 0
  {
    var (option, next, within) := NextOption(argv, index, at);
    match option
    case End => Some(arguments.(command := argv[next..]))
    case Flag(c) => ReadOptions(argv, next, within, WithFlag(arguments, c))
    case Given(directory) => ReadOptions(argv, next, within, arguments.(reportDir := Some(directory)))
    case Missing => None
    case Unknown => None
  }

  const NOTHING := Arguments(None, [], false, false, false, false)

  function ReadArguments(argv: seq<string>): (r: Option<Arguments>)
    requires argv != []
  {
    if |argv| == 2 && argv[1] == "--help" then Some(NOTHING.(showHelp := true))
    else ReadOptions(argv, 1, 0, NOTHING)
  }

  /** `p101_observe_parse_arguments`; `ok` is false when it raises a usage error. */
  method ParseArguments(argv: seq<string>) returns (ok: bool, arguments: Arguments)
    requires argv != []
    ensures ok == ReadArguments(argv).Some?
    ensures ok ==> ReadArguments(argv) == Some(arguments)
  {
    ok, arguments := true, NOTHING;
    if |argv| == 2 && argv[1] == "--help" {
      arguments := arguments.(showHelp := true);
      return;
    }
    var getopt := new Getopt(argv);
    while true
      invariant fresh(getopt) && getopt.Valid() && getopt.argv == argv && getopt.optind <= |argv|
      invariant ReadArguments(argv) == ReadOptions(argv, getopt.optind, getopt.at, arguments)
      decreases |argv| - getopt.optind, if getopt.optind < |argv| then |argv[getopt.optind]| - getopt.at else 0
    {
      var option := getopt.Next();
      match option {
        case End => break;
        case Flag(c) => arguments := WithFlag(arguments, c);
        case Given(directory) => arguments := arguments.(reportDir := Some(directory));
        case Missing => return false, arguments;
        case Unknown => return false, arguments;
      }
    }
    arguments := arguments.(command := argv[getopt.optind..]);
  }

  /** `p101_observe_check_arguments` */
  predicate Acceptable(arguments: Arguments) {
    arguments.command != [] && arguments.reportDir != Some("")
  }

  // ----- What a vector means, without `getopt` -----

  /** One way of writing options: flags in one word, perhaps with `o` at its end and the directory in the same word or
      in the next one. */
  datatype OptionWord =
    | Flags(flags: string)
    | Attached(flags: string, argument: string)
    | Separate(flags: string, argument: string)

  predicate AllFlags(s: string) {
    forall i :: 0 <= i < |s| ==> s[i] == 'h' || s[i] == 'v' || s[i] == 'A' || s[i] == 'R'
  }

  predicate WellFormed(w: OptionWord) {
    AllFlags(w.flags) && (w.Flags? ==> w.flags != "") && (w.Attached? ==> w.argument != "")
  }

  function Spell(w: OptionWord): (words: seq<string>)
    ensures 0 < |words| <= 2
  {
    match w
    case Flags(flags) => ["-" + flags]
    case Attached(flags, argument) => ["-" + flags + "o" + argument]
    case Separate(flags, argument) => ["-" + flags + "o", argument]
  }

  function SpellAll(options: seq<OptionWord>): (r: seq<string>) {
    if options == [] then [] else Spell(options[0]) + SpellAll(options[1..])
  }

  predicate IsOptionWord(word: string) {
    |word| >= 2 && word[0] == '-' && word != "--"
  }

  /** A vector is the options as written and then the operands, which begin at `--` or at the first word that is no
      option: nothing is skipped, and nothing read twice. */
  ghost predicate Spelling(argv: seq<string>, options: seq<OptionWord>, rest: seq<string>) {
    && argv == SpellAll(options) + rest
    && (forall i :: 0 <= i < |options| ==> WellFormed(options[i]))
    && (rest == [] || !IsOptionWord(rest[0]))
  }

  function AfterTerminator(rest: seq<string>): (r: seq<string>) {
    if rest != [] && rest[0] == "--" then rest[1..] else rest
  }

  function WithFlags(arguments: Arguments, flags: string): (r: Arguments)
    decreases |flags|
  {
    if flags == "" then arguments else WithFlags(WithFlag(arguments, flags[0]), flags[1..])
  }

  function WithOption(arguments: Arguments, w: OptionWord): (r: Arguments) {
    var flagged := WithFlags(arguments, w.flags);
    if w.Flags? then flagged else flagged.(reportDir := Some(w.argument))
  }

  /** The options in order; the last directory counts. */
  function Meaning(options: seq<OptionWord>, arguments: Arguments): (r: Arguments) {
    if options == [] then arguments else Meaning(options[1..], WithOption(arguments, options[0]))
  }

  /** What is read from a word once its flags are done. */
  function AfterFlags(argv: seq<string>, index: nat, tail: string, arguments: Arguments): (r: Option<Arguments>)
    requires index < |argv|
  {
    if tail == "" then ReadOptions(argv, index + 1, 0, arguments)
    else if tail[0] != 'o' then None
    else if |tail| > 1 then ReadOptions(argv, index + 1, 0, arguments.(reportDir := Some(tail[1..])))
    else if index + 1 < |argv| then ReadOptions(argv, index + 2, 0, arguments.(reportDir := Some(argv[index + 1])))
    else None
  }

  /** The loop takes the flags of a word one by one. */
  lemma {:induction false} ReadCluster(argv: seq<string>, i: nat, k: nat, flags: string, tail: string, arguments: Arguments)
    requires i < |argv| && 0 < k < |argv[i]| && argv[i][k..] == flags + tail
    requires AllFlags(flags) && (tail == "" || !IsFlag(tail[0]))
    ensures ReadOptions(argv, i, k, arguments) == AfterFlags(argv, i, tail, WithFlags(arguments, flags))
    decreases |flags|
  {
    assert argv[i][k] == (flags + tail)[0];
    if flags == "" {
      assert argv[i][k + 1..] == tail[1..];
    } else if k + 1 < |argv[i]| {
      assert argv[i][k + 1..] == flags[1..] + tail;
      ReadCluster(argv, i, k + 1, flags[1..], tail, WithFlag(arguments, flags[0]));
    } else {
      assert tail == "" && flags[1..] == "";
    }
  }

  lemma ReadWord(argv: seq<string>, i: nat, flags: string, tail: string, arguments: Arguments)
    requires i < |argv| && IsOptionWord(argv[i]) && argv[i][1..] == flags + tail
    requires AllFlags(flags) && (tail == "" || !IsFlag(tail[0]))
    ensures ReadOptions(argv, i, 0, arguments) == AfterFlags(argv, i, tail, WithFlags(arguments, flags))
  {
    assert NextOption(argv, i, 0) == NextOption(argv, i, 1);
    ReadCluster(argv, i, 1, flags, tail, arguments);
  }

  /** How much of a text is flags. */
  function FlagRun(s: string): (n: nat)
    ensures n <= |s| && AllFlags(s[..n]) && (n < |s| ==> !IsFlag(s[n]))
  {
    if s == "" || !IsFlag(s[0]) then 0 else
      var n := 1 + FlagRun(s[1..]);
      assert s[..n] == [s[0]] + s[1..][..n - 1];
      n
  }

  lemma ReadEnd(argv: seq<string>, i: nat, arguments: Arguments)
    requires i <= |argv| && (i == |argv| || !IsOptionWord(argv[i]))
    ensures ReadOptions(argv, i, 0, arguments) == Some(arguments.(command := AfterTerminator(argv[i..])))
  {
    assert i < |argv| ==> argv[i..][0] == argv[i] && argv[i..][1..] == argv[i + 1..];
  }

  /** One option is read as it means, wherever it stands. */
  lemma ReadOne(argv: seq<string>, i: nat, w: OptionWord, arguments: Arguments)
    requires i + |Spell(w)| <= |argv| && argv[i..i + |Spell(w)|] == Spell(w) && WellFormed(w)
    ensures ReadOptions(argv, i, 0, arguments) == ReadOptions(argv, i + |Spell(w)|, 0, WithOption(arguments, w))
  {
    hide ReadOptions;
    hide WithFlags;
    assert argv[i] == Spell(w)[0];
    var tail := match w case Flags(_) => "" case Attached(_, argument) => "o" + argument case Separate(_, _) => "o";
    assert argv[i] == "-" + (w.flags + tail);
    assert argv[i][1..] == w.flags + tail;
    assert argv[i] != "--" by {
      if w.flags != "" { assert IsFlag(w.flags[0]) && argv[i][1] == w.flags[0]; } else { assert argv[i][1] == tail[0]; }
    }
    if w.Separate? { assert argv[i + 1] == Spell(w)[1]; }
    if w.Attached? { assert tail[1..] == w.argument; }
    ReadWord(argv, i, w.flags, tail, arguments);
  }

  /** A vector written as options and operands is read as they mean. */
  lemma {:induction false} SpelledIsRead(argv: seq<string>, i: nat, options: seq<OptionWord>, rest: seq<string>, arguments: Arguments)
    requires i <= |argv| && Spelling(argv[i..], options, rest)
    ensures ReadOptions(argv, i, 0, arguments) == Some(Meaning(options, arguments).(command := AfterTerminator(rest)))
    decreases |options|
  {
    hide ReadOptions;
    hide WellFormed;
    hide IsOptionWord;
    hide Spell;
    hide WithOption;
    hide AfterTerminator;
    if options == [] {
      assert argv[i..] == rest;
      ReadEnd(argv, i, arguments);
    } else {
      var n := |Spell(options[0])|;
      SplitAt(argv, i, Spell(options[0]), SpellAll(options[1..]) + rest);
      ReadOne(argv, i, options[0], arguments);
      SpelledIsRead(argv, i + n, options[1..], rest, WithOption(arguments, options[0]));
    }
  }

  lemma SplitAt(argv: seq<string>, i: nat, a: seq<string>, b: seq<string>)
    requires i <= |argv| && argv[i..] == a + b
    ensures i + |a| <= |argv| && argv[i..i + |a|] == a && argv[i + |a|..] == b
  {
    assert argv[i..][..|a|] == a && argv[i..][|a|..] == b;
  }

  /** The first option of a vector that is read without an error. */
  lemma FirstOption(argv: seq<string>, i: nat, arguments: Arguments) returns (w: OptionWord)
    requires i < |argv| && IsOptionWord(argv[i]) && ReadOptions(argv, i, 0, arguments).Some?
    ensures WellFormed(w) && i + |Spell(w)| <= |argv| && argv[i..i + |Spell(w)|] == Spell(w)
  {
    var flags, tail := FlagsAndTail(argv[i]);
    ReadWord(argv, i, flags, tail, arguments);
    hide ReadOptions;
    if tail == "" {
      w := Flags(flags);
    } else if |tail| > 1 {
      w := Attached(flags, tail[1..]);
    } else {
      w := Separate(flags, argv[i + 1]);
    }
    TailSpelled(argv[i], flags, tail, w);
  }

  lemma FlagsAndTail(word: string) returns (flags: string, tail: string)
    requires IsOptionWord(word)
    ensures word[1..] == flags + tail && AllFlags(flags) && (tail == "" || !IsFlag(tail[0]))
  {
    var body := word[1..];
    var n := FlagRun(body);
    flags, tail := body[..n], body[n..];
  }

  lemma TailSpelled(word: string, flags: string, tail: string, w: OptionWord)
    requires IsOptionWord(word) && word[1..] == flags + tail && w.flags == flags
    requires match w case Flags(_) => tail == "" case Attached(_, argument) => tail == "o" + argument case Separate(_, _) => tail == "o"
    ensures Spell(w)[0] == word
    ensures w.Flags? ==> flags != ""
  {
    assert word == "-" + (flags + tail);
  }

  /** Every vector that is read without an error is written as options and operands. */
  lemma {:induction false} ReadIsSpelled(argv: seq<string>, i: nat, arguments: Arguments)
    returns (options: seq<OptionWord>, rest: seq<string>)
    requires i <= |argv| && ReadOptions(argv, i, 0, arguments).Some?
    ensures Spelling(argv[i..], options, rest)
    decreases |argv| - i
  {
    hide ReadOptions;
    hide WellFormed;
    hide IsOptionWord;
    hide Spell;
    options, rest := [], argv[i..];
    if i < |argv| && IsOptionWord(argv[i]) {
      var w := FirstOption(argv, i, arguments);
      ReadOne(argv, i, w, arguments);
      options, rest := ReadIsSpelled(argv, i + |Spell(w)|, WithOption(arguments, w));
      var later := options;
      options := [w] + later;
      assert options[1..] == later;
      assert argv[i..] == argv[i..i + |Spell(w)|] + argv[i + |Spell(w)|..];
      assert SpellAll(options) == Spell(w) + SpellAll(later);
    }
  }

  predicate AsksForHelp(argv: seq<string>) {
    |argv| == 2 && argv[1] == "--help"
  }

  /** What the option loop makes of any vector: exactly the meaning of the options it is written with, and the
      operands; a vector that cannot be written so is a usage error. */
  lemma ReadArgumentsIff(argv: seq<string>, arguments: Arguments)
    requires argv != []
    ensures ReadArguments(argv) == Some(arguments) <==>
      if AsksForHelp(argv) then arguments == NOTHING.(showHelp := true)
      else exists options, rest :: Spelling(argv[1..], options, rest)
             && arguments == Meaning(options, NOTHING).(command := AfterTerminator(rest))
  {
    hide ReadOptions;
    hide Spelling;
    hide Meaning;
    hide AfterTerminator;
    if !AsksForHelp(argv) {
      if ReadArguments(argv) == Some(arguments) {
        var options, rest := ReadIsSpelled(argv, 1, NOTHING);
        SpelledIsRead(argv, 1, options, rest, NOTHING);
      }
      forall options, rest | Spelling(argv[1..], options, rest)
        ensures ReadArguments(argv) == Some(Meaning(options, NOTHING).(command := AfterTerminator(rest))) {
        SpelledIsRead(argv, 1, options, rest, NOTHING);
      }
    }
  }

  /** Flags only ever turn things on, each its own; the directory and the command are not theirs. */
  lemma {:induction false} FlagsMean(arguments: Arguments, flags: string)
    ensures WithFlags(arguments, flags) == arguments.(
      showHelp := arguments.showHelp || 'h' in flags, verbose := arguments.verbose || 'v' in flags,
      logArguments := arguments.logArguments || 'A' in flags, logResults := arguments.logResults || 'R' in flags)
    decreases |flags|
  {
    if flags != "" {
      FlagsMean(WithFlag(arguments, flags[0]), flags[1..]);
      assert flags == [flags[0]] + flags[1..];
    }
  }

  /** Some option word gives this flag. */
  ghost predicate Flagged(options: seq<OptionWord>, c: char) {
    exists i :: 0 <= i < |options| && c in options[i].flags
  }

  /** The directories given, in order. */
  function DirectoriesOf(options: seq<OptionWord>): (r: seq<string>) {
    if options == [] then [] else (if options[0].Flags? then [] else [options[0].argument]) + DirectoriesOf(options[1..])
  }

  lemma FlaggedNext(options: seq<OptionWord>, c: char)
    requires options != []
    ensures Flagged(options, c) <==> c in options[0].flags || Flagged(options[1..], c)
  {
    if Flagged(options[1..], c) {
      var i :| 0 <= i < |options[1..]| && c in options[1..][i].flags;
      assert options[i + 1] == options[1..][i];
    }
    if Flagged(options, c) {
      var i :| 0 <= i < |options| && c in options[i].flags;
      assert i > 0 ==> options[1..][i - 1] == options[i];
    }
  }

  /** What options mean: each flag is on exactly when some word gives it, and the last directory given counts. */
  lemma {:induction false} OptionsMean(options: seq<OptionWord>, arguments: Arguments)
    ensures var dirs := DirectoriesOf(options);
      Meaning(options, arguments) == arguments.(
        showHelp := arguments.showHelp || Flagged(options, 'h'), verbose := arguments.verbose || Flagged(options, 'v'),
        logArguments := arguments.logArguments || Flagged(options, 'A'),
        logResults := arguments.logResults || Flagged(options, 'R'),
        reportDir := if dirs == [] then arguments.reportDir else Some(dirs[|dirs| - 1]))
  {
    hide Flagged;
    if options == [] {
      assert forall c :: !Flagged(options, c) by { NoneFlagged(); }
    } else {
      hide WithFlags;
      FlagsMean(arguments, options[0].flags);
      FlaggedNext(options, 'h');
      FlaggedNext(options, 'v');
      FlaggedNext(options, 'A');
      FlaggedNext(options, 'R');
      OptionsMean(options[1..], WithOption(arguments, options[0]));
    }
  }

  lemma NoneFlagged()
    ensures forall c :: !Flagged([], c)
  {
  }

  /** The options `run` writes. */
  function CaptureOptions(logArguments: bool, logResults: bool, capture: string): (r: seq<OptionWord>) {
    var second := if logResults then [Flags("R"), Separate("", capture)] else [Separate("", capture)];
    if logArguments then [Flags("A")] + second else second
  }

  /** The capture program reads back exactly what `run` was asked: the two logging flags, the directory and the
      command word for word, whatever the words look like; and it accepts that unless one of the two is empty. */
  lemma CaptureArgumentsReadBack(tool: string, logArguments: bool, logResults: bool, capture: string, command: seq<string>)
    ensures var arguments := Arguments(Some(capture), command, false, logArguments, logResults, false);
      && ReadArguments(CaptureWords(tool, logArguments, logResults, capture, command)) == Some(arguments)
      && (Acceptable(arguments) <==> command != [] && capture != "")
  {
    var argv := CaptureWords(tool, logArguments, logResults, capture, command);
    var options, rest := CaptureOptions(logArguments, logResults, capture), ["--"] + command;
    CaptureIsSpelled(tool, logArguments, logResults, capture, command);
    CaptureMeaning(logArguments, logResults, capture);
    assert rest[1..] == command;
    hide ReadOptions;
    hide Spelling;
    hide Meaning;
    hide CaptureWords;
    hide CaptureOptions;
    SpelledIsRead(argv, 1, options, rest, NOTHING);
  }

  lemma OneMore(w: OptionWord, later: seq<OptionWord>, arguments: Arguments)
    ensures Meaning([w] + later, arguments) == Meaning(later, WithOption(arguments, w))
    ensures SpellAll([w] + later) == Spell(w) + SpellAll(later)
  {
    hide WithOption;
    hide Spell;
    assert ([w] + later)[1..] == later;
  }

  lemma FlagWord(c: char, arguments: Arguments)
    requires IsFlag(c)
    ensures WellFormed(Flags([c])) && Spell(Flags([c])) == [['-', c]]
    ensures WithOption(arguments, Flags([c])) == WithFlag(arguments, c)
  {
    assert "-" + [c] == ['-', c];
    var flags := [c];
    assert flags[0] == c && flags[1..] == "";
    assert WithFlags(arguments, flags) == WithFlags(WithFlag(arguments, flags[0]), flags[1..]);
  }

  lemma DirectoryWord(capture: string, arguments: Arguments)
    ensures var w := Separate("", capture);
      && WellFormed(w) && SpellAll([w]) == ["-o", capture]
      && Meaning([w], arguments) == arguments.(reportDir := Some(capture))
  {
    var w := Separate("", capture);
    assert "-" + "" + "o" == "-o";
    OneMore(w, [], arguments);
    assert [w] + [] == [w];
  }

  lemma CaptureMeaning(logArguments: bool, logResults: bool, capture: string)
    ensures Meaning(CaptureOptions(logArguments, logResults, capture), NOTHING)
      == NOTHING.(reportDir := Some(capture), logArguments := logArguments, logResults := logResults)
  {
    hide Meaning;
    hide WithOption;
    var last := [Separate("", capture)];
    var a := if logArguments then WithFlag(NOTHING, 'A') else NOTHING;
    var b := if logResults then WithFlag(a, 'R') else a;
    FlagWord('A', NOTHING);
    FlagWord('R', a);
    DirectoryWord(capture, b);
    OneMore(Flags("R"), last, a);
    OneMore(Flags("A"), if logResults then [Flags("R")] + last else last, NOTHING);
    assert [Flags("R"), Separate("", capture)] == [Flags("R")] + last;
  }

  lemma CaptureIsSpelled(tool: string, logArguments: bool, logResults: bool, capture: string, command: seq<string>)
    ensures var argv := CaptureWords(tool, logArguments, logResults, capture, command);
      && |argv| >= 4
      && Spelling(argv[1..], CaptureOptions(logArguments, logResults, capture), ["--"] + command)
  {
    hide Spell;
    hide SpellAll;
    var last := [Separate("", capture)];
    var second := if logResults then [Flags("R")] + last else last;
    FlagWord('A', NOTHING);
    FlagWord('R', NOTHING);
    DirectoryWord(capture, NOTHING);
    OneMore(Flags("R"), last, NOTHING);
    OneMore(Flags("A"), second, NOTHING);
    hide WellFormed;
    hide Meaning;
    hide WithOption;
    assert [Flags("R"), Separate("", capture)] == [Flags("R")] + last;
    var head := CaptureHead(tool, logArguments, logResults, capture);
    assert head[1..] == SpellAll(CaptureOptions(logArguments, logResults, capture)) + ["--"];
    hide CaptureHead;
    hide CaptureOptions;
    AfterHead(head, SpellAll(CaptureOptions(logArguments, logResults, capture)), command);
    assert forall i :: 0 <= i < |CaptureOptions(logArguments, logResults, capture)| ==>
      WellFormed(CaptureOptions(logArguments, logResults, capture)[i]);
  }

  lemma AfterHead(head: seq<string>, spelled: seq<string>, command: seq<string>)
    requires head != [] && head[1..] == spelled + ["--"]
    ensures (head + command)[1..] == spelled + (["--"] + command)
  {
    assert (head + command)[1..] == head[1..] + command;
  }

  // ----- The vector for `analyze` -----

  datatype AnalyzeOptions = AnalyzeOptions(capture: string, output: Option<string>, force: bool)

  predicate IsOutputOption(word: string) {
    word == "-o" || word == "--output"
  }

  /** What the loop makes of the rest of a vector, given what it has. */
  function ReadAnalyze(argv: seq<string>, index: nat, capture: Option<string>, output: Option<string>, force: bool): (r: Option<AnalyzeOptions>)
    requires index <= |argv|
    decreases |argv| - index
  {
    if index == |argv| then
      (match capture
       case None => None
       case Some(directory) => Some(AnalyzeOptions(directory, output, force)))
    else if IsOutputOption(argv[index]) then
      if index + 1 == |argv| || output.Some? then None else ReadAnalyze(argv, index + 2, capture, Some(argv[index + 1]), force)
    else if argv[index] == "--force" then ReadAnalyze(argv, index + 1, capture, output, true)
    else if capture.None? then ReadAnalyze(argv, index + 1, Some(argv[index]), output, force)
    else None
  }

  /** The option loop of `analyze_command`. */
  method ParseAnalyze(argv: seq<string>) returns (options: Option<AnalyzeOptions>)
    requires argv != []
    ensures options == ReadAnalyze(argv, 1, None, None, false)
  {
    var capture: Option<string>, output: Option<string>, force := None, None, false;
    var index := 1;
    while index < |argv|
      invariant 1 <= index <= |argv|
      invariant ReadAnalyze(argv, 1, None, None, false) == ReadAnalyze(argv, index, capture, output, force)
    {
      if IsOutputOption(argv[index]) {
        index := index + 1;
        if index >= |argv| || output.Some? { return None; }
        output := Some(argv[index]);
      } else if argv[index] == "--force" {
        force := true;
      } else if capture.None? {
        capture := Some(argv[index]);
      } else {
        return None;
      }
      index := index + 1;
    }
    options := match capture
      case None => None
      case Some(directory) => Some(AnalyzeOptions(directory, output, force));
  }

  // ----- What such a vector means -----

  /** One thing said to `analyze`; `long` is whether the option is written out. */
  datatype AnalyzeItem = OutputTo(long: bool, directory: string) | Force | FromCapture(directory: string)

  function SpellItem(item: AnalyzeItem): (words: seq<string>)
    ensures 0 < |words| <= 2
  {
    match item
    case OutputTo(long, directory) => [if long then "--output" else "-o", directory]
    case Force => ["--force"]
    case FromCapture(directory) => [directory]
  }

  function SpellItems(items: seq<AnalyzeItem>): (r: seq<string>) {
    if items == [] then [] else SpellItem(items[0]) + SpellItems(items[1..])
  }

  /** A capture cannot be named like an option. */
  predicate ProperItem(item: AnalyzeItem) {
    item.FromCapture? ==> !IsOutputOption(item.directory) && item.directory != "--force"
  }

  predicate ProperItems(items: seq<AnalyzeItem>) {
    forall i :: 0 <= i < |items| ==> ProperItem(items[i])
  }

  /** The captures named, in order. */
  function CapturesOf(items: seq<AnalyzeItem>): (r: seq<string>) {
    if items == [] then [] else (if items[0].FromCapture? then [items[0].directory] else []) + CapturesOf(items[1..])
  }

  /** The outputs named, in order. */
  function OutputsOf(items: seq<AnalyzeItem>): (r: seq<string>) {
    if items == [] then [] else (if items[0].OutputTo? then [items[0].directory] else []) + OutputsOf(items[1..])
  }

  function ToSeq(o: Option<string>): (r: seq<string>) {
    match o case None => [] case Some(s) => [s]
  }

  /** The options some items stand for: one capture, at most one output, in any order, and `--force` any number of
      times. */
  ghost predicate Stands(items: seq<AnalyzeItem>, capture: Option<string>, output: Option<string>, force: bool,
                         options: AnalyzeOptions)
  {
    && ToSeq(capture) + CapturesOf(items) == [options.capture]
    && ToSeq(output) + OutputsOf(items) == ToSeq(options.output)
    && (options.force <==> force || Force in items)
  }

  function WithCapture(item: AnalyzeItem, capture: Option<string>): (r: Option<string>) {
    if item.FromCapture? then Some(item.directory) else capture
  }

  function WithOutput(item: AnalyzeItem, output: Option<string>): (r: Option<string>) {
    if item.OutputTo? then Some(item.directory) else output
  }

  /** The item repeats what may be said only once. */
  predicate Repeats(item: AnalyzeItem, capture: Option<string>, output: Option<string>) {
    (item.FromCapture? && capture.Some?) || (item.OutputTo? && output.Some?)
  }

  lemma ForceNext(item: AnalyzeItem, later: seq<AnalyzeItem>)
    ensures Force in [item] + later <==> item == Force || Force in later
  {
  }

  /** What stands for the options, one item at a time. */
  lemma StandsNext(item: AnalyzeItem, later: seq<AnalyzeItem>, capture: Option<string>, output: Option<string>, force: bool,
                   options: AnalyzeOptions)
    ensures Stands([item] + later, capture, output, force, options) <==>
      !Repeats(item, capture, output)
      && Stands(later, WithCapture(item, capture), WithOutput(item, output), force || item == Force, options)
  {
    var items := [item] + later;
    assert items[1..] == later;
    ForceNext(item, later);
    var one := if item.FromCapture? then [item.directory] else [];
    var out := if item.OutputTo? then [item.directory] else [];
    assert CapturesOf(items) == one + CapturesOf(later) && OutputsOf(items) == out + OutputsOf(later);
    hide CapturesOf;
    hide OutputsOf;
    assert !Repeats(item, capture, output) ==>
      ToSeq(capture) + (one + CapturesOf(later)) == ToSeq(WithCapture(item, capture)) + CapturesOf(later)
      && ToSeq(output) + (out + OutputsOf(later)) == ToSeq(WithOutput(item, output)) + OutputsOf(later);
  }

  lemma StandsEnd(capture: Option<string>, output: Option<string>, force: bool, options: AnalyzeOptions)
    ensures Stands([], capture, output, force, options) <==>
      capture == Some(options.capture) && output == options.output && force == options.force
  {
    assert CapturesOf([]) == [] && OutputsOf([]) == [];
    assert ToSeq(capture) + [] == ToSeq(capture) && ToSeq(output) + [] == ToSeq(output);
    assert ToSeq(output) == ToSeq(options.output) <==> output == options.output by { ToSeqInjective(output, options.output); }
    assert ToSeq(Some(options.capture)) == [options.capture];
    ToSeqInjective(capture, Some(options.capture));
  }

  lemma ToSeqInjective(a: Option<string>, b: Option<string>)
    ensures ToSeq(a) == ToSeq(b) <==> a == b
  {
    assert a.Some? ==> ToSeq(a)[0] == a.value;
    assert b.Some? ==> ToSeq(b)[0] == b.value;
  }

  lemma ReadAtEnd(argv: seq<string>, capture: Option<string>, output: Option<string>, force: bool, options: AnalyzeOptions)
    ensures ReadAnalyze(argv, |argv|, capture, output, force) == Some(options)
      <==> capture == Some(options.capture) && output == options.output && force == options.force
  {
  }

  lemma SpellNext(item: AnalyzeItem, later: seq<AnalyzeItem>)
    ensures SpellItems([item] + later) == SpellItem(item) + SpellItems(later)
  {
    hide SpellItem;
    assert ([item] + later)[1..] == later;
  }

  /** One item is read as it stands, wherever it stands. */
  lemma ReadItem(argv: seq<string>, i: nat, item: AnalyzeItem, capture: Option<string>, output: Option<string>, force: bool)
    requires i + |SpellItem(item)| <= |argv| && argv[i..i + |SpellItem(item)|] == SpellItem(item) && ProperItem(item)
    ensures ReadAnalyze(argv, i, capture, output, force) ==
      if Repeats(item, capture, output) then None
      else ReadAnalyze(argv, i + |SpellItem(item)|, WithCapture(item, capture), WithOutput(item, output), force || item == Force)
  {
    var words := argv[i..i + |SpellItem(item)|];
    assert argv[i] == words[0];
    assert item.OutputTo? ==> argv[i + 1] == words[1];
  }

  /** The first item of a vector that is read. */
  lemma FirstItem(argv: seq<string>, i: nat, capture: Option<string>, output: Option<string>, force: bool)
    returns (item: AnalyzeItem)
    requires i < |argv| && ReadAnalyze(argv, i, capture, output, force).Some?
    ensures ProperItem(item) && i + |SpellItem(item)| <= |argv| && argv[i..i + |SpellItem(item)|] == SpellItem(item)
  {
    if IsOutputOption(argv[i]) {
      item := OutputTo(argv[i] == "--output", argv[i + 1]);
    } else {
      item := if argv[i] == "--force" then Force else FromCapture(argv[i]);
    }
    hide ReadAnalyze;
  }

  /** Every vector that is read is written as such items. */
  lemma {:induction false} AnalyzeIsSpelled(argv: seq<string>, i: nat, capture: Option<string>, output: Option<string>,
                                            force: bool, options: AnalyzeOptions)
    returns (items: seq<AnalyzeItem>)
    requires i <= |argv| && ReadAnalyze(argv, i, capture, output, force) == Some(options)
    ensures argv[i..] == SpellItems(items) && ProperItems(items) && Stands(items, capture, output, force, options)
    decreases |argv| - i
  {
    hide ReadAnalyze;
    hide SpellItem;
    hide Stands;
    hide ProperItem;
    items := [];
    StandsEnd(capture, output, force, options);
    if i == |argv| {
      ReadAtEnd(argv, capture, output, force, options);
    } else {
      hide SpellItems;
      var item := FirstItem(argv, i, capture, output, force);
      ReadItem(argv, i, item, capture, output, force);
      var n := |SpellItem(item)|;
      var later := AnalyzeIsSpelled(argv, i + n, WithCapture(item, capture), WithOutput(item, output),
                                    force || item == Force, options);
      SpellNext(item, later);
      StandsNext(item, later, capture, output, force, options);
      items := [item] + later;
      assert argv[i..] == argv[i..i + n] + argv[i + n..];
    }
  }

  /** Every vector written as such items is read as they stand. */
  lemma {:induction false} SpelledIsAnalyzed(argv: seq<string>, i: nat, items: seq<AnalyzeItem>, capture: Option<string>,
                                             output: Option<string>, force: bool, options: AnalyzeOptions)
    requires i <= |argv| && argv[i..] == SpellItems(items) && ProperItems(items)
    requires Stands(items, capture, output, force, options)
    ensures ReadAnalyze(argv, i, capture, output, force) == Some(options)
    decreases |items|
  {
    hide ReadAnalyze;
    hide SpellItem;
    hide Stands;
    hide ProperItem;
    if items == [] {
      StandsEnd(capture, output, force, options);
      ReadAtEnd(argv, capture, output, force, options);
      assert i == |argv|;
    } else {
      hide SpellItems;
      var item, later := items[0], items[1..];
      assert items == [item] + later;
      SpellNext(item, later);
      StandsNext(item, later, capture, output, force, options);
      SplitAt(argv, i, SpellItem(item), SpellItems(later));
      ReadItem(argv, i, item, capture, output, force);
      SpelledIsAnalyzed(argv, i + |SpellItem(item)|, later, WithCapture(item, capture), WithOutput(item, output),
                        force || item == Force, options);
    }
  }

  /** `analyze` accepts exactly the vectors that name one capture, not like an option, and at most one output, in any
      order; it reads just that. */
  lemma ReadAnalyzeIff(argv: seq<string>, options: AnalyzeOptions)
    requires argv != []
    ensures ReadAnalyze(argv, 1, None, None, false) == Some(options) <==>
      exists items :: argv[1..] == SpellItems(items) && ProperItems(items) && Stands(items, None, None, false, options)
  {
    hide ReadAnalyze;
    hide SpellItems;
    hide Stands;
    if ReadAnalyze(argv, 1, None, None, false) == Some(options) {
      var items := AnalyzeIsSpelled(argv, 1, None, None, false, options);
    }
    forall items | argv[1..] == SpellItems(items) && ProperItems(items) && Stands(items, None, None, false, options)
      ensures ReadAnalyze(argv, 1, None, None, false) == Some(options) {
      SpelledIsAnalyzed(argv, 1, items, None, None, false, options);
    }
  }

  /** `analyze` reads back the two directories exactly when the capture's name is not itself an option. */
  lemma AnalyzeArgumentsReadBack(analysis: string, capture: string)
    ensures ReadAnalyze(["analyze", "-o", analysis, capture], 1, None, None, false)
        == Some(AnalyzeOptions(capture, Some(analysis), false))
      <==> !IsOutputOption(capture) && capture != "--force"
  {
    var argv := ["analyze", "-o", analysis, capture];
    assert ReadAnalyze(argv, 1, None, None, false) == ReadAnalyze(argv, 3, None, Some(analysis), false);
    assert ReadAnalyze(argv, 4, Some(capture), Some(analysis), false) == Some(AnalyzeOptions(capture, Some(analysis), false));
  }

  /** The directory `run` joins is never mistaken for an option. */
  lemma JoinedCaptureIsNoOption(output: string)
    ensures ReadAnalyze(["analyze", "-o", output + "/analysis", output + "/capture"], 1, None, None, false)
      == Some(AnalyzeOptions(output + "/capture", Some(output + "/analysis"), false))
  {
    var capture := output + "/capture";
    assert capture[|output|] == '/';
    assert forall word: string :: '/' !in word ==> word != capture;
    assert '/' !in "-o" && '/' !in "--output" && '/' !in "--force";
    AnalyzeArgumentsReadBack(output + "/analysis", capture);
  }
}
