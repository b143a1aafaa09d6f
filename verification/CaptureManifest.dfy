/** What the manifest of a capture tells its reader: which calls failed while it was written, and hence whether
    `command.txt` can be relied on. */
module CaptureManifest {
  import opened Wrappers
  import opened CText
  import opened Files
  import opened Library
  import opened CaptureRun
  import ArgumentVectors

  const TIME_PREFIX := "generated_at_unix="
  const HOST_PREFIX := "host_sysname="
  const REPORT_PREFIX := "report_dir="

  predicate LineBegins(text: string, k: nat, prefix: string) {
    k < |Lines(text)| && prefix <= Lines(text)[k]
  }

  /** The manifest is dated: its seventh line is the time. */
  predicate TimeShown(text: string) {
    LineBegins(text, 6, TIME_PREFIX)
  }

  /** The manifest names the host, in the next line. */
  predicate HostShown(text: string) {
    LineBegins(text, if TimeShown(text) then 7 else 6, HOST_PREFIX)
  }

  // ----- Reading the lines back -----

  lemma HeadReadable(lib: Library, runId: string)
    requires lib.PlainConstants() && Printable(runId) && |runId| < 128
    ensures forall line :: line in ManifestHead(lib, runId) ==> ReadableLine(line)
  {
    HeadFixedLines();
    HeadLastLine();
    hide ReadableLine;
    PrintableIsPlain(runId);
    PrintableIsPlain(lib.eventSchema);
    DigitsInline(Numeral(lib.logVersion, 10), 10);
    PrintedWidths(lib.logVersion);
    assert Inline("run_id=") && Inline("event_schema=") && Inline("event_log_version=");
    hide Inline;
    hide Numeral;
    InlineLine("run_id=", runId);
    InlineLine("event_schema=", lib.eventSchema);
    InlineLine("event_log_version=", Numeral(lib.logVersion, 10));
  }

  lemma HeadFixedLines()
    ensures ReadableLine("inspect-capture manifest" + "\n")
    ensures ReadableLine("schema=inspect-capture-manifest-v2" + "\n")
  {
    hide ReadableLine;
    PrintableLine("inspect-capture manifest");
    PrintableLine("schema=inspect-capture-manifest-v2");
  }

  lemma TimestampPrintable()
    ensures Printable("event_timestamp_fields=")
    ensures Printable("sequence,monotonic_ns,wall_unix_ns")
  {
  }

  lemma HeadLastLine()
    ensures ReadableLine("event_timestamp_fields=" + ("sequence,monotonic_ns,wall_unix_ns" + "\n"))
  {
    hide ReadableLine;
    TimestampPrintable();
    hide Printable;
    PrintableIsPlain("event_timestamp_fields=");
    PrintableIsPlain("sequence,monotonic_ns,wall_unix_ns");
    InlineLine("event_timestamp_fields=", "sequence,monotonic_ns,wall_unix_ns");
  }

  /** Whole lines are read back one by one, whatever follows them. */
  lemma LinesThen(lines: seq<string>, rest: string)
    requires forall line :: line in lines ==> IsLine(line) && '\0' !in line
    ensures Lines(Flatten(lines) + rest) == lines + Lines(rest)
  {
    ChunksOfLines(lines, rest);
    hide Chunks;
    hide Flatten;
    hide IsLine;
    assert forall i :: 0 <= i < |lines| ==> lines[i] in lines;
    assert Views(lines + Chunks(rest)) == lines + Views(Chunks(rest));
  }

  /** A text is read by its first bytes, as long as they hold no newline and no NUL. */
  lemma PrefixShown(prefix: string, rest: string)
    requires prefix != "" && Inline(prefix) && |prefix| < LINE_SIZE - 1
    ensures LineBegins(prefix + rest, 0, prefix)
  {
    var s := prefix + rest;
    var n := FgetsLength(s);
    assert forall i :: 0 <= i < |prefix| ==> s[i] == prefix[i];
    assert n >= |prefix|;
    var shown := CStr(s[..n]);
    assert |shown| >= |prefix|;
    assert Lines(s)[0] == shown;
  }

  lemma FirstText(texts: seq<string>, prefix: string, x: string)
    requires texts != [] && texts[0] == prefix + x
    requires prefix != "" && Inline(prefix) && |prefix| < LINE_SIZE - 1
    ensures LineBegins(Flatten(texts), 0, prefix)
  {
    var rest := x + Flatten(texts[1..]);
    assert Flatten(texts) == prefix + rest;
    hide Flatten;
    PrefixShown(prefix, rest);
  }

  lemma PrefixesInline()
    ensures Inline(TIME_PREFIX) && Inline(HOST_PREFIX) && Inline(REPORT_PREFIX)
  {
    assert Printable(TIME_PREFIX) && Printable(HOST_PREFIX) && Printable(REPORT_PREFIX);
    PrintableIsPlain(TIME_PREFIX);
    PrintableIsPlain(HOST_PREFIX);
    PrintableIsPlain(REPORT_PREFIX);
  }

  /** Texts with different first letters do not begin the same line. */
  lemma OnePrefix(text: string, k: nat, a: string, b: string)
    requires LineBegins(text, k, a) && a != "" && b != "" && a[0] != b[0]
    ensures !LineBegins(text, k, b)
  {
    hide Lines;
  }

  /** What stands after the head, or after the time: the host if it is shown, or else the report directory. */
  lemma HostOrReport(path: string, arguments: ArgumentVectors.Arguments, host: Option<Host>)
    ensures var text := Flatten(HostTexts(host) + ManifestTail(path, arguments));
      && (LineBegins(text, 0, HOST_PREFIX) <==> host.Some?)
      && !LineBegins(text, 0, TIME_PREFIX)
  {
    PrefixesInline();
    hide Inline;
    hide CommandTexts;
    hide Logging;
    var texts := HostTexts(host) + ManifestTail(path, arguments);
    if host.Some? {
      assert texts[0] == HOST_PREFIX + (host.value.sysname + "\n");
      hide ManifestTail;
      hide HostTexts;
      FirstText(texts, HOST_PREFIX, host.value.sysname + "\n");
      OnePrefix(Flatten(texts), 0, HOST_PREFIX, TIME_PREFIX);
    } else {
      assert texts[0] == REPORT_PREFIX + (path + "\n");
      hide ManifestTail;
      hide HostTexts;
      FirstText(texts, REPORT_PREFIX, path + "\n");
      OnePrefix(Flatten(texts), 0, REPORT_PREFIX, HOST_PREFIX);
      OnePrefix(Flatten(texts), 0, REPORT_PREFIX, TIME_PREFIX);
    }
  }

  lemma TimeReadable(seconds: I64)
    ensures ReadableLine(TIME_PREFIX + (DecimalInt(seconds) + "\n"))
  {
    PrefixesInline();
    DecimalIntShort(seconds);
    DecimalIntInline(seconds);
    hide DecimalInt;
    hide Inline;
    InlineLine(TIME_PREFIX, DecimalInt(seconds));
  }

  /** The lines of a manifest up to the host. */
  lemma ManifestLines(lib: Library, runId: string, path: string, arguments: ArgumentVectors.Arguments,
                      time: Option<I64>, host: Option<Host>)
    requires lib.PlainConstants() && Printable(runId) && |runId| < 128
    ensures Lines(ManifestText(lib, runId, path, arguments, time, host))
      == ManifestHead(lib, runId) + TimeTexts(time) + Lines(Flatten(HostTexts(host) + ManifestTail(path, arguments)))
  {
    hide ManifestHead;
    hide TimeTexts;
    hide ManifestTail;
    hide HostTexts;
    hide IsLine;
    hide Lines;
    hide Flatten;
    var a, b, c, d := ManifestHead(lib, runId), TimeTexts(time), HostTexts(host), ManifestTail(path, arguments);
    FrontReadable(lib, runId, time);
    LinesThen(a + b, Flatten(c + d));
    FlattenAppend(a + b, c + d);
    Regroup(a, b, c, d);
  }

  lemma Regroup<T>(a: seq<T>, b: seq<T>, c: seq<T>, d: seq<T>)
    ensures a + b + c + d == (a + b) + (c + d)
  {
  }

  lemma FrontReadable(lib: Library, runId: string, time: Option<I64>)
    requires lib.PlainConstants() && Printable(runId) && |runId| < 128
    ensures forall line :: line in ManifestHead(lib, runId) + TimeTexts(time) ==> IsLine(line) && '\0' !in line
  {
    HeadReadable(lib, runId);
    hide ManifestHead;
    if time.Some? { TimeReadable(time.value); }
    hide IsLine;
    hide DecimalInt;
  }

  /** A manifest shows exactly which of the two calls went well. */
  lemma ManifestShows(lib: Library, runId: string, path: string, arguments: ArgumentVectors.Arguments,
                      time: Option<I64>, host: Option<Host>)
    requires lib.PlainConstants() && Printable(runId) && |runId| < 128
    ensures var text := ManifestText(lib, runId, path, arguments, time, host);
      (TimeShown(text) <==> time.Some?) && (HostShown(text) <==> host.Some?)
  {
    ManifestLines(lib, runId, path, arguments, time, host);
    HostOrReport(path, arguments, host);
    var text, rest := ManifestText(lib, runId, path, arguments, time, host), Flatten(HostTexts(host) + ManifestTail(path, arguments));
    hide ManifestText;
    hide ManifestTail;
    hide HostTexts;
    hide ManifestHead;
    hide Lines;
    hide Flatten;
    if time.Some? {
      hide DecimalInt;
      assert Lines(text)[6] == TIME_PREFIX + (DecimalInt(time.value) + "\n");
      assert Lines(rest) != [] ==> Lines(text)[7] == Lines(rest)[0];
    } else {
      assert Lines(rest) != [] ==> Lines(text)[6] == Lines(rest)[0];
    }
  }

  // ----- What can be relied on -----

  /** The manifest of a launched run is complete exactly when nothing failed from `command.txt` on; its time line tells
      whether an error was taken for a failing clock, and with the line there `command.txt` is complete. */
  lemma ManifestTells(lib: Library, runId: string, arguments: ArgumentVectors.Arguments, world: World,
                      earlier: Option<string>, commandFailed: bool, dir: Snapshot)
    requires lib.PlainConstants() && Printable(runId) && |runId| < 128
    requires Launched(lib, runId, arguments, world, earlier, commandFailed, dir)
    ensures var text := dir.Read("manifest.txt").value;
      && (TimeShown(text) <==> !commandFailed && world.clock.Some?)
      && (TimeShown(text) && HostShown(text) <==> !commandFailed && world.clock.Some? && world.host.Some?)
      && (TimeShown(text) ==> dir.Read("command.txt") == Some(Flatten(CommandTexts(arguments.command))))
  {
    hide ManifestText;
    hide TimeShown;
    hide HostShown;
    hide Flatten;
    hide CommandTexts;
    ManifestShows(lib, runId, dir.path, arguments, ShownTime(world.clock, commandFailed), world.host);
  }

  /** The manifest vouches for `command.txt`: in every run that leaves it, that file is complete. */
  ghost predicate Vouches(lib: Library, runId: string, path: string, arguments: ArgumentVectors.Arguments, text: string) {
    forall world, earlier, commandFailed, dir: Snapshot ::
      dir.path == path && Launched(lib, runId, arguments, world, earlier, commandFailed, dir) && dir.Read("manifest.txt") == Some(text)
      ==> dir.Read("command.txt") == Some(Flatten(CommandTexts(arguments.command)))
  }

  /** A run that leaves an undated manifest and the empty `command.txt` of a failed write, and goes on all the same. */
  lemma LostError(lib: Library, runId: string, path: string, arguments: ArgumentVectors.Arguments, host: Option<Host>)
    requires |path| <= 1005
    ensures !Vouches(lib, runId, path, arguments, ManifestText(lib, runId, path, arguments, None, host))
  {
    hide ManifestText;
    var text := ManifestText(lib, runId, path, arguments, None, host);
    var dir := Snapshot(path, map["command.txt" := "", "manifest.txt" := text, "resources.log" := "", "calls.log" := ""]);
    NamesDiffer();
    var world := World(0, None, Some(0), host);
    EmptyLeftBehind(CommandTexts(arguments.command));
    assert Launched(lib, runId, arguments, world, None, true, dir);
    CommandNotEmpty(arguments.command);
    assert dir.Read("command.txt") == Some("");
  }

  /** A write that fails at once leaves an empty file. */
  lemma EmptyLeftBehind(texts: seq<string>)
    ensures LeftBehind(texts, "")
  {
    assert Pieces(texts, texts);
    assert Printed(texts, Flatten(texts));
  }

  lemma CommandNotEmpty(command: seq<string>)
    ensures Flatten(CommandTexts(command)) != ""
  {
    var texts := CommandTexts(command);
    var front := texts[..|texts| - 1];
    assert texts == front + ["\n"];
    FlattenAppend(front, ["\n"]);
    assert Flatten(["\n"]) == "\n" + Flatten(["\n"][1..]);
    hide CommandTexts;
  }

  /** A manifest vouches for `command.txt` exactly when it is dated. */
  lemma VouchesIffDated(lib: Library, runId: string, path: string, arguments: ArgumentVectors.Arguments,
                        time: Option<I64>, host: Option<Host>)
    requires lib.PlainConstants() && Printable(runId) && |runId| < 128 && |path| <= 1005
    ensures var text := ManifestText(lib, runId, path, arguments, time, host);
      Vouches(lib, runId, path, arguments, text) <==> TimeShown(text)
  {
    hide ManifestText;
    hide TimeShown;
    hide Launched;
    hide Flatten;
    hide CommandTexts;
    var text := ManifestText(lib, runId, path, arguments, time, host);
    ManifestShows(lib, runId, path, arguments, time, host);
    if time.None? {
      LostError(lib, runId, path, arguments, host);
    } else {
      forall world, earlier, commandFailed, dir: Snapshot |
        dir.path == path && Launched(lib, runId, arguments, world, earlier, commandFailed, dir) && dir.Read("manifest.txt") == Some(text)
        ensures dir.Read("command.txt") == Some(Flatten(CommandTexts(arguments.command))) {
        ManifestTells(lib, runId, arguments, world, earlier, commandFailed, dir);
      }
    }
  }
}
