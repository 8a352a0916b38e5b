/**
 * The metadata extractors of `CommandManual`, the document layout of
 * `XmlSerializer.serialize` and the command-list normalisation of
 * `CommandManualGenerator`.  Each extractor maps the outcomes of the child
 * processes it starts to exactly one string.
 */
module Manual {
  import opened PyText
  import opened Process
  import opened Xml

  /** Canned invocations, keyed by command name.  The `sort` entry holds
      two real line breaks, as the Python literal does. */
  const Examples: map<string, string> := map[
    "touch" := "touch example.txt",
    "ls" := "ls -l",
    "cat" := "cat file.txt",
    "echo" := "echo 'Hello World'",
    "head" := "head -n 1 /etc/passwd",
    "tail" := "tail -n 1 /etc/passwd",
    "date" := "date",
    "cut" := "echo 'sample text' | cut -f1 -d ' '",
    "sed" := "echo 'sample time' | sed 's/time/TIME/'",
    "tr" := "echo 'hello' | tr 'lo' 'LO'",
    "pwd" := "pwd",
    "wc" := "echo 'hello world' | wc",
    "sort" := "echo -e '3\n1\n2' | sort"
  ]

  /** Seconds allowed to a canned invocation. */
  const ExampleTimeout: nat := 5

  /** Version flags, in the order they are tried. */
  const VersionFlags: seq<string> := ["--version", "-v", "-V"]

  /** The version sentinel, in pieces short enough for the verifier to read
      character by character. */
  const NoVersion: string := "Version information" + " not available" + " or command does not" + " support version flags."
  const NoExample: string := "No example available for this command."
  const ExampleTimedOut: string := "A command timed out."
  const ExampleRan: string := "EXAMPLE for "
  const ExampleFailed: string := "Error running example for "
  const RelatedFailed: string := "Failed to fetch related commands using 'compgen -c'."
  const SyntaxFailed: string := "Failed to fetch syntax commands."
  const DocsFailed: string := "Failed to fetch documentation commands."
  const NoDocs: string := "No documentation for command available"

  /** Child tags of a serialised document, in order. */
  const SixFields: seq<string> := ["Description", "Version", "Example", "Related", "Syntax", "DocumentationLink"]

  /** The text block reported for a canned invocation that ran. */
  function ExampleBlock(heading: string, command: string, template: string, output: string): string {
    heading + command + "\n\t" + template + "\n" + output
  }

  /** `'\n'.join(kept) if kept else absent`, where `kept` are the non-empty
      lines of `out` other than `name`.  With a non-empty `absent` text the
      result is never empty; when lines are kept, they are exactly the lines
      of the result. */
  function JoinKept(out: string, name: string, absent: string): (r: string)
    ensures absent != "" ==> r != ""
    ensures Keep(Split(out, '\n'), name) == [] ==> r == absent
    ensures Keep(Split(out, '\n'), name) != [] ==> Split(r, '\n') == Keep(Split(out, '\n'), name)
  {
    var lines := Split(out, '\n');
    var kept := Keep(lines, name);
    if kept == [] then absent
    else
      assert forall k :: 0 <= k < |kept| ==> '\n' !in kept[k] by {
        forall k | 0 <= k < |kept| ensures '\n' !in kept[k] {
          assert kept[k] in lines;
        }
      }
      SplitJoin(kept, '\n');
      JoinPrefix(kept, 1, '\n');
      assert kept[..1] == [kept[0]];
      assert kept[0] in kept;
      Join(kept, '\n')
  }

  /** Every line of a non-empty `JoinKept` result is non-empty and differs
      from `name`; the kept lines are the surviving lines of `out`, in the
      order they came. */
  lemma {:induction false} JoinKeptLines(out: string, name: string, absent: string)
    requires Keep(Split(out, '\n'), name) != []
    ensures var lines := Split(JoinKept(out, name, absent), '\n');
            forall k :: 0 <= k < |lines| ==> lines[k] != "" && lines[k] != name && lines[k] in Split(out, '\n')
  {
    var lines := Split(JoinKept(out, name, absent), '\n');
    forall k | 0 <= k < |lines|
      ensures lines[k] != "" && lines[k] != name && lines[k] in Split(out, '\n')
    {
      assert lines[k] in Keep(Split(out, '\n'), name);
    }
  }

  /** What an example text `r` for `command` and its canned `template`
      says about the `outcome`: the success block (heading, the invocation,
      then the captured standard output) for exactly an exit with status 0,
      the error block (with the captured standard error) for exactly a
      non-zero exit, the timeout message for exactly a timeout, and the
      exception text, with the exception's message, for exactly an
      exception. */
  predicate Reports(r: string, command: string, template: string, outcome: Bounded) {
    && (ExampleRan <= r <==> outcome.Completed? && outcome.result.Exited? && outcome.result.code == 0)
    && (ExampleFailed <= r <==> outcome.Completed? && Rejected(outcome.result))
    && (r == ExampleTimedOut <==> outcome.TimedOut?)
    && (ExceptionText("") <= r <==> outcome.Completed? && outcome.result.Raised?)
    && (outcome.Completed? && outcome.result.Raised? ==> r == ExceptionText(outcome.result.msg))
    && (outcome.Completed? && outcome.result.Exited? ==>
          r == (if outcome.result.code == 0 then ExampleRan else ExampleFailed)
               + command + "\n\t" + template + "\n"
               + (if outcome.result.code == 0 then outcome.result.out else outcome.result.err))
  }

  /** The version sentinel is one line. */
  lemma {:induction false} NoVersionOneLine()
    ensures '\n' !in NoVersion
  {
    var a, b, c, d := "Version information", " not available", " or command does not", " support version flags.";
    assert '\n' !in a && '\n' !in b && '\n' !in c && '\n' !in d;
    CountAppend(a, b, '\n');
    CountAppend(a + b, c, '\n');
    CountAppend(a + b + c, d, '\n');
  }

  /** The text for a canned invocation that exited reports that exit. */
  lemma {:induction false} ReportsExited(command: string, template: string, code: int, out: string, err: string)
    ensures var r := if code == 0 then ExampleBlock(ExampleRan, command, template, out)
                     else ExampleBlock(ExampleFailed, command, template, err);
            Reports(r, command, template, Completed(Exited(code, out, err))) && r != NoExample
  {
    var r := if code == 0 then ExampleBlock(ExampleRan, command, template, out)
             else ExampleBlock(ExampleFailed, command, template, err);
    var rest := command + "\n\t" + template + "\n" + (if code == 0 then out else err);
    var heading := if code == 0 then ExampleRan else ExampleFailed;
    assert r == heading + rest;
    assert r[0] == 'E' && r[1] == (if code == 0 then 'X' else 'r');
    assert ExampleRan[1] == 'X' && ExampleFailed[1] == 'r';
    assert ExceptionText("")[0] == 'A' && ExampleTimedOut[0] == 'A' && NoExample[0] == 'N';
  }

  /** The timeout text reports a timeout and nothing else. */
  lemma {:induction false} ReportsTimeout(command: string, template: string)
    ensures Reports(ExampleTimedOut, command, template, TimedOut) && ExampleTimedOut != NoExample
  {
    assert ExampleTimedOut[0] == 'A' && ExampleTimedOut[1] == ' ';
    assert ExceptionText("")[1] == 'n';
    assert ExampleRan[0] == 'E' && ExampleFailed[0] == 'E' && NoExample[0] == 'N';
  }

  /** The exception text reports an exception and nothing else. */
  lemma {:induction false} ReportsRaised(command: string, template: string, msg: string)
    ensures Reports(ExceptionText(msg), command, template, Completed(Raised(msg))) && ExceptionText(msg) != NoExample
  {
    var r := ExceptionText(msg);
    assert r[0] == 'A' && r[1] == 'n';
    assert ExceptionText("") <= r;
    assert ExampleTimedOut[1] == ' ';
    assert ExampleRan[0] == 'E' && ExampleFailed[0] == 'E' && NoExample[0] == 'N';
  }

  /** `CommandManual`: its one field is set on construction and never
      changed, so a manual is a value. */
  datatype CommandManual = CommandManual(command: string) {

    /** `get_description`: runs `command --help`.  On success the result is
        the stripped help text up to, not including, its third line break
        (all of it when it has fewer). */
    function Description(host: Host): (r: string)
      ensures var outcome := host.exec([command, "--help"]);
              match outcome
              case Exited(code, out, err) =>
                if code != 0 then r == "Error occurred: " + Strip(err)
                else Count(r, '\n') <= 2 && r <= Strip(out)
                     && (Count(Strip(out), '\n') <= 2 ==> r == Strip(out))
                     && (Count(Strip(out), '\n') > 2 ==>
                           Count(r, '\n') == 2 && |r| < |Strip(out)| && Strip(out)[|r|] == '\n')
              case Raised(msg) => r == ExceptionText(msg)
    {
      match host.exec([command, "--help"])
      case Raised(msg) => ExceptionText(msg)
      case Exited(code, out, err) =>
        if code != 0 then "Error occurred: " + Strip(err) else FirstLines(Strip(out), 3)
    }

    /** What `get_version` returns when it still has `flags` to try.  Any
        answer other than the sentinel comes from a flag that settled it (it
        exited with 0 or raised); the sentinel comes back when every flag is
        rejected (`VersionSentinel`). */
    function VersionAfter(host: Host, flags: seq<string>): (r: string)
      ensures r != NoVersion ==> exists j :: 0 <= j < |flags| && !Rejected(host.exec([command, flags[j]]))
    {
      if flags == [] then NoVersion
      else
        match host.exec([command, flags[0]])
        case Raised(msg) => ExceptionText(msg)
        case Exited(code, out, _) =>
          if code == 0 then FirstLine(Strip(out))
          else
            var r := VersionAfter(host, flags[1..]);
            assert r != NoVersion ==> exists j :: 0 <= j < |flags| && !Rejected(host.exec([command, flags[j]])) by {
              if r != NoVersion {
                var j :| 0 <= j < |flags[1..]| && !Rejected(host.exec([command, flags[1..][j]]));
                assert flags[1..][j] == flags[j + 1];
              }
            }
            r
    }

    /** `get_version`: tries the flags in order and stops at the first one
        that exits with status 0, or at the first exception. */
    method Version(host: Host) returns (r: string)
      ensures r == VersionAfter(host, VersionFlags)
    {
      var i := 0;
      while i < |VersionFlags|
        invariant 0 <= i <= |VersionFlags|
        invariant VersionAfter(host, VersionFlags[i..]) == VersionAfter(host, VersionFlags)
      {
        var process := host.exec([command, VersionFlags[i]]);
        match process {
          case Raised(msg) =>
            return ExceptionText(msg);
          case Exited(code, out, _) =>
            if code == 0 {
              return FirstLine(Strip(out));
            }
        }
        assert VersionFlags[i..][1..] == VersionFlags[i + 1..];
        i := i + 1;
      }
      r := NoVersion;
    }

    /** The version reported is that of the first flag exiting with 0, once
        every earlier flag was rejected; the later flags do not matter. */
    lemma {:induction false} VersionFirstSuccess(host: Host, flags: seq<string>, i: nat)
      requires i < |flags|
      requires forall j :: 0 <= j < i ==> Rejected(host.exec([command, flags[j]]))
      requires host.exec([command, flags[i]]).Exited? && host.exec([command, flags[i]]).code == 0
      ensures VersionAfter(host, flags) == FirstLine(Strip(host.exec([command, flags[i]]).out))
    {
      if i > 0 {
        assert Rejected(host.exec([command, flags[0]]));
        assert forall j :: 0 <= j < i - 1 ==> flags[1..][j] == flags[j + 1];
        VersionFirstSuccess(host, flags[1..], i - 1);
      }
    }

    /** Once every earlier flag was rejected, a flag whose run raises ends the
        search with the exception text of that exception. */
    lemma {:induction false} VersionRaised(host: Host, flags: seq<string>, i: nat)
      requires i < |flags|
      requires forall j :: 0 <= j < i ==> Rejected(host.exec([command, flags[j]]))
      requires host.exec([command, flags[i]]).Raised?
      ensures VersionAfter(host, flags) == ExceptionText(host.exec([command, flags[i]]).msg)
    {
      if i > 0 {
        assert Rejected(host.exec([command, flags[0]]));
        assert forall j :: 0 <= j < i - 1 ==> flags[1..][j] == flags[j + 1];
        VersionRaised(host, flags[1..], i - 1);
      }
    }

    /** When every flag is rejected the fixed sentinel comes back verbatim. */
    lemma {:induction false} VersionSentinel(host: Host, flags: seq<string>)
      requires forall j :: 0 <= j < |flags| ==> Rejected(host.exec([command, flags[j]]))
      ensures VersionAfter(host, flags) == NoVersion
    {
      if flags != [] {
        assert Rejected(host.exec([command, flags[0]]));
        assert forall j :: 0 <= j < |flags| - 1 ==> flags[1..][j] == flags[j + 1];
        VersionSentinel(host, flags[1..]);
      }
    }

    /** Two hosts that answer the same for the flags up to and including the
        first one that settles the answer (exit 0 or an exception) give the
        same version: later flags are never consulted. */
    lemma {:induction false} VersionStopsEarly(h1: Host, h2: Host, flags: seq<string>, i: nat)
      requires i < |flags|
      requires forall j :: 0 <= j <= i ==> h1.exec([command, flags[j]]) == h2.exec([command, flags[j]])
      requires !Rejected(h1.exec([command, flags[i]]))
      ensures VersionAfter(h1, flags) == VersionAfter(h2, flags)
    {
      assert h1.exec([command, flags[0]]) == h2.exec([command, flags[0]]);
      if i > 0 && Rejected(h1.exec([command, flags[0]])) {
        assert forall j :: 0 <= j <= i - 1 ==> flags[1..][j] == flags[j + 1];
        VersionStopsEarly(h1, h2, flags[1..], i - 1);
      }
    }

    /** Unless a flag raised an exception, the version is a single line. */
    lemma {:induction false} VersionSingleLine(host: Host, flags: seq<string>)
      requires forall j :: 0 <= j < |flags| ==> !host.exec([command, flags[j]]).Raised?
      ensures '\n' !in VersionAfter(host, flags)
    {
      if flags == [] {
        NoVersionOneLine();
      } else {
        assert !host.exec([command, flags[0]]).Raised?;
        assert forall j :: 0 <= j < |flags| - 1 ==> flags[1..][j] == flags[j + 1];
        VersionSingleLine(host, flags[1..]);
      }
    }

    /** `get_example`: looks the command up in `Examples` and, if found,
        runs the canned invocation through the shell within the time limit.
        The text tells how the canned invocation ended, in both directions
        (see `Reports`); the absence message comes back for exactly the
        commands without a canned invocation, whatever the host would have
        done. */
    function Example(host: Host): (r: string)
      ensures r == NoExample <==> command !in Examples
      ensures command in Examples ==>
                Reports(r, command, Examples[command], host.shellWithin(Examples[command], ExampleTimeout))
    {
      if command !in Examples then NoExample
      else
        var template := Examples[command];
        match host.shellWithin(template, ExampleTimeout)
        case TimedOut =>
          ReportsTimeout(command, template);
          ExampleTimedOut
        case Completed(Raised(msg)) =>
          ReportsRaised(command, template, msg);
          ExceptionText(msg)
        case Completed(Exited(code, out, err)) =>
          ReportsExited(command, template, code, out, err);
          if code == 0 then ExampleBlock(ExampleRan, command, template, out)
          else ExampleBlock(ExampleFailed, command, template, err)
    }

    /** `get_related`: the completion list, verbatim. */
    function Related(host: Host): (r: string)
      ensures var outcome := host.shell("compgen -c " + command);
              match outcome
              case Exited(code, out, _) => r == if code == 0 then out else RelatedFailed
              case Raised(msg) => r == ExceptionText(msg)
    {
      match host.shell("compgen -c " + command)
      case Raised(msg) => ExceptionText(msg)
      case Exited(code, out, _) => if code == 0 then out else RelatedFailed
    }

    /** `get_syntax`: the SYNOPSIS lines of the manual page, stripped. */
    function Syntax(host: Host): (r: string)
      ensures var outcome := host.shell("man " + command + " | grep -A 2 SYNOPSIS");
              match outcome
              case Exited(code, out, _) =>
                if code == 0 then r == Strip(out) && (r == [] || (!IsSpace(r[0]) && !IsSpace(r[|r| - 1])))
                else r == SyntaxFailed
              case Raised(msg) => r == ExceptionText(msg)
    {
      match host.shell("man " + command + " | grep -A 2 SYNOPSIS")
      case Raised(msg) => ExceptionText(msg)
      case Exited(code, out, _) => if code == 0 then Strip(out) else SyntaxFailed
    }

    /** `get_documentation_link`: the lines after "Full documentation" in the
        help text, without empty lines and without the command's own name. */
    function DocumentationLink(host: Host): (r: string)
      ensures r != ""
      ensures var outcome := host.shell(command + " --help | grep -A 2 \"Full documentation\"");
              match outcome
              case Exited(code, _, _) =>
                if code != 0 then r == DocsFailed
                else if Keep(Split(outcome.out, '\n'), command) == [] then r == NoDocs
                else Split(r, '\n') == Keep(Split(outcome.out, '\n'), command)
              case Raised(msg) => r == ExceptionText(msg)
    {
      match host.shell(command + " --help | grep -A 2 \"Full documentation\"")
      case Raised(msg) => ExceptionText(msg)
      case Exited(code, out, _) => if code != 0 then DocsFailed else JoinKept(out, command, NoDocs)
    }
  }

  /** The metadata record of one command, as a document carries it. */
  datatype Metadata = Metadata(
    description: string,
    version: string,
    example: string,
    related: string,
    syntax: string,
    documentationLink: string)

  /** What the six getters of `manual` produce against `host`. */
  function Extract(manual: CommandManual, host: Host): Metadata {
    Metadata(manual.Description(host), manual.VersionAfter(host, VersionFlags), manual.Example(host),
             manual.Related(host), manual.Syntax(host), manual.DocumentationLink(host))
  }

  function FieldTexts(m: Metadata): seq<string> {
    [m.description, m.version, m.example, m.related, m.syntax, m.documentationLink]
  }

  /** A childless element given the six fields in order reads back as
      those six texts. */
  lemma {:induction false} SixLeaves(start: Element, d: string, v: string, e: string, r: string, s: string, l: string)
    requires start.children == []
    ensures ChildTexts(
              SubElement(SubElement(SubElement(SubElement(SubElement(SubElement(start,
                "Description", d), "Version", v), "Example", e), "Related", r), "Syntax", s),
                "DocumentationLink", l),
              SixFields) == Some([d, v, e, r, s, l])
  {
    var e1 := SubElement(start, "Description", d);
    ReadSubElement(start, SixFields[..0], "Description", d);
    assert SixFields[..0] + ["Description"] == SixFields[..1];
    var e2 := SubElement(e1, "Version", v);
    ReadSubElement(e1, SixFields[..1], "Version", v);
    assert SixFields[..1] + ["Version"] == SixFields[..2];
    var e3 := SubElement(e2, "Example", e);
    ReadSubElement(e2, SixFields[..2], "Example", e);
    assert SixFields[..2] + ["Example"] == SixFields[..3];
    var e4 := SubElement(e3, "Related", r);
    ReadSubElement(e3, SixFields[..3], "Related", r);
    assert SixFields[..3] + ["Related"] == SixFields[..4];
    var e5 := SubElement(e4, "Syntax", s);
    ReadSubElement(e4, SixFields[..4], "Syntax", s);
    assert SixFields[..4] + ["Syntax"] == SixFields[..5];
    ReadSubElement(e5, SixFields[..5], "DocumentationLink", l);
    assert SixFields[..5] + ["DocumentationLink"] == SixFields;
    assert [] + [d] + [v] + [e] + [r] + [s] + [l] == [d, v, e, r, s, l];
  }

  /** `XmlSerializer`. */
  datatype XmlSerializer = XmlSerializer(commandManual: CommandManual) {

    /** `serialize`: a `Command` root named after the command, then one child
        per field appended in the fixed order, each holding its getter's
        result; `toString` stands for `ET.tostring`. */
    method Serialize(host: Host, toString: Writer) returns (xml: string, root: Element)
      ensures root.tag == "Command" && root.attrib == map["name" := commandManual.command] && root.text == None
      ensures ChildTexts(root, SixFields) == Some(FieldTexts(Extract(commandManual, host)))
      ensures xml == toString(root)
    {
      var manual := commandManual;
      var start := NewElement("Command", map["name" := manual.command]);
      root := start;
      var description := manual.Description(host);
      root := SubElement(root, "Description", description);
      var version := manual.Version(host);
      root := SubElement(root, "Version", version);
      var example := manual.Example(host);
      root := SubElement(root, "Example", example);
      var related := manual.Related(host);
      root := SubElement(root, "Related", related);
      var syntax := manual.Syntax(host);
      root := SubElement(root, "Syntax", syntax);
      var link := manual.DocumentationLink(host);
      root := SubElement(root, "DocumentationLink", link);
      SixLeaves(start, description, version, example, related, syntax, link);
      xml := toString(root);
    }
  }

  /** `CommandManualGenerator.__init__`: one entry per line of the commands
      file, in order, each stripped; a blank line stays as an empty entry. */
  function GeneratorCommands(text: string): (commands: seq<string>)
    ensures |commands| == |ReadLines(text)| <= |Split(text, '\n')|
    ensures forall k :: 0 <= k < |commands| ==> commands[k] == Strip(Split(text, '\n')[k])
    ensures forall k :: 0 <= k < |commands| ==> (commands[k] == "" <==> AllSpace(Split(text, '\n')[k]))
  {
    var lines := ReadLines(text);
    var commands := seq(|lines|, k requires 0 <= k < |lines| => Strip(lines[k]));
    StrippedLines(text, commands);
    commands
  }

  lemma {:induction false} StrippedLines(text: string, commands: seq<string>)
    requires |commands| == |ReadLines(text)|
    requires forall k :: 0 <= k < |commands| ==> commands[k] == Strip(ReadLines(text)[k])
    ensures |commands| <= |Split(text, '\n')|
    ensures forall k :: 0 <= k < |commands| ==> commands[k] == Strip(Split(text, '\n')[k])
    ensures forall k :: 0 <= k < |commands| ==> (commands[k] == "" <==> AllSpace(Split(text, '\n')[k]))
  {
    ReadLinesSplit(text);
    forall k | 0 <= k < |commands|
      ensures commands[k] == Strip(Split(text, '\n')[k])
      ensures commands[k] == "" <==> AllSpace(Split(text, '\n')[k])
    {
      StripDropsNewline(Split(text, '\n')[k]);
      StripEmptyIffBlank(Split(text, '\n')[k]);
    }
  }
}
