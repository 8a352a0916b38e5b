/**
 * The stand-alone script: free-function copies of the extractors, the
 * four-field document written to two files, the comparison of those two
 * files, and the loop that runs all of it over the listed commands.
 */
module Legacy {
  import opened PyText
  import opened Process
  import opened Xml
  import opened Manual

  const FilesEqual: string := "Files are equal"
  const NoRelated: string := "No related commands available"

  /** The message of the `NameError` a free function raises when it reads
      `self`. */
  const SelfUndefined: string := "name 'self' is not defined"

  /** `difflib.unified_diff` over two lists of lines. */
  type Differ = (seq<string>, seq<string>) -> seq<string>

  /** Child tags of a document this script writes, in order. */
  const FourFields: seq<string> := ["Description", "Version", "Example", "Related"]

  /** `compare_files`, on the contents of the two files: `diff` stands for
      `difflib.unified_diff` over the `readlines()` of each.  Of the diff the
      script needs only that it is empty exactly for identical line lists and
      that a non-empty one starts with its two header lines.  The result is
      the "equal" text exactly when the two files hold the same text. */
  function CompareFiles(first: string, second: string, diff: Differ): (r: string)
    requires (diff(ReadLines(first), ReadLines(second)) == []) == (ReadLines(first) == ReadLines(second))
    requires |diff(ReadLines(first), ReadLines(second))| != 1
    ensures r == FilesEqual <==> first == second
    ensures first != second ==> '\n' in r && r == Join(diff(ReadLines(first), ReadLines(second)), '\n')
  {
    var differences := diff(ReadLines(first), ReadLines(second));
    SameLinesSameText(first, second);
    if |differences| == 0 then FilesEqual
    else
      JoinHasSeparator(differences, '\n');
      assert '\n' !in FilesEqual;
      Join(differences, '\n')
  }

  /** `readlines()` loses nothing: two texts with the same lines are equal. */
  lemma {:induction false} SameLinesSameText(first: string, second: string)
    ensures ReadLines(first) == ReadLines(second) <==> first == second
  {
    ReadLinesSplit(first);
    ReadLinesSplit(second);
  }

  /** `get_description` (and `get_des`, its verbatim copy): the same text
      as `CommandManual.get_description` for the same outcome of
      `command --help`. */
  function GetDescription(host: Host, command: string): (r: string)
    ensures r == CommandManual(command).Description(host)
  {
    CommandManual(command).Description(host)
  }

  /** `get_des`: a second name for `get_description`. */
  function GetDes(host: Host, command: string): (r: string)
    ensures r == GetDescription(host, command)
  {
    GetDescription(host, command)
  }

  /** `get_version`: the same flags in the same order as
      `CommandManual.get_version`, with the same early stop and sentinel. */
  method GetVersion(host: Host, command: string) returns (r: string)
    ensures r == CommandManual(command).VersionAfter(host, VersionFlags)
  {
    var manual := CommandManual(command);
    r := manual.Version(host);
  }

  /** `get_example`: the same table, time limit and texts as
      `CommandManual.get_example`. */
  function GetExample(host: Host, command: string): (r: string)
    ensures r == CommandManual(command).Example(host)
  {
    CommandManual(command).Example(host)
  }

  /** `get_related` as written.  The filter reads `self.command`, and a free
      function has no `self`; because `cmd and ...` stops at an empty line,
      the `NameError` is raised at the first non-empty line, and only an
      output with no such line gets through to the "none" text. */
  function GetRelated(host: Host, command: string): (r: string)
    ensures var outcome := host.shell("compgen -c " + command);
            match outcome
            case Exited(code, out, _) =>
              if code != 0 then r == RelatedFailed
              else (r == NoRelated <==> OnlySeparators(out, '\n'))
                   && (!OnlySeparators(out, '\n') ==> r == ExceptionText(SelfUndefined))
            case Raised(msg) => r == ExceptionText(msg)
  {
    match host.shell("compgen -c " + command)
    case Raised(msg) => ExceptionText(msg)
    case Exited(code, out, _) =>
      if code != 0 then RelatedFailed
      else
        BlankPieces(out, '\n');
        if AllBlank(Split(out, '\n')) then NoRelated
        else
          assert NoRelated[0] == 'N';
          assert ExceptionText(SelfUndefined)[0] == 'A';
          ExceptionText(SelfUndefined)
  }

  /** `get_related` as evidently intended: the completion lines other than
      empty ones and the command itself, or the "none" text; never empty. */
  function GetRelatedIntended(host: Host, command: string): (r: string)
    ensures r != ""
    ensures var outcome := host.shell("compgen -c " + command);
            match outcome
            case Exited(code, _, _) =>
              if code != 0 then r == RelatedFailed
              else if Keep(Split(outcome.out, '\n'), command) == [] then r == NoRelated
              else Split(r, '\n') == Keep(Split(outcome.out, '\n'), command)
            case Raised(msg) => r == ExceptionText(msg)
  {
    match host.shell("compgen -c " + command)
    case Raised(msg) => ExceptionText(msg)
    case Exited(code, out, _) => if code != 0 then RelatedFailed else JoinKept(out, command, NoRelated)
  }

  /** An input on which the two differ: completing `ls` lists `ls` and
      `lsblk`.  The intended filter gives `lsblk`; the code as written
      raises and reports the `NameError` instead. */
  lemma {:induction false} RelatedNameError(host: Host)
    requires host.shell("compgen -c ls") == Exited(0, "ls\nlsblk\n", "")
    ensures GetRelated(host, "ls") == ExceptionText(SelfUndefined)
    ensures GetRelatedIntended(host, "ls") == "lsblk"
  {
    assert "compgen -c " + "ls" == "compgen -c ls";
    SampleAsWritten(host);
    SampleIntended(host);
  }

  lemma {:induction false} SampleAsWritten(host: Host)
    requires host.shell("compgen -c " + "ls") == Exited(0, "ls\nlsblk\n", "")
    ensures GetRelated(host, "ls") == ExceptionText(SelfUndefined)
  {
    var out := "ls\nlsblk\n";
    assert out[0] == 'l';
    assert !OnlySeparators(out, '\n');
  }

  lemma {:induction false} SampleIntended(host: Host)
    requires host.shell("compgen -c " + "ls") == Exited(0, "ls\nlsblk\n", "")
    ensures GetRelatedIntended(host, "ls") == "lsblk"
  {
    SampleLines();
    SampleKept();
    var r := GetRelatedIntended(host, "ls");
    assert Split(r, '\n') == ["lsblk"];
    assert r == Join(Split(r, '\n'), '\n');
  }

  /** The completion output of the example, split into lines. */
  lemma {:induction false} SampleLines()
    ensures Split("ls\nlsblk\n", '\n') == ["ls", "lsblk", ""]
  {
    var pieces := ["ls", "lsblk", ""];
    assert pieces[1..] == ["lsblk", ""];
    assert pieces[1..][1..] == [""];
    assert Join(pieces, '\n') == "ls\nlsblk\n";
    assert '\n' !in pieces[0] && '\n' !in pieces[1];
    SplitJoin(pieces, '\n');
  }

  /** What the intended filter keeps of the example. */
  lemma {:induction false} SampleKept()
    ensures Keep(["ls", "lsblk", ""], "ls") == ["lsblk"]
  {
    var pieces := ["ls", "lsblk", ""];
    assert pieces[1..] == ["lsblk", ""];
    assert pieces[1..][1..] == [""];
    assert pieces[1..][1..][1..] == [];
  }

  /** Where `create_xml_file` writes the document, and its second copy. */
  function XmlName(command: string): string { command + ".xml" }
  function TestName(command: string): string { command + "_test.xlm" }

  /** The two file names never collide, and each determines its command. */
  lemma {:induction false} NamesDistinct(a: string, b: string)
    ensures XmlName(a) != TestName(b)
    ensures XmlName(a) == XmlName(b) <==> a == b
    ensures TestName(a) == TestName(b) <==> a == b
  {
    assert XmlName(a)[|XmlName(a)| - 1] == 'l';
    assert TestName(b)[|TestName(b)| - 1] == 'm';
    if XmlName(a) == XmlName(b) {
      assert a == XmlName(a)[..|a|];
    }
    if TestName(a) == TestName(b) {
      assert a == TestName(a)[..|a|];
    }
  }

  /** `create_xml_file`: a `Command` root named after the command with the
      four fields appended in order, serialised once (`toString` stands for
      `ET.tostring`) and written under both names; every other file is left
      as it was. */
  method CreateXmlFile(files: map<string, string>, command: string, description: string, version: string,
                       example: string, related: string, toString: Writer)
    returns (written: map<string, string>, root: Element)
    ensures root.tag == "Command" && root.attrib == map["name" := command] && root.text == None
    ensures ChildTexts(root, FourFields) == Some([description, version, example, related])
    ensures root == Document(command, [description, version, example, related])
    ensures written == files[XmlName(command) := toString(root)][TestName(command) := toString(root)]
    ensures XmlName(command) in written && TestName(command) in written
    ensures written[XmlName(command)] == written[TestName(command)]
  {
    root := NewElement("Command", map["name" := command]);
    root := SubElement(root, "Description", description);
    root := SubElement(root, "Version", version);
    root := SubElement(root, "Example", example);
    root := SubElement(root, "Related", related);
    assert root.children == Document(command, [description, version, example, related]).children;
    DocumentReadsBack(command, [description, version, example, related]);
    var content := toString(root);
    written := files[XmlName(command) := content];
    written := written[TestName(command) := content];
    NamesDistinct(command, command);
  }

  /** `read_commands_from_file`, on the file's text: the same stripped
      lines as `CommandManualGenerator` reads, one per line. */
  function ReadCommandsFromFile(text: string): (commands: seq<string>)
    ensures commands == GeneratorCommands(text)
    ensures forall k :: 0 <= k < |commands| ==> commands[k] == Strip(Split(text, '\n')[k])
  {
    GeneratorCommands(text)
  }

  /** Both files of `command` exist and hold the same text. */
  predicate Paired(files: map<string, string>, command: string) {
    XmlName(command) in files && TestName(command) in files && files[XmlName(command)] == files[TestName(command)]
  }

  /** Writing one text under both names of `command` pairs that command's
      files and keeps every other command's files paired. */
  lemma {:induction false} WriteKeepsPairs(files: map<string, string>, commands: seq<string>, i: nat, content: string)
    requires i < |commands|
    requires forall k :: 0 <= k < i ==> Paired(files, commands[k])
    ensures var next := files[XmlName(commands[i]) := content][TestName(commands[i]) := content];
            forall k :: 0 <= k <= i ==> Paired(next, commands[k])
  {
    var command := commands[i];
    var next := files[XmlName(command) := content][TestName(command) := content];
    NamesDistinct(command, command);
    forall k | 0 <= k <= i ensures Paired(next, commands[k]) {
      NamesDistinct(commands[k], command);
      NamesDistinct(command, commands[k]);
    }
  }

  /** The four field texts `main` gathers for `command`, in document order. */
  function Fields(host: Host, command: string): seq<string> {
    [GetDescription(host, command), CommandManual(command).VersionAfter(host, VersionFlags),
     GetExample(host, command), GetRelated(host, command)]
  }

  /** The field texts of each command of a list, in list order. */
  function FieldsOf(host: Host, commands: seq<string>): seq<seq<string>> {
    seq(|commands|, k requires 0 <= k < |commands| => Fields(host, commands[k]))
  }

  /** The document `create_xml_file` builds for `command` from its four
      field texts: a text-less `Command` root named after the command, with
      one text leaf per field in the order Description, Version, Example,
      Related. */
  function Document(command: string, fields: seq<string>): (root: Element)
    requires |fields| == |FourFields|
    ensures root.tag == "Command" && root.attrib == map["name" := command] && root.text == None
  {
    Element("Command", map["name" := command], None,
            [Leaf("Description", fields[0]), Leaf("Version", fields[1]), Leaf("Example", fields[2]), Leaf("Related", fields[3])])
  }

  /** Reading a command's document back against the four field tags gives
      exactly the field texts it was built from. */
  lemma {:induction false} DocumentReadsBack(command: string, fields: seq<string>)
    requires |fields| == |FourFields|
    ensures ChildTexts(Document(command, fields), FourFields) == Some(fields)
  {
    var root := NewElement("Command", map["name" := command]);
    ReadAppended([], [], "Description", fields[0]);
    root := SubElement(root, "Description", fields[0]);
    assert FourFields[..1] + ["Version"] == FourFields[..2];
    ReadAppended(root.children, FourFields[..1], "Version", fields[1]);
    root := SubElement(root, "Version", fields[1]);
    assert FourFields[..2] + ["Example"] == FourFields[..3];
    ReadAppended(root.children, FourFields[..2], "Example", fields[2]);
    root := SubElement(root, "Example", fields[2]);
    assert FourFields[..3] + ["Related"] == FourFields[..4];
    ReadAppended(root.children, FourFields[..3], "Related", fields[3]);
    root := SubElement(root, "Related", fields[3]);
    assert root == Document(command, fields);
    assert FourFields[..4] == FourFields;
    assert [] + [fields[0]] + [fields[1]] + [fields[2]] + [fields[3]] == fields;
  }

  /** The document is the only one of its shape: a text-less `Command` root
      named after the command that reads back as `fields` is that document. */
  lemma {:induction false} DocumentUnique(command: string, fields: seq<string>, root: Element)
    requires root.tag == "Command" && root.attrib == map["name" := command] && root.text == None
    requires ChildTexts(root, FourFields) == Some(fields)
    ensures |fields| == |FourFields| && root == Document(command, fields)
  {
    ReadBackDetermines(root.children, FourFields, fields);
    assert root.children == Document(command, fields).children;
  }

  /** `files` holds, under the `.xml` name of `command`, the text of the
      command's document built from `fields`. */
  predicate HoldsDocument(files: map<string, string>, command: string, fields: seq<string>, toString: Writer) {
    && |fields| == |FourFields|
    && XmlName(command) in files
    && files[XmlName(command)] == toString(Document(command, fields))
  }

  /** The first `n` commands each have their document, with the fields
      listed for them in `docs`, in `files`. */
  ghost predicate DocumentsHeld(files: map<string, string>, commands: seq<string>, docs: seq<seq<string>>, n: nat,
                                toString: Writer)
    requires n <= |commands| == |docs|
  {
    forall k :: 0 <= k < n ==> HoldsDocument(files, commands[k], docs[k], toString)
  }

  /** The names of the two files written for each of the first `n` commands. */
  function WrittenNames(commands: seq<string>, n: nat): set<string>
    requires n <= |commands|
  {
    if n == 0 then {}
    else WrittenNames(commands, n - 1) + {XmlName(commands[n - 1]), TestName(commands[n - 1])}
  }

  /** A name is written exactly when it is one of the two names of one of
      the first `n` commands. */
  lemma {:induction false} WrittenNamesMembers(commands: seq<string>, n: nat, f: string)
    requires n <= |commands|
    ensures f in WrittenNames(commands, n) <==> exists k :: 0 <= k < n && (f == XmlName(commands[k]) || f == TestName(commands[k]))
  {
    if n > 0 {
      WrittenNamesMembers(commands, n - 1, f);
      if f in WrittenNames(commands, n - 1) {
        var k :| 0 <= k < n - 1 && (f == XmlName(commands[k]) || f == TestName(commands[k]));
        assert 0 <= k < n && (f == XmlName(commands[k]) || f == TestName(commands[k]));
      }
    }
  }

  /** The files of `files` are those of `original` and the two files of
      each of the first `n` commands: no other file appears. */
  ghost predicate NamesWritten(original: map<string, string>, files: map<string, string>, commands: seq<string>, n: nat)
    requires n <= |commands|
  {
    files.Keys == original.Keys + WrittenNames(commands, n)
  }

  /** Every file of `original` named after none of the first `n` commands
      is still in `files`, unchanged. */
  ghost predicate OthersKept(original: map<string, string>, files: map<string, string>, commands: seq<string>, n: nat)
    requires n <= |commands|
  {
    forall f :: f in original && (forall k :: 0 <= k < n ==> f != XmlName(commands[k]) && f != TestName(commands[k]))
      ==> f in files && files[f] == original[f]
  }

  /** What the loop of `main` keeps after the first `n` commands: each has
      its two files paired and holding its document, the files are those at
      the start plus the two of each of these commands, and every other file
      is unchanged. */
  ghost predicate Kept(original: map<string, string>, files: map<string, string>, commands: seq<string>,
                       docs: seq<seq<string>>, n: nat, toString: Writer)
  {
    && n <= |commands| == |docs|
    && (forall k :: 0 <= k < n ==> Paired(files, commands[k]))
    && DocumentsHeld(files, commands, docs, n, toString)
    && NamesWritten(original, files, commands, n)
    && OthersKept(original, files, commands, n)
  }

  /** What the loop of `main` has done after the first `n` commands: one
      "equal" line for each of them, in order, and their files as `Kept`
      says. */
  ghost predicate Progress(original: map<string, string>, files: map<string, string>, report: seq<string>,
                           commands: seq<string>, docs: seq<seq<string>>, n: nat, toString: Writer)
  {
    && Kept(original, files, commands, docs, n, toString)
    && |report| == n
    && (forall k :: 0 <= k < n ==> report[k] == commands[k] + ": Files are equal.")
  }

  /** Before the loop nothing is written, and that is kept trivially. */
  lemma {:induction false} NothingWrittenYet(files: map<string, string>, commands: seq<string>,
                                             docs: seq<seq<string>>, toString: Writer)
    requires |commands| == |docs|
    ensures Progress(files, files, [], commands, docs, 0, toString)
  {
  }

  /** Together, the two frame facts say that a name of none of the first `n`
      commands is a file afterwards exactly when it was one before, and
      then with the same text. */
  lemma {:induction false} OnlyNamedFilesChange(original: map<string, string>, files: map<string, string>,
                                                commands: seq<string>, n: nat)
    requires n <= |commands|
    requires NamesWritten(original, files, commands, n)
    requires OthersKept(original, files, commands, n)
    ensures forall f :: (forall k :: 0 <= k < n ==> f != XmlName(commands[k]) && f != TestName(commands[k]))
              ==> (f in files <==> f in original) && (f in original ==> files[f] == original[f])
  {
    forall f | forall k :: 0 <= k < n ==> f != XmlName(commands[k]) && f != TestName(commands[k])
      ensures (f in files <==> f in original) && (f in original ==> files[f] == original[f])
    {
      WrittenNamesMembers(commands, n, f);
    }
  }

  /** Writing the text of the next command's document under both its names
      gives it that document and keeps every earlier command's document. */
  lemma {:induction false} WriteKeepsDocuments(files: map<string, string>, commands: seq<string>, docs: seq<seq<string>>,
                                               i: nat, content: string, toString: Writer)
    requires i < |commands| == |docs|
    requires DocumentsHeld(files, commands, docs, i, toString)
    requires HoldsDocument(files[XmlName(commands[i]) := content][TestName(commands[i]) := content], commands[i], docs[i], toString)
    requires forall k :: 0 <= k < i && commands[k] == commands[i] ==> docs[k] == docs[i]
    ensures DocumentsHeld(files[XmlName(commands[i]) := content][TestName(commands[i]) := content],
                          commands, docs, i + 1, toString)
  {
    var command := commands[i];
    var next := files[XmlName(command) := content][TestName(command) := content];
    forall k | 0 <= k <= i ensures HoldsDocument(next, commands[k], docs[k], toString) {
      NamesDistinct(commands[k], command);
    }
  }

  /** Writing the next command's two files leaves every file named after no
      command so far as it was at the start. */
  lemma {:induction false} WriteKeepsOthers(original: map<string, string>, files: map<string, string>,
                                            commands: seq<string>, i: nat, content: string)
    requires i < |commands|
    requires OthersKept(original, files, commands, i)
    ensures OthersKept(original, files[XmlName(commands[i]) := content][TestName(commands[i]) := content], commands, i + 1)
  {
  }

  /** Writing the next command's two files adds exactly those two names. */
  lemma {:induction false} WriteAddsNames(original: map<string, string>, files: map<string, string>,
                                          commands: seq<string>, i: nat, content: string)
    requires i < |commands|
    requires NamesWritten(original, files, commands, i)
    ensures NamesWritten(original, files[XmlName(commands[i]) := content][TestName(commands[i]) := content], commands, i + 1)
  {
  }

  /** The status line `main` prints for a command: the command, then
      "equal" exactly when the comparison says the files are equal. */
  function Status(command: string, comparison: string): (r: string)
    ensures command <= r
    ensures r == command + ": Files are equal." <==> comparison == FilesEqual
    ensures r == command + ": Files are different." <==> comparison != FilesEqual
  {
    command + (if comparison == FilesEqual then ": Files are equal." else ": Files are different.")
  }

  /** `main`: for each listed command, extract the four fields, write both
      files and compare them; `report` holds the status lines in order.
      Both files of a command are written from one string, so every command
      is reported equal; at the end each command's two files hold the same
      text, that text is the command's four-field document, no file appears
      but those two per command, and every file not named after a listed
      command is left as it was. */
  method CheckAll(host: Host, files: map<string, string>, listing: string,
                  diff: Differ, toString: Writer)
    returns (written: map<string, string>, report: seq<string>)
    requires forall lines :: diff(lines, lines) == []
    ensures |report| == |ReadCommandsFromFile(listing)|
    ensures forall k :: 0 <= k < |report| ==> report[k] == ReadCommandsFromFile(listing)[k] + ": Files are equal."
    ensures forall k :: 0 <= k < |report| ==> Paired(written, ReadCommandsFromFile(listing)[k])
    ensures forall k :: 0 <= k < |report| ==>
              HoldsDocument(written, ReadCommandsFromFile(listing)[k], Fields(host, ReadCommandsFromFile(listing)[k]), toString)
    ensures var commands := ReadCommandsFromFile(listing);
            written.Keys == files.Keys + WrittenNames(commands, |commands|)
    ensures var commands := ReadCommandsFromFile(listing);
            forall f :: (forall k :: 0 <= k < |commands| ==> f != XmlName(commands[k]) && f != TestName(commands[k]))
              ==> (f in written <==> f in files) && (f in files ==> written[f] == files[f])
  {
    var commands := ReadCommandsFromFile(listing);
    written, report := CheckCommands(host, files, commands, diff, toString);
    OnlyNamedFilesChange(files, written, commands, |commands|);
  }

  /** The loop of `main` over the commands read from the listing: one
      "equal" line per command, in order; at the end every command's two
      files hold the text of its four-field document (`Kept`), no file
      appears but those two per command, and no other file has changed. */
  method CheckCommands(host: Host, files: map<string, string>, commands: seq<string>,
                       diff: Differ, toString: Writer)
    returns (written: map<string, string>, report: seq<string>)
    requires forall lines :: diff(lines, lines) == []
    ensures |report| == |commands|
    ensures forall k :: 0 <= k < |report| ==> report[k] == commands[k] + ": Files are equal."
    ensures Kept(files, written, commands, FieldsOf(host, commands), |commands|, toString)
  {
    written := files;
    report := [];
    var i := 0;
    NothingWrittenYet(files, commands, FieldsOf(host, commands), toString);
    while i < |commands|
      invariant 0 <= i <= |commands|
      invariant Progress(files, written, report, commands, FieldsOf(host, commands), i, toString)
    {
      written, report := CheckNext(host, files, written, report, commands, i, diff, toString);
      i := i + 1;
    }
  }

  /** `CheckOne` on the next command of the loop, with the facts the loop
      keeps about the files carried from the commands before it to that
      command as well. */
  method CheckNext(host: Host, files: map<string, string>, written: map<string, string>, report: seq<string>,
                   commands: seq<string>, i: nat, diff: Differ, toString: Writer)
    returns (next: map<string, string>, nextReport: seq<string>)
    requires i < |commands|
    requires forall lines :: diff(lines, lines) == []
    requires Progress(files, written, report, commands, FieldsOf(host, commands), i, toString)
    ensures Progress(files, next, nextReport, commands, FieldsOf(host, commands), i + 1, toString)
  {
    var after, _, content, line := CheckOne(host, written, commands[i], diff, toString);
    next, nextReport := after, report + [line];
    WriteKeepsPairs(written, commands, i, content);
    WriteKeepsDocuments(written, commands, FieldsOf(host, commands), i, content, toString);
    WriteKeepsOthers(files, written, commands, i, content);
    WriteAddsNames(files, written, commands, i, content);
  }

  /** One pass of `main`'s loop: the four fields of `command` (the related
      field from `get_related` as written), both files written with the text
      of one tree, then the comparison and its status line. */
  method CheckOne(host: Host, files: map<string, string>, command: string,
                  diff: Differ, toString: Writer)
    returns (written: map<string, string>, root: Element, content: string, status: string)
    requires forall lines :: diff(lines, lines) == []
    ensures root.tag == "Command" && root.attrib == map["name" := command] && root.text == None
    ensures ChildTexts(root, FourFields) == Some(Fields(host, command))
    ensures content == toString(root)
    ensures written == files[XmlName(command) := content][TestName(command) := content]
    ensures HoldsDocument(written, command, Fields(host, command), toString)
    ensures status == command + ": Files are equal."
  {
    var description := GetDescription(host, command);
    var version := GetVersion(host, command);
    var example := GetExample(host, command);
    var related := GetRelated(host, command);
    written, root := CreateXmlFile(files, command, description, version, example, related, toString);
    content := toString(root);
    var comparison := Compare(written, command, diff);
    status := Status(command, comparison);
  }

  /** The comparison `main` makes for a command whose two files are paired. */
  function Compare(files: map<string, string>, command: string,
                   diff: Differ): (r: string)
    requires forall lines :: diff(lines, lines) == []
    requires Paired(files, command)
    ensures r == FilesEqual
  {
    var original := files[XmlName(command)];
    assert diff(ReadLines(original), ReadLines(original)) == [];
    CompareFiles(original, files[TestName(command)], diff)
  }
}
