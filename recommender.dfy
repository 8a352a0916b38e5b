/**
 * `CommandRecommender`: a static table of related commands and the text
 * `recommend_commands` builds from it.
 */
module Recommender {
  import opened PyText

  datatype CommandInfo = CommandInfo(functionality: string, relatedCommands: seq<string>)

  /** The table `commands_db` that `CommandRecommender()` starts with. */
  const CommandsDb: map<string, CommandInfo> := map[
    "touch" := CommandInfo("create a new file", ["mkdir", "rm", "nano"]),
    "ls" := CommandInfo("list directory contents", ["cd", "pwd"]),
    "cat" := CommandInfo("Display Contents", ["less", "head", "tail"]),
    "echo" := CommandInfo("print", ["printf", "read"]),
    "head" := CommandInfo("top content", ["tail", "less", "more"]),
    "tail" := CommandInfo("bottom content", ["head", "less", "more"]),
    "date" := CommandInfo("show Date", ["cal", "clock", "uptime"]),
    "cut" := CommandInfo("Extract Text", ["awk", "grep", "sed"]),
    "sed" := CommandInfo("Stream Edit", ["awk", "grep", "tr"]),
    "tr" := CommandInfo("Translate Characters", ["sed", "awk", "grep"]),
    "pwd" := CommandInfo("Print Directory", ["cd", "ls", "mkdir"]),
    "wc" := CommandInfo("Word Count", ["cat", "sort", "uniq"]),
    "sort" := CommandInfo("Sort Data", ["uniq", "awk", "grep"])
  ]

  const IntroLine: string := "You may also be interested in:"
  const Intro: string := IntroLine + "\n"
  const NoneFoundLine: string := "No related" + " commands found."
  const NoneFound: string := NoneFoundLine + "\n"

  /** `"- " + name + "\n"` for each name, in order. */
  function Bullets(names: seq<string>): string {
    if names == [] then "" else Bullets(names[..|names| - 1]) + "- " + names[|names| - 1] + "\n"
  }

  /** The bullet lines without their line breaks. */
  function Dashed(names: seq<string>): seq<string> {
    seq(|names|, i requires 0 <= i < |names| => "- " + names[i])
  }

  /** The recommendation text is the introduction line, one bullet line per
      name, and the empty piece after the final line break. */
  lemma {:induction false} BulletLines(names: seq<string>)
    requires forall i :: 0 <= i < |names| ==> '\n' !in names[i]
    ensures Intro + Bullets(names) == Join([IntroLine] + Dashed(names) + [""], '\n')
  {
    if names == [] {
      assert [IntroLine] + Dashed(names) + [""] == [IntroLine, ""];
      assert [IntroLine, ""][1..] == [""];
    } else {
      var init := names[..|names| - 1];
      var x := names[|names| - 1];
      BulletLines(init);
      var lines := [IntroLine] + Dashed(init);
      assert Dashed(names) == Dashed(init) + ["- " + x];
      calc {
        Intro + Bullets(names);
        Intro + (Bullets(init) + "- " + x + "\n");
        (Intro + Bullets(init)) + "- " + x + "\n";
        Join(lines + [""], '\n') + "- " + x + "\n";
        { JoinSnoc(lines, "", '\n'); }
        Join(lines, '\n') + "\n" + ("- " + x) + "\n";
        { JoinSnoc(lines, "- " + x, '\n'); }
        Join(lines + ["- " + x], '\n') + "\n" + "";
        { JoinSnoc(lines + ["- " + x], "", '\n'); }
        Join(lines + ["- " + x] + [""], '\n');
        { assert [IntroLine] + Dashed(names) == lines + ["- " + x]; }
        Join([IntroLine] + Dashed(names) + [""], '\n');
      }
    }
  }

  /** The lines of a recommendation: its pieces split at line breaks are
      the introduction, one bullet per name and the empty piece after the
      final break; it ends in a break and holds one break per line. */
  lemma {:induction false} RecommendationLines(names: seq<string>)
    ensures (Intro + Bullets(names))[|Intro + Bullets(names)| - 1] == '\n'
    ensures (forall i :: 0 <= i < |names| ==> '\n' !in names[i]) ==>
              && Split(Intro + Bullets(names), '\n') == [IntroLine] + Dashed(names) + [""]
              && Count(Intro + Bullets(names), '\n') == 1 + |names|
  {
    if names != [] {
      assert Intro + Bullets(names) == Intro + Bullets(names[..|names| - 1]) + "- " + names[|names| - 1] + "\n";
    }
    if forall i :: 0 <= i < |names| ==> '\n' !in names[i] {
      SingleLineRecommendation(names);
    }
  }

  /** Every line of a recommendation is free of line breaks. */
  lemma {:induction false} DashedSingleLines(names: seq<string>)
    requires forall i :: 0 <= i < |names| ==> '\n' !in names[i]
    ensures forall k :: 0 <= k < |[IntroLine] + Dashed(names) + [""]| ==>
              '\n' !in ([IntroLine] + Dashed(names) + [""])[k]
  {
    var lines := [IntroLine] + Dashed(names) + [""];
    forall k | 0 <= k < |lines| ensures '\n' !in lines[k] {
      if k == 0 {
        assert lines[k] == IntroLine;
        assert '\n' !in IntroLine;
      } else if k < |lines| - 1 {
        assert lines[k] == "- " + names[k - 1];
      } else {
        assert lines[k] == "";
      }
    }
  }

  lemma {:induction false} SingleLineRecommendation(names: seq<string>)
    requires forall i :: 0 <= i < |names| ==> '\n' !in names[i]
    ensures Split(Intro + Bullets(names), '\n') == [IntroLine] + Dashed(names) + [""]
    ensures Count(Intro + Bullets(names), '\n') == 1 + |names|
  {
    var lines := [IntroLine] + Dashed(names) + [""];
    var text := Intro + Bullets(names);
    BulletLines(names);
    assert text == Join(lines, '\n');
    DashedSingleLines(names);
    SplitJoin(lines, '\n');
    assert Split(text, '\n') == lines;
    assert |Split(text, '\n')| == Count(text, '\n') + 1;
  }

  /** `CommandRecommender`: its table is set on creation and never changed. */
  datatype CommandRecommender = CommandRecommender(commandsDb: map<string, CommandInfo>) {

    /** The related commands of `command`; none for a command not in the table. */
    function RelatedTo(command: string): seq<string> {
      if command in commandsDb then commandsDb[command].relatedCommands else []
    }

    /** No related-command name in the table spans two lines. */
    predicate SingleLineNames() {
      forall c, i :: c in commandsDb && 0 <= i < |commandsDb[c].relatedCommands| ==>
        '\n' !in commandsDb[c].relatedCommands[i]
    }

    /** `recommend_commands`: for a command in the table, the introduction
        followed by one bullet line per related command, in table order; for
        any other command, the fixed "not found" line.  Either way the text
        ends in a line break, and (names being single lines) it has one line
        more than there are related commands. */
    method RecommendCommands(command: string) returns (r: string)
      ensures command !in commandsDb ==> r == NoneFound
      ensures SingleLineNames() && command in commandsDb ==>
                Split(r, '\n') == [IntroLine] + Dashed(commandsDb[command].relatedCommands) + [""]
      ensures r != [] && r[|r| - 1] == '\n'
      ensures SingleLineNames() ==> Count(r, '\n') == 1 + |RelatedTo(command)|
    {
      if command in commandsDb {
        var related := commandsDb[command].relatedCommands;
        r := Intro;
        var i := 0;
        while i < |related|
          invariant 0 <= i <= |related|
          invariant r == Intro + Bullets(related[..i])
        {
          assert related[..i + 1][..i] == related[..i];
          r := r + "- " + related[i] + "\n";
          i := i + 1;
        }
        assert related[..|related|] == related;
        KnownCommandText(command);
      } else {
        r := NoneFound;
        NoneFoundText();
      }
    }

    /** The facts `RecommendCommands` states about the text for a command
        in the table. */
    lemma {:induction false} KnownCommandText(command: string)
      requires command in commandsDb
      ensures var r := Intro + Bullets(commandsDb[command].relatedCommands);
              && r != [] && r[|r| - 1] == '\n'
              && (SingleLineNames() ==>
                    && Split(r, '\n') == [IntroLine] + Dashed(commandsDb[command].relatedCommands) + [""]
                    && Count(r, '\n') == 1 + |RelatedTo(command)|)
    {
      var related := commandsDb[command].relatedCommands;
      RecommendationLines(related);
      if SingleLineNames() {
        assert forall i :: 0 <= i < |related| ==> '\n' !in related[i];
      }
    }
  }

  lemma {:induction false} NoneFoundLineOneLine()
    ensures '\n' !in NoneFoundLine
  {
    var a, b := "No related", " commands found.";
    assert '\n' !in a && '\n' !in b;
    CountAppend(a, b, '\n');
  }

  /** The "not found" text is one line, ended by its line break. */
  lemma {:induction false} NoneFoundText()
    ensures NoneFound != [] && NoneFound[|NoneFound| - 1] == '\n'
    ensures Count(NoneFound, '\n') == 1
  {
    NoneFoundLineOneLine();
    assert Count("\n", '\n') == 1 by {
      assert "\n"[1..] == "";
    }
    CountAppend(NoneFoundLine, "\n", '\n');
  }

  /** `CommandRecommender()`: the recommender with the built-in table. */
  function NewCommandRecommender(): (rec: CommandRecommender)
    ensures rec.SingleLineNames()
    ensures rec.commandsDb.Keys == {"touch", "ls", "cat", "echo", "head", "tail", "date", "cut", "sed", "tr", "pwd", "wc", "sort"}
  {
    TableNamesOneLine();
    CommandRecommender(CommandsDb)
  }

  /** No related-command name of the built-in table spans two lines. */
  lemma {:induction false} TableNamesOneLine()
    ensures CommandRecommender(CommandsDb).SingleLineNames()
  {
    forall c, i | c in CommandsDb && 0 <= i < |CommandsDb[c].relatedCommands|
      ensures '\n' !in CommandsDb[c].relatedCommands[i]
    {
      var name := CommandsDb[c].relatedCommands[i];
      assert name in {"mkdir", "rm", "nano", "cd", "pwd", "less", "head", "tail", "printf", "read", "more",
                      "cal", "clock", "uptime", "awk", "grep", "sed", "tr", "ls", "cat", "sort", "uniq"};
    }
  }
}
