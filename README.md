# Command manual generator — a Dafny model

The program builds an XML "manual" for each shell command named in a text
file. For each command it starts child processes (`cmd --help`,
`cmd --version`, a canned example, `compgen -c`, `man`), turns each outcome
into exactly one string, and lays the strings out as the children of a
`Command` element. It also contains a recommender that formats a static table
of related commands. A second script (`p2.py`) repeats four of the getters as
free functions: the description (twice, as `get_des` and `get_description`),
the version, the example and the related commands. That script writes a
four-field document to two files, compares them, and prints one status line
per command.

This model covers the string logic around every child process:

- `Process` makes every invocation an input. A `Host` is three functions from
  an invocation to its outcome: an exit with code, standard output and
  standard error; an exception message; or a timeout for the time-limited
  shell call.
- `PyText` gives Python's `strip()`, `split('\n')`, `'\n'.join`, `readlines()`
  and list-comprehension filters with Python's semantics.
- `Xml` models an ElementTree element as a value, and reading the children of
  a document back.
- `Manual` holds the `CommandManual` getters, `XmlSerializer.serialize` and
  the command-list normalisation of `CommandManualGenerator`.
- `Recommender` holds `CommandRecommender` and `recommend_commands`.
- `Legacy` holds the free functions of `p2.py`, `create_xml_file` with its two
  writes, `compare_files`, and the `main` loop over the listed commands. The
  file system is a map from file name to content.

Code that changes state step by step is modelled as methods. The loops are
`get_version`'s flag loop, `recommend_commands`' accumulation and `main`'s
loop over the commands; `serialize` and `create_xml_file` are straight-line
methods that build the tree one child at a time. Each method is proved
against a specification function, or states its result outright. Everything
else is a function.

`get_related` in `p2.py` does not always end in an exception message. The
filter `cmd and cmd != self.command` stops at `cmd` for an empty line, so for
completion output that is empty or holds only line breaks, `self` is never
read and the result is "No related commands available" (`Legacy.GetRelated`).

## Model

| member | source | states |
|---|---|---|
| `PyText.Strip` | p1.py:19 | `strip()` leaves a slice of the input with only whitespace (Python's `isspace` set) cut from both ends, and the result neither starts nor ends in whitespace |
| `PyText.StripIdempotent` | p1.py:141 | stripping twice is stripping once |
| `PyText.StripEmptyIffBlank` | p1.py:141 | a line strips to "" exactly when it is all whitespace, so a blank line of the commands file becomes an empty entry |
| `PyText.StripDropsNewline` | p1.py:141 | the line break that `readlines()` keeps never survives `strip()` |
| `PyText.Split` | p1.py:19 | `split('\n')` is never empty, no piece holds a break, the pieces joined by the break give the input back, and there is one more piece than breaks |
| `PyText.SplitJoin` | p1.py:19 | splitting the join of break-free pieces gives the pieces back (the other half of the round trip) |
| `PyText.FirstLines` | p1.py:19 | `'\n'.join(s.split('\n')[:n])` is the prefix of `s` that ends just before its n-th line break, or all of `s` when it has fewer |
| `PyText.FirstLine` | p1.py:35 | `s.split('\n')[0]` is a break-free prefix of `s` that runs up to the first break of `s` when there is one, and is all of `s` otherwise |
| `PyText.Keep` | p1.py:96 | the comprehension `[cmd for cmd in lines if cmd and cmd != name]` keeps exactly the lines that are non-empty and differ from the name |
| `PyText.KeepAppend` | p1.py:96 | the filter keeps order: filtering a concatenation concatenates the filtered parts |
| `PyText.BlankPieces` | p2.py:115 | every piece of `s.split(sep)` is empty exactly when `s` consists of separators only |
| `PyText.JoinCount` | p1.py:98 | joining break-free lines with `'\n'.join` puts exactly one break between neighbours |
| `PyText.JoinPrefix` | p1.py:19 | joining the first k pieces gives a prefix of the whole join, followed there by a break when pieces were left out |
| `PyText.JoinHasSeparator` | p2.py:16 | joining two or more diff lines always yields a text holding a break |
| `PyText.ReadLines` | p1.py:141 | `readlines()` yields non-empty lines that concatenate back to the text |
| `PyText.ReadLinesSplit` | p2.py:7-8 | `readlines()` loses nothing: the lines concatenate back to the text, none is empty, and each is the matching piece of `split('\n')`, with its break unless it is the unterminated last line |
| `Manual.JoinKept` | p1.py:96-98 | the joined filtered lines, or the absence text when none remain: never empty, and when lines remain, splitting the result gives exactly the kept lines |
| `Manual.JoinKeptLines` | p1.py:96-98 | every line of a non-empty filtered result is non-empty, differs from the command name and is a line of the original output |
| `Manual.NoVersionOneLine` | p1.py:38 | the version sentinel is a single line |
| `Manual.ReportsExited` | p1.py:69-72 | the text for an example that exited is the "EXAMPLE for" block with standard output for status 0 and the "Error running example for" block with standard error otherwise, and it reports no other outcome |
| `Manual.ReportsTimeout` | p1.py:74-75 | the timeout text reports a timeout and no other outcome |
| `Manual.ReportsRaised` | p1.py:76-77 | the exception text reports an exception, with its message, and no other outcome |
| `Manual.CommandManual.Description` | p1.py:8-23 | non-zero exit gives "Error occurred: " plus the stripped standard error; exit 0 gives the stripped help text up to its third line break (at most two breaks); an exception gives "An exception occurred: " followed by its message |
| `Manual.CommandManual.VersionAfter` | p1.py:28-38 | the specification of the flag loop: any answer other than the sentinel comes from a flag that was not rejected (it exited with 0 or raised) |
| `Manual.CommandManual.Version` | p1.py:25-42 | the loop over `--version`, `-v`, `-V` returns what the recursive specification of the fallback order returns |
| `Manual.CommandManual.VersionFirstSuccess` | p1.py:30-35 | once every earlier flag was rejected, the first flag that exits with 0 gives the first line of its stripped output |
| `Manual.CommandManual.VersionRaised` | p1.py:40-42 | once every earlier flag was rejected, a flag whose run raises gives the exception text with that exception's message |
| `Manual.CommandManual.VersionSentinel` | p1.py:37-38 | when every flag is rejected, the sentinel comes back verbatim |
| `Manual.CommandManual.VersionStopsEarly` | p1.py:30-35 | flags after the first that settles the answer are never consulted: hosts that agree up to it give the same version |
| `Manual.CommandManual.VersionSingleLine` | p1.py:30-38 | unless a flag raised an exception, the version holds no line break |
| `Manual.CommandManual.Example` | p1.py:44-77 | the "no example" text comes back exactly for commands outside the 13-entry table; otherwise the text tells, in both directions, whether the canned invocation succeeded, failed, timed out or raised, and carries the exception's own message when it raised |
| `Manual.CommandManual.Related` | p1.py:79-89 | the completion output verbatim on exit 0, the fixed `compgen` failure text otherwise, the exception text on an exception |
| `Manual.CommandManual.Syntax` | p1.py:105-114 | the stripped SYNOPSIS output on exit 0, neither starting nor ending in whitespace; the fixed failure text otherwise |
| `Manual.CommandManual.DocumentationLink` | p1.py:91-103 | never empty; the fixed failure text on a failed pipeline, the "no documentation" text when no line survives the filter, and otherwise exactly the surviving lines |
| `Manual.XmlSerializer.Serialize` | p1.py:159-169 | the root is `Command` with `name` set to the command and no text of its own, its children read back as exactly Description, Version, Example, Related, Syntax and DocumentationLink in that order, each holding its getter's result, and the returned string serialises that root |
| `Manual.GeneratorCommands` | p1.py:139-141 | one entry per line that `readlines()` yields, in order; entry k is piece k of `split('\n')` stripped, and it is "" exactly when that line is blank |
| `Manual.StrippedLines` | p1.py:141 | stripping the `readlines()` lines equals stripping the `split('\n')` pieces, and an entry is empty exactly for an all-whitespace line |
| `Xml.NewElement` | p1.py:160 | `ET.Element` gives the tag and attributes asked for, no text, and a document that reads back as holding no fields |
| `Xml.SubElement` | p1.py:162-167 | `SubElement(root, tag).text = t` adds one last child, a text-only leaf with that tag and text, and leaves the earlier children and everything else about the root as they were |
| `Xml.ReadAppended` | p1.py:162-167 | appending a text-only child extends what the children read back as by that tag and text, last |
| `Xml.ReadBackDetermines` | p1.py:162-167 | children that read back against a list of tags are exactly one text-only leaf per tag, holding the text read back for it |
| `Xml.ReadSubElement` | p2.py:128-131 | `SubElement(root, tag).text = t` on an element that reads back against some tags makes it read back against those tags plus `tag`, with `t` last |
| `Recommender.BulletLines` | p1.py:232-234 | the introduction plus the accumulated bullets is the introduction line, one `- name` line per related command and the empty piece after the final break, joined by breaks |
| `Recommender.RecommendationLines` | p1.py:229-235 | a recommendation ends in a line break; with single-line names, its lines are the introduction and the bullets in table order, and it has one more break than related commands |
| `Recommender.CommandRecommender.RecommendCommands` | p1.py:229-236 | an unknown command gives exactly "No related commands found.\n"; a known one gives the introduction and one bullet per related command in table order; the text always ends in a break and has one line more than related commands |
| `Recommender.NoneFoundText` | p1.py:236 | the "not found" text is one line, ended by its break |
| `Recommender.NewCommandRecommender` | p1.py:173-227 | the built-in table has the 13 listed commands, and none of its related-command names spans two lines |
| `Recommender.TableNamesOneLine` | p1.py:173-227 | no related-command name of the built-in table holds a line break |
| `Legacy.CompareFiles` | p2.py:5-16 | the result is "Files are equal" exactly when the two files hold the same text; otherwise it is the diff lines joined by breaks, which always holds a break |
| `Legacy.SameLinesSameText` | p2.py:6-8 | two texts have the same `readlines()` exactly when they are equal |
| `Legacy.GetDescription` | p2.py:36-51 | for the same outcome of `command --help`, the same text as `CommandManual.get_description` |
| `Legacy.GetDes` | p2.py:18-33 | the same text as `get_description` |
| `Legacy.GetVersion` | p2.py:54-71 | the same flags, order, early stop and sentinel as `CommandManual.get_version` |
| `Legacy.GetExample` | p2.py:74-107 | the same table, time limit and texts as `CommandManual.get_example` |
| `Legacy.GetRelated` | p2.py:109-122 | as written: on exit 0 the result is "No related commands available" exactly when the output is line breaks only; otherwise it is the `NameError` message; failure and exception texts as in `CommandManual` |
| `Legacy.GetRelatedIntended` | p2.py:114-117 | as intended: never empty; the completion lines other than empty ones and the command itself, in order, or "No related commands available" |
| `Legacy.RelatedNameError` | p2.py:115 | on the completion output "ls\nlsblk\n" for `ls`, the code as written gives the `NameError` message where the intended filter gives "lsblk" |
| `Legacy.NamesDistinct` | p2.py:140-143 | the `.xml` and `_test.xlm` names never collide, and each determines its command |
| `Legacy.DocumentReadsBack` | p2.py:126-131 | the document `create_xml_file` builds reads back against Description, Version, Example and Related as exactly the four texts it was built from |
| `Legacy.DocumentUnique` | p2.py:126-131 | a text-less `Command` root named after the command whose children read back as four texts is the document built from those texts, so the document is fixed by its fields |
| `Legacy.CreateXmlFile` | p2.py:125-143 | the root is `Command` named after the command, with no text of its own and exactly Description, Version, Example and Related in order, i.e. the command's document; one serialised string is written under both names, and no other file changes |
| `Legacy.ReadCommandsFromFile` | p2.py:145-147 | the same stripped lines as `CommandManualGenerator` reads, one per line, in order |
| `Legacy.WriteKeepsDocuments` | p2.py:139-143 | writing the next command's document under both its names gives it that document and keeps every earlier command's document |
| `Legacy.WrittenNamesMembers` | p2.py:140-143 | a name is among those written for the first n commands exactly when it is the `.xml` or `_test.xlm` name of one of them |
| `Legacy.WriteAddsNames` | p2.py:140-143 | writing the next command's two files adds exactly its two names to the files there were |
| `Legacy.WriteKeepsOthers` | p2.py:140-143 | writing the next command's two files leaves every file named after none of the commands so far as it was at the start |
| `Legacy.OnlyNamedFilesChange` | p2.py:140-143 | given both frame facts, a name of none of the commands is a file afterwards exactly when it was one before, and then holds the same text |
| `Legacy.WriteKeepsPairs` | p2.py:139-143 | writing one text under both names of the next command pairs its files and keeps every earlier command's files paired |
| `Legacy.Compare` | p2.py:164-171 | a command whose two files hold the same text compares as "Files are equal" |
| `Legacy.Status` | p2.py:170-173 | the status line names the command and says "Files are equal." exactly when the comparison reports equal files, "Files are different." otherwise |
| `Legacy.CheckOne` | p2.py:156-171 | one pass of the loop builds a text-less `Command` root named after the command whose four children hold, in order, the description, the version, the example and `get_related`'s text as written; writes that root's text under both names, so the `.xml` file holds the command's four-field document; and reports the command as equal |
| `Legacy.CheckNext` | p2.py:155-173 | one pass of the loop adds that command's "Files are equal." line and its two files, and keeps everything the loop has established for the commands before it |
| `Legacy.CheckCommands` | p2.py:155-173 | one status line per command, in order, each "cmd: Files are equal."; at the end every command's two files hold the same text, the `.xml` file holds the serialised document built from the command's four fields, the files are exactly those there were plus the two names of each listed command, and every other file is unchanged |
| `Legacy.CheckAll` | p2.py:150-173 | `main` over the commands read from the listing: one "Files are equal." line per listed command; every pair of files matches and holds the command's four-field document; the files are exactly those there were plus the listed commands' two names each; and a name of no listed command is a file afterwards exactly when it was one before, with the same text |

## Left out

- Starting child processes and real timeouts. Each invocation is an input (`Process.Host`), and the 5-second limit appears as the `TimedOut` outcome.
- The bash pipelines (`compgen -c`, `man … | grep -A 2 SYNOPSIS`, `--help | grep -A 2 "Full documentation"`). Their line selection happens in the shell, so their output is an opaque string.
- File I/O: opening, reading and writing files, `tree.write`, and the missing or unreadable files behind it. Files are a map from name to text, and the commands file is its text. Universal-newline translation is taken as already applied. Each name is its own file and every write succeeds, so the model does not capture two names reaching one file (`./ls.xml` and `ls.xml`), nor a file that cannot be opened for writing, which makes the `open` at p2.py:140 raise an exception that nothing catches and ends `main`.
- ElementTree serialisation and escaping. `ET.tostring` is the parameter `toString`; only the element tree is modelled.
- `difflib.unified_diff`. It is the parameter `diff`.
- Legacy.CompareFiles: requires of `diff` only that it is empty exactly for identical line lists and is never one line long (a non-empty unified diff starts with its two header lines). It does not model the diff's content.
- Legacy.CheckAll: does not model the `print` calls themselves; the printed lines are the returned report. It requires `diff` to be empty on identical inputs.
- `CommandManual.create_xml_file` (p1.py:116-134). It repeats the layout of `serialize` and then writes one file.
- `CommandManualGenerator.generate_manuals`, `CommandManager`, `display_command`, `list_commands`, the interactive menu and every `print`: user interface and output only.
- Building the tree in place. `ET.SubElement` is modelled on element values (`Xml.SubElement` returns the extended element), so the model does not capture aliasing of the root.
- Python exceptions are one message string (`ExceptionText`). Which exception type a missing executable or a decode error raises is not modelled.

## Findings

| source | as written | input that shows it | evidently intended | confidence | as-written member | corrected member |
|---|---|---|---|---|---|---|
| p2.py:115 | the free function `get_related` filters with `cmd != self.command`; `self` is undefined, so the first non-empty line raises `NameError`, which the catch-all turns into "An exception occurred: name 'self' is not defined" | `compgen -c ls` exits 0 with output "ls\nlsblk\n" | compare with the `command` parameter, giving "lsblk" | not executed | `Legacy.RelatedNameError` (on `Legacy.GetRelated`) | `Legacy.GetRelatedIntended` |
