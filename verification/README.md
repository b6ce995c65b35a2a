# Dafny models of unifi-containers

Models of the parts of the repository in which several pieces have to agree, with proofs of what they keep.
`dafny verify dfyconfig.toml` checks all of it. Text is a sequence of code points `0..0x10FFFF`, because a Python `str`
may hold lone surrogates; each regular expression is the leftmost match it denotes.

## What is modelled

**The `.properties` editor.** `sysprops.merge` rewrites the file that decides whether a controller boots.

| module | what it holds |
|---|---|
| `Chars`, `Lines`, `Regexes`, `Sequences` | code points, physical lines, the continuation and separator patterns |
| `Reading`, `Writing`, `Documents` | `parse`, `unescape`, `loads`; `escape`, `join_key_value`, `to_comment`, `dump` |
| `EscapeLaws`, `JoinLaws`, `NewLines`, `Fields`, `CommentLaws`, `Separators` | printer and parser against each other |
| `Grammar`, `EscapeTables`, `CommentTables`, `PlainText` | reader and printer against tables of the characters themselves |
| `SelfDelimiting`, `Repairs`, `Guarantees` | when an entry keeps to itself in front of other text, and what the last-line repair achieves |
| `OrderedDicts`, `Edits`, `FileStates`, `Reparse`, `Runs` | a file as a list of elements, edits on it, and the ordered dict it stands for |
| `LinkedLists`, `NodeIndex`, `PropertiesFiles` | the mutable `PropertiesFile`: doubly linked nodes and the index from keys to them |
| `Sysprops`, `Idempotence`, `Untouched`, `Places` | `merge`: the commuting square, merging twice, what stays byte for byte, where everything stands |

The proofs go from the heap to the text: each method of `PropertiesFile` is the matching edit of a list of elements, each
edit is the matching assignment or deletion in an ordered dict, and the dump of the list parses back to that dict.

**The other protocols.** `Readyz` interleaves callers of `Gate.ready` step by step, and `ReadyzCalls` says how close
the probe calls themselves may come. `Healthcheck` is the staged check behind marker files over a whole boot.
`Consoles`, `UosOwner`, `SeedLaws` and `SeedSteps` are the owner seed against a console that may answer anything, over
any number of boots. `Releases`, `ReleaseLaws`, `ReleaseOrder`, `Cutting`, `ReleasePlans` and `Registry` are tags,
builds and registry names over any order of cutting and releasing, and `Publishing` is the same call by call, as the
`manifest` job of the release workflows makes them (`.github/workflows/network-release.yml:201-266`), with any of the
calls to the registry failing. `EnvFiles` is the quoted environment file; `FileTrees`, `Migration` and `MigrationLaws`
are the move of service state onto one volume.

## Where the code and its documentation part

Each is shown at a concrete input and stated as an equivalence, so the promise is proved to hold exactly where it does.

* **A lone backslash swallows an update.** `PropertiesFile.__setitem__` repairs the last line before it adds a key
  (`propfile.py:109-121`). When the last entry's last physical line is a lone backslash, as in `a=b\`, newline, `\`,
  `CONTINUED_RGX.sub` takes that backslash and leaves `a=b\`, newline: it ends in a newline, so nothing more is done, but
  it is still continued, and the key added next becomes part of that entry. `Hollow` is the check for it, and the input is
  `Guarantees.HollowInput`. The promise of `merge` (`sysprops.py:19-31`) fails exactly there
  (`Sysprops.MergeCommutesIff`), and for strings that hold a high surrogate directly before a low one, which come back
  joined (`EscapeLaws.HalvesComeBackJoined`).
* **The gate keeps its interval between clock readings, not between probes** (`readyz.py:51-55`). A caller held up between
  its reading and its probe makes two probes start together (`ReadyzCalls.CallsMayCrowd`). With hold-ups of up to `h`,
  successive calls are sure to be the interval less `h` apart and no more (`GapsIff`), so the promise holds exactly without
  hold-ups (`PromiseKeptIff`), and a window has room for one probe more than it promises exactly when hold-ups eat up what
  the window lacks of its next whole interval (`WindowPromiseIff`).
* **`merge` promises untouched entries their exact text** (`sysprops.py:22`). When it adds a key behind a last line that
  does not end in a line break, or behind an entry that is continued, that line is finished first; `a=b` without a line
  break gets one (`Untouched.UnfinishedInputChanges`). The text is exact in all other cases
  (`Untouched.KeepsExactTextIff`).
* **`decide` is idempotent only for a pin of the form `N.N.N`** (`cut_release.py:13-39`). The UniFi OS pin may be any
  string: `5.1`, once cut, is due again under the very tag that is taken (`ReleaseOrder.ShortPinIsCutAgain`;
  `ReleaseOrder.CutSettlesIff`, `ReleaseLaws.NextIsFreshIff`).
* **A release tag's version is said to be valid PEP 440 as it stands** (`release.py:74-81`). `\d` takes the digits of every
  script and `Version` only ASCII ones. One tag such as `network/` and `0.0.0-1` with an Arabic-Indic three for its first
  digit (`Registry.StrayTag`) makes every plan for that product raise, and its names never move again
  (`Registry.StrayTagStops`). `ReleaseOrder.Comparable` is the check for it, and a plan is made exactly where it holds
  (`Registry.PlanOfIff`).
* **Only a rejection is said to justify minting a replacement key** (`uos_owner.py:19-21`). A key file that cannot be read
  is taken for none (`uos_owner.py:166-171`), so a key the console may well accept is replaced without having been tried
  (`SeedLaws.UnreadableKeyIsReplaced`). The promise holds exactly as long as the file can be read
  (`SeedLaws.OnlyRejectionsIff`).
* **`_copy_no_clobber` promises `cp -a`** (`uos.py:113`). Owners are changed after the copy, which on Linux takes a
  program its set-ID bits and capabilities (`FileTrees.ProgramLosesPrivileges`); everything else comes over exactly
  (`FileTrees.MirrorUndoesCopyIff`, `FileTrees.CopiedOverExactIff`).

## Model

| member | source | states |
|---|---|---|
| Sysprops.MergeCommutesIff | src/unifi_runtime/sysprops.py:10-31 | the commuting square: parsing the merged text gives the parsed dict overridden by the updates, or extended by them with `only_if_absent`, if and only if the applied updates hold no adjacent surrogate halves and no line is buried; then in the dict's own order |
| Sysprops.Merge | src/unifi_runtime/sysprops.py:19-31 | the loop over a mutable `PropertiesFile` computes the merge the square is about, missing text included |
| Sysprops.MergeSwallowsIff | src/unifi_runtime/_vendor/javaproperties/propfile.py:107-123 | a merged file holds a swallowed line exactly when the input ends in a hollow entry that is not rewritten and a key is added |
| Sysprops.MergedDictIsOverride | src/unifi_runtime/sysprops.py:27-30 | the loop's skip and assignment are map override, and left-biased override with `only_if_absent` |
| Idempotence.MergeTwiceIff | src/unifi_runtime/sysprops.py:26-31 | merging twice with `only_if_absent` returns the same bytes as once, if and only if the added keys hold no adjacent halves and no line is buried |
| Places.MergedInPlace | src/unifi_runtime/sysprops.py:19-31 | the merged file element by element: updated keys are rewritten where their first entry stands and lose later ones, everything else stays where it was, new keys follow in the order of the updates, and only then the last line is finished first |
| Untouched.KeepsExactTextIff | src/unifi_runtime/sysprops.py:20-24 | what is not rewritten keeps its exact text, in order, if and only if no key is added behind an unfinished last line that stays |
| Untouched.UnfinishedInputChanges | src/unifi_runtime/sysprops.py:20-24 | on `a=b` without a line break, adding any other key gives that entry a line break |
| Guarantees.EveryRunReadsBackIff | src/unifi_runtime/_vendor/javaproperties/propfile.py:104-136 | every run of sets and deletes dumps to a text that reads back as the dict it made, if and only if the file does not end in a hollow entry |
| Guarantees.SafeRunReadsBack | src/unifi_runtime/_vendor/javaproperties/propfile.py:104-136 | and then the dump loads as exactly that dict, order included |
| Guarantees.RepairDelimitsIff | src/unifi_runtime/_vendor/javaproperties/propfile.py:107-121 | the repaired last entry keeps key and value, and delimits itself in front of any text if and only if it was not hollow |
| Guarantees.HollowInputIsHollow | src/unifi_runtime/_vendor/javaproperties/propfile.py:116-121 | the six characters of a concrete input that parses to one entry and defeats the repair |
| Guarantees.HollowInputLosesUpdates | src/unifi_runtime/sysprops.py:19-31 | on that input every update under another key is lost, with either mode: the key is in nothing the merged text loads to |
| Runs.WholeRun | src/unifi_runtime/_vendor/javaproperties/propfile.py:99-145 | after any load and any edits the file stands for the ordered dict those edits make, and its dump reads back as that dict exactly when no fresh string holds adjacent halves and no line is swallowed |
| Runs.WholeRunAsMap | src/unifi_runtime/_vendor/javaproperties/propfile.py:99-145 | with order forgotten, those edits are map update and map subtraction on what the input loads to, and the dump loads to that map under the same condition |
| Runs.DumpReparsesIff | src/unifi_runtime/_vendor/javaproperties/propfile.py:253-265 | the same for one state of a file, with the order when it holds |
| Runs.LoadedIsPairFree | src/unifi_runtime/_vendor/javaproperties/reading.py:337-358 | no parse yields a key or value with adjacent surrogate halves, so the condition only ever concerns updates |
| Reparse.RenderParses | src/unifi_runtime/_vendor/javaproperties/propfile.py:253-265 | a sound file without swallowed lines dumps to a text with exactly its entries, duplicates included |
| Reparse.EntriesThenText | src/unifi_runtime/_vendor/javaproperties/reading.py:281-306 | a closed element adds its own entry to whatever follows, for every following text, CR before LF included |
| Reparse.SwallowedKeyIsLost | src/unifi_runtime/_vendor/javaproperties/propfile.py:107-123 | a key put behind a line that is still continued is in nothing the dump parses to |
| FileStates.ParsedIsSound | src/unifi_runtime/_vendor/javaproperties/reading.py:281-306 | parsing is lossless: what was parsed dumps to the input byte for byte, and each element's source parses to it alone |
| FileStates.AssignedIsSound | src/unifi_runtime/_vendor/javaproperties/propfile.py:104-132 | an assignment keeps the invariant of file states |
| FileStates.DeletedIsSound | src/unifi_runtime/_vendor/javaproperties/propfile.py:134-136 | a deletion keeps the invariant of file states |
| Edits.AssignedIsPut | src/unifi_runtime/_vendor/javaproperties/propfile.py:104-132 | an assignment to the file is an assignment to its ordered dict: a present key keeps its place, duplicates go, a new one is last |
| Edits.DeletedIsRemove | src/unifi_runtime/_vendor/javaproperties/propfile.py:134-136 | a deletion from the file is a deletion from its ordered dict |
| PropertiesFiles.PropertiesFile.SetItem | src/unifi_runtime/_vendor/javaproperties/propfile.py:104-132 | on the heap: relinks, unlinks and repairs to exactly the assigned list, keeping list and index in agreement |
| PropertiesFiles.PropertiesFile.DelItem | src/unifi_runtime/_vendor/javaproperties/propfile.py:134-136 | on the heap: all of the key's nodes and no others are unlinked, and absence is reported |
| PropertiesFiles.PropertiesFile.GetItem | src/unifi_runtime/_vendor/javaproperties/propfile.py:99-102 | answers what the ordered dict holds, or that the key is absent |
| PropertiesFiles.PropertiesFile.Iterate | src/unifi_runtime/_vendor/javaproperties/propfile.py:138-145 | keys in order of first occurrence in the list |
| PropertiesFiles.PropertiesFile.Loads | src/unifi_runtime/_vendor/javaproperties/propfile.py:185-215 | builds a list and index in agreement with the parsed elements, or raises the parser's error |
| PropertiesFiles.PropertiesFile.Dumps | src/unifi_runtime/_vendor/javaproperties/propfile.py:253-265 | walking the nodes writes the rendering of the contents |
| PropertiesFiles.PropertiesFile.Copy | src/unifi_runtime/_vendor/javaproperties/propfile.py:305-312 | a copy has the same contents, agreeing list and index, and no node in common |
| PropertiesFiles.IndexReassigned | src/unifi_runtime/_vendor/javaproperties/propfile.py:124-132 | after a reassignment each key still maps to exactly its nodes in list order, and the keys keep their order |
| PropertiesFiles.IndexDropped | src/unifi_runtime/_vendor/javaproperties/propfile.py:67-97 | after a deletion likewise |
| PropertiesFiles.LastNodeHoldsValue | src/unifi_runtime/_vendor/javaproperties/propfile.py:99-102 | the last node of a key carries what the dict holds for it: last occurrence wins |
| NodeIndex.ReassignedCellsMean | src/unifi_runtime/_vendor/javaproperties/propfile.py:124-132 | unlinking all nodes but the first and replacing its value is the reassigned list |
| LinkedLists.LinkedList.Append | src/unifi_runtime/_vendor/javaproperties/util.py:29-38 | a fresh node behind the last, linked in both directions |
| LinkedLists.LinkedListNode.Unlink | src/unifi_runtime/_vendor/javaproperties/util.py:54-62 | the node at any position goes, and the rest stay linked in both directions |
| Repairs.RepairIsFaithful | src/unifi_runtime/_vendor/javaproperties/propfile.py:112-121 | a repaired line ends in a line break, parses back to the same element, and is open exactly when it was hollow, or a dangling blank |
| SelfDelimiting.ElementThenText | src/unifi_runtime/_vendor/javaproperties/reading.py:281-306 | an element that is not open parses the same in front of any text that does not complete a CR LF with it |
| SelfDelimiting.ContinuedOfSource | src/unifi_runtime/_vendor/javaproperties/util.py:6 | on a whole source the pattern sees only the last physical line |
| NewLines.PrintedIsFaithful | src/unifi_runtime/_vendor/javaproperties/writing.py:188-192 | for every key and value, with either `ensure_ascii`, the printed line parses to exactly one element with both (paired) |
| NewLines.OpenThenLine | src/unifi_runtime/_vendor/javaproperties/reading.py:290-294 | behind an open entry a printed line parses as part of that entry |
| JoinLaws.JoinSeparates | src/unifi_runtime/_vendor/javaproperties/writing.py:188-192 | the separator found in a printed line is the sign it was joined with, whatever key and value hold |
| JoinLaws.JoinElement | src/unifi_runtime/_vendor/javaproperties/writing.py:188-192 | the printed logical line stands for that key and value: empty strings, leading spaces, comment markers, newlines |
| Fields.FieldsAreWhole | src/unifi_runtime/_vendor/javaproperties/reading.py:289-306 | no key or value reaches `unescape` with an unpaired backslash at its end |
| EscapeLaws.RoundTripIff | src/unifi_runtime/_vendor/javaproperties/writing.py:232-255 | unescaping an escaped key, and an escaped value, returns it if and only if it holds no adjacent halves |
| EscapeLaws.HalvesComeBackJoined | src/unifi_runtime/_vendor/javaproperties/reading.py:337-358 | U+D800 U+DC00 comes back as U+10000 |
| EscapeLaws.PairAfterExpand | src/unifi_runtime/_vendor/javaproperties/reading.py:337-358 | pairing from left to right undoes the split into halves and never joins across neighbouring characters |
| EscapeLaws.SurrogatesInverse | src/unifi_runtime/_vendor/javaproperties/writing.py:216-225 | joining the two halves of any code point beyond the BMP gives it back (sections 2.1 and 2.2 of RFC 2781) |
| EscapeLaws.UEscapesInverse | src/unifi_runtime/_vendor/javaproperties/writing.py:216-225 | the one or two `\u` escapes of any code point decode to it, or to its halves, in front of any text |
| EscapeLaws.UnescapeRawAppend | src/unifi_runtime/_vendor/javaproperties/reading.py:310-352 | a field that leaves no backslash unpaired decodes the same in front of anything |
| EscapeLaws.PairIsPairFree | src/unifi_runtime/_vendor/javaproperties/reading.py:337-358 | nothing paired can be paired again |
| CommentLaws.DocumentRoundTripIff | src/unifi_runtime/_vendor/javaproperties/writing.py:57-65 | loading what was dumped gives the dict, order included, for every comment, if and only if it holds no adjacent halves |
| CommentLaws.DocumentParses | src/unifi_runtime/_vendor/javaproperties/writing.py:57-65 | a comment adds no entry and takes none, whatever it holds |
| CommentLaws.ToCommentIsMarked | src/unifi_runtime/_vendor/javaproperties/writing.py:153-159 | every line made of a comment starts with a marker, for any mix of CR, LF and markers |
| Writing.Dumps | src/unifi_runtime/_vendor/javaproperties/writing.py:57-65 | the printing loop writes the document those theorems are about |
| Reading.ParseStream | src/unifi_runtime/_vendor/javaproperties/reading.py:259-306 | the loop over an iterator of lines computes the parse, errors included |
| Reading.GatherLogicalLine | src/unifi_runtime/_vendor/javaproperties/reading.py:289-294 | the continuation loop ends, consumes each of the logical line's physical lines once, and joins them |
| Regexes.SeparatorIsFirstUnescaped | src/unifi_runtime/_vendor/javaproperties/reading.py:226 | the match ends the key at the first `=`, `:` or blank behind an even run of backslashes, and there is none exactly when no such character stands there |
| Regexes.FirstUnescapedIsSeparator | src/unifi_runtime/_vendor/javaproperties/reading.py:226 | the converse |
| Regexes.ContinuedIsRegexMatch | src/unifi_runtime/_vendor/javaproperties/util.py:6 | an odd run of backslashes before the end is exactly when the pattern matches somewhere, and what the substitution keeps |
| Regexes.AppendDecidesContinuation | src/unifi_runtime/_vendor/javaproperties/reading.py:290-294 | the joined line's parity agrees with that of its last physical line |
| Lines.AsciiSplitlines | src/unifi_runtime/_vendor/javaproperties/util.py:107-119 | the loop over line-end matches cuts the text at CR LF, CR and LF |
| Lines.LineIterator | src/unifi_runtime/_vendor/javaproperties/reading.py:267-280 | reading up to each LF and splitting gives the lines of the whole text |
| Lines.SplitLinesLossless | src/unifi_runtime/_vendor/javaproperties/util.py:107-119 | the lines concatenate to the text |
| Grammar.SplitLinesIff | src/unifi_runtime/_vendor/javaproperties/util.py:107-119 | the lines of a text are the one way to cut it at LF, at CR LF and at a CR no LF follows |
| Grammar.BlankLineIff | src/unifi_runtime/_vendor/javaproperties/reading.py:225 | a line is blank exactly when only spaces, tabs and form feeds stand before its end |
| Grammar.CommentLineIff | src/unifi_runtime/_vendor/javaproperties/reading.py:224 | a line is a comment exactly when its first other character is `#` or `!` |
| Grammar.LineJoins | src/unifi_runtime/_vendor/javaproperties/reading.py:289-294 | what a physical line adds to its logical line, and when the next one joins, for every indentation, body and line end |
| Grammar.SeparatedLine | src/unifi_runtime/_vendor/javaproperties/reading.py:298-306 | for every key without a bare separator, every separator the grammar has and every value: the entry is the two decoded, or the first error |
| Grammar.KeyAlone | src/unifi_runtime/_vendor/javaproperties/reading.py:295-306 | a line without a separator is a key with an empty value, and an empty one is no entry |
| Separators.SeparatedRoundTrip | src/unifi_runtime/_vendor/javaproperties/writing.py:162-192 | printed with any such separator, every key and value come back, up to pairing |
| Separators.JoinWithEquals | src/unifi_runtime/_vendor/javaproperties/writing.py:162-192 | with `=` alone that is the line written by default |
| EscapeTables.EverySpelling | src/unifi_runtime/_vendor/javaproperties/reading.py:343-350 | `\u` and four hexadecimal digits for a number, each in either case, are read as that number in front of any text |
| EscapeTables.BadSpelling | src/unifi_runtime/_vendor/javaproperties/reading.py:343-349 | anything else behind `\u`, up to four characters of the line, is refused and named |
| EscapeTables.NamedIsRead | src/unifi_runtime/_vendor/javaproperties/reading.py:340-352 | t, n, f and r behind a backslash stand for U+0009, U+000A, U+000C and U+000D, every other character but `u` and LF for itself |
| EscapeTables.PlainIsRead | src/unifi_runtime/_vendor/javaproperties/reading.py:310-337 | a character that is no backslash stands for itself, and so does a backslash at the end of a line |
| EscapeTables.LineIsPrinted | src/unifi_runtime/_vendor/javaproperties/writing.py:188-234 | the exact text of every printed line, character by character from a table of literals |
| EscapeTables.EntriesAreLines | src/unifi_runtime/_vendor/javaproperties/writing.py:57-65 | each entry is one physical line of the document, which with `ensure_ascii` holds nothing but U+0020 to U+007E and its LF |
| PlainText.FreshIsPlain | src/unifi_runtime/_vendor/javaproperties/propfile.py:252-262 | an entry that was set is written as one line of U+0020 to U+007E and an LF |
| PlainText.RenderAsciiIff | src/unifi_runtime/_vendor/javaproperties/propfile.py:217-265 | a file is written in ASCII exactly when what it kept of its input is ASCII, whatever was set |
| PlainText.MergeStaysAscii | src/unifi_runtime/sysprops.py:19-31 | an ASCII file is still one after merging any keys and values |
| CommentTables.NormalizedLine | src/unifi_runtime/_vendor/javaproperties/writing.py:128-153 | CR LF, LF, and a CR no LF follows become LF, and nothing else changes; the same for a key file read in text mode |
| CommentTables.CommentLine | src/unifi_runtime/_vendor/javaproperties/writing.py:131-159 | the exact text of every line of a comment, the marker of the next included, for each charset setting |
| CommentTables.CommentComesFirst | src/unifi_runtime/_vendor/javaproperties/writing.py:55-65 | the comment stands before the entries, on lines of its own |
| Readyz.OneProbeAtATime | src/unifi_runtime/readyz.py:73-84 | under every interleaving of any number of callers at most one probe is in flight |
| Readyz.LockIsGivenBack | src/unifi_runtime/readyz.py:74-84 | once no caller is past the lock it is free, raising probes included |
| Readyz.WindowOfReadings | src/unifi_runtime/readyz.py:77-80 | a window of length T of the admitting clock readings holds at most T/interval + 1 probes, raising ones included |
| ReadyzCalls.GapsIff | src/unifi_runtime/readyz.py:77-81 | over all runs with hold-ups of up to h between reading and call, how far apart calls are sure to be: d exactly when d is at most the interval less h, or zero from h = interval on |
| ReadyzCalls.PromiseKeptIff | src/unifi_runtime/readyz.py:51-55 | calls are the interval apart in all such runs exactly when h is zero |
| ReadyzCalls.CallsFitIff | src/unifi_runtime/readyz.py:77-81 | n calls fit into a window exactly when n - 2 intervals and what hold-ups leave of one more do |
| ReadyzCalls.WindowPromiseIff | src/unifi_runtime/readyz.py:51-55 | a window of T never holds more than T/interval + 1 calls exactly when hold-ups leave more of the interval than the window has over; else one more, never two |
| ReadyzCalls.CallsMayCrowd | src/unifi_runtime/readyz.py:51-55 | for every interval there is an interleaving in which two probes start at the same time |
| Readyz.AnswersTellTheLastProbe | src/unifi_runtime/readyz.py:74-82 | an answer is the outcome recorded last when it is given, false before any, and the caller's own probe's if it had one |
| Readyz.AnswersWereRecorded | src/unifi_runtime/readyz.py:74-82 | and so it stays readable from the history of recorded outcomes |
| Readyz.ProbesAreAccountedFor | src/unifi_runtime/readyz.py:80-84 | the recorded outcomes are those of the probes that did not raise, in order, but for at most the last |
| Readyz.Gate.Ready | src/unifi_runtime/readyz.py:73-84 | one undisturbed call: lock given back, last reading, verdict and result |
| Readyz.UndisturbedCall | src/unifi_runtime/readyz.py:73-84 | the step machine without interference is that call |
| Healthcheck.LoginsAreFew | src/unifi_runtime/healthcheck.py:111-129 | over any boot with a writable login marker, successful logins number at most one plus the 401 and 403 answers |
| Healthcheck.LoginsAreAccountedFor | src/unifi_runtime/healthcheck.py:51-72 | exactly: every successful login is in force, or was dropped by a refusal, or could not be marked |
| Healthcheck.FirstReady | src/unifi_runtime/healthcheck.py:111-129 | the first ready answer has the login proven, a settled status that is no refusal, and the fleet where required |
| Healthcheck.ReadyForGood | src/unifi_runtime/healthcheck.py:51-64 | from then on every check is ready and sends no request |
| Healthcheck.LoginMarkerMeans | src/unifi_runtime/healthcheck.py:111-129 | the login marker stands for a login that succeeded and that no refusal has dropped since |
| Healthcheck.MarkerFiles.HealthCheck | src/unifi_runtime/healthcheck.py:51-64 | the gates over marker files make the check the theorems are about |
| Healthcheck.MarkerFiles.Staged | src/unifi_runtime/healthcheck.py:111-129 | the staged probe with its refusals, raising probes and unwritable markers |
| Healthcheck.ReadyIff | src/unifi_runtime/healthcheck.py:51-132 | a check is ready exactly when the marker is there, or the login is in force, the status is 200 to 499 and neither 401 nor 403, and the fleet is there where required |
| Healthcheck.RaisesIff | src/unifi_runtime/healthcheck.py:51-132 | it raises exactly when a request it gets to raises |
| Healthcheck.AsksFor | src/unifi_runtime/healthcheck.py:51-132 | exactly which requests it sends |
| Healthcheck.MarkersAre | src/unifi_runtime/healthcheck.py:51-72 | exactly which markers are there afterwards |
| Healthcheck.ExpectedFleet | src/unifi_runtime/healthcheck.py:85-108 | the override, or the sum of the counts that parse |
| Healthcheck.GarbledUndercounts | src/unifi_runtime/healthcheck.py:100-108 | garbling a count takes exactly that count off the expectation |
| Healthcheck.NothingExpected | src/unifi_runtime/healthcheck.py:98-108 | where no count parses nothing is expected |
| SeedLaws.RunIsBounded | src/unifi_runtime/seed/uos_owner.py:222-232 | whatever the console answers: at most five setups, only behind a failed login and a ULP without setup; success exactly on its word (without a key to seed); at most 1310 seconds asleep |
| SeedLaws.RunKeepsCustody | src/unifi_runtime/seed/uos_owner.py:184-232 | at most one key minted, and only after a read that found none or failed, or a 401 or 403 for the key it found; the file changes only to a key minted and accepted in this run; a failing run leaves it; a succeeding one leaves a key that answered 200 |
| SeedLaws.CustodyOverBoots | src/unifi_runtime/seed/uos_owner.py:184-219 | after any number of boots the file is as at first or holds a key that one boot minted, saw accepted, and published |
| SeedLaws.MintsNeedReasons | src/unifi_runtime/seed/uos_owner.py:127-146 | over any number of boots no more keys are minted than boots read none or had theirs refused |
| SeedLaws.KeyIsKept | src/unifi_runtime/seed/uos_owner.py:187-195 | without such a reason no boot touches the file |
| SeedLaws.KeyInFileIsReplaced | src/unifi_runtime/seed/uos_owner.py:184-219 | a run mints in spite of a key in the file only if that key drew a 401 or 403, or reading the file failed |
| SeedLaws.UnreadableKeyIsReplaced | src/unifi_runtime/seed/uos_owner.py:166-171 | a concrete run for every key: reading it fails, the key is never sent to the console, and another one is minted and published over it |
| SeedLaws.OnlyRejectionsIff | src/unifi_runtime/seed/uos_owner.py:184-219 | for every key file, only a rejection leads to a replacement over all runs exactly when no read of the file fails |
| SeedLaws.SuccessIff | src/unifi_runtime/seed/uos_owner.py:184-219 | the seeding of a key succeeds exactly when it ends on a 200 for the key there was, or on a publication |
| SeedLaws.KeyCheckDoes | src/unifi_runtime/seed/uos_owner.py:127-146 | probing stops at the first verdict, gives up after all attempts without one, and a verdict is the console's own word |
| SeedLaws.WaitForApiDoes | src/unifi_runtime/seed/uos_owner.py:78-85 | the API is polled until it answers, or all the attempts are spent, at most ten minutes asleep |
| SeedLaws.WaitForOwnerDoes | src/unifi_runtime/seed/uos_owner.py:174-181 | the owner's id is the console's own answer, or every attempt was spent without one |
| SeedLaws.EnsureOwnerDoes | src/unifi_runtime/seed/uos_owner.py:88-124 | the owner is taken to exist exactly when a login, ULP or a setup answer said so in this run |
| SeedLaws.EnsureOwnerJustifies | src/unifi_runtime/seed/uos_owner.py:94-108 | a failed login and a ULP without setup come before any setup |
| SeedLaws.ReadBackIff | src/unifi_runtime/seed/uos_owner.py:149-171 | a published key is read back as it was exactly when it has no space at its ends and no CR |
| SeedLaws.StripKeepsMiddle | src/unifi_runtime/seed/uos_owner.py:166-171 | reading a key takes exactly the spaces off both ends |
| SeedSteps.BootIs | src/unifi_runtime/seed/uos_owner.py:78-124 | one boot by the console's answers: polls five seconds apart, then the login, ULP, and setups fifteen seconds apart with a login behind every 200; what ends each stage, and what the boot returns |
| SeedSteps.KeyStageIs | src/unifi_runtime/seed/uos_owner.py:184-219 | what the key stage does, event by event, and what the file holds in the end, for every answer |
| SeedSteps.RefusedKeyIsReplaced | src/unifi_runtime/seed/uos_owner.py:187-219 | where the key in the file draws 401 or 403 the owner is asked for next, a key is minted exactly if one comes within 60 polls, and the file holds it and the boot succeeds exactly if it draws 200 and the write works |
| SeedSteps.MissingKeyIsReplaced | src/unifi_runtime/seed/uos_owner.py:187-219 | the same where there is no file, no key in it, or no reading it |
| SeedSteps.ReplacedIff | src/unifi_runtime/seed/uos_owner.py:199-219 | a replacement succeeds, and changes the file to the minted key and an LF, exactly if all its steps do |
| UosOwner.Seeder.Seed | src/unifi_runtime/seed/uos_owner.py:222-232 | the sequence of polls and steps, its loops and early returns, does what the theorems are about |
| UosOwner.Seeder.Own | src/unifi_runtime/seed/uos_owner.py:88-124 | the setup loop against its specification |
| UosOwner.Seeder.EnsureKey | src/unifi_runtime/seed/uos_owner.py:184-219 | the key's custody against its specification, file included |
| UosOwner.Seeder.Prove | src/unifi_runtime/seed/uos_owner.py:127-146 | the probing loop against its specification |
| ReleaseLaws.ParseIff | src/unifi_containers/release.py:26-60 | a tag parses to a release exactly when the pattern's language has it, the digits of every script and a trailing newline included |
| ReleaseLaws.DigitOfIff | src/unifi_containers/release.py:26-60 | a digit, of any script, counts how far behind its script's zero it stands |
| ReleaseLaws.TagRoundTripIff | src/unifi_containers/release.py:41-60 | a release's tag parses back to it exactly when its upstream version is three numbers |
| ReleaseLaws.NextIsFreshIff | src/unifi_containers/release.py:84-88 | for every list of tags, malformed and zero-led ones included, the next tag is new, but for a pin that is no version and whose first tag is taken |
| ReleaseLaws.NextIsNewer | src/unifi_containers/release.py:84-88 | the next revision is greater than that of every tag of the version |
| ReleaseLaws.BuildsOfIff | src/unifi_containers/release.py:63-71 | the builds are exactly the releases some tag names |
| ReleaseOrder.IsHighestStableIff | src/unifi_containers/release.py:74-94 | where every release of the product is a version a release is top exactly when no tag names one that is later by its numbers, and everywhere else the question raises |
| ReleaseOrder.ReachesIff | src/unifi_containers/release.py:74-81 | comparing versions is comparing the three numbers they are written with, in order, and then the build |
| ReleaseOrder.WrittenInOrder | src/unifi_containers/release.py:74-81 | so 10.5.1 comes behind 10.4.57: for all numbers, and whatever the products |
| ReleaseLaws.VersionIff | src/unifi_containers/release.py:74-81 | a version is three numbers in the digits 0 to 9 |
| ReleaseOrder.IsHighestBuildIff | src/unifi_containers/release.py:97-104 | a build is newest exactly when no tag names a later one |
| ReleaseOrder.HighestIsNewest | src/unifi_containers/release.py:91-104 | the top release is the newest build of its version |
| ReleaseOrder.CutSettlesIff | src/unifi_containers/cut_release.py:13-39 | deciding again after cutting what was due, with pins unchanged: nothing is due if the pin is a version, it raises if it is three numbers in other digits, and the first build is due again for any other pin |
| Cutting.NextRevisionIs | src/unifi_containers/release.py:84-88 | the next build is 1 where no tag names one, and else one more than the greatest named |
| Cutting.DecideIs | src/unifi_containers/cut_release.py:13-39 | what is decided in each case: nothing pinned, nothing released, and, by the greatest build that the tags name, pins that changed, did not, or cannot be compared |
| Cutting.DueIff | src/unifi_containers/cut_release.py:13-97 | something is due exactly for a pin that was not released yet or, for UniFi OS alone, whose greatest build has other pins |
| Cutting.RebuildIff | src/unifi_containers/cut_release.py:42-52 | a rebuild is due exactly where some tag names a build |
| Cutting.DueOfIff | src/unifi_containers/cut_release.py:67-86 | what is cut is all that is due, in the order asked for, unless some decision raises |
| Cutting.GitTagsAt | src/unifi_containers/cut_release.py:94-98 | and the tags are created in that order |
| ReleaseOrder.ShortPinIsCutAgain | src/unifi_containers/cut_release.py:25-39 | the pin `5.1` with its tag already there is due under that same tag, before and after it is cut |
| ReleaseOrder.Cut | src/unifi_containers/cut_release.py:55-99 | all decisions are taken on the tags as they were, then the tags are created; a decision that raises leaves the tags as they were |
| ReleaseOrder.CutTagsAreNewIff | src/unifi_containers/cut_release.py:67-98 | for any products and pins: a tag that is cut was there already exactly for a pin that is not three numbers and whose first tag is there, never on a rebuild; two tags cut together are the same exactly when their product is |
| ReleasePlans.VariantOfVersionTag | src/unifi_containers/slide_tags.py:22-35 | every version-level name reads back as the variant pushed there |
| ReleasePlans.VariantForIff | src/unifi_containers/slide_tags.py:22-35 | exactly which names follow which variant; every other name is refused |
| ReleasePlans.EmittedIsReported | src/unifi_containers/release_plan.py:49-68 | what is pushed and slid together is what is reported; a superseded build moves nothing |
| ReleasePlans.SlideMovesEach | src/unifi_containers/slide_tags.py:49-68 | a slide that succeeds leaves every name asked for at its own variant's digest and touches no other |
| ReleasePlans.SlideFailsIff | src/unifi_containers/slide_tags.py:49-68 | it fails exactly when some name has no variant or no digest, or the registry refuses it |
| ReleasePlans.ImageNames.SlideAll | src/unifi_containers/slide_tags.py:49-68 | the loop over names, stopping at the first failure with the earlier names moved |
| Registry.NamesOnlyAdvance | src/unifi_containers/release_plan.py:23-46 | over any order of cutting and releasing, again or half-way, a version-level name only moves to a later build of its version and a global name to a version that is later by its numbers |
| Registry.NamesFollowTheirVariants | src/unifi_containers/slide_tags.py:22-68 | every name points at an image of its own product and variant, and a version-level name at one of its own version |
| Registry.ProductsAreIndependent | src/unifi_containers/release.py:63-71 | a product's names are what they would be had nothing of the other product, and no stray tag, ever happened |
| Registry.RunTakes | src/unifi_containers/release_plan.py:49-68 | a complete run of the newest build takes its version's names, of the highest release the global ones too, of a superseded build none; and none wherever a release of the product cannot be compared |
| Registry.ChangesAreWarranted | src/unifi_containers/release_plan.py:23-46 | the registry changes only for a tag that was pushed, names the pinned version, is superseded by no later build, and all of whose product's releases can be compared |
| Registry.PlanOfIff | src/unifi_containers/release_plan.py:23-46 | exactly which tags get a plan against which tags and pins, with what errors, and what the plan says |
| Registry.StrayTag | src/unifi_containers/release.py:26-28 | a concrete tag the pattern takes for a release and whose version is none |
| Registry.StrayTagStops | src/unifi_containers/release.py:74-94 | once any such tag was pushed no name of its product ever changes again, over every later history |
| Publishing.PublishIff | src/unifi_containers/release_plan.py:49-68 | a release run moves the reported names in their order, each to the digest of its variant, up to the first call that fails; it is through, all of them moved, exactly when none fails |
| Publishing.RunIsStep | src/unifi_containers/slide_tags.py:49-68 | the pushes and slides of a run, wherever it stops, make exactly the registry of the step for the names it moved, and leave the other product's names alone |
| Publishing.HistoryIsExecution | src/unifi_containers/slide_tags.py:49-85 | every history of tags and runs, call by call and with any calls failing, is a history of the registry's steps |
| Publishing.NamesOnlyAdvance | src/unifi_containers/release_plan.py:23-46 | so over every such history a version-level name only moves to a later build of its version and a global name to a later version |
| EnvFiles.EnvFileRoundTrip | src/unifi_runtime/entrypoint/uos.py:226-244 | reading a quoted environment file by the shell's rules (section 2.2 of the POSIX Shell Command Language) gives back every key and value, whatever the values hold |
| EnvFiles.SeedOwnerRoundTrip | src/unifi_runtime/entrypoint/uos.py:242-244 | in particular the seed settings of any environment, in their order |
| EnvFiles.ReadersAgree | src/unifi_runtime/env.py:1-37 | what the seed unit has from the text of its file, read by the shell's rules, and what the container's environment says are the same setting under every name, and the same flag |
| EnvFiles.UnitHasSettings | src/unifi_runtime/env.py:15-37 | under each name the unit has what the container's environment says, and the default where that is unset or empty |
| EnvFiles.FlagIff | src/unifi_runtime/env.py:29-31 | a flag is on exactly for `true` and `1` |
| FileTrees.MirrorUndoesCopyIff | src/unifi_runtime/entrypoint/uos.py:85-125 | a copied tree given its owners back is the original at every depth, if and only if none of its files is privileged |
| FileTrees.ProgramLosesPrivileges | src/unifi_runtime/entrypoint/uos.py:112-125 | a set-user-ID program comes over without that bit |
| FileTrees.CopiedOverIsUnion | src/unifi_runtime/entrypoint/uos.py:112-125 | the target's entries win and every other one is carried over with its owners, privileges aside |
| FileTrees.CopiedOverExactIff | src/unifi_runtime/entrypoint/uos.py:112-125 | and exactly as it was, if and only if none carried over is privileged |
| FileTrees.CopyAloneIff | src/unifi_runtime/entrypoint/uos.py:96-104 | a plain copy is the original exactly for trees owned by root throughout, which is why the ownership pass is there |
| MigrationLaws.AppliesIff | src/unifi_runtime/entrypoint/uos.py:128-150 | planning and applying fails exactly over a target that is no directory; otherwise every move is made and nothing else is touched |
| MigrationLaws.SettledConserves | src/unifi_runtime/entrypoint/uos.py:128-150 | a settled target holds the union, with the right owner and mode |
| MigrationLaws.SecondRunIsNoOp | src/unifi_runtime/entrypoint/uos.py:69-150 | planned and applied again, nothing changes |
| MigrationLaws.LayoutLiesSideBySide | src/unifi_runtime/entrypoint/uos.py:25-36 | no path of the layout lies inside another |
| MigrationLaws.LayOut | src/unifi_runtime/entrypoint/uos.py:386 | at every boot the image's layout is planned and applied: a failure exactly over a target that is no directory, else every move and nothing else |
| MigrationLaws.NextBootIsNoOp | src/unifi_runtime/entrypoint/uos.py:386 | the boot after changes nothing |
| Migration.Volume.CopyNoClobber | src/unifi_runtime/entrypoint/uos.py:112-125 | entry by entry, in any order the directory is listed |
| Migration.Volume.MoveAndLink | src/unifi_runtime/entrypoint/uos.py:130-150 | one move step by step: target made and owned, content copied, original removed and linked, mode set, errors let through |
| Migration.Volume.ApplySymlinks | src/unifi_runtime/entrypoint/uos.py:128-150 | the moves in order, stopping where an error is let through |

## Left out

- Writing.Dumps: only the default separator `=`, no timestamp line; items come in the order `itemize` gives them, sorted or not.
- Reading.ParseStream: bytes are not a type of their own; decoded as Latin-1 they are the texts whose code points are below 256.
- Sysprops.Merge: the updates are strings already; `str(value)` is not modelled.
- PropertiesFiles.PropertiesFile.Iterate: `__reversed__`, `__eq__`, the mapping constructor and type errors are not modelled.
- `header_comment` and `timestamp` of `PropertiesFile`, `insert_after` and `insert_before` of the list: comments inserted without the newline repair, with date formats.
- A whitespace element that ends in a dangling continuation is not repaired by the code either; a key added behind it still reads back, and the proofs cover that case.
- Readyz.Gate.Ready: memory effects weaker than one access at a time; the HTTP handler and `configured` are I/O and lookup.
- Healthcheck.LoginsAreFew: attempts that fail are not bounded by the code; checks of one boot do not overlap.
- Healthcheck.ExpectedFleet: `int` of a string is an input, as is the list of devices.
- UosOwner.Seeder.Seed: HTTP bodies enter as the few facts the code reads off them; logs, and exceptions out of the clients, are not modelled.
- UosOwner.Seeder.Publish: the temporary file and its mode; a key that cannot be encoded.
- ReleaseLaws.ParseIff: `int` refuses numbers of more than 4300 digits; digits are those of Unicode 15.1.
- Registry.NamesOnlyAdvance: runs do not overlap, so planning and sliding are one step, and the pins a run reads are an input.
- Publishing.PublishIff: staging, health gates and the proof step between pushing and sliding are not modelled; a run that stops there leaves the names as the pushes made them.
- ReleasePlans.ImageNames.SlideAll: a call to the registry either moves the name or leaves it; messages and output lines are not modelled.
- EnvFiles.EnvFileRoundTrip: the reader is the POSIX shell, the way of quoting `_quote` follows; systemd's own parser of environment files is not part of this model.
- EnvFiles.SeedOwnerRoundTrip: the same reader.
- EnvFiles.ReadersAgree: the same reader.
- EnvFiles.ReadEnvFile: of the shell's rules those for words, newlines, backslashes and single quotes; anything else unquoted is refused.
- `readyz_env`, UUIDs, stamps, units and log directories of the entrypoint: easy members.
- Migration.Volume.MoveAndLink: errors the code swallows, missing parent directories, a target that is itself a link, and the times of a directory that gains entries.
- FileTrees.MirrorUndoesCopyIff: trees are values, so copying and changing owners are functions and not walks over a disk; hard links and special files are not modelled, and set-ID bits and capabilities are one flag of a file.
- `xmlprops.py`, `propclass.py`, the updaters, `Supervisor`, and the wrappers over git, Docker, HTTP and systemd.
