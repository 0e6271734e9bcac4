# iMessage extractor: message decoding and argument dispatch

This project models the core of `extract_messages.py`, a command-line tool
that reads a macOS Messages database and prints the text of one
conversation. Each message row carries a plain `text` column and an archived
`attributedBody` blob. The model covers the decision of what to print for a
row:

- **Tier 1** (`probe.dfy`, module `Probe`) searches the object the
  unarchiver returns for the message string, in a fixed priority order.
- **Tier 2** (`scanner.dfy`, module `Scanner`) runs only when unarchiving
  raised. It scans the raw bytes for runs of printable text, drops runs that
  look like archive metadata, and keeps the greatest `(length, text)`
  candidate. It is an imperative method with two nested loops. It is proved
  equal to a functional specification, and that specification is proved to
  pick the longest kept text (the length of the stripped text, not of the
  byte run), breaking ties by the greater text.
- **Fallback and display** (`extract.dfy`, module `Extract`) chooses between
  the decoded text, the plain `text` column, the `[non-text content]`
  placeholder (debug mode only) and printing nothing. U+FFFC, the object
  replacement character, gets special treatment here. The row loop is a method
  that returns the header count and the printed lines.
- **Argument dispatch** (`cli.dfy`, module `Cli`) maps `argv` to the action
  `main` takes.

`pystr.dfy` (module `PyStr`) defines the Python string operations the code
relies on: `strip()` with Python's whitespace set, substring `in`,
`replace(' ', '')`, `isdigit()` on ASCII, and string `<=`.

The unarchiver (`bpylist2`) is a parameter of type
`seq<byte> -> Unarchived`. For a given body it either returns an object from a
closed set of shapes (a plain string, an object with a `string` attribute, an
attribute dictionary, anything else) or raises.

Behaviours of the code worth knowing, which the model keeps:

- Scan candidates of equal length: the code keeps the lexicographically
  greatest text, because it sorts `(len, text)` tuples in reverse, so the
  first occurrence does not win. See `Scanner.TieBrokenByGreaterText`.
- Blank decoded text: a whitespace-only decoded text is truthy, so it is
  printed and blocks the fallback to the `text` column; only the fallback
  itself strips. See `Extract.BlankDecodedIsPrinted`.
- Attribute scan in Tier 1: the code does not take the first `str` value of
  the dictionary but the first one whose `strip()` is non-empty.
- The byte scan runs only when unarchiving raised, not when Tier 1 found no
  text. See `Extract.UnscannedWhenArchived`.

## Model

| member | source | states |
|---|---|---|
| PyStr.IsSpace | extract_messages.py:118 | the characters Python's `str.isspace()` accepts and a bare `strip()` removes: tab through carriage return, U+001C to U+001F, space, U+0085, U+00A0, U+1680, U+2000 to U+200A, U+2028, U+2029, U+202F, U+205F and U+3000 |
| PyStr.Strip | extract_messages.py:118 | `strip()` is `rstrip()` then `lstrip()` and never lengthens its input |
| PyStr.TrimStart | extract_messages.py:118 | `lstrip()` drops a blank prefix, and what it keeps is empty or starts with a non-space |
| PyStr.TrimStartIsSuffix | extract_messages.py:118 | what `lstrip()` keeps is a suffix of its input |
| PyStr.TrimEnd | extract_messages.py:118 | `rstrip()` drops a blank suffix and leaves a prefix that is empty or ends with a non-space |
| PyStr.StripIsBlankTrimmedSlice | extract_messages.py:118 | `strip()` returns a slice of its input with only whitespace on either side, and the slice neither starts nor ends with whitespace |
| PyStr.StripUnchanged | extract_messages.py:118 | text that neither starts nor ends with whitespace is unchanged by `strip()` |
| PyStr.StripEmptyIffBlank | extract_messages.py:147 | `text.strip()` is empty exactly when the text is all whitespace |
| PyStr.Contains | extract_messages.py:120 | `needle in hay` for strings: the needle is a prefix of some suffix of the text |
| PyStr.ContainsIffOccurs | extract_messages.py:120 | the keyword test `keyword in potential` holds exactly when the keyword occurs at some position of the text |
| PyStr.RemoveSpaces | extract_messages.py:122 | `replace(' ', '')` keeps every character except spaces and never lengthens the text |
| PyStr.IsAsciiDigits | extract_messages.py:122 | `isdigit()` on the ASCII text the scan decodes: non-empty and every character in `0`..`9` |
| PyStr.LexLe | extract_messages.py:132 | Python's `<=` on strings: lexicographic by code point, a proper prefix ordered first |
| PyStr.LexLeTotal | extract_messages.py:132 | Python string order compares any two strings |
| PyStr.LexLeAntisymmetric | extract_messages.py:132 | two strings that are each `<=` the other are equal |
| PyStr.LexLeTransitive | extract_messages.py:132 | Python string order is transitive |
| Scanner.IsMetadata | extract_messages.py:99-120 | a text is metadata when it contains any of the 14 keywords of `skip_keywords` |
| Scanner.RunEnd | extract_messages.py:112-114 | the inner loop stops at the first byte that is not printable ASCII, LF or CR, or at the end; it moves forward from a printable start |
| Scanner.RunEndUnique | extract_messages.py:112-114 | any index that closes a run of run bytes from `i` is where the inner loop stops |
| Scanner.Runs | extract_messages.py:107-128 | every run the outer loop visits is a maximal run that starts with a printable byte at an index below `len - 4` |
| Scanner.RunsOrdered | extract_messages.py:107-128 | visited runs are disjoint and in increasing order, each ending before the next starts |
| Scanner.ScanCoversPrintable | extract_messages.py:107-128 | every printable byte below `len - 4` lies inside some visited run, so the scan skips none |
| Scanner.RunIsAscii | extract_messages.py:113-118 | every byte of a run is ASCII, so the strict UTF-8 decode cannot fail |
| Scanner.DecodeAscii | extract_messages.py:118 | decoding ASCII bytes gives one character per byte with the same code |
| Scanner.ScanStep | extract_messages.py:110-128 | one outer step either consumes a whole run and adds that run's candidate, or skips one non-printable byte |
| Scanner.CandidateOf | extract_messages.py:116-123 | a run's candidate, when there is one, pairs its text with the text's length, which is over 5 and at most the run's byte length (the keyword filter is stated by `Scanner.CandidateOfIffKept`) |
| Scanner.CandidatesBounded | extract_messages.py:106-128 | every entry of the candidate list pairs a keyword-free text with its length, which is over 5 and at most the body's length |
| Scanner.CandidateOfIffKept | extract_messages.py:116-123 | a run contributes candidate `c` exactly when it is longer than 5 bytes, `c` is its stripped text, longer than 5 characters, free of every keyword and not all digits once spaces are removed |
| Scanner.CandidatesMembership | extract_messages.py:106-128 | the candidate list holds exactly the candidates contributed by the visited runs |
| Scanner.ScanCandidatesAreKeptRuns | extract_messages.py:99-128 | a candidate is in the list exactly when some visited run is kept with it |
| Scanner.CandidateLeTotal | extract_messages.py:132 | the `(len, text)` tuple order compares any two candidates |
| Scanner.CandidateLeTransitive | extract_messages.py:132 | the tuple order is transitive |
| Scanner.Best | extract_messages.py:131-133 | the first element after the reverse sort is a candidate at least as great as every candidate, and exists exactly when the list is non-empty |
| Scanner.BestUnique | extract_messages.py:132-133 | any candidate that is greatest in the list is the one chosen, so the choice does not depend on how ties sort |
| Scanner.HeuristicText | extract_messages.py:94-135 | the Tier 2 text, when there is one, is longer than 5 characters, no longer than the body and free of every keyword |
| Scanner.HeuristicTextNoneIffNoneKept | extract_messages.py:106-133 | Tier 2 yields nothing exactly when no visited run is kept |
| Scanner.HeuristicTextIsGreatestKept | extract_messages.py:106-133 | the Tier 2 text comes from a kept run, is at least as long as every kept text, and is the lexicographically greatest of the kept texts of its length |
| Scanner.TieBrokenByGreaterText | extract_messages.py:131-133 | for the body `aaaaaa`, NUL, `bbbbbb`, the later text `bbbbbb` wins, not the first occurrence |
| Scanner.NoKeywordInRepeat | extract_messages.py:99-103 | a text made of one repeated character holds none of the keywords |
| Scanner.KeywordEndsDiffer | extract_messages.py:99-103 | every keyword is non-empty and starts and ends with different characters |
| Scanner.NoDistinctEndsInRepeat | extract_messages.py:120 | a text made of one repeated character contains no word whose first and last characters differ |
| Scanner.ScanRun | extract_messages.py:110-126 | from a printable byte, the inner loop stops exactly where the run ends, and the candidate test yields exactly that run's candidate |
| Scanner.ScanBody | extract_messages.py:94-135 | the outer loop, the appends and the take-first of the sorted list produce exactly the Tier 2 text of the body |
| Probe.Lookup | extract_messages.py:81 | a value found for a key is an entry of the attribute dictionary |
| Probe.LookupFirst | extract_messages.py:81 | the lookup finds nothing exactly when no entry has the key, and otherwise finds that key's entry |
| Probe.FirstKeyed | extract_messages.py:80-83 | the keyed probe returns `str()` of the value of a probed key that is present and truthy |
| Probe.FirstKeyedFirst | extract_messages.py:80-83 | the keyed probe finds nothing exactly when no probed key is present and truthy; otherwise it takes the first such key in the order `NSString`, `string`, `text` |
| Probe.FirstNonBlankStr | extract_messages.py:85-89 | the value scan returns an unstripped `str` value of the dictionary whose strip is non-empty |
| Probe.FirstNonBlankStrFirst | extract_messages.py:85-89 | the value scan finds nothing exactly when no value is a non-blank `str`; otherwise it takes the first one in dictionary order |
| Probe.StringAttribute | extract_messages.py:76 | `hasattr(decoded, 'string')` holds only for an attributed string or an attribute dictionary, and for a dictionary exactly when one of its entries has the key `string` |
| Probe.ProbeText | extract_messages.py:76-91 | Tier 1 always yields text for a plain string or an object with a `string` attribute, and never for an object with neither a `string` attribute nor a `__dict__` |
| Probe.ProbePriority | extract_messages.py:76-91 | a `string` attribute wins even when empty; then a non-empty keyed value; then the first non-blank `str` value; failing that, a keyed value whose `str()` is empty, or nothing when no probed key is truthy; a plain string is used as is; any other object yields nothing |
| Probe.ProbeNoneIff | extract_messages.py:78-89 | Tier 1 yields nothing for an attribute dictionary exactly when it has no `string` entry, no probed key with a truthy value and no non-blank `str` value |
| Probe.ProbeTextFromNode | extract_messages.py:76-91 | Tier 1 text is the plain string itself, the `string` attribute's `str()`, or `str()` of an entry of the dictionary; other objects yield nothing |
| Extract.DecodedText | extract_messages.py:53-94 | no body or an empty body decodes to nothing; a text found by the scan is longer than 5 characters and no longer than the body; an object with neither a `string` attribute nor a `__dict__` yields no text |
| Extract.FinalText | extract_messages.py:146-148 | the final text is the decoded text or the `text` column, and it is truthy exactly when the decoded text is truthy or the `text` column is neither blank nor U+FFFC |
| Extract.Sender | extract_messages.py:50 | the sender is `Me` exactly when `is_from_me` is present and non-zero (Python truthiness), and `Them` otherwise |
| Extract.RowLines | extract_messages.py:150-155 | a row prints at most one line, and exactly one in debug mode |
| Extract.Transcript | extract_messages.py:48-155 | every printed line is a line printed for one of the rows |
| Extract.DecodeBody | extract_messages.py:53-135 | the try/except decodes the body as specified: nothing for a missing or empty body, Tier 1 on an unarchived object, Tier 2 when unarchiving raised |
| Extract.ExtractMessages | extract_messages.py:44-155 | the header count is the number of fetched rows and the printed lines are those of every row in order; no row aborts the loop |
| Extract.TranscriptLength | extract_messages.py:46-155 | each row prints at most one line, and exactly one in debug mode |
| Extract.TranscriptConcat | extract_messages.py:48-155 | rows are handled independently: the lines for two batches of rows are those of the first batch, then those of the second |
| Extract.FallbackRule | extract_messages.py:146-148 | truthy decoded text is kept; it is replaced only by a `text` column that is neither blank nor U+FFFC, taken unstripped; the final text is truthy exactly when one of the two applies |
| Extract.MeaningfulIsTruthy | extract_messages.py:147 | a `text` value that passes the fallback test is non-empty |
| Extract.RowShowsMessageIff | extract_messages.py:50-155 | for each combination of decoded text and `text` column, the row prints the decoded text, the `text` column, the placeholder in debug mode, or nothing |
| Extract.PlaceholderBlocksFallback | extract_messages.py:146-155 | a decoded text of U+FFFC alone is truthy and blocks the fallback, so the row prints no message |
| Extract.AttachmentRowHidden | extract_messages.py:146-155 | a row without a body whose `text` is U+FFFC prints nothing, or the placeholder in debug mode |
| Extract.PlainTextShownVerbatim | extract_messages.py:146-152 | a row without a body prints a meaningful `text` column exactly as stored |
| Extract.BlankDecodedIsPrinted | extract_messages.py:146-152 | a whitespace-only decoded text is printed as it is |
| Extract.ScanOnlyAfterRaise | extract_messages.py:56-94 | for a non-empty body the decoded text is Tier 1's result when unarchiving returned an object and Tier 2's when it raised |
| Extract.UnscannedWhenArchived | extract_messages.py:56-94 | a body whose bytes give the scan a text still decodes to nothing when it unarchives to an object without text |
| Extract.ShownTextProvenance | extract_messages.py:53-148 | the final text is the `text` column, Tier 1's text of the unarchived object, or, when unarchiving raised, the text of one of the runs the scan visits and keeps |
| Cli.Dispatch | extract_messages.py:194-216 | usage with fewer than 2 arguments; `list`; `extract` without identifier; `extract` with identifier `argv[2]` and debug exactly when `--debug` is anywhere in argv; any other command is unknown |
| Cli.ExitStatus | extract_messages.py:194-216 | the status is 0 for the `list` and `extract` actions and 1 for the usage, missing-identifier and unknown-command exits |
| Cli.ExitsWithErrorIff | extract_messages.py:194-216 | before the chosen action runs, `main` exits with status 1 exactly when there is no command, the command is unknown, or `extract` has no identifier |
| Cli.DbPathPosition | extract_messages.py:203-211 | the database path is `argv[2]` for `list` and `argv[3]` for `extract` when present, otherwise the default |
| Cli.DebugFlagTakenAsPath | extract_messages.py:211-212 | `extract <id> --debug` uses `--debug` as the database path and also turns debug on |
| Cli.DebugFlagTakenAsIdentifier | extract_messages.py:210-212 | `extract --debug` uses `--debug` as the chat identifier, the default path, and turns debug on |
| Cli.DebugAfterPath | extract_messages.py:210-212 | `extract <id> <db> --debug` yields that identifier, that path and debug on |

## Left out

- Database access is not modelled: the connection and its error exit, the chat query, `fetchall` and `conn.close()` (extract_messages.py:20-44, 157). The rows are an input, already filtered to the chat and ordered by date.
- `list_chats` (extract_messages.py:160-186) is not modelled. It is a grouped SQL query and a print loop; the `list` action is modelled only as far as dispatch.
- The date column is an input string. The conversion from Apple epoch nanoseconds happens inside SQL in the host's local time zone (extract_messages.py:34).
- `bpylist2.archiver.unarchive` cannot be seen, so it is a deterministic function parameter. An exception anywhere in Tier 1, including in `str()` of a value or in the debug dump, is the `Raised` outcome.
- `str()` of an arbitrary Python object is abstracted: the value carries its truthiness and its rendered text.
- Debug diagnostics (extract_messages.py:61-72, 137-144) are not modelled. They print `repr`, `type` and raw-byte dumps.
- Extract.ExtractMessages: returns the header count as a number. It does not build the text `Found N messages in chat: <id>`.
- Cli.ExitStatus: covers only the exits `main` takes itself. The actions also exit with status 1 when the database cannot be opened (extract_messages.py:22-25, 164-167), which is not modelled.
- The usage, error and unknown-command messages and `sys.exit` are not modelled. They are represented by the `Command` outcome and `Cli.ExitStatus`. The default path from `Path.home()` is a parameter (extract_messages.py:192).
- Scanner.ScanBody: takes the greatest candidate instead of sorting the list in place. Only the first element of the sorted list is read, and `Scanner.BestUnique` shows that the greatest element is that first element.
- The `is_from_me` column is an optional integer and the `text` column an optional string. SQLite values of other types are out of scope.
