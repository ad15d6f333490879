# Env-file arrays of the script downloader web app

The web app edits two bash configuration files, `/scripts/.videos-env` and
`/scripts/.songs-env`. Each holds a bash array written as a block: `NAME=(`, a
newline, one double-quoted entry per line, and `)`. This project models the part
of `app.py` that reads and writes those blocks, and the form handling that feeds
them:

- `read_array_from_env` finds the first block with the pattern `NAME=\(\n(.*?)\n\)`
  under `re.DOTALL`. It splits the stripped body into lines and drops blank lines and
  `#` comments. It returns each remaining line stripped of whitespace and then of
  double quotes. A missing file or a text without a block reads as the empty list.
- `write_array_to_env` builds the new block in a `for` loop, lets `re.sub` put it in
  place of every block of the array, and writes the text back. It reports `False`
  when anything on the way raises.
- The `/videos` and `/songs` pages split the textarea at newlines, strip each piece
  and drop blank ones. When the save button was pressed they write the result.

The model is written in four layers:

- `Builtins` holds Python's `str.strip`, `str.split`, `str.join` and list
  comprehensions.
- `Regex` holds the one pattern, `re.search` (the leftmost match) and `re.sub` (every
  match, scanning left to right). It also models how `re.sub` expands the backslash
  escapes of its replacement string.
- `EnvArray` holds reading, the block and the rewrite as functions over the file's
  text, and the block-building loop as a method.
- `EnvFiles.EnvFile` is a class whose method changes the file in place. `Forms`
  holds the form normalisation and the POST branch of the two pages.

`Findings` holds the two ways in which the code as written does not read back what
it wrote, each with its correction.

A file is its characters on disk, or `None` when it does not exist, plus a flag
that says whether it may be opened for writing. Every other I/O failure is left out.
Reading is in text mode, so `\r\n` and a lone `\r` both reach the code as `\n`
(`Builtins.TranslateNewlines`). Writing puts the rewritten text back as it is. The array name
is interpolated into the pattern without escaping. The model assumes the name holds
no pattern metacharacter (`LiteralName`), and `EnvArray.NamesAreLiteral` proves this
for the two names the pages use.

## Model

| member | source | states |
|---|---|---|
| Builtins.LStrip | app.py:21 | `s.lstrip(cs)`: a suffix of `s`; every character dropped is in `cs`, and the result does not start with one |
| Builtins.RStrip | app.py:21 | `s.rstrip(cs)`: a prefix of `s`; every character dropped is in `cs`, and the result does not end with one |
| Builtins.Strip | app.py:21 | `s.strip(cs)`: the result starts and ends with no character of `cs`, and a string without such a character at either end is left as it is |
| Builtins.StripEmpty | app.py:21 | `line.strip()` is empty exactly when every character of the line is whitespace |
| Builtins.StripKeepsCharacters | app.py:21 | stripping only removes characters |
| Builtins.Split | app.py:19 | `s.split('\n')`: at least one piece, no piece holds the separator, and joining the pieces gives `s` back |
| Builtins.SplitJoin | app.py:19 | splitting the join of pieces without the separator gives the pieces back |
| Builtins.TranslateNewlines | app.py:14 | text-mode `file.read()`: no carriage return is left, the text never grows, and a text without carriage returns is read as it is |
| Builtins.TranslatePlain | app.py:14 | text-mode reading keeps a stretch without carriage returns as it is, whatever follows it |
| Builtins.TranslateLineEnd | app.py:14 | text-mode reading turns `\r\n` into one `\n`, and a `\r` not followed by `\n` into one `\n`; with TranslatePlain this fixes the text read for every file |
| Builtins.Comprehension | app.py:21 | `[f(x) for x in xs if keep(x)]`, also used at app.py:59; KeptIndices and ComprehensionAt state which elements it holds and in what order |
| Builtins.KeptIndices | app.py:21 | the positions a comprehension's filter keeps are increasing, each is kept, and none is missed |
| Builtins.ComprehensionAt | app.py:21 | a comprehension has one element per kept element, and its i-th element is the image of the i-th kept element |
| Builtins.ComprehensionKeepsAll | app.py:59 | a comprehension that keeps every element is the element-wise image of its input |
| Regex.IsMatch | app.py:16 | what it means for the pattern to match from p with the group ending at e: the opening at p, a `\n)` at e, and none in between; MatchAt and MatchAtComplete state that the matcher finds exactly these |
| Regex.FindClose | app.py:16 | the non-greedy group ends at the first `\n)` at or after a position, and no `\n)` lies before it |
| Regex.MatchAt | app.py:16 | a match found at p has the opening `NAME=(\n` at p and ends at the first `\n)` after it |
| Regex.MatchAtComplete | app.py:16 | when MatchAt finds nothing at p, the pattern does not match at p with any group end |
| Regex.Search | app.py:17 | `re.search` returns the leftmost match at or after the start, and nothing when no position matches |
| Regex.Group | app.py:17-19 | `match.group(1)`: the body of the first block, or none when there is no block (SearchBlock and SearchSpliced state which body it is) |
| Regex.SearchedNameInText | app.py:16-17 | the name of an array that the text has a block of is spelt out in the text |
| Regex.SearchFinds | app.py:17 | a match at p with no match before it is what `re.search` returns |
| Regex.NoOpeningBefore | app.py:16-17 | no opening `NAME=(\n` at all occurs before the first match |
| Regex.NoCloseNoMatch | app.py:16-17 | without a `\n)` after a position, nothing matches from there on |
| Regex.SubFromCopies | app.py:41 | `re.sub` copies the text between matches unchanged |
| Regex.SubFrom | app.py:41 | the `re.sub` scan from a position: at a match, the replacement, then the scan resumes after the match's `\n)`; elsewhere, the character there (SubFromCopies, SubFromFirst and SubFromNoMatch state what it gives) |
| Regex.SubFromCharacters | app.py:41 | every character `re.sub` produces comes from the text or from the replacement |
| Regex.SubFromFirst | app.py:41 | `re.sub` keeps what precedes the first match, puts the replacement in its place, and goes on after it |
| Regex.SubFromNoMatch | app.py:41 | where nothing matches, `re.sub` leaves the text as it is |
| Regex.ExpandTemplate | app.py:41 | the replacement string is expanded before use; a string without backslashes is used as it is, and expansion never lengthens it |
| Regex.ExpandPlainPrefix | app.py:41 | a backslash-free prefix of the replacement string passes through expansion unchanged |
| Regex.EscapeTemplate | app.py:41 | the replacement string with every backslash doubled; ExpandEscaped states that expansion gives the string back |
| Regex.ExpandUnknownEscape | app.py:41 | a backslash before an ASCII letter or digit that names no escape makes `re.sub` refuse the replacement, whatever follows |
| Regex.ExpandEscaped | app.py:41 | doubling every backslash makes the expansion give the string back (used by the corrected write) |
| Regex.Substitute | app.py:40-41 | `re.sub` fails exactly when the replacement string is refused, and returns the text unchanged when nothing matches |
| EnvArray.NamesAreLiteral | app.py:60 | the names `declare -a VIDEO_SOURCES` and `declare -a PLAYLISTS` hold no pattern metacharacter |
| EnvArray.CleanEntry | app.py:21 | `line.strip().strip('"')` has no double quote at either end |
| EnvArray.BodyLines | app.py:19 | `match.group(1).strip().split('\n')`; ParseBodyEntries states how the entries come from these lines |
| EnvArray.IsEntryLine | app.py:21 | the filter `line.strip() and not line.strip().startswith('#')` (ParseBodyEntries states its use) |
| EnvArray.ParseBody | app.py:19-21 | the list comprehension over the stripped body's lines; ParseBodyEntries, ParseQuoted and ParseEmpty state what it gives |
| EnvArray.ParseBodyEntries | app.py:19-21 | each entry comes from a kept line (non-blank and not `#` after stripping), one per kept line and in line order; none holds a newline or has a double quote at either end |
| EnvArray.ReadArray | app.py:16-23 | the entries of the first block's body, or the empty list without a block; ReadSpliced and RoundTrip state what it reads back |
| EnvArray.ReadArrayFromEnv | app.py:11-25 | a missing file or a text without a block reads as the empty list, and a missing file never makes reading fail |
| EnvArray.BuildArrayBlock | app.py:33-37 | the loop builds `NAME=(\n`, then `"u"\n` for each entry in order, then `)` |
| EnvArray.ArrayBlock | app.py:34-37 | the block the loop builds; ArrayBlockLayout states its layout and BuildArrayBlock that the loop builds it |
| EnvArray.QuotedLinesJoined | app.py:35-36 | the lines the loop appends are the quoted entries joined by newlines, plus a final newline |
| EnvArray.ArrayBlockLayout | app.py:34-37 | the empty list gives `NAME=(\n)`; any other list gives its quoted entries, one per line, between `NAME=(\n` and `\n)` |
| EnvArray.NoBackslashBlock | app.py:34-37 | entries without backslashes give a block without backslashes |
| EnvArray.BlockAvoids | app.py:34-37 | a character in neither the name, the entries nor the block's punctuation is not in the block |
| EnvArray.BlockAccepted | app.py:34-41 | `re.sub` accepts the block as a replacement string when no entry holds a backslash |
| EnvArray.Rewrite | app.py:39-41 | the new text is always produced for entries without backslashes, and is the old text when there is no block |
| EnvArray.RewriteFirstBlock | app.py:39-41 | the text before the first block is kept, the block takes its place, and the rest is rewritten in the same way |
| EnvArray.RewriteAvoids | app.py:39-41 | a character in neither the text, the name, the entries nor the block's punctuation is not in the rewritten text |
| EnvArray.RewriteSingleBlock | app.py:39-41 | in a text with a single block, everything outside that block is kept unchanged |
| EnvArray.JoinedCloseFree | app.py:36 | non-empty lines without newlines that do not start with `)` hold no `\n)` once joined |
| EnvArray.SearchSpliced | app.py:16-17 | after a block whose body holds no `\n)` is put in place of the first block, `re.search` finds the new block and its group is the new body |
| EnvArray.ReadSpliced | app.py:16-21 | such a text reads as the entries of the new body |
| EnvArray.QuotedEntry | app.py:21 | an entry with no double quote at either end, quoted, is a kept line that reads as that entry; quotes inside it stay |
| EnvArray.ParseQuoted | app.py:19-21 | quoted entries without newlines and with no double quote at either end, one per line, read back as the entries, the empty list included |
| EnvArray.RoundTrip | app.py:16-41 | writing a non-empty list whose entries hold no newline or backslash and have no double quote at either end over a text with a block, then reading, gives the list back |
| EnvFiles.EnvFile.ReadText | app.py:14-15 | text-mode read: none for a missing file, otherwise the file's characters as text-mode reading gives them (TranslatePlain and TranslateLineEnd say what each line ending becomes), with no carriage return left, and the file's text itself when it has none |
| EnvFiles.EnvFile.ReadArray | app.py:11-25 | reading a missing file gives the empty list |
| EnvFiles.EnvFile.WriteArray | app.py:27-48 | the write succeeds exactly when the file exists, `re.sub` accepts the block and the file may be written; the file then holds the text as read, rewritten, and otherwise it is left as it was; whether it may be written does not change |
| EnvFiles.WriteThenRead | app.py:11-48 | a write of a non-empty list whose entries hold no line break or backslash and have no double quote at either end, to an existing, writable file with a block, succeeds, and the next read gives the list back |
| EnvFiles.WriteWithoutBlock | app.py:29-45 | a write to a file without a block still reports success and leaves the text as it was read: unchanged without carriage returns, and with its line endings turned into newlines otherwise |
| Forms.NormaliseLines | app.py:58-59 | the comprehension over the textarea's pieces; NormalisedEntries, NormalisedCharacters and NormaliseIdempotent state what it gives |
| Forms.FormUrls | app.py:58 | `request.form.get('urls', '')`, normalised: a missing field gives the empty list |
| Forms.NormalisedEntries | app.py:58-59 | the entries are the stripped non-blank pieces of the textarea, one per such piece and in order; each is non-empty, has no whitespace at either end and holds no newline |
| Forms.NormalisedCharacters | app.py:58-59 | every character of an entry comes from the textarea |
| Forms.NormaliseIdempotent | app.py:58-59 | the entries, put one per line, normalise to themselves |
| Forms.SaveThenShow | app.py:57-67 | pressing save on the page of an existing, writable file with a block, with a textarea that leaves at least one entry and whose entries hold no carriage return or backslash and have no double quote at either end, succeeds; showing the page then reads the file in text mode and lists exactly those entries |
| Forms.SavedTextReads | app.py:34-41 | writing such entries over a text as read that has a block gives a text without carriage returns that reads back as the entries |
| Forms.Save | app.py:72-79 | without the save field nothing is written; with it the normalised textarea is written and the result reports whether the write succeeded; whether the file may be written does not change |
| Findings.EmptyWriteHidesArray | app.py:34-41 | as written: after writing the empty list over a text with no `\n)` after the block, nothing matches any more, reading gives the empty list and every later write leaves the text as it is |
| Findings.EmptyWriteReopensArray | app.py:34-41 | as written: when a `\n)` follows the block, writing the empty list makes the block reach to that `\n)`, and reading gives a non-empty list whose first entry starts with `)` |
| Findings.BackslashEntrySplits | app.py:36-41 | as written: an entry with a backslash followed by `n` is written as two lines and reads back as two entries |
| Findings.EscapeEntryRefused | app.py:36-41 | as written: an entry `a\d` makes `re.sub` refuse the block, so the write fails |
| Findings.FixedArrayBlock | app.py:34-37 | the corrected block: the quoted entries joined by newlines between `NAME=(\n` and `\n)` (FixedBlockAgrees states how it differs) |
| Findings.FixedBlockAgrees | app.py:34-37 | the corrected block differs from the block as written only for the empty list, where it is `NAME=(\n\n)` |
| Findings.FixedRewrite | app.py:39-41 | the corrected write never fails and leaves a text without a block as it was |
| Findings.FixedRoundTrip | app.py:16-41 | corrected: any list whose entries hold no newline and have no double quote at either end, the empty list and backslashes included, reads back as written |
| Findings.FixedRewriteAvoids | app.py:39-41 | corrected: a character in neither the text, the name, the entries nor the block's punctuation is not in the new text |
| Findings.BackslashEntryKept | app.py:36-41 | corrected: the entry that the code as written splits reads back whole |
| EnvFiles.EnvFile.WriteArrayFixed | app.py:27-48 | corrected: the write succeeds exactly when the file exists and may be written, and the file then holds the corrected rewrite of its text as read |
| EnvFiles.FixedWriteThenRead | app.py:27-48 | corrected: writing a list whose entries hold no line break and have no double quote at either end to an existing, writable file with a block, then reading, gives the list back |

## Left out

- The process-session supervisor (listing, capturing and killing multiplexer sessions, the script runner, the change-driven output stream) is not part of this model. Its code is not among the modelled source files.
- Flask routing, templates, `flash`, `redirect`, the GET branches of the pages and `app.run` (app.py:1-6, 50-85) are web plumbing. `Forms.Save` returns the write's outcome instead of flashing it.
- File I/O is modelled as the file's characters, or `None` when it is missing, plus a writable flag. Other read errors (permissions, decoding) and partial writes are not modelled. Text-mode writing is taken to write `\n` as it is, as on POSIX systems. Bytes and text encodings are not modelled. The file paths (app.py:8-9) are not modelled: the file is a parameter. The `print` of the error message is not modelled.
- EnvArray.ReadArrayFromEnv: assumes the name holds no regex metacharacter (`LiteralName`), because general regular expressions are not modelled. Both names the pages pass satisfy it.
- EnvFiles.EnvFile.WriteArray: assumes the name holds no regex metacharacter, for the same reason.
- Regex.ExpandTemplate: the group references `\0`…`\99`, octal escapes and `\g<…>` are treated as refused. Python accepts some of them; none can arise from a block whose entries hold no backslash.
- `str.strip()` uses a fixed set of whitespace characters (`Builtins.Whitespace`), standing for Python's `str.isspace`.
- EnvArray.RoundTrip: requires a non-empty list whose entries hold no newline or backslash and have no double quote at either end. The empty list and backslashes are the two findings below. As the code is written, reading changes an entry that holds a newline, and it drops a double quote at either end of an entry. Double quotes inside an entry are kept.
- EnvFiles.WriteThenRead and Forms.SaveThenShow: also require entries without `\r`, because text-mode reading turns a `\r` written inside an entry into a line break.

## Findings

| source | as written | input that shows it | evidently intended | confidence | as-written member | corrected member |
|---|---|---|---|---|---|---|
| app.py:34-37 | the empty list is written as `NAME=(\n)`, but the pattern needs `\n` before its `)` | `write_array_to_env(p, 'A', [])` over `A=(\n"x"\n)\nB=(\n"y"\n)`: the text becomes `A=(\n)\nB=(\n"y"\n)`, which reads as `[')', 'B=(', 'y']`; without a later `\n)`, the array can no longer be read or written | an empty list is written as a block that still matches and reads as `[]` | high (proved on the model, not executed) | Findings.EmptyWriteReopensArray | Findings.FixedRoundTrip |
| app.py:36-41 | entries are pasted into `re.sub`'s replacement string, whose backslash escapes are expanded | writing `['a\\nb']` (a backslash then `n`) reads back as `['a', 'b']`; an entry such as `a\d` makes `re.sub` raise and the write return False (EscapeEntryRefused) | entries are written as they are, e.g. by doubling backslashes or passing a function as replacement | high (proved on the model, not executed) | Findings.BackslashEntrySplits | Findings.BackslashEntryKept |
