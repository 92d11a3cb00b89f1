# Note-graph link transformer, modelled and verified in Dafny

`roam2github` backs up a note graph and turns its flat-markdown export into cross-linked
markdown. This project models that transformer (`backup.js`, lines 581–690) and proves its
properties. The transformer does the following:

- It reads the unpacked export into one object, keyed by each file's path
  (`readMarkdownDirectory`).
- It finds each note's link occurrences (`extractLinks`): every `[[name]]`, then every
  attribute line `<spaces>- key::`.
- It inverts those occurrences into a backlink index (`getBackLinks`). The index maps
  `name + ".md"` to the `(source key, match)` pairs that point there.
- It rewrites each note in three steps:
  - it appends a sorted, grouped `# Backlinks` section (`addBackLinks`);
  - it turns to-do markers into checkboxes (`formatToDo`);
  - it turns link syntax into relative markdown links (`formatLink`).
- It drops the notes whose text ends up empty (`formatMarkdown`).

The model also covers these configuration rules of the same script:

- how `ROAM_GRAPH` is split into graph names;
- the `BACKUP_*` and `MD_SKIP_BLANKS` flags;
- the `onEntry` filter of the archive extraction.

Modules follow the program's structure:

| module | file | models |
|---|---|---|
| `Text` | text.dfy | `trim`, `join`, `repeat`, counting `/`, `toLowerCase`, the order used for `localeCompare` |
| `Matching` | matching.dfy | `matchAll` and `replace` with a global regular expression: a leftmost, non-overlapping search over any matcher |
| `Patterns` | patterns.dfy | the six regular expressions, each as an explicit matcher over `seq<char>`, with exact characterisations of what each matches |
| `Links` | links.dfy | `extractLinks` |
| `Index` | index.dfy | `getBackLinks`: its two loops as methods, proved against a fold over all link occurrences |
| `Render` | render.dfy | `addBackLinks`: the sort, and the loop that tracks `fileBefore`, as a method |
| `Todo` | todo.dfy | `formatToDo` |
| `Rewrite` | rewrite.dfy | `formatLink` |
| `Format` | format.dfy | `formatMarkdown`: its loop as a method |
| `Directory` | directory.dfy | `readMarkdownDirectory` over an in-memory directory tree: its loops and recursion as a method |
| `Config` | config.dfy | `graph_names`, the backup flags, `md_skip_blanks`, `onEntry` |

How JavaScript values are represented:

- A JavaScript object of notes is a `seq<Note>` in the object's key order, where an assignment
  to an existing key keeps that key's place. The backlink index is a `map`, since its order is
  never observed.
- A regular-expression match is `Match(text, name, index)`: the whole match, the first capture
  group, and the offset.
- An unset environment variable is `None`, and `fileBefore = null` is `None`.

### Behaviour of the code worth noting

- The attribute pattern *requires* the `- ` list marker (backup.js:604, 667).
- The attribute rewrite gives `<lead>**[key](<prefixkey.md>):**`: the colon sits inside the bold
  (backup.js:668).
- `extractLinks` does not trim the attribute key, and `getBackLinks` files it as
  `key + ".md"` exactly (backup.js:617).
- A note that links to itself gets a backlink to itself. The index counts every occurrence in
  every note, the note's own included (backup.js:611-623).
- Re-running `formatLink` on its own output can change it further, so the rewriting is not
  idempotent. For example, `- a:: b:: c` first becomes `- **[a](<a.md>):** b:: c`. On a second
  run the key `**[a](<a.md>):** b` matches again. The model therefore does not claim
  idempotence for `formatLink`. It does prove it for `formatToDo`.

## Model

| member | source | states |
|---|---|---|
| Links.ExtractLinks | backup.js:601-607 | definition, no contract of its own: the matches of a global search for `[[name]]`, followed by those of a global search for attribute lines; its properties are the three rows below |
| Links.ExtractLinksSplit | backup.js:601-607 | the links are the leftmost search for `[[name]]` followed by the leftmost search for attribute lines, and exactly that: any two sequences with those properties concatenate to the result, whose length is the sum of theirs |
| Links.ExtractLinksOrder | backup.js:601-607 | the wiki links come first, each group is a complete leftmost, in-order, non-overlapping search of its pattern over the note |
| Links.ExtractLinksShape | backup.js:601-607 | each link is a piece of the note at its own offset, and is either `[[name]]` or an attribute line ending in `- key::` whose name is a well-formed key |
| Matching.ScanIsLeftmost | backup.js:602-604 | the search returns matches at their own offsets, in order, not overlapping, and covering every offset at which the pattern matches (none is skipped) |
| Matching.ScanUnique | backup.js:602-604 | the leftmost search is the only sequence of matches with those three properties |
| Matching.ScanSpans | backup.js:602-604 | every match found lies inside the text, after the starting offset, in order |
| Matching.ReplaceIsSplice | backup.js:628-629 | a global `replace` substitutes exactly the matches the search finds and copies the text between them unchanged |
| Matching.ReplaceNoMatch | backup.js:628-629 | where the pattern matches nowhere, `replace` returns the text unchanged |
| Matching.ReplaceEmpty | backup.js:628-629 | with non-empty substitutes, `replace` gives the empty text exactly on the empty text |
| Matching.ReplaceUntil | backup.js:628-629 | up to the next match, `replace` copies the text |
| Matching.ReplaceAvoids | backup.js:628-629 | a `replace` whose substitute cannot form the word, and whose pattern matches wherever the word occurs, leaves no occurrence of the word |
| Patterns.MatchAt | backup.js:602-604 | every match found at an offset is a non-empty piece of the text at that offset |
| Patterns.SpanEnd | backup.js:663 | the greedy run ends at the first character outside the class, or at the end of the text |
| Patterns.KeyEndIsKey | backup.js:604 | what the greedy run of key units (a character other than `:` and newline, or `:` followed by one) covers is a well-formed key |
| Patterns.KeyEndOf | backup.js:604 | a key followed by `::` is exactly what the greedy key run covers: the run stops just before the `::` |
| Patterns.WikiLinkMatch | backup.js:602 | `[[name]]` is matched at an offset exactly when the text there is `[[`, a non-empty name free of `]` and newline, and `]]`; the capture is the name |
| Patterns.ListAttributeMatch | backup.js:604 | at a newline the match is exactly that newline followed by spaces, `- `, a key and `::`; at offset 0 it is exactly spaces, `- `, a key and `::`; elsewhere there is none |
| Patterns.LineAttributeMatch | backup.js:667 | with the multiline flag, the match is exactly spaces, `- `, a key and `::` at the start of any line (after `\n`, `\r`, U+2028, U+2029 or at offset 0) |
| Patterns.TagMatch | backup.js:663 | a tag match is exactly `#` plus the longest non-empty run of letters, digits, `-` and `_` |
| Patterns.MarkerMatch | backup.js:628-629 | a marker match is exactly the marker and every space that follows it |
| Todo.FormatToDo | backup.js:627-631 | definition, no contract of its own: a global replace of `{{[[TODO]]}}` and its trailing spaces by `[ ] `, then of `{{[[DONE]]}}` and its trailing spaces by `[x] ` |
| Todo.FormatToDoSplices | backup.js:627-631 | the first pass substitutes exactly the `TODO` markers found, and the second exactly the `DONE` markers found in the first pass's output |
| Todo.MarkerScan | backup.js:628-629 | the markers found are a leftmost search of the text, each the marker plus all spaces after it |
| Todo.MarkerOccurs | backup.js:628-629 | the marker pattern matches at an offset exactly when the marker occurs there |
| Todo.FormatToDoNoMarker | backup.js:627-631 | no `{{[[TODO]]}}` and no `{{[[DONE]]}}` is left in the output |
| Todo.FormatToDoUnchanged | backup.js:627-631 | text without markers is returned unchanged |
| Todo.FormatToDoIdempotent | backup.js:627-631 | formatting twice is formatting once |
| Todo.FormatToDoEmpty | backup.js:627-631 | the output is empty exactly when the input is |
| Index.BuildIndex | backup.js:609-625 | definition, no contract of its own: every link of every note, notes in object order and links in `extractLinks` order, pushed onto the bucket `name + ".md"` of its first capture, a bucket being created when missing |
| Index.GetBackLinks | backup.js:609-625 | the method's two loops build exactly the index obtained by pushing every link of every note, notes in order and each note's links in `extractLinks` order |
| Index.PushLinks | backup.js:616-622 | the inner loop adds exactly the current note's links, in order, to the index built so far |
| Index.PushCreates | backup.js:618-621 | creating a missing bucket and then appending is one push of the entry |
| Index.CollectIsFilter | backup.js:614-623 | a key is in the index exactly when some entry is filed under it, and its bucket is those entries in order |
| Index.FilterMentions | backup.js:611-623 | the bucket of a key has one entry per occurrence naming it, over all notes |
| Index.BuildIndexBuckets | backup.js:609-625 | a target named nowhere has no key; a named one has a bucket of exactly as many entries as there are occurrences naming it, in note order |
| Index.BuildIndexEntries | backup.js:609-625 | each bucket entry is filed under its own name plus `.md`, and occurs in the bucket as often as among all occurrences |
| Render.WithBackLinks | backup.js:633-655 | definition, no contract of its own: the note unchanged when the list is absent or empty, otherwise the note, `\n# Backlinks\n`, the section lines joined by newlines, and a final newline |
| Render.AddBackLinks | backup.js:633-655 | the method returns the note unchanged when the list is absent or empty; otherwise it returns the note followed by the section of sorted, grouped lines, and the note is a prefix of the result |
| Render.PageNameOfFile | backup.js:638 | `slice(0, -3)` takes `.md` back off a file name |
| Render.EntryLeTotal | backup.js:641 | any two entries are ordered one way or the other by the comparator |
| Render.EntryLeTransitive | backup.js:641 | the comparator's order is transitive |
| Render.SortEntries | backup.js:641 | the sort keeps the number of entries; sortedness, permutation and stability are stated by the rows below and under "Left out" |
| Render.SortEntriesSorts | backup.js:641 | the sort returns a permutation of its input, ordered by page name and then by offset |
| Render.FirstOfPage | backup.js:643-648 | in the sorted entries, a heading is emitted before an entry exactly when no earlier entry has its page |
| Render.HeadingOfEveryPage | backup.js:644-647 | every page with an entry has its heading among the lines |
| Render.EntryLine | backup.js:644-651 | each entry is shown by its trimmed match text followed by an empty line; when it starts its page, the line just before it is that page's heading |
| Render.BackLinkLinesOrder | backup.js:637-652 | the section lists every backlink once, in sorted order, with at least two lines per backlink |
| Render.LinesLength | backup.js:644-652 | each entry gives two or three lines |
| Render.WithBackLinksEmpty | backup.js:633-655 | the note with its backlinks is empty exactly when the note is empty and has no backlinks |
| Rewrite.FormatLink | backup.js:657-671 | definition, no contract of its own: the wiki-link pass, then the tag pass, then the multiline attribute pass, each a global replace with the link substitute for the given prefix |
| Rewrite.FormatLinkPasses | backup.js:657-671 | the three passes, in this order, each substitute exactly the matches of their pattern over the previous pass's output |
| Rewrite.WikiLinkRewrite | backup.js:658-661 | `[[p]]` becomes `[p](<prefix p.md>)` |
| Rewrite.TagRewrite | backup.js:662-665 | `#tok`, with `tok` not extendable, becomes `[tok](<prefix tok.md>)` |
| Rewrite.AttributeRewrite | backup.js:666-669 | a line start, spaces, `- `, a key and `::` become the same spaces and `- `, then `**[key](<prefixkey.md>):**` |
| Rewrite.LeadShape | backup.js:667-668 | the first capture group of an attribute match is its spaces and `- `, and the match is that group, the key and `::` |
| Rewrite.FormatLinkUnchanged | backup.js:657-671 | text in which no pattern matches is returned unchanged |
| Rewrite.FormatLinkEmpty | backup.js:657-671 | the output is empty exactly when the input is |
| Format.LinkPrefix | backup.js:682 | definition, no contract of its own: `"../"` repeated once per `/` in the key |
| Format.FormatNote | backup.js:677-683 | definition, no contract of its own: the note with its backlinks (an absent bucket read as `[]`), then `formatToDo`, then `formatLink` with the note's link prefix |
| Format.FormatAll | backup.js:676-688 | definition, no contract of its own: the notes in order, each with its formatted text, keeping only those whose text is not empty |
| Format.FormatMarkdown | backup.js:673-690 | the output is the notes, each formatted against the index built from the unmodified input, keeping those with non-empty text |
| Format.FormatOne | backup.js:677-683 | one note's text is its backlinks section, then the checkboxes, then the links relative to its depth |
| Format.LinkPrefixNested | backup.js:682 | a note one directory deeper gets one more `../` |
| Format.LinkPrefixDepth | backup.js:682 | the prefix is three characters per `/` in the key, and empty for a key at the export root |
| Format.FormatNoteEmpty | backup.js:679-685 | a note's output is empty exactly when the note is empty and nothing links to it |
| Format.FormatAllKeys | backup.js:685-687 | the output keys are exactly the keys whose output is not empty, each with its output; distinct input keys stay distinct |
| Format.FormatMarkdownDrops | backup.js:673-690 | a note is dropped exactly when it is empty and no occurrence in any note names it |
| Text.Trim | backup.js:650 | definition, no contract of its own: leading white space and line terminators removed, then trailing ones |
| Text.TrimSpec | backup.js:650 | `trim` returns the piece of the text between its leading and trailing runs of white space and line terminators; the result neither starts nor ends with one |
| Text.TrimIdempotent | backup.js:650 | trimming twice is trimming once |
| Text.LexLeAntisymmetric | backup.js:641 | two page names that compare both ways are equal |
| Text.Repeat | backup.js:682 | `repeat(n)` has `n` times the length of the repeated text |
| Text.CountConcat | backup.js:682 | the number of `/` in a concatenation is the sum of the numbers in its parts |
| Text.Lower | backup.js:43 | `toLowerCase` keeps the length and lowers character by character |
| Config.GraphNames | backup.js:33-35 | definition, no contract of its own: `ROAM_GRAPH` split at commas and newlines, each piece trimmed, the empty ones dropped |
| Config.Split | backup.js:33 | `split` always gives at least one piece |
| Config.SplitPieces | backup.js:33 | the pieces contain no comma or newline, and joined with commas give back the text (with newlines as commas) |
| Config.NonBlankNames | backup.js:34-35 | each name is a trimmed, non-empty piece and the trim of some piece; every non-blank piece gives a name; and the names are exactly the trims of the non-blank pieces, in piece order (an increasing enumeration of their offsets) |
| Config.NonBlankOrigin | backup.js:34-35 | the offsets of the non-blank pieces, in increasing order, enumerate the names: name i is the trim of piece i of that enumeration, and a piece is enumerated exactly when its trim is not empty |
| Config.TrimmedPiece | backup.js:34 | a trimmed non-blank piece has no separator and no white space at either end |
| Config.GraphNamesShape | backup.js:33-35 | the graph names are exactly the non-blank comma- or newline-separated pieces of `ROAM_GRAPH`, trimmed, in order: each is the trim of a piece, every non-blank piece gives one, and they follow the pieces' order |
| Config.BackupEnabled | backup.js:42-47 | definition, no contract of its own: a backup flag is on when its variable is unset or lowers to `"true"` |
| Config.SkipBlanks | backup.js:52-53 | definition, no contract of its own: blank-skipping is on unless its variable is set and lowers to `"false"` |
| Config.FlagsIgnoreCase | backup.js:42-53 | both flags read their value case-insensitively |
| Config.EmptyFlags | backup.js:42-53 | an unset variable turns on both flags; a set but empty one turns off the backup flag and leaves blank-skipping on |
| Config.KeepEntry | backup.js:441-451 | definition, no contract of its own: an archive entry is extracted unless its name ends with `/`, or blanks are skipped and it holds at most three bytes |
| Config.KeepEntrySkipping | backup.js:441-451 | skipping blanks only ever removes entries, and removes exactly the files of at most three bytes that are not directories |
| Directory.Read | backup.js:581-599 | definition, no contract of its own: the entries folded in listing order: a file assigns its text to its name, a directory assigns each of its recursively read notes under `name/`, anything else is skipped |
| Directory.Put | backup.js:589-596 | definition, no contract of its own: an object assignment: an existing key keeps its place and gets the new text, a new key is appended |
| Directory.ReadMarkdownDirectory | backup.js:581-599 | the method's loop and recursion return exactly `Read` of the listing, which for distinct single-segment names is the in-order concatenation stated by `ReadListed` |
| Directory.PutAbsent | backup.js:589-596 | assigning a new key appends it at the end of the object |
| Directory.PutPresent | backup.js:589-596 | assigning an existing key keeps every key's place and changes only that key's text |
| Directory.PutStores | backup.js:589-596 | after an assignment the object holds the note, and its keys stay distinct |
| Directory.ReadUnique | backup.js:581-599 | the object read from any listing has distinct keys |
| Directory.ReadFiles | backup.js:593-596 | a listing of files with distinct names gives one note per file, in listing order |
| Directory.PutAllFresh | backup.js:587-592 | a subdirectory's notes, read into an empty object, are its notes in order under `dir/` |
| Directory.ReadDir | backup.js:587-592 | a listing holding one directory gives that directory's notes, each under `name/` |
| Directory.ReadListed | backup.js:581-599 | for a listing of distinct names without `/`, mixing files and directories, the object read is, in listing order, one note per file under its name and, per directory, its recursively read notes under `name/` |
| Directory.PutAllAppend | backup.js:587-592 | when no key of the object is one of the subdirectory's keys under `dir/`, the subdirectory's notes are appended, in order, under `dir/` |
| Directory.ListedKeys | backup.js:585-596 | every key read comes from one entry: it is that entry's name or lies below `name/` |
| Directory.KeyOfUnique | backup.js:590 | a key belongs to at most one name that has no `/` |

## Left out

- Browser automation is left out: login, opening the graph, the export dialog and waiting for the download (backup.js:112-418). It is a network and UI client with timeouts.
- Zip extraction and moving and writing files are left out (backup.js:420-540). They are file I/O; only the `onEntry` decision is modelled.
- The parts of `onEntry` after the decision are left out (backup.js:453-459). `sanitizeFileName` wraps an outside library. The collision check only probes the file system.
- JSON and EDN formatting, `checkFormattedEDN`, `getRepoPath`, `log` and `error` are left out. They rely on outside libraries, the file system, console output or `process.exit`.
- The reads in `readMarkdownDirectory` are not modelled:
  - The file system is an in-memory tree of `Dirent`s, listed in the order `readdirSync` returns them.
  - A file's content is given directly as text, so UTF-8 decoding is not modelled.
  - `path.join` only builds the path to read, so it is left out too.
  - An entry that is neither a file nor a directory is `Other` and is ignored.
- JavaScript object key order is simplified. Integer-like keys ("1", "42") would move to the front of an object; the model keeps every key in insertion order.
- Inherited property names are not modelled. With a key such as `__proto__`, or a lookup such as `backLinks["constructor"]` (which finds `Object.prototype`'s member instead of falling back to `[]`), JavaScript objects behave differently.
- Text.LexLe: `localeCompare` is modelled as lexicographic order on character codes. Locale-sensitive collation is not modelled.
- Render.SortEntries: `Array.prototype.sort` is modelled as a stable insertion sort. Stability is what the language requires; the engine's own algorithm is not modelled.
- Text.Lower: `toLowerCase` lowers only the ASCII letters A–Z. Other letters keep their case. This is enough for comparing with "true" and "false".
- Strings are sequences of Dafny characters, not UTF-16 code units. For text containing characters outside the Basic Multilingual Plane, match offsets (`match.index`) and lengths differ from JavaScript's.
- The regular-expression engine in general is not modelled. Each of the six regular expressions of the transformer is written out as its own matcher, with exact lemmas about what it matches.
- The configuration values `MD_REPLACEMENT` and `TIMEOUT` (backup.js:50, 55) are left out. They only concern the file writes and the browser, which are not modelled.
