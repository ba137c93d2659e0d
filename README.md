# Tech-support responder, modelled in Dafny

This project models `Responder`, the one class of a small tech-support chat
program. A responder is built from two text files:

- the keyword file (`systemresponses.txt`): entries separated by blank lines,
  each a comma-separated keys line followed by body lines;
- the default file (`default.txt`): paragraphs separated by blank lines.

From these it builds a keyword table and a list of default replies. It answers
a set of input words with the reply of some word that is a keyword, or else
with the default reply at a randomly drawn index.

The model is imperative where the source is. Class `TechSupport.Responder`
holds the table as a `map<string, string>` field and the default list as a
`seq<string>` field. Its methods follow the Java methods loop for loop:

- `FillResponseMap` keeps the nullable `keys` as an `Option` and the
  `StringBuilder` as a string.
- `FillDefaultResponses` keeps its builder the same way.
- `GenerateResponse` iterates the word set in an unspecified order.

Each method is proved against a declarative specification:

- `Runs.Paragraphs` gives the maximal runs of non-blank lines, read from the
  front.
- `Tables.BuildTable` commits the keyword file's runs, one entry each.
- `Tables.Texts` and `Tables.WithFallback` give the default file's paragraphs
  and the fallback.
- `JavaText` models `String.trim()` (strip characters `<= ' '`) and
  `String.split(",")` (cut at every comma, keep interior and leading empty
  pieces, drop trailing ones, `[s]` when there is no comma).

A loop's state after `i` lines is tied to the specification by a ghost index
`start`: where the run still open begins. Everything before it has been closed
by a blank line. The step lemmas in `Scanning` show how one line, or the end of
input, moves that state.

How a file was read is an input, `Runs.Source`:

- `Missing`: the file could not be opened; parsing sees no lines.
- `Complete(lines)`: every line was read.
- `Broken(lines)`: these lines were read and then reading failed. The
  exception leaves the loop, so the commit or flush after the loop
  (`Responder.java:101-107`, `148-150`) is skipped. The empty-list fallback
  (`Responder.java:160-162`) still runs, since it follows the `try`.

## Model

| member | source | states |
|---|---|---|
| `TechSupport.Responder.constructor` | Responder.java:34-41 | The table equals the one the keyword file specifies and the default list the one the default file specifies, built in that order, and the result is `Valid`: the list is non-empty and no reply is empty. |
| `TechSupport.Responder.GenerateResponse` | Responder.java:49-63 | If some input word is a keyword, the answer is that word's mapped reply for some such word (no iteration order is assumed). If no word is a keyword, the answer is the default at the drawn index. The answer is never empty. |
| `TechSupport.Responder.PickDefaultResponse` | Responder.java:169-175 | Accepts exactly the indices in `[0, size)`, a range that `Valid` keeps non-empty, and returns the default at that index, which is a non-empty member of the list. |
| `TechSupport.Responder.PutKeys` | Responder.java:83-85 | After the `put` loop, every trimmed key maps to the response, every other entry of the table is as before, and the default list is unchanged. |
| `TechSupport.Responder.PutEntry` | Responder.java:81-86 | The commit guard: the table changes only when keys are set and the builder is non-empty, and then it is overwritten with the trimmed builder at every trimmed key. |
| `TechSupport.Responder.FillResponseMap` | Responder.java:69-116 | The table afterwards is the old table with every committed entry of the file applied in file order. All entries are committed for a complete read, only those closed by a blank line for a broken read, and none for a missing file. The default list is untouched. |
| `TechSupport.Responder.FillDefaultResponses` | Responder.java:122-163 | The list afterwards is the old list followed by the text of every committed paragraph in file order, or the fallback alone when that is empty. The table is untouched. |
| `Tables.CommitSpec` | Responder.java:81-85 | Committing an entry adds exactly its written keywords to the table's key set. Each trimmed key of its keys line maps to the entry's response text. Every other keyword keeps its value. An entry with no body line changes nothing. |
| `Tables.ResponseTextOfBody` | Responder.java:82-97 | For body lines that are not blank, the response text is the trimmed lines joined with single spaces (the final `trim()` changes nothing) and is never empty. |
| `Tables.LastWriteWins` | Responder.java:83-85 | A keyword maps to the text of the last entry that writes it, whatever earlier entries or the initial table held. |
| `Tables.Untouched` | Responder.java:104-106 | A keyword that no entry writes is in the final table exactly when it was in the initial one, with the same value. |
| `Tables.BuildTableKeys` | Responder.java:79-107 | A keyword is in the built table if and only if it was in the initial table or some entry writes it. |
| `Tables.BuildTableValuesNonEmpty` | Responder.java:81-82 | Committing runs of non-blank lines never stores an empty response. |
| `Tables.FinalEntryCommitted` | Responder.java:101-107 | A final entry with no blank line after it gives the same table as if a blank line followed. A read that fails right after that blank line loses nothing. |
| `Tables.MissingTableIsEmpty` | Responder.java:110-115 | A keyword file that cannot be opened leaves the table empty. |
| `Tables.ParagraphTextNonEmpty` | Responder.java:136 | A paragraph of non-blank lines, joined untrimmed and then trimmed, is never empty. |
| `Tables.DefaultListSpec` | Responder.java:131-162 | The default list holds one non-empty text per committed paragraph, in file order, each being the paragraph's lines joined with single spaces and trimmed. With no paragraph it is exactly the fallback reply. |
| `Tables.MissingDefaultsFallBack` | Responder.java:152-162 | A default file that cannot be opened leaves exactly `["Could you elaborate on that?"]`. |
| `Tables.FinalParagraphKept` | Responder.java:148-150 | A last paragraph with no blank line after it is kept exactly as if one followed. |
| `Scanning.EntryBlank` | Responder.java:80-88 | A blank line commits the open entry exactly as the specification commits that run. It then resets the keys to unset and the builder to empty, whether or not anything was committed. |
| `Scanning.EntryKeysLine` | Responder.java:89-91 | The first non-blank line of an entry becomes its keys, split at commas, and leaves the builder as it was. |
| `Scanning.EntryBodyLine` | Responder.java:92-98 | A later non-blank line, trimmed, is appended after a space unless the builder is empty. The builder stays the run's body lines, trimmed and joined with single spaces. |
| `Scanning.EntryEnd` | Responder.java:101-107 | At the end of input, committing the loop's state gives the specification's table of all runs, and the closed prefix is the part before the open run. |
| `Scanning.CommitBuiltIsCommit` | Responder.java:81-85 | The loop's guarded commit of `keys` and the builder equals committing the open run as an entry. |
| `Scanning.ParagraphBlank` | Responder.java:132-138 | A blank line appends the open paragraph's text, if there is one, and empties the builder. |
| `Scanning.ParagraphLine` | Responder.java:140-145 | A non-blank line is appended untrimmed, after a space unless the builder is empty, so the builder stays the open run joined with single spaces. |
| `Scanning.ParagraphEnd` | Responder.java:148-150 | At the end of input, flushing the builder gives the texts of all runs. |
| `Runs.ParagraphsAreRuns` | Responder.java:131-147 | Every paragraph is non-empty and made of non-blank lines. |
| `Runs.ParagraphsCoverNonBlank` | Responder.java:131-147 | The paragraphs, concatenated, are exactly the non-blank lines in file order: none is lost, none is added. |
| `Runs.ParagraphsGlue` | Responder.java:140-145 | Paragraphs are maximal: two non-blank lines with no blank line between them land in one paragraph. |
| `Runs.ParagraphsIgnoreTrailingBlank` | Responder.java:101-107 | A trailing blank line changes no grouping and closes every run. |
| `Runs.BrokenLosesOnlyOpenTail` | Responder.java:112-115 | A read failure loses at most the last run, and only when no blank line closed it. |
| `JavaText.TrimSpec` | Responder.java:80 | `trim()` keeps a contiguous middle part, every character removed is `<= ' '`, the kept ends are not, and the result is empty exactly when every character is `<= ' '`. |
| `JavaText.BlankIffTrimEmpty` | Responder.java:132 | A line counts as blank exactly when its trim is empty. |
| `JavaText.TrimIdempotent` | Responder.java:82 | Trimming twice is trimming once. |
| `JavaText.PiecesJoin` | Responder.java:91 | Cutting at commas and joining with commas gives the line back. |
| `JavaText.PiecesHaveNoComma` | Responder.java:91 | No piece holds a comma. |
| `JavaText.SplitSpec` | Responder.java:91 | `split(",")` is `[s]` without a comma. Otherwise it is a prefix of the pieces that drops only empty pieces and ends with a non-empty one, or is empty. |
| `JavaText.SplitDropsTrailing` | Responder.java:91 | `"a,b,".split(",")` is `["a", "b"]`. |
| `JavaText.SplitOfLoneComma` | Responder.java:91 | `",".split(",")` is empty, so that keys line maps no keyword. |
| `JavaText.SplitKeepsInterior` | Responder.java:91 | `"a,,b".split(",")` keeps the interior empty piece, which becomes the keyword `""`. |
| `JavaText.JoinSpaceSnoc` | Responder.java:94-97 | The builder step: appending a piece to a space-joined string adds a space first exactly when the string is non-empty, and the string is empty exactly when there are no pieces. |
| `JavaText.JoinSpaceOfTrimmed` | Responder.java:82 | Joining non-empty, already trimmed pieces with spaces gives a non-empty string that `trim()` leaves unchanged. |

## Left out

- File access: `Charset`, `Paths`, `Files.newBufferedReader` and `readLine` are replaced by the `Source` value of the lines read. US-ASCII decoding is not modelled; a malformed byte is one way to get a `Broken` read.
- The error messages printed to `System.err` by the `catch` blocks are not modelled. Both handlers are otherwise modelled, by `Missing` and `Broken`.
- `FileNotFoundException` and the `NoSuchFileException` that `Files.newBufferedReader` actually throws are not told apart. Both end the load with nothing committed from the file, so they are modelled as one case.
- Closing the reader (try-with-resources) is not modelled; it has no effect on the table or the list.
- The file names are fixed constants in the source. The constructor takes the two files' contents as parameters instead.
- `java.util.Random` and its construction are not modelled. The drawn index is a parameter of `GenerateResponse`, limited to `[0, size)`; uniformity is not modelled.
- `TechSupport.Responder.GenerateResponse`: the `HashSet` iteration order is left unspecified, so the contract is existential. That a repeated call on the same set returns the same mapped reply is not modelled.
- Java `String`s are UTF-16 sequences; here they are `seq<char>`, with no code-point or case handling (the source uses none).
