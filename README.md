# remove-duplicates and lib-math-utils, modelled in Dafny

This project models two pieces of a small Rust workspace.

- The `upload_file` handler of the remove-duplicates web application
  (`remove-duplicates/src/main.rs`). It takes the first field of a multipart
  upload and refuses it unless the file name ends in `.txt`. It reads the
  field's chunks into a buffer capped at `MAX_FILE_SIZE` (2 MiB) and decodes
  the buffer as text. It then keeps the trimmed lines in order of first
  occurrence, dropping empty lines and repeats. Its answer is the kept lines
  joined with `'\n'`, and their count.
- The `mcd` (greatest common divisor) and `mcm` (least common multiple)
  functions of `lib-math-utils/src/lib.rs`.

Modules:

- `Ingest` (`ingest.dfy`): the chunk loop, as the method `IngestChunks`. It is
  proved against the predicates `Fits`, `FailsReading` and `Overflows` over
  the chunk sequence.
- `Text` (`text.dfy`): `str::trim`, `str::lines` and `join("\n")` as
  functions, with their round-trip lemmas.
- `Dedup` (`dedup.dfy`): the deduplication loop, as the method `DedupLines`.
  It keeps a `seen` set, like the source. It is proved equal to the
  specification function `Kept`, and `Kept`'s properties are proved as lemmas.
- `Upload` (`upload.dfy`): the handler `UploadFile`, which composes the gate,
  the chunk loop, decoding, dedup and join, with lemmas about the page it
  produces.
- `MathUtils` (`math_utils.dfy`): `Mcd` and `Mcm` as pure functions, with the
  gcd/lcm properties and the overflow finding.

The model follows the code on these points:

- the handler checks the `.txt` suffix itself, and a missing file name counts
  as `""`, so it is refused;
- an empty multipart stream, and an error in place of the first part, both
  answer "No file received";
- only the first part is ever looked at, because the outer loop returns in
  its first iteration;
- the empty trimmed line is inserted into `seen` before the emptiness test.
  This does not change the result.

## Model

| member | source | states |
|---|---|---|
| Ingest.IngestChunks | remove-duplicates/src/main.rs:26-37 | Success holds iff every chunk reads and the total is at most 2 MiB; then the buffer is the in-order concatenation of all chunks. "Error reading file" holds iff a read error comes before any overflow. "File too large" holds iff a chunk that would pass the cap comes first. On failure, reading stops at exactly the offending chunk. |
| Ingest.Outcomes | remove-duplicates/src/main.rs:28-36 | Every chunk stream ends in exactly one of the three outcomes: fits, read error, too large. |
| Ingest.FitsStep | remove-duplicates/src/main.rs:33-36 | One more chunk is accepted iff it is data and `content.len() + data.len() <= MAX_FILE_SIZE`; the buffer then grows by exactly that chunk. |
| Ingest.FitsPrefix | remove-duplicates/src/main.rs:28-37 | If a prefix of the stream is accepted, every shorter prefix is accepted, and its buffer is a prefix of the longer one's: the buffer only grows. |
| Ingest.StopPointUnique | remove-duplicates/src/main.rs:28-36 | There is at most one chunk at which the loop can stop. |
| Ingest.StopPointExists | remove-duplicates/src/main.rs:28-36 | A stream that is not accepted as a whole has a chunk at which the loop stops. |
| Text.IsWhitespace | remove-duplicates/src/main.rs:44 | The whitespace that `trim` removes is the Unicode White_Space set of `char::is_whitespace`. Among ASCII characters it is exactly space and tab through carriage return, so `'\r'` is whitespace. |
| Text.LeadingSpace | remove-duplicates/src/main.rs:44 | Counts the maximal whitespace prefix: everything before it is whitespace and the next character is not. |
| Text.TrailingSpace | remove-duplicates/src/main.rs:44 | Counts the maximal whitespace suffix: everything after it is whitespace and the character before it is not. |
| Text.Trim | remove-duplicates/src/main.rs:44 | The trimmed line starts and ends with a non-whitespace character, or is empty. |
| Text.TrimSlice | remove-duplicates/src/main.rs:44 | The trimmed line is a contiguous slice of the line, and only whitespace lies outside it. |
| Text.TrimChars | remove-duplicates/src/main.rs:44 | Trimming introduces no character that was not in the line. |
| Text.TrimTrimmed | remove-duplicates/src/main.rs:44 | Trimming an already trimmed string changes nothing, so trim is idempotent. |
| Text.TrimAllWhitespace | remove-duplicates/src/main.rs:44 | A line made only of whitespace trims to the empty string. |
| Text.Split | remove-duplicates/src/main.rs:43 | Cutting at `'\n'` yields at least one piece; no piece contains `'\n'`, and every character of a piece comes from the input. |
| Text.Lines | remove-duplicates/src/main.rs:43 | `input.lines()`: no line contains `'\n'`, and each line's characters come from the input. |
| Text.Join | remove-duplicates/src/main.rs:50 | `result.join("\n")`: the lines with one `'\n'` between neighbours and none at the end. The result starts with the first line. `JoinEndsWithLast`, `SplitJoin` and `LinesOfJoin` pin it down further. |
| Text.JoinEndsWithLast | remove-duplicates/src/main.rs:50 | The joined text ends with the last line. |
| Text.JoinSplit | remove-duplicates/src/main.rs:50 | Joining the pieces of a string with `'\n'` gives the string back. |
| Text.SplitJoin | remove-duplicates/src/main.rs:50 | Cutting the `'\n'`-join of a non-empty list of lines without `'\n'` gives the list back. |
| Text.LinesJoin | remove-duplicates/src/main.rs:43 | Joining the lines of a text gives the text back, except for a trailing `'\n'`. |
| Text.LinesOfJoin | remove-duplicates/src/main.rs:50 | Lines without `'\n'` whose last line is non-empty come back unchanged from `lines()` after `join("\n")`. |
| Dedup.UniqueMembers | remove-duplicates/src/main.rs:43-47 | A value is kept iff it is non-empty and it occurs among the trimmed lines. |
| Dedup.UniqueDistinct | remove-duplicates/src/main.rs:45 | No value is kept twice. |
| Dedup.UniqueOrder | remove-duplicates/src/main.rs:43-47 | Kept values appear in the order of their first occurrence in the input. |
| Dedup.UniqueOfDistinct | remove-duplicates/src/main.rs:43-47 | Input with no empty and no repeated values is kept unchanged. |
| Dedup.KeptTrimmed | remove-duplicates/src/main.rs:44-46 | Every kept line is non-empty, and trimming it again changes nothing. |
| Dedup.KeptIdempotent | remove-duplicates/src/main.rs:40-48 | Deduplicating the kept lines again changes nothing. |
| Dedup.DedupLines | remove-duplicates/src/main.rs:40-48 | The loop with its `seen` set returns exactly the trimmed, non-empty first occurrences, in first-occurrence order and without repeats. Every kept line is trimmed. |
| Upload.HasField | remove-duplicates/src/main.rs:16 | `while let Ok(Some(field))` enters its body iff the multipart stream starts with a field, not an error or the end. `UploadFile` ties it to "No file received". |
| Upload.FileName | remove-duplicates/src/main.rs:17-21 | The file name from the content disposition, or `""` when there is none. `MissingNameRefused` shows the missing name fails the gate. |
| Upload.HasTxtSuffix | remove-duplicates/src/main.rs:22 | `filename.ends_with(".txt")`, case-sensitive. `TxtSuffixIff` shows it holds iff the name is some string followed by `.txt`. |
| Upload.TxtSuffixIff | remove-duplicates/src/main.rs:22 | The gate passes a name iff the name is some string followed by `.txt` (case-sensitive). |
| Upload.MissingNameRefused | remove-duplicates/src/main.rs:17-24 | A field without a file name is refused by the `.txt` gate. |
| Upload.UploadFile | remove-duplicates/src/main.rs:15-61 | "No file received" iff the stream does not start with a field. "Only .txt files are allowed" iff the first field's name fails the gate, and then no chunk is read. Otherwise the answer is a read error, "File too large" or success, exactly as the chunk loop ends. On a failure, reading stops at the offending chunk and no later chunk is read. Success carries the joined deduplicated lines of the decoded buffer and their count. |
| Upload.ResultLinesClean | remove-duplicates/src/main.rs:43-50 | No result line contains `'\n'` or is empty. |
| Upload.ContentRoundTrip | remove-duplicates/src/main.rs:50-53 | The page's `content` splits back into exactly the result lines, so `count` is its number of lines. |
| Upload.ReuploadFixedPoint | remove-duplicates/src/main.rs:39-50 | Deduplicating the page's text again yields the same lines: the output is a fixed point of `ResultLines`. |
| Upload.WhitespaceOnlyIsEmpty | remove-duplicates/src/main.rs:43-47 | A text made only of whitespace, the empty text included, yields no lines. |
| MathUtils.Mcd | lib-math-utils/src/lib.rs:2-4 | Euclid terminates. The result is zero iff both arguments are zero, and it never exceeds the larger argument. |
| MathUtils.McdInU64 | lib-math-utils/src/lib.rs:2-4 | On `u64` arguments the result is a `u64`. |
| MathUtils.McdZero | lib-math-utils/src/lib.rs:3 | `mcd(a, 0) == a` and `mcd(0, b) == b`. |
| MathUtils.McdDividesBoth | lib-math-utils/src/lib.rs:2-4 | `mcd(a, b)` divides both `a` and `b`. |
| MathUtils.McdGreatest | lib-math-utils/src/lib.rs:2-4 | Every common divisor of `a` and `b` divides `mcd(a, b)`. |
| MathUtils.McdIsGreatest | lib-math-utils/src/lib.rs:2-4 | No common divisor exceeds `mcd(a, b)` unless both arguments are zero. |
| MathUtils.McdCommutes | lib-math-utils/src/lib.rs:2-4 | `mcd(a, b) == mcd(b, a)`. |
| MathUtils.McdScale | lib-math-utils/src/lib.rs:2-4 | `mcd(m*a, m*b) == m * mcd(a, b)`. |
| MathUtils.Mcm | lib-math-utils/src/lib.rs:7-9 | The result is a common multiple of `a` and `b`, and times `mcd(a, b)` it equals `a * b`. It is zero iff an argument is zero. |
| MathUtils.McmLeast | lib-math-utils/src/lib.rs:7-9 | `mcm(a, b)` divides every common multiple of `a` and `b`. |
| MathUtils.McmIsLeast | lib-math-utils/src/lib.rs:7-9 | For non-zero arguments, `mcm(a, b)` is at most any positive common multiple. |
| MathUtils.McmOverflowWitness | lib-math-utils/src/lib.rs:8 | For `a = b = 2^32` the product leaves `u64` and its wrapped value gives 0, while the lcm `2^32` fits. |
| MathUtils.McmChecked | lib-math-utils/src/lib.rs:7-9 | Dividing before multiplying gives a common multiple with the same product identity and zero cases. It needs only the lcm itself to fit. |
| MathUtils.McmCheckedLeast | lib-math-utils/src/lib.rs:7-9 | The divide-first lcm divides every common multiple. |
| MathUtils.McmCheckedAgrees | lib-math-utils/src/lib.rs:7-9 | Wherever the original formula has no overflow, the divide-first lcm is defined and equal to it. |

## Left out

- The HTTP server, routing, `index`, `download` and `main` of remove-duplicates are I/O plumbing outside the handler's logic.
- minijinja rendering of `result.html`: the model stops at the `content` and `count` values handed to the template.
- The asynchronous multipart and chunk streams are modelled as finite sequences: `Part` and `Chunk` items, with `PartError` and `ReadErr` standing for stream errors.
- `String::from_utf8_lossy` is the parameter `decode` of `Upload.UploadFile`, so UTF-8 decoding and replacement characters are not modelled.
- Text.Lines: a `'\r'` before `'\n'` is kept in the line rather than stripped as `str::lines` does. Every line is trimmed next, and U+000D is whitespace, so the result is the same.
- `HashSet` hashing is modelled as a mathematical set of strings.
- Ingest.IngestChunks: `content.len() + data.len()` is unbounded here. `usize` overflow would need a chunk near `2^64` bytes, which cannot exist in memory.
- MathUtils.Mcd: arguments are `nat`, which generalises `u64`. `McdInU64` shows the result stays within `u64`, and `%` cannot overflow.
- MathUtils.Mcm: the division-by-zero panic of `mcm(0, 0)` and the debug-build panic on `a * b > u64::MAX` are preconditions. The release-build wrap-around appears only in `McmOverflowWitness`.
- Upload.ReuploadFixedPoint: the fixed point is about the decoded text only. A real re-upload also re-encodes the page's text as UTF-8 and passes it through `from_utf8_lossy` and the 2 MiB cap. Lossy decoding can make the text up to three times longer than the bytes it came from, so a re-upload can answer "File too large".
- The other crates of the workspace (cli-image-resizer, wasm-todo) are not part of this model.

## Findings

| source | as written | input that shows it | evidently intended | confidence | as-written member | corrected member |
|---|---|---|---|---|---|---|
| lib-math-utils/src/lib.rs:8 | `(a * b) / mcd(a, b)` forms the `u64` product first. It panics in a debug build and wraps in a release build whenever `a * b > u64::MAX`, even when the lcm fits. | `mcm(2^32, 2^32)`: the lcm is `2^32`, but `a * b = 2^64`; a release build returns 0. | Divide first, `a / mcd(a, b) * b`, which overflows only when the lcm itself does. | medium, not executed | MathUtils.McmOverflowWitness | MathUtils.McmChecked |
