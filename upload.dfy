/**
  The `upload_file` handler of remove-duplicates (src/main.rs:15-61) without
  its HTTP and template plumbing: take the first multipart field, refuse it
  unless its file name ends in `.txt`, read its chunks into a bounded
  buffer, decode the buffer, and deduplicate its lines into the text and
  the count that the result page shows.
 */
module Upload {
  import opened Text
  import opened Ingest
  import opened Dedup

  datatype Option<T> = None | Some(value: T)

  /** A multipart field: the file name from its content disposition, if
      any, and its stream of chunks. */
  datatype Field = Field(filename: Option<string>, chunks: seq<Chunk>)

  /** One item of the multipart stream: a field, or an error in place of one. */
  datatype Part = FieldPart(field: Field) | PartError

  /** The handler's answers: the deduplicated text and its line count, or
      one of the four bad-request bodies. */
  datatype Response =
    | Accepted(content: string, count: nat)
    | OnlyTxtAllowed     // "Only .txt files are allowed"
    | ErrorReadingFile   // "Error reading file"
    | FileTooLarge       // "File too large"
    | NoFileReceived     // "No file received"

  /** The file name of a field; a field without one counts as `""`. */
  function FileName(f: Field): (name: string) {
    match f.filename
    case Some(name) => name
    case None => ""
  }

  /** `filename.ends_with(".txt")`, compared exactly (case-sensitive). */
  predicate HasTxtSuffix(name: string) {
    |name| >= 4 && name[|name| - 4..] == ".txt"
  }

  /** The suffix test holds exactly for the names of the form `p + ".txt"`. */
  lemma TxtSuffixIff(name: string)
    ensures HasTxtSuffix(name) <==> exists p :: name == p + ".txt"
  {
    if HasTxtSuffix(name) {
      assert name == name[..|name| - 4] + ".txt";
    }
    if exists p :: name == p + ".txt" {
      var p :| name == p + ".txt";
      assert name[|name| - 4..] == ".txt";
    }
  }

  /** A field without a file name is refused. */
  lemma MissingNameRefused(chunks: seq<Chunk>)
    ensures !HasTxtSuffix(FileName(Field(None, chunks)))
  {
  }

  /** The multipart stream starts with a field. */
  predicate HasField(payload: seq<Part>) {
    payload != [] && payload[0].FieldPart?
  }

  /** The multipart stream starts with a field whose name passes the gate. */
  predicate Gated(payload: seq<Part>) {
    HasField(payload) && HasTxtSuffix(FileName(payload[0].field))
  }

  /** The lines the result page shows for a decoded upload. */
  function ResultLines(text: string): (lines: seq<string>) {
    Kept(Lines(text))
  }

  /**
    The handler. `decode` stands for `String::from_utf8_lossy`, which never
    fails. `consumed` is how many chunks of the field were read. The `while
    let` over the multipart stream returns from its first iteration, so
    only the first part is ever looked at.
   */
  method UploadFile(payload: seq<Part>, decode: seq<byte> -> string)
    returns (response: Response, consumed: nat)
    ensures response.NoFileReceived? <==> !HasField(payload)
    ensures response.OnlyTxtAllowed? <==> HasField(payload) && !Gated(payload)
    ensures !Gated(payload) ==> consumed == 0
    ensures Gated(payload) ==>
      var chunks := payload[0].field.chunks;
      && consumed <= |chunks|
      && (response.ErrorReadingFile? <==> FailsReading(chunks))
      && (response.FileTooLarge? <==> Overflows(chunks))
      && (response.Accepted? <==> Fits(chunks, |chunks|))
      && (!response.Accepted? ==> 0 < consumed && Fits(chunks, consumed - 1) && !Fits(chunks, consumed))
      && (response.Accepted? ==>
            && consumed == |chunks|
            && response.content == Join(ResultLines(decode(Flatten(chunks))))
            && response.count == |ResultLines(decode(Flatten(chunks)))|)
  {
    if payload == [] || payload[0].PartError? {
      return NoFileReceived, 0;
    }
    var field := payload[0].field;
    var filename := FileName(field);
    if !HasTxtSuffix(filename) {
      return OnlyTxtAllowed, 0;
    }
    var ingested;
    ingested, consumed := IngestChunks(field.chunks);
    match ingested {
      case ReadFailed =>
        response := ErrorReadingFile;
      case TooLarge =>
        response := FileTooLarge;
      case Content(content) =>
        var input := decode(content);
        var result := DedupLines(Lines(input));
        var output := Join(result);
        response := Accepted(output, |result|);
    }
  }

  // ---------------------------------------------------------------------------
  // What the result page shows
  // ---------------------------------------------------------------------------

  /** No result line contains a line break, and no result line is empty. */
  lemma ResultLinesClean(text: string)
    ensures forall k :: 0 <= k < |ResultLines(text)| ==> '\n' !in ResultLines(text)[k]
    ensures forall k :: 0 <= k < |ResultLines(text)| ==> ResultLines(text)[k] != ""
  {
    var lines := Lines(text);
    var r := ResultLines(text);
    forall k | 0 <= k < |r|
      ensures '\n' !in r[k] && r[k] != ""
    {
      UniqueMembers(TrimAll(lines), r[k]);
      var j :| 0 <= j < |lines| && TrimAll(lines)[j] == r[k];
      TrimChars(lines[j]);
      assert forall c :: c in r[k] ==> c in lines[j];
    }
  }

  /** The text of the result page splits back into exactly the result lines,
      so `count` is its number of lines. */
  lemma ContentRoundTrip(text: string)
    ensures Lines(Join(ResultLines(text))) == ResultLines(text)
  {
    ResultLinesClean(text);
    LinesOfJoin(ResultLines(text));
  }

  /** Deduplicating the result text again gives the same lines: the output
      is a fixed point of `ResultLines`. */
  lemma ReuploadFixedPoint(text: string)
    ensures ResultLines(Join(ResultLines(text))) == ResultLines(text)
  {
    ContentRoundTrip(text);
    KeptIdempotent(Lines(text));
  }

  /** Text made of whitespace only (empty text included) has no result lines. */
  lemma WhitespaceOnlyIsEmpty(text: string)
    requires forall i :: 0 <= i < |text| ==> IsWhitespace(text[i])
    ensures ResultLines(text) == []
  {
    var lines := Lines(text);
    forall k | 0 <= k < |lines|
      ensures Trim(lines[k]) == ""
    {
      assert forall i :: 0 <= i < |lines[k]| ==> lines[k][i] in text;
      TrimAllWhitespace(lines[k]);
    }
    if ResultLines(text) != [] {
      var x := ResultLines(text)[0];
      UniqueMembers(TrimAll(lines), x);
    }
  }
}
