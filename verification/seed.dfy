/** `load_seed_documents`: converts the lines of a JSON-lines seed file into
    documents. Reading the file is replaced by its lines (absent when the file
    does not exist), and `json.loads` by a decoding function passed in. */
module Seed {
  import opened Wrappers
  import opened Text
  import opened Documents

  /** What decoding one line yields: a flat JSON object, or some other JSON value. */
  datatype Json = Object(fields: map<string, Scalar>) | NotObject

  /** `json.loads`: `None` when the line is not valid JSON. */
  type Decoder = string -> Option<Json>

  datatype SeedError =
    | InvalidJson(line: string)        // json.loads raised
    | NotAnObject(line: string)        // the value has no dict-style `pop`
    | DescriptionNotText(line: string) // `page_content` must be a string

  /** `record.pop("description", "")` followed by `Document(...)`: the
      description becomes the text (empty when absent), every other key,
      `id` included, becomes metadata. */
  function RecordToDocument(fields: map<string, Scalar>): (r: Option<Document>)
    ensures r.Some? <==> ("description" !in fields || fields["description"].Str?)
    ensures r.Some? ==> r.value.metadata == fields - {"description"}
    ensures r.Some? && "description" !in fields ==> r.value.text == ""
    ensures r.Some? && "description" in fields ==> Str(r.value.text) == fields["description"]
  {
    if "description" !in fields then Some(Document("", fields))
    else
      match fields["description"]
      case Str(t) => Some(Document(t, fields - {"description"}))
      case _ => None
  }

  /** One stripped, non-blank line to one document. A line converts exactly
      when it decodes to an object whose description, if any, is text; any
      error names the line. */
  function LineToDocument(line: string, decode: Decoder): (r: Result<Document, SeedError>)
    ensures r.Success? <==> decode(line).Some? && decode(line).value.Object?
                            && RecordToDocument(decode(line).value.fields).Some?
    ensures r.Success? ==> r.value == RecordToDocument(decode(line).value.fields).value
    ensures r.Failure? ==> r.error.line == line
    ensures decode(line).None? ==> r == Failure(InvalidJson(line))
  {
    match decode(line)
    case None => Failure(InvalidJson(line))
    case Some(NotObject) => Failure(NotAnObject(line))
    case Some(Object(fields)) =>
      match RecordToDocument(fields)
      case Some(d) => Success(d)
      case None => Failure(DescriptionNotText(line))
  }

  /** Every one of the lines converts. */
  predicate AllConvert(nb: seq<string>, decode: Decoder) {
    forall k :: 0 <= k < |nb| ==> LineToDocument(nb[k], decode).Success?
  }

  /** One document per line, in order; the first line that fails to convert
      ends the conversion with its error. */
  function ConvertAll(nb: seq<string>, decode: Decoder): (r: Result<seq<Document>, SeedError>)
    ensures r.Success? <==> AllConvert(nb, decode)
    ensures r.Success? ==> |r.value| == |nb|
    ensures r.Success? ==> forall k :: 0 <= k < |nb| ==> LineToDocument(nb[k], decode) == Success(r.value[k])
    decreases |nb|
  {
    if |nb| == 0 then Success([])
    else
      match LineToDocument(nb[0], decode)
      case Failure(e) => Failure(e)
      case Success(d) =>
        var rest := ConvertAll(nb[1..], decode);
        assert AllConvert(nb, decode) <==> AllConvert(nb[1..], decode) by {
          assert forall k :: 1 <= k < |nb| ==> nb[k] == nb[1..][k - 1];
        }
        match rest
        case Failure(e) => Failure(e)
        case Success(ds) => Success([d] + ds)
  }

  /** The loop over the lines: blank lines are skipped, every other line is
      stripped, decoded and converted, and the first failure ends the load.
      There is at most one document per line, a file of blank lines gives
      none, and an error names one of the file's non-blank lines, stripped. */
  function LoadLines(lines: seq<string>, decode: Decoder): (r: Result<seq<Document>, SeedError>)
    ensures r.Success? ==> |r.value| <= |lines|
    ensures (forall i :: 0 <= i < |lines| ==> AllWhitespace(lines[i])) ==> r == Success([])
    ensures r.Failure? ==> r.error.line != "" && StrippedPiece(r.error.line, lines)
    decreases |lines|
  {
    if |lines| == 0 then Success([])
    else
      var line := Strip(lines[0]);
      var rest := LoadLines(lines[1..], decode);
      assert forall i :: 1 <= i < |lines| ==> lines[i] == lines[1..][i - 1];
      assert rest.Failure? ==> StrippedPiece(rest.error.line, lines) by {
        if rest.Failure? {
          StrippedPieceTail(rest.error.line, lines);
        }
      }
      if line == "" then rest
      else
        match LineToDocument(line, decode)
        case Failure(e) => assert StrippedPiece(e.line, lines) by { assert e.line == Strip(lines[0]); }
          Failure(e)
        case Success(d) =>
          match rest
          case Failure(e) => Failure(e)
          case Success(ds) => Success([d] + ds)
  }

  /** The loop converts exactly the non-blank lines, one document each, in file order. */
  lemma {:induction false} LoadLinesConvertsNonBlank(lines: seq<string>, decode: Decoder)
    ensures LoadLines(lines, decode) == ConvertAll(CleanPieces(lines), decode)
    decreases |lines|
  {
    if |lines| > 0 {
      LoadLinesConvertsNonBlank(lines[1..], decode);
      var line := Strip(lines[0]);
      if line != "" {
        var nb := CleanPieces(lines);
        assert nb == [line] + CleanPieces(lines[1..]);
        assert nb[1..] == CleanPieces(lines[1..]);
      }
    }
  }

  /** `load_seed_documents`: a missing file gives no documents. */
  function LoadSeedDocuments(file: Option<seq<string>>, decode: Decoder): (r: Result<seq<Document>, SeedError>)
    ensures file.None? ==> r == Success([])
    ensures file.Some? ==> r == LoadLines(file.value, decode)
  {
    match file
    case None => Success([])
    case Some(lines) => LoadLines(lines, decode)
  }

  /** Inserting a blank or whitespace-only line anywhere changes nothing. */
  lemma {:induction false} BlankLineIgnored(pre: seq<string>, blank: string, post: seq<string>, decode: Decoder)
    requires AllWhitespace(blank)
    ensures LoadLines(pre + [blank] + post, decode) == LoadLines(pre + post, decode)
    decreases |pre|
  {
    if |pre| == 0 {
      assert pre + [blank] + post == [blank] + post;
      assert ([blank] + post)[1..] == post;
      assert pre + post == post;
    } else {
      assert (pre + [blank] + post)[1..] == pre[1..] + [blank] + post;
      assert (pre + post)[1..] == pre[1..] + post;
      BlankLineIgnored(pre[1..], blank, post, decode);
    }
  }

  /** A non-blank line that is not valid JSON fails the whole load: the line
      is not skipped. */
  lemma InvalidLineAborts(lines: seq<string>, i: nat, decode: Decoder)
    requires i < |lines|
    requires !AllWhitespace(lines[i])
    requires decode(Strip(lines[i])).None?
    ensures LoadLines(lines, decode).Failure?
  {
    LoadLinesConvertsNonBlank(lines, decode);
    var nb := CleanPieces(lines);
    assert Strip(lines[i]) in nb;
    var k :| 0 <= k < |nb| && nb[k] == Strip(lines[i]);
    assert LineToDocument(nb[k], decode).Failure?;
  }
}
