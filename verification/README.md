# Used-instrument valuation: a Dafny model of the core

The system takes a photo of a used musical instrument, asks a vision-language
model for a structured description, lets the user correct that description in
a single-page form, and estimates a price from market data kept in a vector
store. This project models the parts of that system whose behaviour is pure
logic, and proves properties of them:

- **The deduplicating document store** (`Store`). `RagStore.add_documents` is a
  state transition on a collection, which is a map from id to document plus
  the insertion order. Each document's id is `str(metadata["id"])` when that
  value is truthy. Otherwise the id is a fresh one supplied by the caller,
  standing in for `uuid4`. The stored ids are read once. Documents whose id is
  already stored are dropped, and the survivors are appended in input order.
  Nothing is written when no document survives. `RagStore.query` guards
  `k <= 0` and wraps each hit of an abstract nearest-neighbour search into a
  `RagResult`.
- **Document metadata** (`Documents`). Metadata values are JSON scalars. The
  module defines Python truthiness on them, and `str()`, including the decimal
  printing of integers.
- **The seed loader** (`Seed`). `load_seed_documents` takes the file's lines,
  or nothing for a missing file, and a JSON decoding function. Blank lines are
  skipped. Every other line becomes one document, whose text is the
  `description` and whose metadata is every other key.
- **The data contracts** (`Schemas`). These are `InstrumentDescription` and
  `ValuationResult`, with their defaults.
- **Description normalisation and the image URL** (`VlmClient`).
  - `_is_unknown_text` strips a value, folds its case and tests it against the
    unknown tokens.
  - `parse_description` replaces an unknown brand, model or year with the
    sentinel `不明`.
  - `build_image_data_url` builds a `data:` URL as RFC 2397 defines it. Its
    Base64 payload is modelled in `Base64`, following section 4 of RFC 4648,
    together with a decoder that is proved to invert it.
- **The frontend form** (`App`). It covers:
  - the empty description and `updateField`;
  - the materials and features boxes, which split, trim and drop empty
    pieces, and the joins that fill those boxes;
  - the year box, where an empty box means no year;
  - the two button handlers, including the no-file guard of `handleDescribe`.
- **Shared helpers.** `Text` holds stripping, case folding, split and join.
  `Wrappers` holds `Option` and `Result`.

Side effects become parameters:
- The vector search is a function of the collection, the query text and `k`.
- The fresh ids are a sequence, one per document.
- `json.loads` is a function from a line to an optional record.
- The text the model answered with is a parameter. JSON extraction and
  validation are a function from that text to a description or an error.
- The two backend requests of the frontend are functions that return a
  response or a thrown value.

## Model

| member | source | states |
|---|---|---|
| Schemas.DefaultDescription | backend/app/schemas.py:4-12 | With no field given, every text field is empty, the year is absent and both lists are empty |
| Schemas.BlankIsDefault | backend/app/schemas.py:4-12 | The default description is the only description whose fields are all empty |
| Schemas.UnorderedValuation | backend/app/schemas.py:15-20 | The schema enforces no order: a well-typed valuation can have its price outside its range, and its range reversed |
| Documents.Truthy | backend/app/rag/store.py:36-37 | A metadata id is falsy exactly when it is None, False, 0 or the empty string |
| Documents.NatToDecimal | backend/app/rag/store.py:37 | `str()` of a natural number is a non-empty string of decimal digits, with no leading zero unless the number is 0 |
| Documents.IntToDecimal | backend/app/rag/store.py:37 | `str()` of an integer is non-empty, and it starts with a minus sign exactly when the integer is negative |
| Documents.NatToDecimalRoundTrip | backend/app/rag/store.py:37 | Reading back the decimal digits `str()` prints for a natural number gives that number |
| Documents.IntToDecimalInjective | backend/app/rag/store.py:37 | Two different integer ids never become the same string id |
| Documents.PyStr | backend/app/rag/store.py:37 | `str()` keeps a string id as it is. An integer id prints as decimal digits whose value is the integer, after a minus sign exactly when it is negative. None, True and False print as their Python names |
| Store.DocumentId | backend/app/rag/store.py:34-37 | A truthy `metadata["id"]` gives its `str()` as the id; otherwise the fresh id is used |
| Store.FalsyIdIsReplaced | backend/app/rag/store.py:36-37 | A missing id, and each of the falsy ids None, False, 0 and "", gets the fresh id |
| Store.IntAndStringIdsCoincide | backend/app/rag/store.py:37 | The integer id 1 and the string id "1" are stored under the same key "1" |
| Store.AssignIds | backend/app/rag/store.py:34-37 | There is one id per document, and each is that document's own id |
| Store.Zip | backend/app/rag/store.py:42 | Each document is paired with the id at its own position |
| Store.NewEntries | backend/app/rag/store.py:39-46 | The filter keeps exactly the entries whose id was not stored before the loop, and never more entries than it was given |
| Store.NewEntriesAppend | backend/app/rag/store.py:42-46 | Filtering the concatenation of two batches gives the concatenation of the filtered batches, so input order is kept |
| Store.NewEntriesAllPresent | backend/app/rag/store.py:42-46 | When every id in a batch is already stored, the filter keeps nothing |
| Store.NewEntriesDistinct | backend/app/rag/store.py:42-46 | Filtering a batch with pairwise-distinct ids keeps the ids pairwise distinct |
| Store.Write | backend/app/rag/store.py:51 | The collection's write refuses a batch exactly when an id repeats. Otherwise the ids are appended to the order, the stored keys gain the batch's ids, each entry is stored under its id, and every other stored id keeps its document |
| Store.WriteKeepsValid | backend/app/rag/store.py:51 | Writing a batch of new ids keeps the order free of repeats and in agreement with the stored keys |
| Store.AddDocuments | backend/app/rag/store.py:30-52 | This is the full contract of `add_documents`. Empty input changes nothing. Exactly the filtered survivors are written, in input order. The add fails exactly when two survivors share an id. No survivors leaves the collection unchanged. Old ids keep their documents. Each written id is new and holds its document. Validity is preserved |
| Store.WriteNewEntries | backend/app/rag/store.py:51 | Writing new, pairwise-distinct ids appends them to the order, keeps every old entry, stores each new document under its id and keeps validity |
| Store.DistinctIdsAddSucceeds | backend/app/rag/store.py:39-51 | A batch whose ids are pairwise distinct is never refused |
| Store.AddStoresEveryId | backend/app/rag/store.py:39-51 | After a successful add, every document's id is stored, because it was either stored before or written |
| Store.NoOverwrite | backend/app/rag/store.py:39-46 | After any successful add, every id stored before still maps to the same document |
| Store.AllPresentWritesNothing | backend/app/rag/store.py:48-49 | When every document's id is already stored, the collection is unchanged and nothing is written |
| Store.AddTwiceIsAddOnce | backend/app/rag/store.py:39-52 | Adding a batch with explicit, pairwise-distinct ids succeeds; adding the same batch again, with any fresh ids, changes nothing |
| Store.NewEntriesKeepsBatchDuplicates | backend/app/rag/store.py:39-46 | Two entries of one batch with the same new id both pass the filter |
| Store.SameBatchDuplicatesReachTheWrite | backend/app/rag/store.py:39-51 | Since the stored ids are read once, two documents in one batch that share a new id make the add fail at the write |
| Store.SecondInsertIsNoOp | backend/app/rag/store.py:39-52 | Inserting id "a" with text "x" and then id "a" with text "y" writes nothing the second time, and "a" keeps the text "x" |
| Store.Query | backend/app/rag/store.py:54-62 | A non-positive `k` gives no results. Otherwise there is one result per search hit, in the search's order, with the hit's document and its score passed through |
| Store.QueryPrefixMonotone | backend/app/rag/store.py:55-62 | If the search for a smaller `k` returns a prefix of the search for a larger `k`, the same holds for the query results |
| Store.QueryNonPositiveIgnoresSearch | backend/app/rag/store.py:55-56 | With `k <= 0`, the result is empty whatever the search would return |
| Seed.RecordToDocument | backend/app/rag/seed.py:17-18 | A record converts exactly when its description is absent or a string. The text is the description, or "" when the description is absent. The metadata is the record minus `description`, with `id` kept |
| Seed.LineToDocument | backend/app/rag/seed.py:16-18 | A line converts exactly when it decodes to an object whose description, if present, is text, and then gives that record's document. An undecodable line is an invalid-JSON error, and every error names the line |
| Seed.ConvertAll | backend/app/rag/seed.py:16-18 | Conversion succeeds exactly when every line converts. It then gives one document per line, each the conversion of its own line |
| Seed.LoadLines | backend/app/rag/seed.py:11-20 | The loop gives at most one document per line. A file of blank lines gives none. A failure names one of the file's non-blank lines, stripped |
| Seed.LoadLinesConvertsNonBlank | backend/app/rag/seed.py:11-20 | The loop converts exactly the non-blank stripped lines, in file order, one document each |
| Seed.LoadSeedDocuments | backend/app/rag/seed.py:7-20 | A missing file gives no documents; otherwise the loop runs over the file's lines |
| Seed.BlankLineIgnored | backend/app/rag/seed.py:13-15 | Inserting a blank or whitespace-only line anywhere in the file does not change the result |
| Seed.InvalidLineAborts | backend/app/rag/seed.py:16 | A non-blank line that is not valid JSON fails the whole load; the line is not skipped |
| Text.Strip | backend/app/vlm/client.py:17 | The stripped value has no whitespace at either end, and it is empty exactly when the value is all whitespace |
| Text.StripPadded | backend/app/vlm/client.py:17 | Stripping a trimmed value surrounded by whitespace gives exactly that value |
| Text.StripIdempotent | backend/app/vlm/client.py:17 | Stripping twice is stripping once |
| Text.StripIgnoresPadding | backend/app/vlm/client.py:17 | Extra whitespace around a value does not change its stripped form |
| Text.StripKeepsOwnChars | frontend/src/App.tsx:192 | Trimming removes characters and adds none |
| Text.Lower | backend/app/vlm/client.py:20 | Case folding keeps the length and folds each character on its own |
| Text.LowerStripCommute | backend/app/vlm/client.py:17-20 | Folding and stripping commute, so their order in `_is_unknown_text` does not matter |
| Text.LowerIdempotent | backend/app/vlm/client.py:20 | Folding twice is folding once |
| Text.Split | frontend/src/App.tsx:191 | `split` always gives at least one piece, and no piece contains the separator |
| Text.SplitAppend | frontend/src/App.tsx:191 | Splitting around one occurrence of the separator gives the pieces before it followed by the pieces after it |
| Text.Join | frontend/src/App.tsx:186 | `join` of no items is empty; otherwise the text opens with the first item |
| Text.JoinLength | frontend/src/App.tsx:186 | The joined text is as long as the items together plus one separator between each pair |
| Text.SplitThenJoin | frontend/src/App.tsx:186-191 | Joining the pieces back with the separator restores the text |
| Text.JoinThenSplit | frontend/src/App.tsx:186-191 | Splitting the join of separator-free pieces gives the pieces back |
| Base64.CharOf | backend/app/vlm/client.py:31 | Every 6-bit value maps to a character of the standard alphabet |
| Base64.ValueOf | backend/app/vlm/client.py:31 | Exactly the 64 alphabet characters have a 6-bit value |
| Base64.ValueOfCharOf | backend/app/vlm/client.py:31 | The alphabet table is one-to-one: a value's character reads back as that value |
| Base64.Encode | backend/app/vlm/client.py:31 | The output has length 4·⌈n/3⌉. Every character is from the alphabet, except `=` padding in the last two positions |
| Base64.EncodeLastGroup | backend/app/vlm/client.py:31 | When the byte count is not a multiple of three, the text ends with the padded group of the last one or two bytes (`EncodeOne`, `EncodeTwo`): its unused bits are zero and the padding is `==` or `=`, as section 3.5 of RFC 4648 requires |
| Base64.EncodeOne | backend/app/vlm/client.py:31 | A final single byte becomes two alphabet characters followed by two `=`, and the four unused bits of the second character are zero, as section 3.5 of RFC 4648 requires |
| Base64.EncodeTwo | backend/app/vlm/client.py:31 | A final pair of bytes becomes three alphabet characters followed by one `=`, and the two unused bits of the third character are zero, as section 3.5 of RFC 4648 requires |
| Base64.GroupRoundTrip | backend/app/vlm/client.py:31 | Three bytes encoded as four characters decode back to the same three bytes |
| Base64.DecodeEncode | backend/app/vlm/client.py:31 | Decoding the encoding of any byte string gives the bytes back, so the encoding loses nothing |
| VlmClient.UnknownTokens | backend/app/vlm/client.py:11 | The nine tokens read as "no value": the empty string, unknown, n/a, na, none, null, 不明, 不詳 and 未記載, as written in the source |
| VlmClient.IsUnknownText | backend/app/vlm/client.py:14-20 | An absent value is unknown. A present value is unknown exactly when its stripped, folded form is one of the tokens; the blank test adds nothing, because "" is a token |
| VlmClient.EveryTokenIsUnknown | backend/app/vlm/client.py:11-20 | Every token in the set is matched by the classifier, because each is written stripped and in lower case |
| VlmClient.BlankIsUnknown | backend/app/vlm/client.py:14-19 | An absent value is unknown, and so is an empty or whitespace-only one |
| VlmClient.UnknownIgnoresPadding | backend/app/vlm/client.py:17-20 | Surrounding whitespace never changes whether a value is unknown |
| VlmClient.UnknownIgnoresCase | backend/app/vlm/client.py:20 | Letter case never changes whether a value is unknown |
| VlmClient.TrimmedUnknownIsToken | backend/app/vlm/client.py:11-20 | A value with no surrounding whitespace is unknown exactly when its folded form is one of the tokens |
| VlmClient.SentinelIsUnknown | backend/app/vlm/client.py:11-20 | The sentinel 不明 is itself unknown |
| VlmClient.NotApplicableIsUnknown | backend/app/vlm/client.py:11-20 | "N/A" is unknown |
| VlmClient.PaddedNotApplicableIsUnknown | backend/app/vlm/client.py:14-20 | "  N/A " is unknown |
| VlmClient.BrandNameIsKnown | backend/app/vlm/client.py:11-20 | "Yamaha" is not unknown |
| VlmClient.Normalize | backend/app/vlm/client.py:61-66 | Brand, model and year each become the sentinel or stay a known value, and the year is never absent. A known value is kept as it was. Category, condition, materials, features and notes are untouched |
| VlmClient.NormalizeIdempotent | backend/app/vlm/client.py:61-66 | Normalising twice is normalising once |
| VlmClient.NormalizedIsFixedPoint | backend/app/vlm/client.py:61-66 | Normalisation leaves a description unchanged exactly when it is already normalised |
| VlmClient.KnownValueKeptVerbatim | backend/app/vlm/client.py:61-62 | The brand " Yamaha " is kept with its spaces, not stripped |
| VlmClient.NormalizeDefault | backend/app/vlm/client.py:57-68 | An empty description gets the sentinel in brand, model and year, and stays empty elsewhere |
| VlmClient.ParseDescription | backend/app/vlm/client.py:57-68 | A decoding error is passed on unchanged. A decoded description comes back normalised |
| VlmClient.BuildImageDataUrl | backend/app/vlm/client.py:30-32 | The URL is `data:`, the media type, `;base64,` and a payload, with the total length that implies. The payload is exactly the canonical encoding `Base64.Encode` of the image bytes, and it decodes back to them |
| App.EmptyDescription | frontend/src/App.tsx:9-18 | The form starts with every field empty and no year |
| App.EmptyDescriptionIsDefault | frontend/src/App.tsx:9-18 | The frontend's empty form equals the backend's default description |
| App.FieldsDetermineDescription | frontend/src/App.tsx:51-56 | Two descriptions that agree on every key are equal |
| App.Get | frontend/src/App.tsx:51-55 | The key decides the value's type: the year is the one optional text, materials and features are the lists, and every other key holds text |
| App.UpdateField | frontend/src/App.tsx:51-56 | The edited key takes the new value, and every other key keeps its old value |
| App.UpdateWithCurrentValue | frontend/src/App.tsx:51-56 | Writing a key's current value back changes nothing |
| App.LastEditWins | frontend/src/App.tsx:51-56 | Of two edits to the same key, only the later one counts |
| App.EditsToDifferentFieldsCommute | frontend/src/App.tsx:51-56 | Edits to different keys give the same result in either order |
| Text.CleanPieces | frontend/src/App.tsx:192-193 | Every kept item is non-empty and trimmed. Every piece that is not blank is kept in trimmed form, and every kept item is the trimmed form of some piece, so nothing else is kept |
| Text.CleanPiecesAppend | backend/app/rag/seed.py:12-15 | Line selection goes line by line: the kept lines of two concatenated files are the kept lines of each file, concatenated |
| Text.CleanPiecesKeepAbsent | frontend/src/App.tsx:189-193 | A character missing from every piece is missing from every kept item |
| App.ParseItems | frontend/src/App.tsx:189-193 | Every parsed item is non-empty, trimmed, free of the separator, and the trimmed form of one of the pieces the text splits into. Conversely, every piece that is not blank is kept, trimmed, and there are no more items than pieces. Order and repeats are fixed by `App.ParseItemsAppend` and `App.ParseItemsPiece` |
| App.ParseItemsAppend | frontend/src/App.tsx:189-193 | The items of `a`, the separator and `b` are the items of `a` followed by the items of `b`. So the parse keeps the typed order and every repeated item |
| App.ParseItemsPiece | frontend/src/App.tsx:189-193 | A text without the separator gives no item when it is blank, and otherwise exactly one: its trimmed form |
| App.ParseMaterials | frontend/src/App.tsx:189-193 | The materials read from the box are non-empty, trimmed and comma-free, and each is a trimmed comma-separated piece of the text. Every non-blank piece appears in the result, trimmed, and there are no more items than pieces. Order and repeats follow from `App.ParseItemsAppend` and `App.ParseItemsPiece` |
| App.ParseFeatures | frontend/src/App.tsx:206-210 | The features read from the box are non-empty, trimmed and newline-free, and each is a trimmed line of the text. Every non-blank line appears in the result, trimmed, and there are no more items than lines. Order and repeats follow from `App.ParseItemsAppend` and `App.ParseItemsPiece` |
| App.ParseJoinPadded | frontend/src/App.tsx:186-193 | Clean items joined with the separator plus whitespace, after any leading whitespace, parse back to the same items |
| App.ParseJoin | frontend/src/App.tsx:186-193 | Clean items joined with the separator plus optional whitespace parse back to the same items |
| App.MaterialsText | frontend/src/App.tsx:186-193 | Non-empty, trimmed, comma-free materials shown as `join(", ")` and read back are unchanged |
| App.FeaturesText | frontend/src/App.tsx:203-210 | Non-empty, trimmed, newline-free features shown as `join("\n")` and read back are unchanged |
| App.MaterialsEditIsStable | frontend/src/App.tsx:186-193 | Whatever is typed into the materials box, the list it gives survives being shown and read back |
| App.FeaturesEditIsStable | frontend/src/App.tsx:203-210 | Whatever is typed into the features box, the list it gives survives being shown and read back |
| App.TrailingSeparatorDropped | frontend/src/App.tsx:186-193 | An item followed by the separator reads back as that item alone, so the box then shows it without the separator |
| App.TrailingSpaceDropped | frontend/src/App.tsx:186-193 | An item followed by whitespace reads back as that item alone |
| App.MaterialsBoxDropsTrailingComma | frontend/src/App.tsx:186-193 | A comma or a space typed after a material disappears at the next render, so a second material cannot be typed after a comma |
| App.FeaturesBoxDropsNewLine | frontend/src/App.tsx:203-210 | A new line typed after a feature disappears at the next render |
| App.YearFromText | frontend/src/App.tsx:170 | The year is null exactly when the box is empty |
| App.YearTextRoundTrip | frontend/src/App.tsx:168-170 | Whatever is typed into the year box is shown back unchanged |
| App.YearText | frontend/src/App.tsx:168-170 | The box is empty exactly for no year and for the empty year. A year survives being shown and read back exactly when it is not the empty string, so null survives |
| App.InitialState | frontend/src/App.tsx:28-36 | The first render has no file, an empty form, no valuation, idle status and no error |
| App.ErrorMessage | frontend/src/App.tsx:72 | A thrown `Error` shows its own message; any other thrown value shows the fallback message |
| App.BeginDescribe | frontend/src/App.tsx:58-66 | With no file, only the error is set. The status, valuation and form stay as they were. With a file, the status becomes describing, and the error and valuation are cleared |
| App.FinishDescribe | frontend/src/App.tsx:68-75 | The status returns to idle. A response replaces the form. A failure keeps the form and shows the error's message, or the fallback message |
| App.HandleDescribe | frontend/src/App.tsx:58-76 | With no file, only the error changes. With a file, the handler ends idle with no valuation. A success replaces the form and clears the error. A failure keeps the form and sets an error |
| App.NoFileNeverDescribes | frontend/src/App.tsx:59-62 | With no file, the request is never consulted and the status does not change |
| App.BeginEstimate | frontend/src/App.tsx:78-80 | The status becomes estimating and the error is cleared. The previous valuation stays |
| App.FinishEstimate | frontend/src/App.tsx:82-89 | The status returns to idle. A response becomes the valuation. A failure keeps the old valuation and shows the error's message, or the fallback message |
| App.HandleEstimate | frontend/src/App.tsx:78-90 | The current form is sent with no file guard, and the handler ends idle. A success sets the valuation and clears the error. A failure keeps the old valuation and sets an error |
| App.HandlersKeepSettled | frontend/src/App.tsx:58-90 | Starting from idle, both handlers end idle |
| App.DescribeClearsStaleValuation | frontend/src/App.tsx:64-70 | With a file, a described form is never shown next to the valuation of the previous form |

`backend/app/schemas.py` does not enforce
`range_jpy[0] <= price_jpy <= range_jpy[1]`, nor that the range is ordered; the
model follows the code (`Schemas.UnorderedValuation`).

The materials and features boxes are controlled inputs that show
`join(parse(text))`, not the text as typed. A comma, a trailing space or a new
line typed after an item is dropped at the next render
(`App.MaterialsBoxDropsTrailingComma`, `App.FeaturesBoxDropsNewLine`). So a
second material can only be entered by typing it before the comma or by
pasting; a second feature likewise cannot be typed on a new line. The year box
has no such loss (`App.YearTextRoundTrip`).

## Left out

- Embeddings and the similarity search are left out because they are external services. The search is a function parameter, so scores are passed through and not ranked.
- `persist()` and on-disk storage are left out because they are I/O. The model only states when a write happens.
- `uuid4` is left out because it is random. Fresh ids are a parameter, one per document.
- Concurrent writers are left out. Each `add_documents` call is one atomic transition, so the race between two writers that both read the stored ids before either inserts is not modelled.
- Store.Write: Chroma's refusal of a batch with a repeated id is not visible in this repository. The model assumes such a write fails as a whole.
- Seed: `read_text().splitlines()` is left out because it is file I/O. The lines are a parameter.
- Seed: `json.loads` is a decoding function, because JSON parsing is not part of this core.
- Documents: metadata values are JSON scalars only. Numbers with a fraction, nested arrays and nested objects are not modelled.
- Text.Strip: the whitespace class is a subset of the characters that both Python's `str.strip` and JavaScript's `trim` remove: space, tab, line feed, vertical tab, form feed, carriage return, U+00A0 and U+3000. Both also remove U+1680, U+2000 to U+200A, U+2028, U+2029, U+202F and U+205F, which are not modelled; nor are the characters only one of the two languages removes.
- Text.Lower: `casefold` is modelled as ASCII lower-casing, so full Unicode case folding is not modelled.
- VlmClient.ParseDescription: `extract_json_object` and `InstrumentDescription.model_validate` are a decoding parameter. `app.openai_utils` is not part of this model.
- The OpenAI calls are left out because they are network I/O: `create_vlm_client`, `request_description_response`, `request_description` and `describe_instrument`.
- The estimation stage (`RagPipeline` and `get_pipeline`, imported at `backend/app/main.py:4`) is not part of this model.
- `backend/app/main.py` (routing, CORS, the upload type check, error-to-status mapping) is left out because it is HTTP plumbing. So are `backend/app/settings.py` and `backend/app/vlm/prompts.py`.
- `frontend/src/api.ts` is left out because its fetch and HTTP error handling are I/O. The two requests are parameters that return a response or a thrown value.
- App: rendering, the object-URL lifecycle and the timing between awaits are left out. The handlers are modelled as their start and their settled result.
- App: `Intl.NumberFormat` currency formatting and `Math.round(confidence * 100)` are left out because they use floating point.
- Schemas.ValuationResult: `confidence` is a float in the source. It is a real in the model, and no range is checked.
