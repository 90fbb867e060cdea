/** `RagStore`: a deduplicating document collection behind a vector index.
    The collection is an abstract state (documents by id plus the order the
    ids were inserted in); the embedding-based nearest-neighbour search is an
    oracle passed in by the caller. */
module Store {
  import opened Wrappers
  import opened Documents

  /** A score as the vector search reports it. Its direction (distance or
      similarity) is not fixed here; it is passed through untouched. */
  type Score = real

  /** `RagResult`: one retrieved document with its score. */
  datatype RagResult = RagResult(document: Document, score: Score)

  /** A document paired with the id it is stored under. */
  datatype Entry = Entry(id: string, document: Document)

  /** The collection: the stored documents by id, and the ids in insertion order. */
  datatype Collection = Collection(docs: map<string, Document>, order: seq<string>)

  const EmptyCollection: Collection := Collection(map[], [])

  predicate Distinct(ids: seq<string>) {
    forall i, j :: 0 <= i < j < |ids| ==> ids[i] != ids[j]
  }

  function Elements(ids: seq<string>): set<string> {
    set i | 0 <= i < |ids| :: ids[i]
  }

  /** The insertion order lists every stored id exactly once. */
  predicate Valid(c: Collection) {
    Distinct(c.order) && c.docs.Keys == Elements(c.order)
  }

  lemma DistinctConcat(a: seq<string>, b: seq<string>)
    requires Distinct(a) && Distinct(b)
    requires Elements(a) !! Elements(b)
    ensures Distinct(a + b)
  {
    forall i, j | 0 <= i < j < |a + b|
      ensures (a + b)[i] != (a + b)[j]
    {
      if i < |a| <= j {
        assert (a + b)[i] in Elements(a);
        assert (a + b)[j] == b[j - |a|];
        assert (a + b)[j] in Elements(b);
      }
    }
  }

  lemma ElementsConcat(a: seq<string>, b: seq<string>)
    ensures Elements(a + b) == Elements(a) + Elements(b)
  {
    forall x | x in Elements(a + b)
      ensures x in Elements(a) + Elements(b)
    {
      var i :| 0 <= i < |a + b| && (a + b)[i] == x;
      if i >= |a| {
        assert b[i - |a|] == x;
      }
    }
    forall x | x in Elements(a)
      ensures x in Elements(a + b)
    {
      var i :| 0 <= i < |a| && a[i] == x;
      assert (a + b)[i] == x;
    }
    forall x | x in Elements(b)
      ensures x in Elements(a + b)
    {
      var i :| 0 <= i < |b| && b[i] == x;
      assert (a + b)[|a| + i] == x;
    }
  }

  function Ids(entries: seq<Entry>): (ids: seq<string>)
    ensures |ids| == |entries|
    ensures forall i :: 0 <= i < |entries| ==> ids[i] == entries[i].id
  {
    seq(|entries|, i requires 0 <= i < |entries| => entries[i].id)
  }

  /** The document carries an id of its own: `metadata["id"]` is present and truthy. */
  predicate HasExplicitId(d: Document) {
    "id" in d.metadata && Truthy(d.metadata["id"])
  }

  /** The id a document is stored under: `str(metadata["id"])` when that value
      is truthy, and otherwise `uuid`, which stands for a new `uuid4`. */
  function DocumentId(d: Document, uuid: string): (id: string)
    ensures HasExplicitId(d) ==> id == PyStr(d.metadata["id"])
    ensures !HasExplicitId(d) ==> id == uuid
  {
    if HasExplicitId(d) then PyStr(d.metadata["id"]) else uuid
  }

  /** A missing id and each falsy id (`None`, `False`, `0`, `""`) all fall back to the new id. */
  lemma FalsyIdIsReplaced(d: Document, uuid: string)
    requires "id" !in d.metadata || d.metadata["id"] in {Null, Bool(false), Int(0), Str("")}
    ensures DocumentId(d, uuid) == uuid
  {
  }

  /** `str()` makes the integer id 1 and the string id "1" the same key. */
  lemma IntAndStringIdsCoincide(text1: string, text2: string, uuid1: string, uuid2: string)
    ensures DocumentId(Document(text1, map["id" := Int(1)]), uuid1)
         == DocumentId(Document(text2, map["id" := Str("1")]), uuid2) == "1"
  {
    assert NatToDecimal(1) == "1";
  }

  /** One id per document, position by position. */
  function AssignIds(docs: seq<Document>, uuids: seq<string>): (ids: seq<string>)
    requires |uuids| == |docs|
    ensures |ids| == |docs|
    ensures forall i :: 0 <= i < |docs| ==> ids[i] == DocumentId(docs[i], uuids[i])
  {
    seq(|docs|, i requires 0 <= i < |docs| => DocumentId(docs[i], uuids[i]))
  }

  /** `zip(documents, ids)`: each document paired with its id. */
  function Zip(docs: seq<Document>, ids: seq<string>): (batch: seq<Entry>)
    requires |ids| == |docs|
    ensures |batch| == |docs|
    ensures forall i :: 0 <= i < |docs| ==> batch[i] == Entry(ids[i], docs[i])
  {
    seq(|docs|, i requires 0 <= i < |docs| => Entry(ids[i], docs[i]))
  }

  /** The filtering loop: the entries whose id is not in `existing`, in input
      order. `existing` is fixed for the whole loop, so a batch is never
      filtered against itself. */
  function NewEntries(batch: seq<Entry>, existing: set<string>): (kept: seq<Entry>)
    ensures |kept| <= |batch|
    ensures forall e :: e in kept <==> e in batch && e.id !in existing
    decreases |batch|
  {
    if |batch| == 0 then []
    else
      var rest := NewEntries(batch[1..], existing);
      assert forall e :: e in batch <==> e == batch[0] || e in batch[1..];
      if batch[0].id in existing then rest else [batch[0]] + rest
  }

  /** The filter distributes over concatenation, so it keeps input order. */
  lemma {:induction false} NewEntriesAppend(b1: seq<Entry>, b2: seq<Entry>, existing: set<string>)
    ensures NewEntries(b1 + b2, existing) == NewEntries(b1, existing) + NewEntries(b2, existing)
    decreases |b1|
  {
    if |b1| == 0 {
      assert b1 + b2 == b2;
    } else {
      assert (b1 + b2)[1..] == b1[1..] + b2;
      NewEntriesAppend(b1[1..], b2, existing);
    }
  }

  /** When every id is already stored, nothing survives the filter. */
  lemma {:induction false} NewEntriesAllPresent(batch: seq<Entry>, existing: set<string>)
    requires forall k :: 0 <= k < |batch| ==> batch[k].id in existing
    ensures NewEntries(batch, existing) == []
    decreases |batch|
  {
    if |batch| > 0 {
      NewEntriesAllPresent(batch[1..], existing);
    }
  }

  lemma DistinctCons(x: string, rest: seq<string>)
    requires Distinct(rest) && x !in rest
    ensures Distinct([x] + rest)
  {
    var s := [x] + rest;
    forall a, b | 0 <= a < b < |s| ensures s[a] != s[b] {
      assert s[b] == rest[b - 1];
      if a > 0 {
        assert s[a] == rest[a - 1];
      }
    }
  }

  /** No kept entry repeats the id of a head whose id appears nowhere else. */
  lemma HeadIdNotKeptAgain(batch: seq<Entry>, existing: set<string>)
    requires |batch| > 0 && Distinct(Ids(batch))
    ensures batch[0].id !in Ids(NewEntries(batch[1..], existing))
  {
    var rest := NewEntries(batch[1..], existing);
    forall k | 0 <= k < |rest| ensures rest[k].id != batch[0].id {
      assert rest[k] in batch[1..];
      var i :| 0 <= i < |batch| - 1 && batch[1..][i] == rest[k];
      assert Ids(batch)[i + 1] == rest[k].id;
    }
  }

  /** Pairwise-distinct ids stay pairwise distinct after filtering. */
  lemma {:induction false} NewEntriesDistinct(batch: seq<Entry>, existing: set<string>)
    requires Distinct(Ids(batch))
    ensures Distinct(Ids(NewEntries(batch, existing)))
    decreases |batch|
  {
    if |batch| > 0 {
      var tail := batch[1..];
      assert Ids(tail) == Ids(batch)[1..];
      NewEntriesDistinct(tail, existing);
      if batch[0].id !in existing {
        NewEntriesStep(batch, existing);
        HeadIdNotKeptAgain(batch, existing);
        DistinctCons(batch[0].id, Ids(NewEntries(tail, existing)));
      }
    }
  }

  /** Why a write to the collection fails: the collection refuses a batch
      that names the same id twice. */
  datatype StoreError = DuplicateIdsInBatch(batch: seq<string>)

  /** What `add_documents` did: the collection afterwards and the entries it
      wrote and persisted (empty when it returned before writing). */
  datatype AddOutcome = AddOutcome(collection: Collection, written: seq<Entry>)

  /** The entries of a batch with pairwise-distinct ids, keyed by id. */
  function BatchMap(batch: seq<Entry>): (m: map<string, Document>)
    requires Distinct(Ids(batch))
    ensures m.Keys == Elements(Ids(batch))
    ensures forall k :: 0 <= k < |batch| ==> m[batch[k].id] == batch[k].document
  {
    var m := map k | 0 <= k < |batch| :: batch[k].id := batch[k].document;
    assert forall k :: 0 <= k < |batch| ==> m[batch[k].id] == batch[k].document by {
      forall k | 0 <= k < |batch| ensures m[batch[k].id] == batch[k].document {
        var j :| 0 <= j < |batch| && batch[j].id == batch[k].id && m[batch[k].id] == batch[j].document;
        assert Ids(batch)[j] == Ids(batch)[k];
      }
    }
    m
  }

  /** The collection's batch write: a batch that repeats an id is refused;
      otherwise its entries are stored and their ids appended in order. */
  function Write(c: Collection, batch: seq<Entry>): (r: Result<Collection, StoreError>)
    ensures r.Failure? <==> !Distinct(Ids(batch))
    ensures r.Success? ==> r.value.order == c.order + Ids(batch)
    ensures r.Success? ==> r.value.docs.Keys == c.docs.Keys + Elements(Ids(batch))
    ensures r.Success? ==> forall k :: 0 <= k < |batch| ==> r.value.docs[batch[k].id] == batch[k].document
    ensures r.Success? ==> forall id :: id in c.docs && id !in Elements(Ids(batch)) ==> r.value.docs[id] == c.docs[id]
  {
    if Distinct(Ids(batch)) then Success(Collection(c.docs + BatchMap(batch), c.order + Ids(batch)))
    else Failure(DuplicateIdsInBatch(Ids(batch)))
  }

  /** Writing entries whose ids are new keeps the order listing every stored id once. */
  lemma WriteKeepsValid(c: Collection, batch: seq<Entry>)
    requires Valid(c)
    requires Distinct(Ids(batch))
    requires Elements(Ids(batch)) !! c.docs.Keys
    ensures Valid(Write(c, batch).value)
  {
    DistinctConcat(c.order, Ids(batch));
    ElementsConcat(c.order, Ids(batch));
  }

  /** `add_documents`: assign ids, drop the documents whose id is already
      stored (the stored ids are read once, before filtering), and write the
      survivors in input order. With no document, or no survivor, it returns
      before writing or persisting anything. */
  function AddDocuments(c: Collection, docs: seq<Document>, uuids: seq<string>): (r: Result<AddOutcome, StoreError>)
    requires |uuids| == |docs|
    ensures |docs| == 0 ==> r == Success(AddOutcome(c, []))
    ensures r.Success? ==> r.value.written == NewEntries(Zip(docs, AssignIds(docs, uuids)), c.docs.Keys)
    ensures r.Failure? <==> !Distinct(Ids(NewEntries(Zip(docs, AssignIds(docs, uuids)), c.docs.Keys)))
    ensures r.Success? && r.value.written == [] ==> r.value.collection == c
    ensures r.Success? ==> r.value.collection.order == c.order + Ids(r.value.written)
    ensures r.Success? ==> r.value.collection.docs.Keys == c.docs.Keys + Elements(Ids(r.value.written))
    ensures r.Success? ==> forall id :: id in c.docs ==> r.value.collection.docs[id] == c.docs[id]
    ensures r.Success? ==> forall k :: 0 <= k < |r.value.written| ==>
              r.value.written[k].id !in c.docs
              && r.value.collection.docs[r.value.written[k].id] == r.value.written[k].document
    ensures Valid(c) && r.Success? ==> Valid(r.value.collection)
  {
    if |docs| == 0 then Success(AddOutcome(c, []))
    else
      var survivors := NewEntries(Zip(docs, AssignIds(docs, uuids)), c.docs.Keys);
      if |survivors| == 0 then
        assert Distinct(Ids(survivors));
        Success(AddOutcome(c, []))
      else if Distinct(Ids(survivors)) then
        SurvivorsAreNew(c, survivors);
        WriteNewEntries(c, survivors);
        Success(AddOutcome(Write(c, survivors).value, survivors))
      else
        Failure(Write(c, survivors).error)
  }

  lemma SurvivorsAreNew(c: Collection, survivors: seq<Entry>)
    requires forall e :: e in survivors ==> e.id !in c.docs.Keys
    ensures forall k :: 0 <= k < |survivors| ==> survivors[k].id !in c.docs
  {
    forall k | 0 <= k < |survivors| ensures survivors[k].id !in c.docs {
      assert survivors[k] in survivors;
    }
  }

  /** Writing a batch of new, pairwise-distinct ids: the ids are appended,
      old entries stay, each new id holds its document, and validity is kept. */
  lemma WriteNewEntries(c: Collection, batch: seq<Entry>)
    requires Distinct(Ids(batch))
    requires forall k :: 0 <= k < |batch| ==> batch[k].id !in c.docs
    ensures Write(c, batch).Success?
    ensures var c' := Write(c, batch).value;
            && c'.order == c.order + Ids(batch)
            && c'.docs.Keys == c.docs.Keys + Elements(Ids(batch))
            && (forall id :: id in c.docs ==> c'.docs[id] == c.docs[id])
            && (forall k :: 0 <= k < |batch| ==> c'.docs[batch[k].id] == batch[k].document)
            && (Valid(c) ==> Valid(c'))
  {
    if Valid(c) {
      WriteKeepsValid(c, batch);
    }
  }

  /** An existing entry is never overwritten: after any successful add, every
      id stored before maps to the same document. */
  lemma NoOverwrite(c: Collection, docs: seq<Document>, uuids: seq<string>, id: string)
    requires |uuids| == |docs|
    requires id in c.docs
    ensures AddDocuments(c, docs, uuids).Success? ==>
              && id in AddDocuments(c, docs, uuids).value.collection.docs
              && AddDocuments(c, docs, uuids).value.collection.docs[id] == c.docs[id]
  {
  }

  /** When every document's id is already stored, nothing is written or persisted. */
  lemma AllPresentWritesNothing(c: Collection, docs: seq<Document>, uuids: seq<string>)
    requires |uuids| == |docs|
    requires forall i :: 0 <= i < |docs| ==> DocumentId(docs[i], uuids[i]) in c.docs
    ensures AddDocuments(c, docs, uuids) == Success(AddOutcome(c, []))
  {
    NewEntriesAllPresent(Zip(docs, AssignIds(docs, uuids)), c.docs.Keys);
  }

  /** Idempotence: adding a batch whose documents carry their own pairwise
      distinct ids succeeds, and adding it again changes nothing and writes nothing. */
  lemma AddTwiceIsAddOnce(c: Collection, docs: seq<Document>, uuids1: seq<string>, uuids2: seq<string>)
    requires |uuids1| == |docs| && |uuids2| == |docs|
    requires forall i :: 0 <= i < |docs| ==> HasExplicitId(docs[i])
    requires Distinct(AssignIds(docs, uuids1))
    ensures AddDocuments(c, docs, uuids1).Success?
    ensures var c1 := AddDocuments(c, docs, uuids1).value.collection;
            AddDocuments(c1, docs, uuids2) == Success(AddOutcome(c1, []))
  {
    DistinctIdsAddSucceeds(c, docs, uuids1);
    var c1 := AddDocuments(c, docs, uuids1).value.collection;
    AddStoresEveryId(c, docs, uuids1);
    ExplicitIdsIgnoreUuids(docs, uuids1, uuids2);
    AllPresentWritesNothing(c1, docs, uuids2);
  }

  /** Documents that all carry their own ids get the same ids whatever fresh ids are offered. */
  lemma ExplicitIdsIgnoreUuids(docs: seq<Document>, uuids1: seq<string>, uuids2: seq<string>)
    requires |uuids1| == |docs| && |uuids2| == |docs|
    requires forall i :: 0 <= i < |docs| ==> HasExplicitId(docs[i])
    ensures forall i :: 0 <= i < |docs| ==> DocumentId(docs[i], uuids2[i]) == DocumentId(docs[i], uuids1[i])
  {
  }

  /** A batch whose ids are pairwise distinct is never refused. */
  lemma DistinctIdsAddSucceeds(c: Collection, docs: seq<Document>, uuids: seq<string>)
    requires |uuids| == |docs|
    requires Distinct(AssignIds(docs, uuids))
    ensures AddDocuments(c, docs, uuids).Success?
  {
    var batch := Zip(docs, AssignIds(docs, uuids));
    assert Ids(batch) == AssignIds(docs, uuids);
    NewEntriesDistinct(batch, c.docs.Keys);
  }

  /** After a successful add, every document's id is stored: it was stored
      before, or it was written. */
  lemma AddStoresEveryId(c: Collection, docs: seq<Document>, uuids: seq<string>)
    requires |uuids| == |docs|
    ensures AddDocuments(c, docs, uuids).Success? ==>
              forall i :: 0 <= i < |docs| ==>
                DocumentId(docs[i], uuids[i]) in AddDocuments(c, docs, uuids).value.collection.docs
  {
    if AddDocuments(c, docs, uuids).Failure? {
      return;
    }
    var ids := AssignIds(docs, uuids);
    var batch := Zip(docs, ids);
    var first := AddDocuments(c, docs, uuids).value;
    forall i | 0 <= i < |docs|
      ensures DocumentId(docs[i], uuids[i]) in first.collection.docs
    {
      if ids[i] !in c.docs {
        assert batch[i] in batch;
        assert batch[i] in first.written;
        var k :| 0 <= k < |first.written| && first.written[k] == batch[i];
      }
    }
  }

  lemma RepeatAfterHead(x: string, rest: seq<string>, k: nat)
    requires k < |rest| && rest[k] == x
    ensures !Distinct([x] + rest)
  {
    var s := [x] + rest;
    assert s[0] == x && s[k + 1] == x;
    assert 0 < k + 1 < |s|;
  }

  lemma RepeatInTail(x: string, rest: seq<string>)
    requires !Distinct(rest)
    ensures !Distinct([x] + rest)
  {
    var a, b :| 0 <= a < b < |rest| && rest[a] == rest[b];
    assert ([x] + rest)[a + 1] == ([x] + rest)[b + 1];
  }

  /** One step of the filter: the head is kept in front when its id is new. */
  lemma NewEntriesStep(batch: seq<Entry>, existing: set<string>)
    requires |batch| > 0 && batch[0].id !in existing
    ensures Ids(NewEntries(batch, existing)) == [batch[0].id] + Ids(NewEntries(batch[1..], existing))
  {
    var rest := NewEntries(batch[1..], existing);
    assert NewEntries(batch, existing) == [batch[0]] + rest;
    IdsCons(batch[0], rest);
  }

  lemma IdsCons(e: Entry, rest: seq<Entry>)
    ensures Ids([e] + rest) == [e.id] + Ids(rest)
  {
    var l, r := Ids([e] + rest), [e.id] + Ids(rest);
    assert |l| == |r|;
    forall k | 0 <= k < |l| ensures l[k] == r[k] {
      if k > 0 {
        assert ([e] + rest)[k] == rest[k - 1];
      }
    }
  }

  /** A later entry repeating the head's new id survives the filter, next to the head. */
  lemma HeadRepeatKept(batch: seq<Entry>, existing: set<string>, j: nat)
    requires 0 < j < |batch|
    requires batch[0].id == batch[j].id && batch[0].id !in existing
    ensures !Distinct(Ids(NewEntries(batch, existing)))
  {
    var rest := NewEntries(batch[1..], existing);
    assert batch[1..][j - 1] == batch[j];
    assert batch[j] in rest;
    var k :| 0 <= k < |rest| && rest[k] == batch[j];
    assert Ids(rest)[k] == batch[0].id;
    NewEntriesStep(batch, existing);
    RepeatAfterHead(batch[0].id, Ids(rest), k);
  }

  /** Two entries of one batch with the same new id are both kept. */
  lemma {:induction false} NewEntriesKeepsBatchDuplicates(batch: seq<Entry>, existing: set<string>, i: nat, j: nat)
    requires i < j < |batch|
    requires batch[i].id == batch[j].id
    requires batch[i].id !in existing
    ensures !Distinct(Ids(NewEntries(batch, existing)))
    decreases i
  {
    if i == 0 {
      HeadRepeatKept(batch, existing, j);
    } else {
      var tail := batch[1..];
      assert tail[i - 1] == batch[i] && tail[j - 1] == batch[j];
      NewEntriesKeepsBatchDuplicates(tail, existing, i - 1, j - 1);
      if batch[0].id !in existing {
        NewEntriesStep(batch, existing);
        RepeatInTail(batch[0].id, Ids(NewEntries(tail, existing)));
      }
    }
  }

  /** The stored ids are read once, before the loop: two documents of one
      batch that share a new id both pass the filter, and the write then
      refuses the batch. */
  lemma SameBatchDuplicatesReachTheWrite(c: Collection, docs: seq<Document>, uuids: seq<string>, i: nat, j: nat)
    requires |uuids| == |docs|
    requires i < j < |docs|
    requires DocumentId(docs[i], uuids[i]) == DocumentId(docs[j], uuids[j])
    requires DocumentId(docs[i], uuids[i]) !in c.docs
    ensures AddDocuments(c, docs, uuids).Failure?
  {
    NewEntriesKeepsBatchDuplicates(Zip(docs, AssignIds(docs, uuids)), c.docs.Keys, i, j);
  }

  /** Inserting `{id: "a", text: "x"}` and then
      `{id: "a", text: "y"}` leaves the text stored under "a" as "x". */
  lemma SecondInsertIsNoOp()
    ensures var first := AddDocuments(EmptyCollection, [Document("x", map["id" := Str("a")])], ["u1"]);
            && first.Success?
            && var second := AddDocuments(first.value.collection, [Document("y", map["id" := Str("a")])], ["u2"]);
            && second.Success?
            && second.value.written == []
            && second.value.collection.docs["a"].text == "x"
  {
    var d1 := Document("x", map["id" := Str("a")]);
    var d2 := Document("y", map["id" := Str("a")]);
    assert AssignIds([d1], ["u1"]) == ["a"];
    assert Zip([d1], ["a"]) == [Entry("a", d1)];
    assert NewEntries([Entry("a", d1)], {}) == [Entry("a", d1)];
    assert Distinct(Ids([Entry("a", d1)]));
    var c1 := AddDocuments(EmptyCollection, [d1], ["u1"]).value.collection;
    assert c1.docs["a"] == d1;
    AllPresentWritesNothing(c1, [d2], ["u2"]);
  }

  /** The nearest-neighbour search: for the current collection, a query text
      and a breadth `k`, the ranked (document, score) pairs. */
  type Search = (Collection, string, int) -> seq<(Document, Score)>

  /** `query`: a non-positive `k` gives no result without consulting the
      search; otherwise one `RagResult` per search hit, in the search's order,
      with its score passed through. */
  function Query(c: Collection, search: Search, text: string, k: int): (r: seq<RagResult>)
    ensures k <= 0 ==> r == []
    ensures k > 0 ==> |r| == |search(c, text, k)|
    ensures k > 0 ==> forall i :: 0 <= i < |r| ==>
              r[i].document == search(c, text, k)[i].0 && r[i].score == search(c, text, k)[i].1
  {
    if k <= 0 then []
    else
      var hits := search(c, text, k);
      seq(|hits|, i requires 0 <= i < |hits| => RagResult(hits[i].0, hits[i].1))
  }

  /** The guard keeps the search's breadth monotonicity: if the search for a
      smaller `k` returns a prefix of the search for a larger one, so does `Query`. */
  lemma QueryPrefixMonotone(c: Collection, search: Search, text: string, k1: int, k2: int)
    requires k1 <= k2
    requires k1 > 0 ==> search(c, text, k1) <= search(c, text, k2)
    ensures Query(c, search, text, k1) <= Query(c, search, text, k2)
  {
  }

  /** A non-positive `k` never depends on the search. */
  lemma QueryNonPositiveIgnoresSearch(c: Collection, s1: Search, s2: Search, text: string, k: int)
    requires k <= 0
    ensures Query(c, s1, text, k) == Query(c, s2, text, k) == []
  {
  }
}
