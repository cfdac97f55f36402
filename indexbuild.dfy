/**
 * The control flow of `build_and_persist_index` (bot.py): walk the entries
 * of `input/`, load each regular file on its own so that a failing file only
 * drops out, and persist one index over all loaded documents, unless there
 * is nothing to index. Embedding and index construction are opaque steps:
 * the model keeps which documents the index holds and in what order.
 */
module IndexBuild {
  import opened Wrappers

  /** One document a reader produced from a file. */
  datatype Document = Document(source: string, text: string)

  /** What loading one file gave: the exception it raised, or its documents. */
  datatype LoadOutcome = LoadFailed(error: string) | Loaded(docs: seq<Document>)

  /** One entry of `Path(DOCUMENTS_DIR).iterdir()`, with what loading it would give. */
  datatype Entry = NotAFile(name: string) | File(name: string, load: LoadOutcome)

  /** What `VectorStoreIndex.from_documents` builds, reduced to the documents it covers. */
  datatype VectorIndex = VectorIndex(documents: seq<Document>)

  /** The documents one entry adds to `documents`: none for a non-file or a failed load. */
  function Contribution(e: Entry): seq<Document> {
    match e
    case File(_, Loaded(docs)) => docs
    case _ => []
  }

  /** The documents the loading loop collects, entry by entry. */
  function LoadedDocuments(entries: seq<Entry>): seq<Document> {
    if entries == [] then [] else Contribution(entries[0]) + LoadedDocuments(entries[1..])
  }

  /** The number of documents all successfully loaded files produced. */
  function LoadedCount(entries: seq<Entry>): nat {
    if entries == [] then 0
    else
      (match entries[0] case File(_, Loaded(docs)) => |docs| case _ => 0)
      + LoadedCount(entries[1..])
  }

  /** The index directory: the index last persisted there, and how often it was written. */
  class IndexStore {
    var persisted: Option<VectorIndex>
    var writes: nat

    constructor (existing: Option<VectorIndex>)
      ensures persisted == existing && writes == 0
    {
      persisted := existing;
      writes := 0;
    }

    /** `index.storage_context.persist(persist_dir=INDEX_DIR)`. */
    method Persist(index: VectorIndex)
      modifies this
      ensures persisted == Some(index)
      ensures writes == old(writes) + 1
    {
      persisted := Some(index);
      writes := writes + 1;
    }
  }

  /** The loop over the directory's entries: skip non-files, swallow a failed load, extend with the rest. */
  method LoadDocuments(entries: seq<Entry>) returns (documents: seq<Document>)
    ensures documents == LoadedDocuments(entries)
  {
    documents := [];
    for i := 0 to |entries|
      invariant documents == LoadedDocuments(entries[..i])
    {
      LoadedDocumentsStep(entries, i);
      match entries[i]
      case NotAFile(_) =>
      case File(_, LoadFailed(_)) =>
      case File(_, Loaded(docs)) =>
        documents := documents + docs;
    }
    assert entries[..|entries|] == entries;
  }

  /**
   * The whole build. `dir` is `None` when `input/` is not a directory, else
   * its entries in listing order. An empty or missing directory, or a build in
   * which no document loads, returns `(None, 0)` and leaves the store alone;
   * otherwise the index over the loaded documents is persisted exactly once.
   */
  method BuildAndPersistIndex(dir: Option<seq<Entry>>, store: IndexStore) returns (index: Option<VectorIndex>, docCount: nat)
    modifies store
    ensures dir.None? || dir == Some([]) ==> index == None && docCount == 0
    ensures dir.Some? ==> docCount == |LoadedDocuments(dir.value)|
    ensures index.Some? <==> docCount > 0
    ensures index.Some? ==> index.value == VectorIndex(LoadedDocuments(dir.value))
    ensures index.None? ==> store.persisted == old(store.persisted) && store.writes == old(store.writes)
    ensures index.Some? ==> store.persisted == index && store.writes == old(store.writes) + 1
  {
    if dir.None? || dir.value == [] {
      return None, 0;
    }
    var documents := LoadDocuments(dir.value);
    docCount := |documents|;
    if docCount == 0 {
      return None, 0;
    }
    var built := VectorIndex(documents);
    store.Persist(built);
    index := Some(built);
  }

  // ---------------------------------------------------------------- properties

  lemma LoadedDocumentsStep(entries: seq<Entry>, i: nat)
    requires i < |entries|
    ensures LoadedDocuments(entries[..i + 1]) == LoadedDocuments(entries[..i]) + Contribution(entries[i])
  {
    assert entries[..i + 1] == entries[..i] + [entries[i]];
    LoadedDocumentsAppend(entries[..i], [entries[i]]);
    assert [entries[i]][1..] == [];
  }

  /** The documents of two runs of entries are those of the first followed by those of the second. */
  lemma {:induction false} LoadedDocumentsAppend(a: seq<Entry>, b: seq<Entry>)
    ensures LoadedDocuments(a + b) == LoadedDocuments(a) + LoadedDocuments(b)
    decreases |a|
  {
    if a == [] {
      assert a + b == b;
    } else {
      assert (a + b)[1..] == a[1..] + b;
      LoadedDocumentsAppend(a[1..], b);
    }
  }

  /** A non-file or a file whose load fails contributes nothing, and the files after it still count. */
  lemma SkippedEntryContributesNothing(a: seq<Entry>, e: Entry, b: seq<Entry>)
    requires e.NotAFile? || e.load.LoadFailed?
    ensures LoadedDocuments(a + [e] + b) == LoadedDocuments(a + b)
  {
    LoadedDocumentsAppend(a + [e], b);
    LoadedDocumentsAppend(a, [e]);
    LoadedDocumentsAppend(a, b);
    assert [e][1..] == [];
  }

  /** A successfully loaded file adds its documents at its place in the iteration order. */
  lemma LoadedFileInOrder(a: seq<Entry>, name: string, docs: seq<Document>, b: seq<Entry>)
    ensures LoadedDocuments(a + [File(name, Loaded(docs))] + b)
         == LoadedDocuments(a) + docs + LoadedDocuments(b)
  {
    var e := File(name, Loaded(docs));
    LoadedDocumentsAppend(a + [e], b);
    LoadedDocumentsAppend(a, [e]);
    assert [e][1..] == [];
  }

  /** The returned count is the total number of documents the successfully loaded files produced. */
  lemma {:induction false} CountIsTotal(entries: seq<Entry>)
    ensures |LoadedDocuments(entries)| == LoadedCount(entries)
    decreases |entries|
  {
    if entries != [] {
      CountIsTotal(entries[1..]);
    }
  }

  /** Nothing is indexed exactly when no entry is a file whose load produced a document. */
  lemma {:induction false} NothingLoadedIff(entries: seq<Entry>)
    ensures LoadedDocuments(entries) == [] <==> forall k :: 0 <= k < |entries| ==> Contribution(entries[k]) == []
    decreases |entries|
  {
    if entries != [] {
      NothingLoadedIff(entries[1..]);
      assert forall k :: 0 < k < |entries| ==> entries[1..][k - 1] == entries[k];
    }
  }
}
