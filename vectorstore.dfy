/**
 * get_retriever (src/vectorstore.py:8-66): queues the given Documents,
 * converts each extracted item into a Document whose metadata is the
 * item's own dict updated in place, adds the whole batch to the Chroma
 * collection in one call when it is not empty, and returns a retriever
 * that fetches the 2 nearest documents.
 *
 * The embedding model and nearest-neighbour search are opaque; the store
 * is the documents each collection holds.
 */
module VectorStore {
  import opened PyCore
  import opened Metadata
  import opened LangChain

  /** search_kwargs={"k": 2}. */
  const RetrieverK: nat := 2

  /** item.get("content")[:5000]. */
  const RawContentLimit: nat := 5000

  /** The identity of a Python metadata dict. */
  type DictId = nat

  /** The metadata dicts the extracted items refer to, by identity: two
      items holding the same id share one dict, and a write through one is
      seen through the other. */
  class DictHeap {
    var dicts: map<DictId, map<string, Value>>
  }

  /** An extracted item: its top-level keys ("summary", "content", "type",
      "image_path", ...) and the id of its "metadata" dict, if it has one. */
  datatype Item = Item(fields: map<string, Value>, metadata: Option<DictId>)

  /** The persist directory: the documents of each collection. */
  class ChromaStore {
    var collections: map<string, seq<Document>>
    var addCalls: nat

    /** vectorstore.add_documents(docs) on one collection. */
    method AddDocuments(collection: string, docs: seq<Document>)
      modifies this
      ensures collections == Appended(old(collections), collection, docs)
      ensures addCalls == old(addCalls) + 1
    {
      collections := Appended(collections, collection, docs);
      addCalls := addCalls + 1;
    }
  }

  function Appended(cols: map<string, seq<Document>>, name: string, docs: seq<Document>): map<string, seq<Document>>
  {
    cols[name := (if name in cols then cols[name] else []) + docs]
  }

  /** vectorstore.as_retriever(search_kwargs={"k": k}) on one collection. */
  datatype Retriever = Retriever(collection: string, k: nat)

  /** Why a conversion raised, with the index of the offending item:
      slicing a content that is missing or not a sequence (TypeError), or
      a chosen page content that is not a string (Document validation). */
  datatype ConvertError = ContentNotSliceable(index: nat) | PageContentNotText(index: nat)

  /** The state of the conversion: the contents of every shared dict, the
      queued documents, and the error that stopped it, if any. A queued
      Document holds its own copy of the metadata dict, taken when the
      Document is validated, so later writes to a shared dict do not reach it. */
  datatype Outcome = Outcome(heap: map<DictId, map<string, Value>>, pending: seq<Document>, error: Option<ConvertError>)

  // ---------------------------------------------------------------------
  // Conversion of one item

  function Get(fields: map<string, Value>, key: string): Value
  {
    if key in fields then fields[key] else NoneValue
  }

  /** item.get("summary") if item.get("summary") else item.get("content"). */
  function ChosenContent(fields: map<string, Value>): (v: Value)
    ensures Truthy(Get(fields, "summary")) ==> v == Get(fields, "summary")
    ensures !Truthy(Get(fields, "summary")) ==> v == Get(fields, "content")
  {
    var summary := Get(fields, "summary");
    if Truthy(summary) then summary else Get(fields, "content")
  }

  /** An item that is converted rather than skipped. */
  predicate Converted(it: Item)
  {
    Truthy(ChosenContent(it.fields))
  }

  /** A converted item that raises nothing. */
  predicate WellFormed(it: Item)
  {
    SliceTo(Get(it.fields, "content"), RawContentLimit).Some? && ChosenContent(it.fields).Str?
  }

  /** The writes before the raw_content slice: "type", then "image_path"
      when the top-level value is truthy. */
  function Tagged(base: map<string, Value>, fields: map<string, Value>): map<string, Value>
  {
    var m := base["type" := Get(fields, "type")];
    var ip := Get(fields, "image_path");
    if Truthy(ip) then m["image_path" := Str(PyStr(ip))] else m
  }

  /** The dict after all three writes, for an item whose content slices. */
  function Updated(base: map<string, Value>, fields: map<string, Value>): map<string, Value>
    requires SliceTo(Get(fields, "content"), RawContentLimit).Some?
  {
    Tagged(base, fields)["raw_content" := SliceTo(Get(fields, "content"), RawContentLimit).value]
  }

  function Read(heap: map<DictId, map<string, Value>>, d: DictId): map<string, Value>
  {
    if d in heap then heap[d] else map[]
  }

  /** One pass of the loop body on item number `index`. */
  function Step(o: Outcome, it: Item, index: nat): Outcome
  {
    var chosen := ChosenContent(it.fields);
    if !Truthy(chosen) then o
    else
      var base := if it.metadata.Some? then Read(o.heap, it.metadata.value) else map[];
      var tagged := Tagged(base, it.fields);
      var raw := SliceTo(Get(it.fields, "content"), RawContentLimit);
      if raw.None? then
        var heap := if it.metadata.Some? then o.heap[it.metadata.value := tagged] else o.heap;
        Outcome(heap, o.pending, Some(ContentNotSliceable(index)))
      else
        var final := tagged["raw_content" := raw.value];
        var heap := if it.metadata.Some? then o.heap[it.metadata.value := final] else o.heap;
        if !chosen.Str? then Outcome(heap, o.pending, Some(PageContentNotText(index)))
        else
          Outcome(heap, o.pending + [Document(chosen.s, final)], None)
  }

  /** The conversion loop over items, from the given dict contents. */
  function Convert(items: seq<Item>, heap: map<DictId, map<string, Value>>): Outcome
    decreases |items|
  {
    if items == [] then Outcome(heap, [], None)
    else
      var o := Convert(items[..|items| - 1], heap);
      if o.error.Some? then o else Step(o, items[|items| - 1], |items| - 1)
  }

  // ---------------------------------------------------------------------
  // get_retriever

  method GetRetriever(store: ChromaStore, heap: DictHeap, extracted: seq<Item>, documents: seq<Document>,
                      collection: string, reset: bool)
    returns (r: Result<Retriever, ConvertError>)
    modifies store, heap
    ensures var out := Convert(extracted, old(heap.dicts));
      && heap.dicts == out.heap
      && var base := if reset then map[] else old(store.collections);
      if out.error.Some? then
        r == Err(out.error.value) && store.collections == base && store.addCalls == old(store.addCalls)
      else
        var batch := documents + out.pending;
        && r == Ok(Retriever(collection, RetrieverK))
        && store.collections == (if batch == [] then base else Appended(base, collection, batch))
        && store.addCalls == old(store.addCalls) + (if batch == [] then 0 else 1)
  {
    ghost var heap0 := heap.dicts;
    if reset {
      store.collections := map[];
    }
    var docsToAdd: seq<Document> := [];
    if documents != [] {
      docsToAdd := docsToAdd + documents;
    }
    var pending: seq<Document> := [];
    ghost var o := Convert([], heap0);
    var i := 0;
    while i < |extracted|
      invariant 0 <= i <= |extracted|
      invariant o == Convert(extracted[..i], heap0) && o.error.None? && o.pending == pending
      invariant heap.dicts == o.heap
      invariant docsToAdd == documents
      invariant store.collections == (if reset then map[] else old(store.collections))
      invariant store.addCalls == old(store.addCalls)
    {
      var item := extracted[i];
      ConvertStep(extracted, i, heap0);
      var queued, err;
      queued, err, o := ConvertItem(heap, item, i, o);
      if err.Some? {
        r := Err(err.value);
        PrefixError(extracted, i + 1, heap0);
        return;
      }
      if queued.Some? {
        pending := pending + [queued.value];
      }
      i := i + 1;
    }
    assert extracted[..i] == extracted;
    docsToAdd := docsToAdd + pending;
    if docsToAdd != [] {
      store.AddDocuments(collection, docsToAdd);
    }
    r := Ok(Retriever(collection, RetrieverK));
  }

  /** The loop body of the extracted_data branch on item number `index`.
      The dict writes are made on `meta` and stored back into the item's
      dict wherever the body can leave, which is what the dict holds at
      that point in `get_retriever`. */
  method ConvertItem(heap: DictHeap, item: Item, index: nat, ghost o: Outcome)
    returns (queued: Option<Document>, err: Option<ConvertError>, ghost o': Outcome)
    requires heap.dicts == o.heap && o.error.None?
    modifies heap
    ensures o' == Step(o, item, index)
    ensures err == o'.error && heap.dicts == o'.heap
    ensures err.None? ==> o'.pending == o.pending + (if queued.Some? then [queued.value] else [])
  {
    o' := Step(o, item, index);
    var pageContent := ChosenContent(item.fields);
    if !Truthy(pageContent) {
      assert o.pending + [] == o.pending;
      return None, None, o';
    }
    var meta := if item.metadata.Some? then Read(heap.dicts, item.metadata.value) else map[];
    meta := meta["type" := Get(item.fields, "type")];
    var ip := Get(item.fields, "image_path");
    if Truthy(ip) {
      meta := meta["image_path" := Str(PyStr(ip))];
    }
    var raw := SliceTo(Get(item.fields, "content"), RawContentLimit);
    if raw.None? {
      if item.metadata.Some? {
        heap.dicts := heap.dicts[item.metadata.value := meta];
      }
      return None, Some(ContentNotSliceable(index)), o';
    }
    meta := meta["raw_content" := raw.value];
    if item.metadata.Some? {
      heap.dicts := heap.dicts[item.metadata.value := meta];
    }
    if !pageContent.Str? {
      return None, Some(PageContentNotText(index)), o';
    }
    queued := Some(Document(pageContent.s, meta));
    err := None;
  }

  lemma ConvertStep(items: seq<Item>, i: nat, heap: map<DictId, map<string, Value>>)
    requires i < |items|
    ensures var o := Convert(items[..i], heap);
      Convert(items[..i + 1], heap) == if o.error.Some? then o else Step(o, items[i], i)
  {
    assert items[..i + 1][..i] == items[..i];
  }

  /** Once the conversion of a prefix raised, the whole conversion ends in
      that same state. */
  lemma {:induction false} PrefixError(items: seq<Item>, n: nat, heap: map<DictId, map<string, Value>>)
    requires n <= |items| && Convert(items[..n], heap).error.Some?
    ensures Convert(items, heap) == Convert(items[..n], heap)
    decreases |items| - n
  {
    if n < |items| {
      assert items[..n + 1][..n] == items[..n];
      PrefixError(items, n + 1, heap);
    } else {
      assert items[..n] == items;
    }
  }

  // ---------------------------------------------------------------------
  // Properties of the conversion

  /** The converted items, in input order. */
  function ConvertedItems(items: seq<Item>): seq<Item>
    decreases |items|
  {
    if items == [] then []
    else ConvertedItems(items[..|items| - 1]) + (if Converted(items[|items| - 1]) then [items[|items| - 1]] else [])
  }

  /** Without an error, exactly the items with truthy chosen content are
      queued, in input order, each with its chosen content as page content. */
  lemma {:induction false} ConvertQueuesConvertedItems(items: seq<Item>, heap: map<DictId, map<string, Value>>)
    ensures var out := Convert(items, heap);
      out.error.None? ==>
        && |out.pending| == |ConvertedItems(items)|
        && forall k :: 0 <= k < |out.pending| ==>
             var it := ConvertedItems(items)[k];
             ChosenContent(it.fields) == Str(out.pending[k].pageContent)
    decreases |items|
  {
    if items != [] {
      ConvertQueuesConvertedItems(items[..|items| - 1], heap);
    }
  }

  /** The conversion raises iff some converted item is not well formed. */
  lemma {:induction false} ConvertRaisesIffIllFormed(items: seq<Item>, heap: map<DictId, map<string, Value>>)
    ensures Convert(items, heap).error.None? <==>
      forall i :: 0 <= i < |items| && Converted(items[i]) ==> WellFormed(items[i])
    decreases |items|
  {
    if items != [] {
      var init := items[..|items| - 1];
      ConvertRaisesIffIllFormed(init, heap);
      assert forall i :: 0 <= i < |init| ==> init[i] == items[i];
    }
  }

  /** The error names the first converted item that is not well formed: a
      content that does not slice raises before a page content that is
      not a string. */
  lemma {:induction false} ConvertErrorIsFirstIllFormed(items: seq<Item>, heap: map<DictId, map<string, Value>>)
    ensures var out := Convert(items, heap);
      out.error.Some? ==>
        var j := out.error.value.index;
        && j < |items| && Converted(items[j]) && !WellFormed(items[j])
        && (out.error.value.ContentNotSliceable? <==> SliceTo(Get(items[j].fields, "content"), RawContentLimit).None?)
        && forall i :: 0 <= i < j && Converted(items[i]) ==> WellFormed(items[i])
    decreases |items|
  {
    if items != [] {
      var init := items[..|items| - 1];
      ConvertErrorIsFirstIllFormed(init, heap);
      ConvertRaisesIffIllFormed(init, heap);
      assert forall i :: 0 <= i < |init| ==> init[i] == items[i];
    }
  }

  /** A dict no item refers to is left as it was. */
  lemma {:induction false} ConvertTouchesOnlyItemDicts(items: seq<Item>, heap: map<DictId, map<string, Value>>, id: DictId)
    requires forall j :: 0 <= j < |items| ==> items[j].metadata != Some(id)
    ensures Read(Convert(items, heap).heap, id) == Read(heap, id)
    decreases |items|
  {
    if items != [] {
      ConvertTouchesOnlyItemDicts(items[..|items| - 1], heap, id);
    }
  }

  /** No two items share a metadata dict. */
  predicate DistinctDicts(items: seq<Item>)
  {
    forall i, j :: 0 <= i < j < |items| && items[i].metadata.Some? ==> items[j].metadata != items[i].metadata
  }

  /** When no dict is shared, each item's dict ends up updated from its
      own original contents if the item was converted, and untouched if it
      was skipped. */
  lemma {:induction false} ConvertUpdatesOwnDict(items: seq<Item>, heap: map<DictId, map<string, Value>>)
    requires DistinctDicts(items)
    requires forall i :: 0 <= i < |items| && Converted(items[i]) ==> WellFormed(items[i])
    ensures forall i :: 0 <= i < |items| && items[i].metadata.Some? ==>
      var id := items[i].metadata.value;
      && (Converted(items[i]) ==>
            WellFormed(items[i]) && Read(Convert(items, heap).heap, id) == Updated(Read(heap, id), items[i].fields))
      && (!Converted(items[i]) ==> Read(Convert(items, heap).heap, id) == Read(heap, id))
    decreases |items|
  {
    ConvertRaisesIffIllFormed(items, heap);
    if items != [] {
      var n := |items| - 1;
      var init := items[..n];
      var last := items[n];
      assert forall i :: 0 <= i < n ==> init[i] == items[i];
      ConvertRaisesIffIllFormed(init, heap);
      ConvertUpdatesOwnDict(init, heap);
      if last.metadata.Some? {
        ConvertTouchesOnlyItemDicts(init, heap, last.metadata.value);
      }
    }
  }

  /** The in-place update of one dict: "type" is the item's type (None when
      absent), "image_path" is the stringified top-level value when that is
      truthy and otherwise stays as it was, "raw_content" is the first 5000
      elements of the content, and every other key is kept. */
  lemma UpdatedMetadata(base: map<string, Value>, fields: map<string, Value>)
    requires SliceTo(Get(fields, "content"), RawContentLimit).Some?
    ensures var r := Updated(base, fields);
      var ip, content := Get(fields, "image_path"), Get(fields, "content");
      && "type" in r && r["type"] == Get(fields, "type")
      && (Truthy(ip) ==> "image_path" in r && r["image_path"] == Str(PyStr(ip)))
      && (!Truthy(ip) ==> ("image_path" in r <==> "image_path" in base)
                          && ("image_path" in base ==> r["image_path"] == base["image_path"]))
      && "raw_content" in r
      && (content.Str? ==> r["raw_content"].Str? && StartsWith(content.s, r["raw_content"].s)
                           && |r["raw_content"].s| == Min(|content.s|, RawContentLimit))
      && (forall k :: k != "type" && k != "image_path" && k != "raw_content" ==>
            (k in r <==> k in base) && (k in base ==> r[k] == base[k]))
  {
  }

  /** A truthy top-level list of paths is stored as a string that the
      prompt builder decodes back to the same list. */
  lemma TopLevelPathsRoundTrip(base: map<string, Value>, fields: map<string, Value>, paths: seq<string>)
    requires SliceTo(Get(fields, "content"), RawContentLimit).Some?
    requires Get(fields, "image_path") == StrList(paths) && paths != []
    ensures DecodeImagePaths(ImagePathValue(Updated(base, fields))) == paths
  {
    UpdatedMetadata(base, fields);
    DecodeRoundTrip(paths);
  }

  /** A list kept under the dict's own "image_path" (no top-level key) is
      left a list, and the prompt builder uses it as it is. */
  lemma NestedPathsKeptAsList(base: map<string, Value>, fields: map<string, Value>, paths: seq<string>)
    requires SliceTo(Get(fields, "content"), RawContentLimit).Some?
    requires "image_path" !in fields
    requires "image_path" in base && base["image_path"] == StrList(paths)
    ensures Updated(base, fields)["image_path"] == StrList(paths)
    ensures DecodeImagePaths(ImagePathValue(Updated(base, fields))) == paths
  {
    UpdatedMetadata(base, fields);
  }

  /** Two converted items sharing one dict: the second item's writes start
      from the dict as the first item left it, and each Document holds the
      dict as its own item left it. */
  lemma SharedDictSeenByBoth(f1: map<string, Value>, f2: map<string, Value>, id: DictId,
                             heap: map<DictId, map<string, Value>>)
    requires Truthy(ChosenContent(f1)) && Truthy(ChosenContent(f2))
    requires WellFormed(Item(f1, Some(id))) && WellFormed(Item(f2, Some(id)))
    ensures var out := Convert([Item(f1, Some(id)), Item(f2, Some(id))], heap);
      && out.error.None? && |out.pending| == 2
      && out.pending[0].metadata == Updated(Read(heap, id), f1)
      && out.pending[1].metadata == Updated(Updated(Read(heap, id), f1), f2)
      && Read(out.heap, id) == out.pending[1].metadata
      && out.pending[0].metadata["type"] == Get(f1, "type")
      && out.pending[1].metadata["type"] == Get(f2, "type")
  {
    var items := [Item(f1, Some(id)), Item(f2, Some(id))];
    assert items[..1] == [Item(f1, Some(id))];
    assert items[..1][..0] == [];
    assert Convert(items[..1][..0], heap) == Outcome(heap, [], None);
    var o1 := Convert(items[..1], heap);
    assert o1 == Step(Outcome(heap, [], None), items[0], 0);
    assert o1.heap == heap[id := Updated(Read(heap, id), f1)];
    var out := Convert(items, heap);
    assert out == Step(o1, items[1], 1);
    UpdatedMetadata(Read(heap, id), f1);
    UpdatedMetadata(Updated(Read(heap, id), f1), f2);
  }

  /** When no dict is shared and nothing raises, the queued Documents are
      exactly the converted items, in order, each holding its chosen content
      and its own dict (a fresh one when it has none) after the three writes. */
  lemma {:induction false} ConvertDocumentsHoldOwnUpdate(items: seq<Item>, heap: map<DictId, map<string, Value>>)
    requires DistinctDicts(items)
    requires forall i :: 0 <= i < |items| && Converted(items[i]) ==> WellFormed(items[i])
    ensures var out := Convert(items, heap);
      && out.error.None?
      && |out.pending| == |ConvertedItems(items)|
      && forall k :: 0 <= k < |out.pending| ==>
           var it := ConvertedItems(items)[k];
           var base := if it.metadata.Some? then Read(heap, it.metadata.value) else map[];
           WellFormed(it) && out.pending[k] == Document(ChosenContent(it.fields).s, Updated(base, it.fields))
    decreases |items|
  {
    ConvertRaisesIffIllFormed(items, heap);
    if items != [] {
      var n := |items| - 1;
      var init := items[..n];
      var last := items[n];
      assert forall i :: 0 <= i < n ==> init[i] == items[i];
      ConvertDocumentsHoldOwnUpdate(init, heap);
      if last.metadata.Some? {
        ConvertTouchesOnlyItemDicts(init, heap, last.metadata.value);
      }
    }
  }
}
