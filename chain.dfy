/**
 * multimodal_prompt_builder (src/chain.py:12-80): turns the retrieved
 * documents and the question into a system message and one human message
 * whose first part is the numbered text context and whose other parts
 * are the documents' readable images, each once, in first-seen order.
 *
 * The file system is a Disk: the paths os.path.exists accepts, and the
 * paths whose read succeeds with the base64 text of their bytes (the
 * encoding itself is opaque).
 */
module Chain {
  import opened PyCore
  import opened Metadata
  import opened LangChain

  const SystemText: string :=
    "You are an assistant for question-answering tasks. \n"
    + "    Use the provided text context and attached images to answer the user's question.\n"
    + "    If you don't know the answer, just say that you don't know.\n"
    + "    Keep the answer concise.\n"
    + "    "

  const ImageUrlPrefix: string := "data:image/jpeg;base64,"

  datatype Disk = Disk(existing: set<string>, files: map<string, string>)

  /** A path the builder turns into an image part: non-empty, present,
      and read without error. */
  predicate Loadable(p: string, disk: Disk)
  {
    p != "" && p in disk.existing && p in disk.files
  }

  // ---------------------------------------------------------------------
  // The payload the builder produces

  function DocBlock(i: nat, d: Document): string
  {
    "\n[Document " + NatToString(i) + "]\n" + d.pageContent + "\n"
  }

  /** The "Context:" heading followed by the numbered renderings of the
      documents, in order. */
  function ContextText(docs: seq<Document>): string
    decreases |docs|
  {
    if docs == [] then "Context:\n" else ContextText(docs[..|docs| - 1]) + DocBlock(|docs| - 1, docs[|docs| - 1])
  }

  function PromptText(docs: seq<Document>, question: string): string
  {
    ContextText(docs) + "\n\nQuestion: " + question
  }

  /** The image paths one document names, decoded from its metadata. */
  function DocPaths(d: Document): seq<string>
  {
    DecodeImagePaths(ImagePathValue(d.metadata))
  }

  /** All decoded image paths of the documents, document by document. */
  function AllPaths(docs: seq<Document>): seq<string>
    decreases |docs|
  {
    if docs == [] then [] else AllPaths(docs[..|docs| - 1]) + DocPaths(docs[|docs| - 1])
  }

  /** The paths that become image parts: each loadable path the first
      time it is met. */
  function Emitted(paths: seq<string>, disk: Disk): seq<string>
    decreases |paths|
  {
    if paths == [] then []
    else
      var prev := Emitted(paths[..|paths| - 1], disk);
      var p := paths[|paths| - 1];
      if Loadable(p, disk) && p !in prev then prev + [p] else prev
  }

  function ImagePart(p: string, disk: Disk): Part
  {
    ImageUrlPart(ImageUrlPrefix + (if p in disk.files then disk.files[p] else ""))
  }

  function ImageParts(paths: seq<string>, disk: Disk): seq<Part>
    decreases |paths|
  {
    if paths == [] then [] else ImageParts(paths[..|paths| - 1], disk) + [ImagePart(paths[|paths| - 1], disk)]
  }

  /** The two messages the builder returns for these documents. */
  function Payload(docs: seq<Document>, question: string, disk: Disk): seq<Message>
  {
    [SystemMessage(SystemText),
     HumanMessage([TextPart(PromptText(docs, question))] + ImageParts(Emitted(AllPaths(docs), disk), disk))]
  }

  // ---------------------------------------------------------------------
  // The builder

  method BuildPrompt(docs: seq<Document>, question: string, disk: Disk) returns (messages: seq<Message>)
    ensures messages == Payload(docs, question, disk)
  {
    var contentParts: seq<Part> := [];
    var contextStr := "Context:\n";
    var processed: set<string> := {};
    var i := 0;
    while i < |docs|
      invariant 0 <= i <= |docs|
      invariant contextStr == ContextText(docs[..i])
      invariant Attached(AllPaths(docs[..i]), disk, contentParts, processed)
    {
      contextStr, contentParts, processed := AddDocument(docs, i, disk, contextStr, contentParts, processed);
      i := i + 1;
    }
    assert docs[..i] == docs;
    var finalTextPrompt := contextStr + "\n\nQuestion: " + question;
    contentParts := [TextPart(finalTextPrompt)] + contentParts;
    messages := [SystemMessage(SystemText), HumanMessage(contentParts)];
  }

  /** The image parts and the processed set after the given paths were met. */
  ghost predicate Attached(paths: seq<string>, disk: Disk, parts: seq<Part>, processed: set<string>)
  {
    && parts == ImageParts(Emitted(paths, disk), disk)
    && forall p :: p in processed <==> p in Emitted(paths, disk)
  }

  /** One pass of the outer loop: document i adds its numbered block to the
      context and attaches its images. */
  method AddDocument(docs: seq<Document>, i: nat, disk: Disk,
                     contextStr: string, parts0: seq<Part>, processed0: set<string>)
    returns (contextStr': string, contentParts: seq<Part>, processed: set<string>)
    requires i < |docs|
    requires contextStr == ContextText(docs[..i])
    requires Attached(AllPaths(docs[..i]), disk, parts0, processed0)
    ensures contextStr' == ContextText(docs[..i + 1])
    ensures Attached(AllPaths(docs[..i + 1]), disk, contentParts, processed)
  {
    var doc := docs[i];
    PrefixStep(docs, i);
    contextStr' := contextStr + DocBlock(i, doc);
    var imgPaths := DecodeImagePaths(ImagePathValue(doc.metadata));
    assert imgPaths == DocPaths(docs[i]);
    if imgPaths != [] {
      contentParts, processed := AttachImages(AllPaths(docs[..i]), imgPaths, disk, parts0, processed0);
    } else {
      assert AllPaths(docs[..i]) + imgPaths == AllPaths(docs[..i]);
      contentParts, processed := parts0, processed0;
    }
  }

  /** The inner loop of the builder: one document's image paths, each
      attached if it is non-empty, not yet attached, present and readable. */
  method AttachImages(ghost before: seq<string>, imgPaths: seq<string>, disk: Disk,
                      parts0: seq<Part>, processed0: set<string>)
    returns (contentParts: seq<Part>, processed: set<string>)
    requires forall p :: p in processed0 <==> p in Emitted(before, disk)
    requires parts0 == ImageParts(Emitted(before, disk), disk)
    ensures forall p :: p in processed <==> p in Emitted(before + imgPaths, disk)
    ensures contentParts == ImageParts(Emitted(before + imgPaths, disk), disk)
  {
    contentParts, processed := parts0, processed0;
    ghost var emitted := Emitted(before, disk);
    var j := 0;
    assert before + imgPaths[..0] == before;
    while j < |imgPaths|
      invariant 0 <= j <= |imgPaths|
      invariant emitted == Emitted(before + imgPaths[..j], disk)
      invariant forall p :: p in processed <==> p in emitted
      invariant contentParts == ImageParts(emitted, disk)
    {
      var imgPath := imgPaths[j];
      EmittedStep(before, imgPaths, j, disk);
      if imgPath != "" && imgPath !in processed && imgPath in disk.existing {
        if imgPath in disk.files {
          var imageData := disk.files[imgPath];
          ImagePartsStep(emitted, imgPath, disk);
          contentParts := contentParts + [ImageUrlPart(ImageUrlPrefix + imageData)];
          processed := processed + {imgPath};
          emitted := emitted + [imgPath];
        }
        // else: the read raised; the error is printed and the path is not marked
      }
      j := j + 1;
    }
    assert imgPaths[..j] == imgPaths;
  }

  lemma PrefixStep(docs: seq<Document>, i: nat)
    requires i < |docs|
    ensures ContextText(docs[..i + 1]) == ContextText(docs[..i]) + DocBlock(i, docs[i])
    ensures AllPaths(docs[..i + 1]) == AllPaths(docs[..i]) + DocPaths(docs[i])
  {
    assert docs[..i + 1][..i] == docs[..i];
  }

  lemma EmittedStep(before: seq<string>, paths: seq<string>, j: nat, disk: Disk)
    requires j < |paths|
    ensures var prev := Emitted(before + paths[..j], disk);
      Emitted(before + paths[..j + 1], disk)
        == if Loadable(paths[j], disk) && paths[j] !in prev then prev + [paths[j]] else prev
  {
    var s := before + paths[..j + 1];
    assert s[..|s| - 1] == before + paths[..j];
    assert s[|s| - 1] == paths[j];
  }

  lemma ImagePartsStep(e: seq<string>, p: string, disk: Disk)
    ensures ImageParts(e + [p], disk) == ImageParts(e, disk) + [ImagePart(p, disk)]
  {
    assert (e + [p])[..|e|] == e;
  }

  // ---------------------------------------------------------------------
  // Properties of the payload

  /** Emitted paths are distinct, and a path is emitted iff some document
      names it and it is loadable. */
  lemma {:induction false} EmittedDistinctAndComplete(paths: seq<string>, disk: Disk)
    ensures var r := Emitted(paths, disk);
      && (forall i, j :: 0 <= i < j < |r| ==> r[i] != r[j])
      && (forall p :: p in r <==> p in paths && Loadable(p, disk))
    decreases |paths|
  {
    if paths != [] {
      var init := paths[..|paths| - 1];
      EmittedDistinctAndComplete(init, disk);
      assert paths == init + [paths[|paths| - 1]];
    }
  }

  /** The position at which x first occurs in s. */
  function FirstIndex(s: seq<string>, x: string): (k: nat)
    requires x in s
    ensures k < |s| && s[k] == x && x !in s[..k]
    decreases |s|
  {
    if s[|s| - 1] == x && x !in s[..|s| - 1] then |s| - 1
    else
      assert s == s[..|s| - 1] + [s[|s| - 1]];
      var k := FirstIndex(s[..|s| - 1], x);
      assert s[..k] == s[..|s| - 1][..k];
      k
  }

  /** Image paths come out in the order of their first occurrence. */
  lemma {:induction false} EmittedInFirstSeenOrder(paths: seq<string>, disk: Disk)
    ensures var r := Emitted(paths, disk);
      forall i, j :: 0 <= i < j < |r| ==>
        r[i] in paths && r[j] in paths && FirstIndex(paths, r[i]) < FirstIndex(paths, r[j])
    decreases |paths|
  {
    if paths != [] {
      var init := paths[..|paths| - 1];
      var last := paths[|paths| - 1];
      var prev := Emitted(init, disk);
      var r := Emitted(paths, disk);
      EmittedInFirstSeenOrder(init, disk);
      EmittedDistinctAndComplete(init, disk);
      assert paths == init + [last];
      forall x | x in init ensures FirstIndex(paths, x) == FirstIndex(init, x) {
        FirstIndexOfPrefix(init, [last], x);
      }
      if Loadable(last, disk) && last !in prev {
        assert last !in init;
        assert FirstIndex(paths, last) == |init|;
      }
    }
  }

  lemma FirstIndexOfPrefix(a: seq<string>, b: seq<string>, x: string)
    requires x in a
    ensures x in a + b && FirstIndex(a + b, x) == FirstIndex(a, x)
  {
    var k, m := FirstIndex(a, x), FirstIndex(a + b, x);
    assert (a + b)[k] == x;
  }

  lemma {:induction false} ImagePartsAt(paths: seq<string>, disk: Disk)
    ensures |ImageParts(paths, disk)| == |paths|
    ensures forall k :: 0 <= k < |paths| ==> ImageParts(paths, disk)[k] == ImagePart(paths[k], disk)
    decreases |paths|
  {
    if paths != [] {
      ImagePartsAt(paths[..|paths| - 1], disk);
    }
  }

  /** The human message holds exactly one text part, at index 0, followed
      by one image part per emitted path and nothing else. */
  lemma PayloadShape(docs: seq<Document>, question: string, disk: Disk)
    ensures var m := Payload(docs, question, disk);
      var r := Emitted(AllPaths(docs), disk);
      && |m| == 2 && m[0] == SystemMessage(SystemText) && m[1].HumanMessage?
      && |m[1].parts| == 1 + |r|
      && m[1].parts[0] == TextPart(PromptText(docs, question))
      && (forall k :: 0 <= k < |r| ==> Loadable(r[k], disk))
      && (forall k :: 1 <= k < |m[1].parts| ==>
            m[1].parts[k] == ImageUrlPart(ImageUrlPrefix + disk.files[r[k - 1]]))
  {
    var r := Emitted(AllPaths(docs), disk);
    var imgs := ImageParts(r, disk);
    var parts := [TextPart(PromptText(docs, question))] + imgs;
    ImagePartsAt(r, disk);
    EmittedDistinctAndComplete(AllPaths(docs), disk);
    forall k | 1 <= k < |parts|
      ensures r[k - 1] in disk.files && parts[k] == ImageUrlPart(ImageUrlPrefix + disk.files[r[k - 1]])
    {
      assert r[k - 1] in r;
      assert parts[k] == imgs[k - 1] == ImagePart(r[k - 1], disk);
    }
  }

  /** A loadable path named by any retrieved document yields exactly one
      image part, whichever and however many documents name it. */
  lemma LoadableImageAppearsOnce(docs: seq<Document>, disk: Disk, p: string)
    requires p in AllPaths(docs) && Loadable(p, disk)
    ensures var r := Emitted(AllPaths(docs), disk);
      p in r && forall i, j :: 0 <= i < |r| && 0 <= j < |r| && r[i] == p && r[j] == p ==> i == j
  {
    EmittedDistinctAndComplete(AllPaths(docs), disk);
  }

  lemma {:induction false} AllPathsHasDocPaths(docs: seq<Document>, i: nat)
    requires i < |docs|
    ensures forall p :: p in DocPaths(docs[i]) ==> p in AllPaths(docs)
    decreases |docs|
  {
    if i < |docs| - 1 {
      assert docs[..|docs| - 1][i] == docs[i];
      AllPathsHasDocPaths(docs[..|docs| - 1], i);
    }
  }

  /** A path that is empty, missing or unreadable never becomes a part. */
  lemma UnloadableNeverEmitted(docs: seq<Document>, disk: Disk, p: string)
    requires !Loadable(p, disk)
    ensures p !in Emitted(AllPaths(docs), disk)
  {
    EmittedDistinctAndComplete(AllPaths(docs), disk);
  }

  /** Every retrieved document's text is part of the prompt. */
  lemma PromptHoldsEachDocument(docs: seq<Document>, question: string, i: nat)
    requires i < |docs|
    ensures Contains(PromptText(docs, question), docs[i].pageContent)
  {
    var c := docs[i].pageContent;
    BodyHoldsEachDocument(docs, i);
    ContainsBefore(ContextText(docs), "\n\nQuestion: ", c);
    ContainsBefore(ContextText(docs) + "\n\nQuestion: ", question, c);
  }

  lemma {:induction false} BodyHoldsEachDocument(docs: seq<Document>, i: nat)
    requires i < |docs|
    ensures Contains(ContextText(docs), docs[i].pageContent)
    decreases |docs|
  {
    var init := docs[..|docs| - 1];
    var block := DocBlock(|docs| - 1, docs[|docs| - 1]);
    if i < |docs| - 1 {
      assert init[i] == docs[i];
      BodyHoldsEachDocument(init, i);
      ContainsBefore(ContextText(init), block, docs[i].pageContent);
    } else {
      ContainsMiddle("\n[Document " + NatToString(i) + "]\n", docs[i].pageContent, "\n");
      ContainsAfter(ContextText(init), block, docs[i].pageContent);
    }
  }
}
