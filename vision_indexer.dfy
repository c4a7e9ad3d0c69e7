/**
 * The vision indexer of src/vision_indexer.py: every page of the PDF is
 * rendered to a PNG in the output directory, sent as a base64 data URL to
 * the vision model together with a fixed instruction, and becomes one
 * Document whose content is the model's description (or a placeholder when
 * the call fails, even after tenacity's retries) and whose metadata names
 * the PDF, the 1-based page number and the image path.
 *
 * pdf2image, the PNG writer, base64 and the model are oracles: the pages
 * convert_from_path yields (or that it raised), per page whether img.save
 * succeeds and the base64 text of the file it wrote, and for a message
 * list and an attempt number what the model call does.
 */
module VisionIndexer {
  import opened PyCore
  import opened Metadata
  import opened LangChain
  import LlmUtils
  import Chain
  import VisualProcessor

  /** One page image from convert_from_path: whether saving it works and
      the base64 text encode_image reads back from the saved file. */
  datatype PageImage = PageImage(saveOk: bool, pngBase64: string)

  /** The vision model: the outcome of one invocation on a message list,
      for each attempt number. */
  type VisionModel = (seq<Message>, nat) -> LlmUtils.CallOutcome

  /** img.save raising, which the function does not catch. */
  datatype VisionError = SaveFailed(pageNum: nat)

  // ---------------------------------------------------------------------
  // What the page loop produces, as functions of its inputs

  const Instruction: string :=
    "Analyze this page image. Describe any diagrams, figures, charts, or tables in detail. "
    + "If there is a Figure label (e.g., 'Figure 1'), include it explicitly. "
    + "Summarize the main text visible. This description will be used for retrieval."

  const PngUrlPrefix: string := "data:image/png;base64,"

  /** f"visual_summary_page_{i+1}_{os.path.basename(pdf_path)}.png" */
  function VisionFilename(pageNum: nat, pdfPath: string): string
  {
    "visual_summary_page_" + NatToString(pageNum) + "_" + Basename(pdfPath) + ".png"
  }

  /** os.path.join(output_dir, image_filename) */
  function VisionImagePath(outputDir: string, pageNum: nat, pdfPath: string): string
  {
    Join(outputDir, VisionFilename(pageNum, pdfPath))
  }

  /** The one-message prompt for a page: the instruction, then the image. */
  function Request(pngBase64: string): Message
  {
    HumanMessage([TextPart(Instruction), ImageUrlPart(PngUrlPrefix + pngBase64)])
  }

  /** The description stored when the model call raises. */
  function Unavailable(pageNum: nat): string
  {
    "Visual description unavailable for page " + NatToString(pageNum) + "."
  }

  /** invoke_with_retry(vision_llm, msgs) sees the model as a call per attempt. */
  function Attempts(llm: VisionModel, msgs: seq<Message>): nat -> LlmUtils.CallOutcome
  {
    (attempt: nat) => llm(msgs, attempt)
  }

  /** response.content, or the placeholder for any exception the retrying
      call lets out (a non-retryable one or tenacity's RetryError). */
  function Description(llm: VisionModel, msg: Message, pageNum: nat): string
  {
    match LlmUtils.Run(Attempts(llm, [msg]), 1).0
    case Success(v) => v
    case _ => Unavailable(pageNum)
  }

  /** The Document for the page at 0-based index i. */
  function VisionDocument(pdfPath: string, outputDir: string, llm: VisionModel, i: nat, page: PageImage): Document
  {
    Document(Description(llm, Request(page.pngBase64), i + 1),
             map["source" := Str(pdfPath), "page" := Int(i + 1),
                 "image_path" := Str(VisionImagePath(outputDir, i + 1, pdfPath))])
  }

  function VisionDocuments(pdfPath: string, outputDir: string, llm: VisionModel, pages: seq<PageImage>): (docs: seq<Document>)
    ensures |docs| == |pages|
    decreases |pages|
  {
    if pages == [] then []
    else VisionDocuments(pdfPath, outputDir, llm, pages[..|pages| - 1])
         + [VisionDocument(pdfPath, outputDir, llm, |pages| - 1, pages[|pages| - 1])]
  }

  /** The prompts of the pages, in page order. */
  function Requests(pages: seq<PageImage>): (reqs: seq<Message>)
    ensures |reqs| == |pages|
    decreases |pages|
  {
    if pages == [] then [] else Requests(pages[..|pages| - 1]) + [Request(pages[|pages| - 1].pngBase64)]
  }

  /** The image files of pages 1..n, in the order they are written. */
  function VisionSavedPaths(outputDir: string, pdfPath: string, n: nat): seq<string>
  {
    if n == 0 then [] else VisionSavedPaths(outputDir, pdfPath, n - 1) + [VisionImagePath(outputDir, n, pdfPath)]
  }

  /** The index of the first page image that cannot be saved. This and the
      other page-loop helpers mirror those of VisualProcessor: the two
      indexers are separate loops over different page types (pdf2image
      images here, PyMuPDF pages there), with their own file names and
      failure modes, so each module states its own loop. */
  function FirstUnsaved(pages: seq<PageImage>): (k: Option<nat>)
    ensures k.Some? ==> k.value < |pages| && !pages[k.value].saveOk
                        && forall j :: 0 <= j < k.value ==> pages[j].saveOk
    ensures k.None? <==> forall j :: 0 <= j < |pages| ==> pages[j].saveOk
    decreases |pages|
  {
    if pages == [] then None
    else if !pages[0].saveOk then Some(0)
    else
      match FirstUnsaved(pages[1..])
      case Some(k) => assert pages[1..][k] == pages[k + 1]; Some(k + 1)
      case None =>
        assert forall j :: 1 <= j < |pages| ==> pages[j] == pages[1..][j - 1];
        None
  }

  /** The first failing page is the one the loop stops at. */
  lemma FirstUnsavedIs(pages: seq<PageImage>, i: nat)
    requires i < |pages| && !pages[i].saveOk
    requires forall j :: 0 <= j < i ==> pages[j].saveOk
    ensures FirstUnsaved(pages) == Some(i)
  {
    var k := FirstUnsaved(pages);
    assert k.Some? && !pages[k.value].saveOk;
    assert k.value >= i;
  }

  /** What process_pdf_with_vision returns or raises: [] when the
      conversion raised, otherwise one document per page unless a save
      raises first. */
  function Described(pdfPath: string, outputDir: string, images: Option<seq<PageImage>>, llm: VisionModel)
    : Result<seq<Document>, VisionError>
  {
    match images
    case None => Ok([])
    case Some(pages) =>
      match FirstUnsaved(pages)
      case Some(k) => Err(SaveFailed(k + 1))
      case None => Ok(VisionDocuments(pdfPath, outputDir, llm, pages))
  }

  /** How many pages are saved and sent before the call returns or raises. */
  function PagesHandled(images: Option<seq<PageImage>>): nat
  {
    match images
    case None => 0
    case Some(pages) => (match FirstUnsaved(pages) case Some(k) => k case None => |pages|)
  }

  // ---------------------------------------------------------------------
  // The code

  /** process_pdf_with_vision(pdf_path, output_dir): also yields the
      messages sent to the model (one per handled page, each sent on every
      attempt) and the image files written. */
  method ProcessPdfWithVision(pdfPath: string, outputDir: string, images: Option<seq<PageImage>>, llm: VisionModel)
    returns (r: Result<seq<Document>, VisionError>, requests: seq<Message>, written: seq<string>)
    ensures r == Described(pdfPath, outputDir, images, llm)
    ensures written == VisionSavedPaths(outputDir, pdfPath, PagesHandled(images))
    ensures images.Some? ==> requests == Requests(images.value[..PagesHandled(images)])
    ensures images.None? ==> requests == []
  {
    requests, written := [], [];
    if images.None? {
      r := Ok([]);
      return;
    }
    var pages := images.value;
    var documents := [];
    var i := 0;
    while i < |pages|
      invariant 0 <= i <= |pages|
      invariant forall j :: 0 <= j < i ==> pages[j].saveOk
      invariant written == VisionSavedPaths(outputDir, pdfPath, i)
      invariant requests == Requests(pages[..i])
      invariant documents == VisionDocuments(pdfPath, outputDir, llm, pages[..i])
    {
      if !pages[i].saveOk {
        FirstUnsavedIs(pages, i);
        r := Err(SaveFailed(i + 1));
        return;
      }
      assert forall j :: 0 <= j < i + 1 ==> pages[j].saveOk;
      var imagePath, message, doc := DescribePage(pdfPath, outputDir, llm, i, pages[i]);
      assert pages[..i + 1][..i] == pages[..i];
      written := written + [imagePath];
      requests := requests + [message];
      documents := documents + [doc];
      i := i + 1;
    }
    assert pages[..i] == pages;
    r := Ok(documents);
  }

  /** One iteration of the page loop for a page whose image saves. */
  method DescribePage(pdfPath: string, outputDir: string, llm: VisionModel, i: nat, page: PageImage)
    returns (imagePath: string, message: Message, doc: Document)
    ensures imagePath == VisionImagePath(outputDir, i + 1, pdfPath)
    ensures message == Request(page.pngBase64)
    ensures doc == VisionDocument(pdfPath, outputDir, llm, i, page)
  {
    imagePath := Join(outputDir, VisionFilename(i + 1, pdfPath));
    message := HumanMessage([TextPart(Instruction), ImageUrlPart(PngUrlPrefix + page.pngBase64)]);
    var outcome, _, _ := LlmUtils.InvokeWithRetry(Attempts(llm, [message]));
    var description;
    match outcome {
      case Success(content) => description := content;
      case _ => description := Unavailable(i + 1);
    }
    doc := Document(description, map["source" := Str(pdfPath), "page" := Int(i + 1),
                                     "image_path" := Str(imagePath)]);
  }

  // ---------------------------------------------------------------------
  // Properties

  /** Document i is the one built from page i. */
  lemma {:induction false} VisionDocumentAt(pdfPath: string, outputDir: string, llm: VisionModel, pages: seq<PageImage>, i: nat)
    requires i < |pages|
    ensures VisionDocuments(pdfPath, outputDir, llm, pages)[i] == VisionDocument(pdfPath, outputDir, llm, i, pages[i])
    decreases |pages|
  {
    var init := pages[..|pages| - 1];
    if i < |init| {
      VisionDocumentAt(pdfPath, outputDir, llm, init, i);
      assert VisionDocuments(pdfPath, outputDir, llm, pages)[i] == VisionDocuments(pdfPath, outputDir, llm, init)[i];
      assert init[i] == pages[i];
    }
  }

  /** Prompt i carries page i's image. */
  lemma {:induction false} RequestAt(pages: seq<PageImage>, i: nat)
    requires i < |pages|
    ensures Requests(pages)[i] == Request(pages[i].pngBase64)
    decreases |pages|
  {
    var init := pages[..|pages| - 1];
    if i < |init| {
      RequestAt(init, i);
      assert Requests(pages)[i] == Requests(init)[i];
      assert init[i] == pages[i];
    }
  }

  /** The first reply is used: when the attempts before the n-th failed
      retryably and the n-th returns, the description is what it returned. */
  lemma ReplyBecomesDescription(llm: VisionModel, msg: Message, pageNum: nat, n: nat)
    requires 1 <= n <= LlmUtils.MaxAttempts
    requires forall j :: 1 <= j < n ==> LlmUtils.RetryableFailure(llm([msg], j))
    requires llm([msg], n).Returned?
    ensures Description(llm, msg, pageNum) == llm([msg], n).value
  {
    var call := Attempts(llm, [msg]);
    assert forall j :: 1 <= j < n ==> call(j) == llm([msg], j);
    LlmUtils.SucceedsOnAttempt(call, 1, n);
  }

  /** A page gets the placeholder exactly when the retrying call raises:
      at the first non-retryable error, or after ten retryable failures. */
  lemma PlaceholderIffCallRaises(llm: VisionModel, msg: Message, pageNum: nat)
    ensures var call := Attempts(llm, [msg]);
      var (out, n) := LlmUtils.Run(call, 1);
      (!out.Success? <==>
         (exists k :: 1 <= k <= n && call(k).Raised? && !LlmUtils.Retryable(call(k).error))
         || (forall j :: 1 <= j <= LlmUtils.MaxAttempts ==> LlmUtils.RetryableFailure(call(j))))
      && (!out.Success? ==> Description(llm, msg, pageNum) == Unavailable(pageNum))
      && (out.Success? ==> Description(llm, msg, pageNum) == call(n).value)
  {
    var call := Attempts(llm, [msg]);
    LlmUtils.RunCharacterised(call, 1);
    LlmUtils.GivesUpOnlyAfterTenRetryableFailures(call);
  }

  /** Every prompt holds the fixed instruction and the page image as a PNG
      data URL, in that order. */
  lemma RequestShape(pngBase64: string)
    ensures var m := Request(pngBase64);
      m.HumanMessage? && |m.parts| == 2
      && m.parts[0] == TextPart(Instruction)
      && m.parts[1].ImageUrlPart? && StartsWith(m.parts[1].url, PngUrlPrefix)
      && m.parts[1].url[|PngUrlPrefix|..] == pngBase64
  {
    var url := PngUrlPrefix + pngBase64;
    assert url[..|PngUrlPrefix|] == PngUrlPrefix;
  }

  /** Distinct pages name distinct image files. */
  lemma VisionImagePathsDistinct(outputDir: string, pdfPath: string, a: nat, b: nat)
    requires a != b
    ensures VisionImagePath(outputDir, a, pdfPath) != VisionImagePath(outputDir, b, pdfPath)
  {
    var pre := "visual_summary_page_";
    var suf := "_" + Basename(pdfPath) + ".png";
    var fa, fb := VisionFilename(a, pdfPath), VisionFilename(b, pdfPath);
    assert fa == pre + NatToString(a) + suf;
    assert fb == pre + NatToString(b) + suf;
    if VisionImagePath(outputDir, a, pdfPath) == VisionImagePath(outputDir, b, pdfPath) {
      assert fa[0] == 'v' && fb[0] == 'v';
      JoinInjective(outputDir, fa, fb);
      DecoratedNumberInjective(pre, suf, a, b);
    }
  }

  /** In one directory, a vision page image never has the name of a fast
      mode page image, whatever the page numbers and PDF names. */
  lemma NoClashWithFastModeImages(dir: string, pdfA: string, a: nat, pdfB: string, b: nat)
    ensures VisionImagePath(dir, a, pdfA) != VisualProcessor.ImagePath(dir, b, pdfB)
  {
    var fv := VisionFilename(a, pdfA);
    var ff := VisualProcessor.ImageFilename(b, pdfB);
    assert fv == "visual_summary_page_" + (NatToString(a) + "_" + Basename(pdfA) + ".png");
    assert ff == "page_" + (NatToString(b) + "_" + Basename(pdfB) + ".png");
    assert fv[0] == 'v' && ff[0] == 'p';
    if VisionImagePath(dir, a, pdfA) == VisualProcessor.ImagePath(dir, b, pdfB) {
      JoinInjective(dir, fv, ff);
    }
  }

  /** A successful run yields one document per page, numbered from 1, each
      naming the PDF and read back by the prompt builder as its own image,
      and sends page i's image in prompt i. */
  lemma DescribedOnePerPage(pdfPath: string, outputDir: string, pages: seq<PageImage>, llm: VisionModel)
    requires outputDir == [] || outputDir[0] != '['
    requires Described(pdfPath, outputDir, Some(pages), llm).Ok?
    ensures var docs := Described(pdfPath, outputDir, Some(pages), llm).value;
      |docs| == |pages| && |Requests(pages)| == |pages|
      && forall i :: 0 <= i < |docs| ==>
           "page" in docs[i].metadata && docs[i].metadata["page"] == Int(i + 1)
           && "source" in docs[i].metadata && docs[i].metadata["source"] == Str(pdfPath)
           && docs[i].pageContent == Description(llm, Requests(pages)[i], i + 1)
           && Requests(pages)[i] == Request(pages[i].pngBase64)
           && Chain.DocPaths(docs[i]) == [VisionImagePath(outputDir, i + 1, pdfPath)]
  {
    var docs := Described(pdfPath, outputDir, Some(pages), llm).value;
    forall i | 0 <= i < |docs|
      ensures "page" in docs[i].metadata && docs[i].metadata["page"] == Int(i + 1)
      ensures "source" in docs[i].metadata && docs[i].metadata["source"] == Str(pdfPath)
      ensures docs[i].pageContent == Description(llm, Requests(pages)[i], i + 1)
      ensures Requests(pages)[i] == Request(pages[i].pngBase64)
      ensures Chain.DocPaths(docs[i]) == [VisionImagePath(outputDir, i + 1, pdfPath)]
    {
      VisionDocumentAt(pdfPath, outputDir, llm, pages, i);
      RequestAt(pages, i);
      VisionDocumentPaths(pdfPath, outputDir, llm, i, pages[i]);
    }
  }

  /** The prompt builder reads a page document's image_path back as the
      one path under which the page image was saved. */
  lemma VisionDocumentPaths(pdfPath: string, outputDir: string, llm: VisionModel, i: nat, page: PageImage)
    requires outputDir == [] || outputDir[0] != '['
    ensures Chain.DocPaths(VisionDocument(pdfPath, outputDir, llm, i, page)) == [VisionImagePath(outputDir, i + 1, pdfPath)]
  {
    var rest := NatToString(i + 1) + "_" + Basename(pdfPath) + ".png";
    var f := VisionFilename(i + 1, pdfPath);
    assert f == "visual_summary_page_" + rest;
    JoinFirstChar(outputDir, f);
    DecodeBarePath(VisionImagePath(outputDir, i + 1, pdfPath));
  }

  /** A failed conversion is swallowed: no documents, no images, no calls. */
  lemma ConversionFailureIndexesNothing(pdfPath: string, outputDir: string, llm: VisionModel)
    ensures Described(pdfPath, outputDir, None, llm) == Ok([])
    ensures VisionSavedPaths(outputDir, pdfPath, PagesHandled(None)) == []
  {
  }
}
