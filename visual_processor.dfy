/**
 * The fast visual indexer of src/visual_processor.py: every page of the
 * PDF is rendered to a PNG under the assets directory and becomes one
 * Document holding the page's text layer (or a fixed placeholder when the
 * page has none), its 1-based page number and the path of its image; the
 * documents go to the vector store in one batch.
 *
 * PyMuPDF is an oracle: whether it imports, whether the file opens, and
 * per page the text it extracts and whether saving the pixmap succeeds.
 */
module VisualProcessor {
  import opened PyCore
  import opened Metadata
  import opened LangChain
  import VectorStore
  import Chain

  /** One page as PyMuPDF reports it: get_text() and whether pix.save works. */
  datatype FitzPage = FitzPage(text: string, saveOk: bool)

  /** `import fitz; fitz.open(pdf_path)`: the module is missing, open raises,
      or the document's pages. */
  datatype Fitz = FitzMissing | OpenFailed | Opened(pages: seq<FitzPage>)

  /** What process_and_index_pdf raises. The missing module becomes a
      RuntimeError; a failing open or save propagates unchanged. */
  datatype IndexingError = MissingPyMuPdf | OpenError | SaveError(pageNum: nat)

  // ---------------------------------------------------------------------
  // What the page loop produces, as functions of its inputs

  /** f"page_{page_num}_{os.path.basename(pdf_path)}.png" */
  function ImageFilename(pageNum: nat, pdfPath: string): string
  {
    "page_" + NatToString(pageNum) + "_" + Basename(pdfPath) + ".png"
  }

  /** os.path.join(ASSETS_DIR, image_filename) */
  function ImagePath(assetsDir: string, pageNum: nat, pdfPath: string): string
  {
    Join(assetsDir, ImageFilename(pageNum, pdfPath))
  }

  /** The text stored for a page without a text layer. */
  function FallbackText(pageNum: nat): string
  {
    "Page " + NatToString(pageNum) + " (Visual Content Only). See image for details."
  }

  /** The page content: the extracted text unless it is empty or all
      whitespace, which is when strip() leaves nothing (StripEmptyIffBlank). */
  function PageText(text: string, pageNum: nat): string
  {
    if IsBlank(text) then FallbackText(pageNum) else text
  }

  /** The Document built for the page at 0-based index i. */
  function PageDocument(pdfPath: string, assetsDir: string, i: nat, page: FitzPage): Document
  {
    Document(PageText(page.text, i + 1),
             map["source" := Str(pdfPath), "page" := Int(i + 1),
                 "image_path" := Str(ImagePath(assetsDir, i + 1, pdfPath))])
  }

  /** The documents of the pages, in page order. */
  function PageDocuments(pdfPath: string, assetsDir: string, pages: seq<FitzPage>): (docs: seq<Document>)
    ensures |docs| == |pages|
    decreases |pages|
  {
    if pages == [] then []
    else PageDocuments(pdfPath, assetsDir, pages[..|pages| - 1])
         + [PageDocument(pdfPath, assetsDir, |pages| - 1, pages[|pages| - 1])]
  }

  /** The image files of pages 1..n, in the order they are written. */
  function SavedPaths(assetsDir: string, pdfPath: string, n: nat): seq<string>
  {
    if n == 0 then [] else SavedPaths(assetsDir, pdfPath, n - 1) + [ImagePath(assetsDir, n, pdfPath)]
  }

  /** The index of the first page whose image cannot be saved. */
  function FirstSaveFailure(pages: seq<FitzPage>): (k: Option<nat>)
    ensures k.Some? ==> k.value < |pages| && !pages[k.value].saveOk
                        && forall j :: 0 <= j < k.value ==> pages[j].saveOk
    ensures k.None? <==> forall j :: 0 <= j < |pages| ==> pages[j].saveOk
    decreases |pages|
  {
    if pages == [] then None
    else if !pages[0].saveOk then Some(0)
    else
      match FirstSaveFailure(pages[1..])
      case Some(k) => assert pages[1..][k] == pages[k + 1]; Some(k + 1)
      case None =>
        assert forall j :: 1 <= j < |pages| ==> pages[j] == pages[1..][j - 1];
        None
  }

  /** The first failing page is the one the loop stops at. */
  lemma FirstSaveFailureIs(pages: seq<FitzPage>, i: nat)
    requires i < |pages| && !pages[i].saveOk
    requires forall j :: 0 <= j < i ==> pages[j].saveOk
    ensures FirstSaveFailure(pages) == Some(i)
  {
    var k := FirstSaveFailure(pages);
    assert k.Some? && !pages[k.value].saveOk;
    assert k.value >= i;
  }

  /** The documents to index, or the exception the call raises. */
  function Indexed(pdfPath: string, assetsDir: string, fitz: Fitz): Result<seq<Document>, IndexingError>
  {
    match fitz
    case FitzMissing => Err(MissingPyMuPdf)
    case OpenFailed => Err(OpenError)
    case Opened(pages) =>
      match FirstSaveFailure(pages)
      case Some(k) => Err(SaveError(k + 1))
      case None => Ok(PageDocuments(pdfPath, assetsDir, pages))
  }

  /** How many page images are written before the call returns or raises. */
  function SavedCount(fitz: Fitz): nat
  {
    match fitz
    case Opened(pages) =>
      (match FirstSaveFailure(pages) case Some(k) => k case None => |pages|)
    case _ => 0
  }

  // ---------------------------------------------------------------------
  // The code

  /** The page loop: save each image, read each text layer, stop at the
      first save that raises. */
  method RenderPages(pdfPath: string, assetsDir: string, pages: seq<FitzPage>)
    returns (docs: seq<Document>, written: seq<string>, failure: Option<nat>)
    ensures failure == FirstSaveFailure(pages)
    ensures var n := if failure.Some? then failure.value else |pages|;
      written == SavedPaths(assetsDir, pdfPath, n) && docs == PageDocuments(pdfPath, assetsDir, pages[..n])
  {
    docs, written, failure := [], [], None;
    var i := 0;
    while i < |pages|
      invariant 0 <= i <= |pages|
      invariant forall j :: 0 <= j < i ==> pages[j].saveOk
      invariant written == SavedPaths(assetsDir, pdfPath, i)
      invariant docs == PageDocuments(pdfPath, assetsDir, pages[..i])
    {
      if !pages[i].saveOk {
        FirstSaveFailureIs(pages, i);
        failure := Some(i);
        return;
      }
      assert forall j :: 0 <= j < i + 1 ==> pages[j].saveOk;
      var imagePath, doc := RenderPage(pdfPath, assetsDir, i, pages[i]);
      assert pages[..i + 1][..i] == pages[..i];
      written := written + [imagePath];
      docs := docs + [doc];
      i := i + 1;
    }
    assert pages[..i] == pages;
  }

  /** One iteration of the page loop for a page whose image saves. */
  method RenderPage(pdfPath: string, assetsDir: string, i: nat, page: FitzPage)
    returns (imagePath: string, doc: Document)
    ensures imagePath == ImagePath(assetsDir, i + 1, pdfPath)
    ensures doc == PageDocument(pdfPath, assetsDir, i, page)
  {
    var pageNum := i + 1;
    imagePath := Join(assetsDir, ImageFilename(pageNum, pdfPath));
    var textContent := page.text;
    StripEmptyIffBlank(textContent);
    if Strip(textContent) == [] {
      textContent := FallbackText(pageNum);
    }
    doc := Document(textContent, map["source" := Str(pdfPath), "page" := Int(pageNum),
                                     "image_path" := Str(imagePath)]);
  }

  /** process_and_index_pdf(pdf_path, vectorstore): the vector store is the
      Chroma client with the name of the collection it was opened on. */
  method ProcessAndIndexPdf(pdfPath: string, assetsDir: string, fitz: Fitz,
                            store: VectorStore.ChromaStore, collection: string)
    returns (r: Result<nat, IndexingError>, written: seq<string>)
    modifies store
    ensures var want := Indexed(pdfPath, assetsDir, fitz);
      if want.Err? || want.value == [] then
        r == (if want.Err? then Err(want.error) else Ok(0))
        && store.collections == old(store.collections) && store.addCalls == old(store.addCalls)
      else
        r == Ok(|want.value|)
        && store.collections == VectorStore.Appended(old(store.collections), collection, want.value)
        && store.addCalls == old(store.addCalls) + 1
    ensures written == SavedPaths(assetsDir, pdfPath, SavedCount(fitz))
  {
    written := [];
    match fitz
    case FitzMissing =>
      r := Err(MissingPyMuPdf);
    case OpenFailed =>
      r := Err(OpenError);
    case Opened(pages) =>
      var docs, failure;
      docs, written, failure := RenderPages(pdfPath, assetsDir, pages);
      if failure.Some? {
        r := Err(SaveError(failure.value + 1));
        return;
      }
      assert pages[..|pages|] == pages;
      if docs != [] {
        store.AddDocuments(collection, docs);
        r := Ok(|docs|);
      } else {
        r := Ok(0);
      }
  }

  // ---------------------------------------------------------------------
  // Properties

  /** Document i is the one built from page i. */
  lemma {:induction false} PageDocumentAt(pdfPath: string, assetsDir: string, pages: seq<FitzPage>, i: nat)
    requires i < |pages|
    ensures PageDocuments(pdfPath, assetsDir, pages)[i] == PageDocument(pdfPath, assetsDir, i, pages[i])
    decreases |pages|
  {
    var init := pages[..|pages| - 1];
    if i < |init| {
      PageDocumentAt(pdfPath, assetsDir, init, i);
      assert PageDocuments(pdfPath, assetsDir, pages)[i] == PageDocuments(pdfPath, assetsDir, init)[i];
      assert init[i] == pages[i];
    }
  }

  /** The i-th image written is the one of page i + 1. */
  lemma {:induction false} SavedPathsAt(assetsDir: string, pdfPath: string, n: nat)
    ensures var w := SavedPaths(assetsDir, pdfPath, n);
      |w| == n && forall j :: 0 <= j < n ==> w[j] == ImagePath(assetsDir, j + 1, pdfPath)
  {
    if n > 0 { SavedPathsAt(assetsDir, pdfPath, n - 1); }
  }

  /** A page keeps its own text exactly when that text is not blank, and
      the stored content is never blank. */
  lemma PageTextNeverBlank(text: string, pageNum: nat)
    ensures PageText(text, pageNum) == text <==> !IsBlank(text)
    ensures !IsBlank(PageText(text, pageNum))
  {
    var f := FallbackText(pageNum);
    assert f[0] == 'P' && !IsSpace(f[0]);
  }

  /** Distinct page numbers name distinct image files, so no page's image
      overwrites another's. */
  lemma ImagePathsDistinct(assetsDir: string, pdfPath: string, a: nat, b: nat)
    requires a != b
    ensures ImagePath(assetsDir, a, pdfPath) != ImagePath(assetsDir, b, pdfPath)
  {
    var suf := "_" + Basename(pdfPath) + ".png";
    var fa, fb := ImageFilename(a, pdfPath), ImageFilename(b, pdfPath);
    assert fa == "page_" + NatToString(a) + suf;
    assert fb == "page_" + NatToString(b) + suf;
    if ImagePath(assetsDir, a, pdfPath) == ImagePath(assetsDir, b, pdfPath) {
      assert fa[0] == 'p' && fb[0] == 'p';
      JoinInjective(assetsDir, fa, fb);
      DecoratedNumberInjective("page_", suf, a, b);
    }
  }

  /** The prompt builder reads a page document's image_path back as the
      one path under which the page image was saved. */
  lemma PageDocumentPaths(pdfPath: string, assetsDir: string, i: nat, page: FitzPage)
    requires assetsDir == [] || assetsDir[0] != '['
    ensures Chain.DocPaths(PageDocument(pdfPath, assetsDir, i, page)) == [ImagePath(assetsDir, i + 1, pdfPath)]
  {
    var rest := NatToString(i + 1) + "_" + Basename(pdfPath) + ".png";
    var f := ImageFilename(i + 1, pdfPath);
    assert f == "page_" + rest;
    JoinFirstChar(assetsDir, f);
    DecodeBarePath(ImagePath(assetsDir, i + 1, pdfPath));
  }

  /** A successful run yields one document per page, numbered from 1 in
      page order, each naming the PDF, holding non-blank text, and read
      back by the prompt builder as exactly its own page image. */
  lemma IndexedOnePerPage(pdfPath: string, assetsDir: string, fitz: Fitz)
    requires assetsDir == [] || assetsDir[0] != '['
    requires Indexed(pdfPath, assetsDir, fitz).Ok?
    ensures fitz.Opened?
    ensures var docs := Indexed(pdfPath, assetsDir, fitz).value;
      |docs| == |fitz.pages|
      && forall i :: 0 <= i < |docs| ==>
           "page" in docs[i].metadata && docs[i].metadata["page"] == Int(i + 1)
           && "source" in docs[i].metadata && docs[i].metadata["source"] == Str(pdfPath)
           && !IsBlank(docs[i].pageContent)
           && Chain.DocPaths(docs[i]) == [ImagePath(assetsDir, i + 1, pdfPath)]
  {
    var docs := PageDocuments(pdfPath, assetsDir, fitz.pages);
    assert Indexed(pdfPath, assetsDir, fitz).value == docs;
    forall i | 0 <= i < |docs|
      ensures "page" in docs[i].metadata && docs[i].metadata["page"] == Int(i + 1)
      ensures "source" in docs[i].metadata && docs[i].metadata["source"] == Str(pdfPath)
      ensures !IsBlank(docs[i].pageContent)
      ensures Chain.DocPaths(docs[i]) == [ImagePath(assetsDir, i + 1, pdfPath)]
    {
      PageDocumentFacts(pdfPath, assetsDir, fitz.pages, i);
    }
  }

  /** Document i of the page documents is numbered i + 1, names the PDF,
      holds non-blank text and points at page i + 1's image. */
  lemma PageDocumentFacts(pdfPath: string, assetsDir: string, pages: seq<FitzPage>, i: nat)
    requires assetsDir == [] || assetsDir[0] != '['
    requires i < |pages|
    ensures var d := PageDocuments(pdfPath, assetsDir, pages)[i];
      && "page" in d.metadata && d.metadata["page"] == Int(i + 1)
      && "source" in d.metadata && d.metadata["source"] == Str(pdfPath)
      && !IsBlank(d.pageContent)
      && Chain.DocPaths(d) == [ImagePath(assetsDir, i + 1, pdfPath)]
  {
    PageDocumentAt(pdfPath, assetsDir, pages, i);
    PageTextNeverBlank(pages[i].text, i + 1);
    PageDocumentPaths(pdfPath, assetsDir, i, pages[i]);
  }

  /** No two documents of a run point at the same page image. */
  lemma IndexedImagesDistinct(pdfPath: string, assetsDir: string, fitz: Fitz)
    requires assetsDir == [] || assetsDir[0] != '['
    requires Indexed(pdfPath, assetsDir, fitz).Ok?
    ensures var docs := Indexed(pdfPath, assetsDir, fitz).value;
      forall i, j :: 0 <= i < j < |docs| ==> Chain.DocPaths(docs[i]) != Chain.DocPaths(docs[j])
  {
    var docs := Indexed(pdfPath, assetsDir, fitz).value;
    IndexedOnePerPage(pdfPath, assetsDir, fitz);
    forall i, j | 0 <= i < j < |docs|
      ensures Chain.DocPaths(docs[i]) != Chain.DocPaths(docs[j])
    {
      ImagePathsDistinct(assetsDir, pdfPath, i + 1, j + 1);
      assert Chain.DocPaths(docs[i])[0] != Chain.DocPaths(docs[j])[0];
    }
  }

  /** The returned count is the number of pages, positive exactly when the
      PDF has a page; a save failure is reported with the 1-based number of
      the first page whose image could not be written. */
  lemma CountIsPageCount(pdfPath: string, assetsDir: string, pages: seq<FitzPage>)
    ensures var r := Indexed(pdfPath, assetsDir, Opened(pages));
      (r.Ok? <==> forall j :: 0 <= j < |pages| ==> pages[j].saveOk)
      && (r.Ok? ==> |r.value| == |pages|)
      && (r.Err? ==> exists k :: 0 <= k < |pages| && r.error == SaveError(k + 1) && !pages[k].saveOk
                               && forall j :: 0 <= j < k ==> pages[j].saveOk)
  {
    var r := Indexed(pdfPath, assetsDir, Opened(pages));
    if r.Err? {
      var k := FirstSaveFailure(pages).value;
      assert r.error == SaveError(k + 1);
    }
  }
}
