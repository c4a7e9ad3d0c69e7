# Multimodal RAG ingestion and prompt shaping, in Dafny

This project models how a multimodal retrieval-augmented-generation
application shapes its data. It is a Streamlit app over Chroma, LangChain
and Gemini. The model covers:

- turning a PDF into indexable Documents, in three ways:
  - the `unstructured` element extractor (`PDFExtractor.extract`);
  - the fast PyMuPDF page indexer (`process_and_index_pdf`);
  - the vision-model page indexer (`process_pdf_with_vision`);
- converting extracted items into Documents and adding them to the
  Chroma collection (`get_retriever`, with a retriever of `k = 2`);
- the tenacity retry policy around all model calls (`invoke_with_retry`);
- building the multimodal prompt from the retrieved Documents
  (`multimodal_prompt_builder`).

Each of these is imperative in the code, so each is a Dafny `method`
with loops and invariants. Every method is proved equal to a Dafny function
of its inputs, and lemmas prove the promised properties about
those functions.

The modules are:

- `PyCore`: the Python built-ins the code relies on: `str(int)`,
  `str.strip`, `in` on strings, `str.split`, `os.path.basename` and
  `os.path.join`.
- `Metadata`: the metadata values, Python truthiness, `v[:n]`.
  It also holds the codec between a list of image paths and the one
  string the vector store keeps: `str(list)` on the writing side, and on
  the reading side the tolerant decoding through `ast.literal_eval`.
- `LangChain`: `Document`, the message parts, `SystemMessage` and
  `HumanMessage`.
- `LlmUtils`: the retry loop and the events it produces (invoke, log,
  sleep).
- `Extractor`: `PDFExtractor.extract` over the elements `partition_pdf`
  returns.
- `VectorStore`:
  - `get_retriever`;
  - the Chroma store, a class whose collections are updated in place;
  - the extracted items' metadata dicts, kept in a heap of dicts indexed
    by identity, because `get_retriever` updates those dicts in place and
    two items may share one.
- `VisualProcessor`: `process_and_index_pdf`.
- `VisionIndexer`: `process_pdf_with_vision`.
- `Chain`: `multimodal_prompt_builder`.

The model has no I/O. Everything external becomes a parameter:

- the file system, as seen by `os.path.exists` and the base64 read: a
  `Disk` holding the existing paths and the readable files' base64 text;
- PyMuPDF: whether it imports, whether the PDF opens, and for each page
  its text layer and whether saving its pixmap works;
- pdf2image: its pages, or the fact that it raised;
- the vision model: for each message list and attempt number, a reply or
  an exception;
- `partition_pdf`: the element sequence it returns.

The model follows the code in three places that are easy to misread:

- A stored image-path string that starts with `[` and fails to parse
  decodes to no paths. Any other string decodes to the one-element list
  holding it, so `"garbage["` decodes to `["garbage["]`.
- When retries run out, tenacity raises `RetryError`, not the last
  exception, because `reraise` is not set (`RetryOutcome.GaveUp`). The
  vision indexer catches it like any other exception.
- A failing `fitz.open` is not turned into the install hint. Only the
  `ImportError` becomes a `RuntimeError`.

## Model

| member | source | states |
|---|---|---|
| PyCore.NatToString | src/visual_processor.py:38 | `str(n)` of a natural number is a non-empty string of decimal digits |
| PyCore.DecimalRoundTrip | src/visual_processor.py:38 | the decimal rendering reads back as the number it renders |
| PyCore.NatToStringInjective | src/visual_processor.py:38 | distinct page numbers have distinct renderings |
| PyCore.DecoratedNumberInjective | src/vision_indexer.py:49 | a number framed by a fixed prefix and suffix determines the number |
| PyCore.IntToString | src/vectorstore.py:51 | `str(i)` of an integer value starts with '-' exactly when i is negative |
| PyCore.LeadingSpace | src/visual_processor.py:46 | the whitespace run `strip()` drops at the front: all whitespace, and followed by a non-space or the end |
| PyCore.TrailingSpace | src/visual_processor.py:46 | the whitespace run `strip()` drops at the back, with the same guarantees |
| PyCore.StripEmptyIffBlank | src/visual_processor.py:46 | `not s.strip()` holds exactly when every character of s is whitespace |
| PyCore.ContainsMiddle | src/chain.py:36 | text placed inside a string is a substring of it |
| PyCore.ContainsBefore | src/chain.py:72 | a substring survives appending text after the string |
| PyCore.ContainsAfter | src/chain.py:72 | a substring survives prepending text before the string |
| PyCore.IndexOf | src/extractor.py:49 | the first occurrence of the separator: none before it, and it is there unless the end is reached |
| PyCore.IndexOfAfter | src/extractor.py:49 | searching past a stretch without the separator shifts the index by that stretch's length |
| PyCore.Split | src/extractor.py:49 | `split` gives at least one part, exactly `[s]` without the separator, and at least two parts with it |
| PyCore.SplitAtFirst | src/extractor.py:49 | splitting at the first separator yields the part before it followed by the split of the rest |
| PyCore.SplitSecondField | src/extractor.py:49 | `split("'")[1]` is the text between the first two apostrophes |
| PyCore.AfterLastSlash | src/visual_processor.py:38 | the position after the last '/', with no '/' from there to the end |
| PyCore.Basename | src/visual_processor.py:38 | `os.path.basename` contains no '/' |
| PyCore.JoinFirstChar | src/visual_processor.py:39 | joining a relative name starts with the directory's first character, or the name's when the directory is empty |
| PyCore.JoinInjective | src/visual_processor.py:39 | under one directory, distinct relative names join to distinct paths |
| Metadata.SliceTo | src/vectorstore.py:54 | `v[:5000]` gives a prefix of length min(len, 5000) for a str or list, and raises for anything else |
| Metadata.HexRoundTrip | src/vectorstore.py:51 | a `\xhh` digit written by `repr` reads back as its value |
| Metadata.QuoteFor | src/vectorstore.py:51 | `repr` quotes every string with ' or " |
| Metadata.Repr | src/vectorstore.py:51 | `repr(s)` is at least two characters long and opens with a quote |
| Metadata.EncodeList | src/vectorstore.py:51 | `str(list)` starts with "[", so the reader sends it to `literal_eval` |
| Metadata.SkipSpace | src/chain.py:44-45 | skipping whitespace inside the list display never lengthens the text |
| Metadata.ParseEscape | src/chain.py:44-45 | an escape never uses more characters than follow the backslash |
| Metadata.ParseBody | src/chain.py:44-45 | reading a string literal up to its closing quote, with the simple, hexadecimal, `\u`/`\U`, octal and line-continuation escapes and unknown escapes kept as written, consumes at least that quote; a raw newline, carriage return or NUL inside the literal is a failure |
| Metadata.EscapeCharParses | src/chain.py:44-45 | one character written by `repr` reads back as itself in front of what follows |
| Metadata.SimpleEscapeParses | src/chain.py:44-45 | a one-letter escape (`\\`, `\'`, `\"`, `\n`, `\r`, `\t`, `\a`, `\b`, `\f`, `\v`) reads as the character it stands for |
| Metadata.HexCharParses | src/chain.py:44-45 | a character `repr` writes as `\xhh` reads back as itself |
| Metadata.EscapeParses | src/chain.py:44-45 | the body of a string literal written by `repr` reads back as the original string, leaving the rest untouched |
| Metadata.HexEscapeParses | src/chain.py:44-45 | `\xhh` reads as the character with code hh, using three characters after the backslash |
| Metadata.LineContinuationParses | src/chain.py:44-45 | a backslash before a newline contributes nothing to the string |
| Metadata.UnknownEscapeKeepsBackslash | src/chain.py:44-45 | a backslash before a character that starts no escape stays in the string, followed by that character read as usual |
| Metadata.OctalEscapeParses | src/chain.py:44-45 | a backslash and three octal digits read as the character with that octal code |
| Metadata.UnicodeEscapeParses | src/chain.py:44-45 | `\u` and four hexadecimal digits naming a scalar value read as that character |
| Metadata.HexRunPrefix | src/chain.py:44-45 | the value of the first n hexadecimal digits does not depend on what follows them |
| Metadata.ReprParses | src/chain.py:44-45 | a list element written by `repr` is read back as that element |
| Metadata.SkipOneSpace | src/chain.py:44-45 | the blank after a comma is skipped |
| Metadata.ParseAfterComma | src/chain.py:44-45 | after an element, ", " and more elements continue the list |
| Metadata.ItemsParse | src/chain.py:44-45 | the elements `str(list)` writes read back as the same list |
| Metadata.ParseRoundTrip | src/chain.py:44-45 | `literal_eval(str(l)) == l` for every list of strings |
| Metadata.DecodeRoundTrip | src/chain.py:39-53 | a list stored as its `str()` is decoded back to the same paths in the same order |
| Metadata.DecodeBarePath | src/chain.py:46-47 | a string not starting with "[" is the one path it names |
| Metadata.DecodeMalformed | src/chain.py:42-53 | a "["-string that does not parse gives no paths instead of an error |
| Metadata.NulInElementDecodesEmpty | src/chain.py:44-53 | a stored list string with a NUL character inside a quoted element gives no paths, as the failed `literal_eval` does |
| Metadata.DecodeMissingKey | src/chain.py:39 | a document without `image_path` contributes no paths |
| LlmUtils.Pow2 | src/llm_utils.py:13 | powers of two are positive |
| LlmUtils.WaitAfter | src/llm_utils.py:13 | every wait lies between 10 and 120 seconds |
| LlmUtils.Run | src/llm_utils.py:10-15 | a run from an attempt ends at that attempt or later, and never after the 10th |
| LlmUtils.InvokeWithRetry | src/llm_utils.py:10-20 | the attempt loop yields the outcome and final attempt of the policy's run, and its trace of invocations, logs and sleeps |
| LlmUtils.SucceedsOnAttempt | src/llm_utils.py:11-12 | after N-1 retryable failures, a reply on attempt N is returned after exactly N invocations |
| LlmUtils.ExhaustsAfterMaxAttempts | src/llm_utils.py:12 | a call that always fails retryably is given up after exactly 10 attempts, carrying the last exception |
| LlmUtils.RunCharacterised | src/llm_utils.py:10-15 | every attempt before the last failed retryably; success, propagation and giving up are each decided by the last attempt, in both directions |
| LlmUtils.NonRetryablePropagatesAtOnce | src/llm_utils.py:11 | an exception of another type propagates after one call |
| LlmUtils.GivesUpOnlyAfterTenRetryableFailures | src/llm_utils.py:11-12 | the call is given up exactly when all ten attempts fail retryably |
| LlmUtils.Pow2Monotone | src/llm_utils.py:13 | the exponential grows with the exponent |
| LlmUtils.WaitsNonDecreasing | src/llm_utils.py:13 | waits never shrink from one attempt to the next |
| LlmUtils.WaitSchedule | src/llm_utils.py:13 | the waits after attempts 1 to 9 are 10, 10, 20, 40, 80, 120, 120, 120, 120 seconds |
| LlmUtils.CountsAppend | src/llm_utils.py:14 | invocation and log counts add up over concatenated traces |
| LlmUtils.TraceShape | src/llm_utils.py:7-14 | a run ending on attempt n invokes n times and logs n-1 times; each log is followed by the sleep it announces, within [10, 120] |
| Extractor.Extract | src/extractor.py:25-72 | the entries are the linking of the elements' text items to their pages' images |
| Extractor.OrganizeByPage | src/extractor.py:25-50 | the first loop builds exactly the page-to-images map and the text-element list, `PageImageMap` and `TextItems` of the elements |
| Extractor.VisitElement | src/extractor.py:28-50 | one element is added to its page's image list when it is an image with a path, and queued as a text element when it is text-like and longer than 20 characters |
| Extractor.LinkPages | src/extractor.py:53-72 | one entry per text element, in order, each holding its page's image list |
| Extractor.FirstLoopStep | src/extractor.py:28-50 | one element extends the page map when it is an image with a path, and the text list when it is kept |
| Extractor.PageImageMapIsPageImages | src/extractor.py:32-40 | the map lists, for each page, exactly that page's recorded image paths in encounter order; a page without images gives [] |
| Extractor.TextItemsOfKept | src/extractor.py:43-50 | the text elements are the kept elements, in order, with text, page and type name |
| Extractor.LinkAllAt | src/extractor.py:56-70 | entry i carries text element i's type, content and page, and its page's images |
| Extractor.LinkedIsEntryPerKeptElement | src/extractor.py:43-72 | one entry per kept element, in input order, each with every image of its page, including images met after the element |
| Extractor.KeptElementsMembers | src/extractor.py:43-45 | an element is kept iff it is text-like and longer than 20 characters |
| Extractor.KeptElementsAppend | src/extractor.py:28-50 | filtering keeps input order across concatenation |
| Extractor.PageImagesAppend | src/extractor.py:32-40 | a page's images split over concatenated element lists |
| Extractor.PageImagesMembers | src/extractor.py:32-40 | a path is listed for page p iff an image element on page p carries it |
| Extractor.NoCrossPageImages | src/extractor.py:58 | no entry lists an image from another page |
| Extractor.ImageOnlyPageHasNoEntry | src/extractor.py:53-72 | a page without kept text produces no entry, whatever images it has |
| Extractor.BothRoles | src/extractor.py:32-50 | an element that is both a recorded image and kept text becomes an entry listing its own image |
| Extractor.TypeNameOfPlainClass | src/extractor.py:49 | the recorded type of a plain class name is the name itself |
| Extractor.LaterImageIsLinked | src/extractor.py:53-72 | an image after a text element on the same page is still linked to it |
| VectorStore.ChromaStore.AddDocuments | src/vectorstore.py:62-64 | the documents are appended to the named collection in one call, and no other collection changes |
| VectorStore.ChosenContent | src/vectorstore.py:42 | the summary when it is truthy, otherwise the content |
| VectorStore.GetRetriever | src/vectorstore.py:8-66 | reset empties the store; the dicts change as the conversion specifies; a conversion error adds nothing; otherwise a non-empty batch is added in one call and a k=2 retriever is returned |
| VectorStore.ConvertItem | src/vectorstore.py:37-60 | one item's effect is one step of the conversion: the dict writes it leaves behind, the error it raises, the document it queues |
| VectorStore.ConvertStep | src/vectorstore.py:37-60 | converting one more item is one step, unless an earlier item raised |
| VectorStore.PrefixError | src/vectorstore.py:37-60 | once an item raises, nothing after it happens |
| VectorStore.ConvertQueuesConvertedItems | src/vectorstore.py:42-60 | without an error, exactly the items with truthy chosen content are queued, in order, each with that content |
| VectorStore.ConvertRaisesIffIllFormed | src/vectorstore.py:42-60 | the conversion raises iff some converted item has content that does not slice or chosen content that is not text |
| VectorStore.ConvertErrorIsFirstIllFormed | src/vectorstore.py:42-60 | the error names the first ill-formed converted item, and its kind |
| VectorStore.ConvertTouchesOnlyItemDicts | src/vectorstore.py:47-54 | a dict no item refers to is unchanged |
| VectorStore.ConvertUpdatesOwnDict | src/vectorstore.py:44-54 | with unshared dicts, each converted item's dict gets the three writes, and a skipped item's dict is untouched |
| VectorStore.UpdatedMetadata | src/vectorstore.py:47-54 | the dict gains "type", "image_path" (as `str()`, only when the top-level value is truthy) and the first 5000 elements of the content; every other key is kept |
| VectorStore.TopLevelPathsRoundTrip | src/vectorstore.py:49-51 | a top-level path list is stored as a string the prompt builder decodes to the same list |
| VectorStore.NestedPathsKeptAsList | src/vectorstore.py:47-51 | a path list in the item's own dict stays a list and is used as it is |
| VectorStore.ConvertDocumentsHoldOwnUpdate | src/vectorstore.py:42-60 | with unshared dicts and well-formed items, the conversion raises nothing and queues, per converted item, a Document with its chosen content and a copy of its dict after the three writes |
| VectorStore.SharedDictSeenByBoth | src/vectorstore.py:47-60 | two items sharing a dict: the second item's writes start from the dict as the first left it, each Document keeps a copy of the dict as its own item left it, and the heap ends with the second item's version |
| VisualProcessor.PageDocuments | src/visual_processor.py:32-58 | one document per page |
| VisualProcessor.FirstSaveFailure | src/visual_processor.py:40 | the first page whose image cannot be saved, or none exactly when every save works |
| VisualProcessor.FirstSaveFailureIs | src/visual_processor.py:32-40 | the page where the loop stops is the first failing one |
| VisualProcessor.RenderPages | src/visual_processor.py:32-58 | the loop writes pages 1..n and builds their documents, where n is the first failing page or the page count |
| VisualProcessor.RenderPage | src/visual_processor.py:33-57 | one page: image path from number and basename, text or placeholder, metadata source/page/image_path |
| VisualProcessor.ProcessAndIndexPdf | src/visual_processor.py:7-70 | a missing module, failed open or failed save raises and adds nothing; no pages returns 0 and adds nothing; otherwise all page documents are added in one call and their number is returned |
| VisualProcessor.PageDocumentAt | src/visual_processor.py:50-58 | document i is built from page i |
| VisualProcessor.SavedPathsAt | src/visual_processor.py:38-40 | the i-th image written is page i+1's |
| VisualProcessor.PageTextNeverBlank | src/visual_processor.py:43-47 | a page keeps its text exactly when the text is not blank; stored content is never blank |
| VisualProcessor.ImagePathsDistinct | src/visual_processor.py:38-40 | distinct pages write distinct image files |
| VisualProcessor.PageDocumentPaths | src/visual_processor.py:55 | the prompt builder reads a page document's image_path back as exactly that page's image |
| VisualProcessor.IndexedOnePerPage | src/visual_processor.py:32-67 | a successful run indexes one document per page, numbered from 1, naming the PDF, non-blank, each pointing at its own image |
| VisualProcessor.PageDocumentFacts | src/visual_processor.py:43-58 | the document built for page i is numbered i+1, names the PDF, holds non-blank text and points at that page's image |
| VisualProcessor.IndexedImagesDistinct | src/visual_processor.py:38-58 | no two indexed documents point at the same image |
| VisualProcessor.CountIsPageCount | src/visual_processor.py:40-67 | success iff every save works; the count is the page count; a failure names the first unsaved page |
| VisionIndexer.VisionDocuments | src/vision_indexer.py:46-88 | one document per page |
| VisionIndexer.Requests | src/vision_indexer.py:58-63 | one prompt per page |
| VisionIndexer.FirstUnsaved | src/vision_indexer.py:51 | the first page whose image cannot be saved, or none exactly when every save works |
| VisionIndexer.FirstUnsavedIs | src/vision_indexer.py:46-51 | the page where the loop stops is the first failing one |
| VisionIndexer.ProcessPdfWithVision | src/vision_indexer.py:23-90 | the result is `Described`: the `VisionDocuments` of the pages, the error, or [] for a failed conversion, with the images written and the prompts sent for the pages handled |
| VisionIndexer.DescribePage | src/vision_indexer.py:49-88 | one page: its image path, its prompt, and a document holding the retrying call's description |
| VisionIndexer.VisionDocumentAt | src/vision_indexer.py:80-88 | document i is built from page i |
| VisionIndexer.RequestAt | src/vision_indexer.py:56-63 | prompt i carries page i's image |
| VisionIndexer.ReplyBecomesDescription | src/vision_indexer.py:65-68 | the first model reply after retryable failures becomes the description |
| VisionIndexer.PlaceholderIffCallRaises | src/vision_indexer.py:65-71 | the placeholder is stored exactly when a non-retryable error occurs or all ten attempts fail retryably |
| VisionIndexer.RequestShape | src/vision_indexer.py:58-63 | every prompt is the fixed instruction followed by the page as a PNG data URL |
| VisionIndexer.VisionImagePathsDistinct | src/vision_indexer.py:49-51 | distinct pages write distinct image files |
| VisionIndexer.NoClashWithFastModeImages | src/vision_indexer.py:49-50 | in one directory, a vision page image never has the name of a fast-mode page image |
| VisionIndexer.DescribedOnePerPage | src/vision_indexer.py:46-90 | a successful run yields one document per page, numbered from 1, naming the PDF, holding its prompt's description and pointing at its own image |
| VisionIndexer.VisionDocumentPaths | src/vision_indexer.py:85 | the prompt builder reads a page document's image_path back as exactly that page's image |
| VisionIndexer.ConversionFailureIndexesNothing | src/vision_indexer.py:34-42 | a failed conversion gives no documents and writes no images |
| Chain.BuildPrompt | src/chain.py:12-80 | the loop builds exactly `Payload`: the system message and the human message |
| Chain.AddDocument | src/chain.py:34-69 | one retrieved document extends the context by its numbered block and attaches the images it names, so the context is `ContextText` and the attached images `Emitted` of the documents so far |
| Chain.AttachImages | src/chain.py:55-69 | the inner loop leaves the image parts and the processed set as they are after all paths so far: each path attached iff non-empty, new, present and readable |
| Chain.PrefixStep | src/chain.py:31-36 | one more document extends the context by its numbered block and the paths by its own |
| Chain.EmittedStep | src/chain.py:56-67 | one more path is attached iff it is loadable and not yet attached |
| Chain.ImagePartsStep | src/chain.py:63-66 | one more attached path adds one image part |
| Chain.EmittedDistinctAndComplete | src/chain.py:55-69 | no image is attached twice, and a path is attached iff some document names it and it loads |
| Chain.FirstIndex | src/chain.py:55-67 | the first position of a path |
| Chain.EmittedInFirstSeenOrder | src/chain.py:55-67 | images appear in the order their paths are first seen |
| Chain.FirstIndexOfPrefix | src/chain.py:55-67 | a path's first position is unchanged by later paths |
| Chain.ImagePartsAt | src/chain.py:63-66 | image part k is the k-th attached image |
| Chain.PayloadShape | src/chain.py:71-80 | a system message and one human message: the prompt text first, then one JPEG data URL per attached image |
| Chain.LoadableImageAppearsOnce | src/chain.py:55-67 | a loadable path named by any number of documents is attached exactly once |
| Chain.AllPathsHasDocPaths | src/chain.py:38-55 | every path of every document is considered |
| Chain.UnloadableNeverEmitted | src/chain.py:57-69 | an empty, missing or unreadable path is never attached |
| Chain.PromptHoldsEachDocument | src/chain.py:31-73 | every retrieved document's text appears in the prompt |
| Chain.BodyHoldsEachDocument | src/chain.py:31-36 | every document's text appears in the context |

## Left out

- Printing, `st.info`/`st.success`/`st.error`/`st.warning` messages and the progress bar: these are output only.
- `os.path.exists` / `os.makedirs` on the assets or output directory: creating the directory has no effect on the data.
- The actual sleeping between retries: the model records each sleep as an event with its length. The clock is not modelled.
- tenacity's wait jitter and statistics: the policy uses neither.
- Exceptions outside `Exception` (`KeyboardInterrupt` during a retry): these are process control, not data.
- Rendering PDFs, PNG encoding, base64 encoding and the bytes on disk: these are oracles. The base64 text read back for a page is a parameter, and so is which paths exist and read.
- Reading an image in the vision indexer (`encode_image`) raising: the model assumes a save that succeeds gives a readable file.
- Embedding, similarity search and Chroma's persistence format: `k = 2` is recorded on the retriever, and the store is the documents of each collection.
- Chroma rejecting list or `None` metadata values: Chroma's validation is not part of this model.
- `partition_pdf`'s layout and OCR: its element sequence is a parameter.
- The description's debug print (`description[:50]`) in the vision indexer: it is output only.
- Metadata that is not a dict, and float metadata values: neither occurs in the code paths modelled.
- Metadata.ParseBody: `literal_eval` forms that `str()` of a list of strings never writes are read as a parse failure, giving no paths, where Python would accept them: `\N{name}` escapes, a `\u`/`\U` escape naming a lone surrogate, a backslash before a carriage return, string prefixes (r, u, b, f), triple-quoted strings, implicit concatenation of adjacent literals, `#` comments, and list elements that are not strings (numbers, nested lists).
- VisionIndexer.ProcessPdfWithVision: a reply whose `content` is a list of content blocks rather than a string is not modelled; `Document` validation would then raise outside the `try`. The model's replies are always text.
- VisionIndexer.ProcessPdfWithVision: the vision model's replies are treated as deterministic, a function of the message list and the attempt number, so two pages with the same image get the same outcome on each attempt.
- Metadata.Repr: escapes C0 and C1 controls, DEL, U+00A0 and U+00AD as `\xhh`, as Python does. Characters above U+00FF that Python treats as non-printable, which it writes as `\u` or `\U` escapes, are written unchanged. Unicode's printability tables are not modelled.
- The application wiring (`app.py`), `get_chain`, the configuration module and the agent tools: these are not part of this model.
- VectorStore.GetRetriever: the Chroma client is modelled as the store the caller passes in, which means the reset removes the persist directory and the next client opens an empty one. The identity of Chroma's document ids is not modelled.
- Extractor.OrganizeByPage: the page map's lists are values. The aliasing between a page's list in the map and the list handed to each entry (all entries of a page share one Python list) is not modelled. Nothing mutates those lists after the loop, so no observable order changes.
