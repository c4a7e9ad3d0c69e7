/**
 * PDFExtractor.extract after partition_pdf (src/extractor.py:25-72):
 * collects the image paths of each page, keeps the text-like elements
 * longer than 20 characters, and gives each kept element the whole list
 * of images of its page.
 *
 * partition_pdf is an oracle: its result is the sequence of elements.
 */
module Extractor {
  import opened PyCore

  /** One element partition_pdf returns: the qualified name of its class,
      metadata.page_number, str(el) (its text) and metadata.image_path. */
  datatype Element = Element(className: string, page: Option<int>, text: string, imagePath: Option<string>)

  /** A row of text_elements. */
  datatype TextItem = TextItem(content: string, page: Option<int>, kind: string)

  /** A row of final_data: {"type", "content", "metadata": {"page", "image_path"}}. */
  datatype Entry = Entry(kind: string, content: string, page: Option<int>, imagePaths: seq<string>)

  /** str(type(el)). */
  function TypeRepr(className: string): string
  {
    "<class '" + className + "'>"
  }

  predicate IsImage(e: Element)
  {
    Contains(TypeRepr(e.className), "Image")
  }

  /** `if img_path:` on the element's image path. */
  predicate HasImagePath(e: Element)
  {
    e.imagePath.Some? && e.imagePath.value != ""
  }

  /** An image element whose path is recorded for its page. */
  predicate RecordsImage(e: Element)
  {
    IsImage(e) && HasImagePath(e)
  }

  predicate IsTextLike(e: Element)
  {
    var r := TypeRepr(e.className);
    Contains(r, "Text") || Contains(r, "Table") || Contains(r, "Title") || Contains(r, "NarrativeText")
  }

  /** The element becomes a chunk: text-like and longer than 20 characters. */
  predicate Kept(e: Element)
  {
    IsTextLike(e) && |e.text| > 20
  }

  /** str(type(el)).split("'")[1]. */
  function TypeName(className: string): string
  {
    var r := TypeRepr(className);
    assert r[7] == '\'';
    Split(r, '\'')[1]
  }

  function Lookup(m: map<Option<int>, seq<string>>, p: Option<int>): seq<string>
  {
    if p in m then m[p] else []
  }

  // ---------------------------------------------------------------------
  // What the two loops compute

  /** page_image_map after the first loop has seen els. */
  function PageImageMap(els: seq<Element>): map<Option<int>, seq<string>>
    decreases |els|
  {
    if els == [] then map[]
    else
      var m := PageImageMap(els[..|els| - 1]);
      var e := els[|els| - 1];
      if RecordsImage(e) then m[e.page := Lookup(m, e.page) + [e.imagePath.value]] else m
  }

  /** text_elements after the first loop has seen els. */
  function TextItems(els: seq<Element>): seq<TextItem>
    decreases |els|
  {
    if els == [] then []
    else
      var e := els[|els| - 1];
      TextItems(els[..|els| - 1]) + (if Kept(e) then [TextItem(e.text, e.page, TypeName(e.className))] else [])
  }

  /** final_data built from the text items and the page map. */
  function LinkAll(items: seq<TextItem>, m: map<Option<int>, seq<string>>): seq<Entry>
    decreases |items|
  {
    if items == [] then []
    else
      var it := items[|items| - 1];
      LinkAll(items[..|items| - 1], m) + [Entry(it.kind, it.content, it.page, Lookup(m, it.page))]
  }

  function Linked(els: seq<Element>): seq<Entry>
  {
    LinkAll(TextItems(els), PageImageMap(els))
  }

  // ---------------------------------------------------------------------
  // Reference definitions: filters over the whole element list

  /** The recorded image paths on page p, in encounter order. */
  function PageImages(els: seq<Element>, p: Option<int>): seq<string>
    decreases |els|
  {
    if els == [] then []
    else
      var e := els[|els| - 1];
      PageImages(els[..|els| - 1], p) + (if RecordsImage(e) && e.page == p then [e.imagePath.value] else [])
  }

  /** The kept elements, in input order. */
  function KeptElements(els: seq<Element>): seq<Element>
    decreases |els|
  {
    if els == [] then []
    else
      var e := els[|els| - 1];
      KeptElements(els[..|els| - 1]) + (if Kept(e) then [e] else [])
  }

  /** The entry a kept element becomes, given all elements of the document. */
  function EntryFor(els: seq<Element>, e: Element): Entry
  {
    Entry(TypeName(e.className), e.text, e.page, PageImages(els, e.page))
  }

  // ---------------------------------------------------------------------
  // The extractor

  method Extract(elements: seq<Element>) returns (finalData: seq<Entry>)
    ensures finalData == Linked(elements)
  {
    var pageImageMap, textElements := OrganizeByPage(elements);
    finalData := LinkPages(textElements, pageImageMap);
  }

  /** Step 2 of extract: the page map and the text elements. */
  method OrganizeByPage(elements: seq<Element>)
    returns (pageImageMap: map<Option<int>, seq<string>>, textElements: seq<TextItem>)
    ensures pageImageMap == PageImageMap(elements)
    ensures textElements == TextItems(elements)
  {
    pageImageMap, textElements := map[], [];
    var i := 0;
    while i < |elements|
      invariant 0 <= i <= |elements|
      invariant pageImageMap == PageImageMap(elements[..i])
      invariant textElements == TextItems(elements[..i])
    {
      FirstLoopStep(elements, i);
      pageImageMap, textElements := VisitElement(elements[i], pageImageMap, textElements);
      i := i + 1;
    }
    assert elements[..i] == elements;
  }

  /** One pass of the first loop: an image with a path is recorded for its
      page, and a kept text-like element is queued as a text element. */
  method VisitElement(el: Element, m: map<Option<int>, seq<string>>, t: seq<TextItem>)
    returns (pageImageMap: map<Option<int>, seq<string>>, textElements: seq<TextItem>)
    ensures pageImageMap == if RecordsImage(el) then m[el.page := Lookup(m, el.page) + [el.imagePath.value]] else m
    ensures textElements == t + if Kept(el) then [TextItem(el.text, el.page, TypeName(el.className))] else []
  {
    pageImageMap, textElements := m, t;
    var pageNum := el.page;
    if IsImage(el) {
      var imgPath := el.imagePath;
      if imgPath.Some? && imgPath.value != "" {
        if pageNum !in pageImageMap {
          pageImageMap := pageImageMap[pageNum := []];
        }
        pageImageMap := pageImageMap[pageNum := pageImageMap[pageNum] + [imgPath.value]];
      }
    }
    if IsTextLike(el) {
      if |el.text| > 20 {
        textElements := textElements + [TextItem(el.text, pageNum, TypeName(el.className))];
      }
    }
  }

  /** Step 3 of extract: one entry per text element, linked to its page's images. */
  method LinkPages(textElements: seq<TextItem>, pageImageMap: map<Option<int>, seq<string>>)
    returns (finalData: seq<Entry>)
    ensures finalData == LinkAll(textElements, pageImageMap)
  {
    finalData := [];
    var j := 0;
    while j < |textElements|
      invariant 0 <= j <= |textElements|
      invariant finalData == LinkAll(textElements[..j], pageImageMap)
    {
      var item := textElements[j];
      assert textElements[..j + 1][..j] == textElements[..j];
      var linkedImages := if item.page in pageImageMap then pageImageMap[item.page] else [];
      finalData := finalData + [Entry(item.kind, item.content, item.page, linkedImages)];
      j := j + 1;
    }
    assert textElements[..j] == textElements;
  }

  lemma FirstLoopStep(els: seq<Element>, i: nat)
    requires i < |els|
    ensures var m, e := PageImageMap(els[..i]), els[i];
      PageImageMap(els[..i + 1]) == if RecordsImage(e) then m[e.page := Lookup(m, e.page) + [e.imagePath.value]] else m
    ensures TextItems(els[..i + 1])
      == TextItems(els[..i]) + if Kept(els[i]) then [TextItem(els[i].text, els[i].page, TypeName(els[i].className))] else []
  {
    assert els[..i + 1][..i] == els[..i];
  }

  // ---------------------------------------------------------------------
  // Properties of the linking

  /** The page map holds, for each page, exactly that page's recorded
      image paths in encounter order; a page without images maps to []. */
  lemma {:induction false} PageImageMapIsPageImages(els: seq<Element>, p: Option<int>)
    ensures Lookup(PageImageMap(els), p) == PageImages(els, p)
    decreases |els|
  {
    if els != [] {
      PageImageMapIsPageImages(els[..|els| - 1], p);
    }
  }

  lemma {:induction false} TextItemsOfKept(els: seq<Element>)
    ensures |TextItems(els)| == |KeptElements(els)|
    ensures forall i :: 0 <= i < |TextItems(els)| ==>
      var k := KeptElements(els)[i];
      TextItems(els)[i] == TextItem(k.text, k.page, TypeName(k.className))
    decreases |els|
  {
    if els != [] {
      TextItemsOfKept(els[..|els| - 1]);
    }
  }

  lemma {:induction false} LinkAllAt(items: seq<TextItem>, m: map<Option<int>, seq<string>>)
    ensures |LinkAll(items, m)| == |items|
    ensures forall i :: 0 <= i < |items| ==>
      LinkAll(items, m)[i] == Entry(items[i].kind, items[i].content, items[i].page, Lookup(m, items[i].page))
    decreases |items|
  {
    if items != [] {
      LinkAllAt(items[..|items| - 1], m);
    }
  }

  /** One entry per kept element, in input order, each carrying the
      element's text, page and type name and every recorded image of its
      page, including images met after the element. */
  lemma LinkedIsEntryPerKeptElement(els: seq<Element>)
    ensures |Linked(els)| == |KeptElements(els)|
    ensures forall i :: 0 <= i < |Linked(els)| ==> Linked(els)[i] == EntryFor(els, KeptElements(els)[i])
  {
    TextItemsOfKept(els);
    LinkAllAt(TextItems(els), PageImageMap(els));
    forall i | 0 <= i < |Linked(els)|
      ensures Linked(els)[i] == EntryFor(els, KeptElements(els)[i])
    {
      PageImageMapIsPageImages(els, KeptElements(els)[i].page);
    }
  }

  lemma {:induction false} KeptElementsMembers(els: seq<Element>)
    ensures forall e :: e in KeptElements(els) <==> e in els && Kept(e)
    decreases |els|
  {
    if els != [] {
      var init := els[..|els| - 1];
      KeptElementsMembers(init);
      assert els == init + [els[|els| - 1]];
    }
  }

  /** Filtering distributes over concatenation, so input order is kept. */
  lemma {:induction false} KeptElementsAppend(a: seq<Element>, b: seq<Element>)
    ensures KeptElements(a + b) == KeptElements(a) + KeptElements(b)
    decreases |b|
  {
    if b == [] {
      assert a + b == a;
    } else {
      assert (a + b)[..|a + b| - 1] == a + b[..|b| - 1];
      KeptElementsAppend(a, b[..|b| - 1]);
    }
  }

  lemma {:induction false} PageImagesAppend(a: seq<Element>, b: seq<Element>, p: Option<int>)
    ensures PageImages(a + b, p) == PageImages(a, p) + PageImages(b, p)
    decreases |b|
  {
    if b == [] {
      assert a + b == a;
    } else {
      assert (a + b)[..|a + b| - 1] == a + b[..|b| - 1];
      PageImagesAppend(a, b[..|b| - 1], p);
    }
  }

  /** A path is linked to page p iff an image element on page p carries it. */
  lemma {:induction false} PageImagesMembers(els: seq<Element>, p: Option<int>)
    ensures forall x :: x in PageImages(els, p) <==>
      exists j :: 0 <= j < |els| && RecordsImage(els[j]) && els[j].page == p && els[j].imagePath.value == x
    decreases |els|
  {
    if els != [] {
      var init, e := els[..|els| - 1], els[|els| - 1];
      var last := if RecordsImage(e) && e.page == p then [e.imagePath.value] else [];
      assert PageImages(els, p) == PageImages(init, p) + last;
      PageImagesMembers(init, p);
      forall x ensures x in PageImages(els, p) <==>
        exists j :: 0 <= j < |els| && RecordsImage(els[j]) && els[j].page == p && els[j].imagePath.value == x
      {
        assert x in PageImages(els, p) <==> x in PageImages(init, p) || x in last;
        if x in PageImages(init, p) {
          var j :| 0 <= j < |init| && RecordsImage(init[j]) && init[j].page == p && init[j].imagePath.value == x;
          assert els[j] == init[j];
        }
        if exists j :: 0 <= j < |els| && RecordsImage(els[j]) && els[j].page == p && els[j].imagePath.value == x {
          var j :| 0 <= j < |els| && RecordsImage(els[j]) && els[j].page == p && els[j].imagePath.value == x;
          if j < |init| { assert init[j] == els[j]; }
        }
      }
    }
  }

  /** No entry is linked to an image of another page. */
  lemma NoCrossPageImages(els: seq<Element>, i: nat, x: string)
    requires i < |Linked(els)| && x in Linked(els)[i].imagePaths
    ensures exists j :: 0 <= j < |els| && RecordsImage(els[j]) && els[j].page == Linked(els)[i].page
                        && els[j].imagePath.value == x
  {
    LinkedIsEntryPerKeptElement(els);
    PageImagesMembers(els, Linked(els)[i].page);
  }

  /** A page on which no element is kept has no entry, whatever images it holds. */
  lemma ImageOnlyPageHasNoEntry(els: seq<Element>, p: Option<int>)
    requires forall j :: 0 <= j < |els| && els[j].page == p ==> !Kept(els[j])
    ensures forall i :: 0 <= i < |Linked(els)| ==> Linked(els)[i].page != p
  {
    LinkedIsEntryPerKeptElement(els);
    KeptElementsMembers(els);
    forall i | 0 <= i < |Linked(els)| ensures Linked(els)[i].page != p {
      var k := KeptElements(els)[i];
      assert k in KeptElements(els);
    }
  }

  /** An element that is both a recorded image and a kept text element
      plays both roles: its text becomes an entry, and that entry lists
      its own image. */
  lemma BothRoles(els: seq<Element>, j: nat)
    requires j < |els| && RecordsImage(els[j]) && Kept(els[j])
    ensures exists i :: 0 <= i < |Linked(els)| && Linked(els)[i].content == els[j].text
              && Linked(els)[i].page == els[j].page && els[j].imagePath.value in Linked(els)[i].imagePaths
  {
    var e := els[j];
    LinkedIsEntryPerKeptElement(els);
    KeptElementsMembers(els);
    PageImagesMembers(els, e.page);
    assert e in KeptElements(els);
    var i :| 0 <= i < |KeptElements(els)| && KeptElements(els)[i] == e;
    assert Linked(els)[i] == EntryFor(els, e);
  }

  /** For a class name without an apostrophe the recorded type is that name. */
  lemma TypeNameOfPlainClass(className: string)
    requires '\'' !in className
    ensures TypeName(className) == className
  {
    assert TypeRepr(className) == "<class " + ['\''] + className + ['\''] + ">";
    SplitSecondField("<class ", className, ">", '\'');
  }

  /** An image links to a text element that comes before it on its page. */
  lemma LaterImageIsLinked(t: Element, img: Element)
    requires Kept(t) && !RecordsImage(t)
    requires RecordsImage(img) && !Kept(img) && img.page == t.page
    ensures Linked([t, img]) == [Entry(TypeName(t.className), t.text, t.page, [img.imagePath.value])]
  {
    var els := [t, img];
    LinkedIsEntryPerKeptElement(els);
    assert els[..1] == [t] && [t][..0] == [];
    assert PageImages([t], t.page) == PageImages([], t.page) == [];
    assert PageImages(els, t.page) == PageImages([t], t.page) + [img.imagePath.value];
    assert KeptElements([t]) == KeptElements([]) + [t];
    assert KeptElements(els) == KeptElements([t]);
    assert |Linked(els)| == 1 && Linked(els)[0] == EntryFor(els, t);
    assert Linked(els) == [EntryFor(els, t)];
    assert EntryFor(els, t) == Entry(TypeName(t.className), t.text, t.page, [img.imagePath.value]);
  }
}
