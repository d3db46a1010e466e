/** The page loop of `process_and_save_document`: one Document per PDF page
    whose extracted text is non-empty, numbered from 1 and tagged with the
    author and novel. */
module Ingest {

  import opened Wrappers
  import opened Documents
  import Whitespace

  /** `if text:` on an extracted page: `None` and `""` are both false. */
  predicate HasText(page: Option<string>)
  {
    page.Some? && page.value != []
  }

  /** The Document built for the page at index `i`, whose raw text is `text`. */
  function PageDocument(text: string, i: nat, author: string, novel: string): Document
  {
    Document(Whitespace.Clean(text), Metadata(Some(i + 1), author, novel))
  }

  /** The Documents built from the pages, in page order. */
  function PageDocuments(pages: seq<Option<string>>, author: string, novel: string): seq<Document>
  {
    if pages == [] then []
    else
      var n := |pages| - 1;
      PageDocuments(pages[..n], author, novel)
        + (if HasText(pages[n]) then [PageDocument(pages[n].value, n, author, novel)] else [])
  }

  /** The loop `for i, page in enumerate(pdf.pages)` appending to `docs`. */
  method BuildDocuments(pages: seq<Option<string>>, author: string, novel: string)
    returns (docs: seq<Document>)
    ensures docs == PageDocuments(pages, author, novel)
  {
    docs := [];
    var i := 0;
    while i < |pages|
      invariant 0 <= i <= |pages|
      invariant docs == PageDocuments(pages[..i], author, novel)
    {
      assert pages[..i + 1][..i] == pages[..i];
      match pages[i] {
        case Some(text) =>
          if text != [] {
            docs := docs + [PageDocument(text, i, author, novel)];
          }
        case None =>
      }
      i := i + 1;
    }
    assert pages[..|pages|] == pages;
  }

  /** The page number a built Document carries (every one carries one). */
  function PageNumber(d: Document): nat
  {
    if d.metadata.page.Some? then d.metadata.page.value else 0
  }

  /** What every built Document satisfies: a page number between 1 and the
      page count, the page at that number has text, the content is that text
      cleaned, and the metadata names the given author and novel. */
  predicate BuiltFrom(d: Document, pages: seq<Option<string>>, author: string, novel: string)
  {
    d.metadata.page.Some?
    && 1 <= PageNumber(d) <= |pages|
    && HasText(pages[PageNumber(d) - 1])
    && d.pageContent == Whitespace.Clean(pages[PageNumber(d) - 1].value)
    && d.metadata.author == author && d.metadata.novel == novel
  }

  lemma {:induction false} PageDocumentsLength(pages: seq<Option<string>>, author: string, novel: string)
    ensures |PageDocuments(pages, author, novel)| <= |pages|
  {
    if pages != [] {
      PageDocumentsLength(pages[..|pages| - 1], author, novel);
    }
  }

  /** The `k`-th built Document comes from the page its number names. */
  lemma {:induction false} BuiltDocument(pages: seq<Option<string>>, author: string, novel: string, k: nat)
    requires k < |PageDocuments(pages, author, novel)|
    ensures BuiltFrom(PageDocuments(pages, author, novel)[k], pages, author, novel)
  {
    var n := |pages| - 1;
    var prefix := pages[..n];
    var before := PageDocuments(prefix, author, novel);
    var docs := PageDocuments(pages, author, novel);
    if k < |before| {
      assert docs[k] == before[k];
      BuiltDocument(prefix, author, novel, k);
      PageDocumentsLength(prefix, author, novel);
      assert prefix[PageNumber(before[k]) - 1] == pages[PageNumber(before[k]) - 1];
    } else {
      assert docs[k] == PageDocument(pages[n].value, n, author, novel);
    }
  }

  /** The page a built Document names exists and has text. */
  lemma BuiltDocumentPage(pages: seq<Option<string>>, author: string, novel: string, k: nat)
    requires k < |PageDocuments(pages, author, novel)|
    ensures PageDocuments(pages, author, novel)[k].metadata.page.Some?
    ensures 1 <= PageNumber(PageDocuments(pages, author, novel)[k]) <= |pages|
    ensures HasText(pages[PageNumber(PageDocuments(pages, author, novel)[k]) - 1])
  {
    BuiltDocument(pages, author, novel, k);
  }

  /** Page numbers of the built Documents strictly increase. */
  lemma {:induction false} PageNumbersIncrease(pages: seq<Option<string>>, author: string, novel: string, k: nat, l: nat)
    requires k < l < |PageDocuments(pages, author, novel)|
    ensures PageNumber(PageDocuments(pages, author, novel)[k]) < PageNumber(PageDocuments(pages, author, novel)[l])
  {
    var n := |pages| - 1;
    var prefix := pages[..n];
    var before := PageDocuments(prefix, author, novel);
    var docs := PageDocuments(pages, author, novel);
    assert docs[k] == before[k];
    if l < |before| {
      assert docs[l] == before[l];
      PageNumbersIncrease(prefix, author, novel, k, l);
    } else {
      BuiltDocumentPage(prefix, author, novel, k);
      assert PageNumber(docs[l]) == n + 1;
    }
  }

  /** At most one Document per page; each is built from its own page with the
      caller's author and novel; page numbers strictly increase. */
  lemma PageDocumentsSound(pages: seq<Option<string>>, author: string, novel: string)
    ensures |PageDocuments(pages, author, novel)| <= |pages|
    ensures forall k :: 0 <= k < |PageDocuments(pages, author, novel)| ==>
      BuiltFrom(PageDocuments(pages, author, novel)[k], pages, author, novel)
    ensures forall k, l :: 0 <= k < l < |PageDocuments(pages, author, novel)| ==>
      PageNumber(PageDocuments(pages, author, novel)[k]) < PageNumber(PageDocuments(pages, author, novel)[l])
  {
    var docs := PageDocuments(pages, author, novel);
    PageDocumentsLength(pages, author, novel);
    forall k | 0 <= k < |docs| ensures BuiltFrom(docs[k], pages, author, novel) {
      BuiltDocument(pages, author, novel, k);
    }
    forall k, l | 0 <= k < l < |docs| ensures PageNumber(docs[k]) < PageNumber(docs[l]) {
      PageNumbersIncrease(pages, author, novel, k, l);
    }
  }

  /** Whether some Document in `docs` carries page number `p`. */
  predicate HasPage(docs: seq<Document>, p: nat)
  {
    exists k :: 0 <= k < |docs| && docs[k].metadata.page == Some(p)
  }

  lemma {:induction false} PageWithTextKept(pages: seq<Option<string>>, author: string, novel: string, i: nat)
    requires i < |pages| && HasText(pages[i])
    ensures HasPage(PageDocuments(pages, author, novel), i + 1)
  {
    var n := |pages| - 1;
    var before := PageDocuments(pages[..n], author, novel);
    var docs := PageDocuments(pages, author, novel);
    assert docs[..|before|] == before;
    if i < n {
      assert pages[..n][i] == pages[i];
      PageWithTextKept(pages[..n], author, novel, i);
      var k :| 0 <= k < |before| && before[k].metadata.page == Some(i + 1);
      assert docs[k] == before[k];
    } else {
      assert docs[|before|].metadata.page == Some(i + 1);
    }
  }

  /** A page yields a Document exactly when its raw text is non-empty. */
  lemma PageDocumentsComplete(pages: seq<Option<string>>, author: string, novel: string, i: nat)
    requires i < |pages|
    ensures HasText(pages[i]) <==> HasPage(PageDocuments(pages, author, novel), i + 1)
  {
    var docs := PageDocuments(pages, author, novel);
    if HasText(pages[i]) {
      PageWithTextKept(pages, author, novel, i);
    } else if HasPage(docs, i + 1) {
      var k :| 0 <= k < |docs| && docs[k].metadata.page == Some(i + 1);
      BuiltDocumentPage(pages, author, novel, k);
    }
  }

  /** The non-empty test is on the raw text: a page of only whitespace still
      yields a Document, and its content is empty. */
  lemma WhitespacePageKept(pages: seq<Option<string>>, author: string, novel: string, i: nat)
    requires i < |pages| && pages[i].Some? && pages[i].value != []
    requires forall j :: 0 <= j < |pages[i].value| ==> Whitespace.IsSpace(pages[i].value[j])
    ensures Document([], Metadata(Some(i + 1), author, novel)) in PageDocuments(pages, author, novel)
  {
    var docs := PageDocuments(pages, author, novel);
    PageWithTextKept(pages, author, novel, i);
    var k :| 0 <= k < |docs| && docs[k].metadata.page == Some(i + 1);
    BuiltDocument(pages, author, novel, k);
    Whitespace.CleanAllSpace(pages[i].value);
    assert docs[k] == Document([], Metadata(Some(i + 1), author, novel));
  }
}
