/** The read path of the chat service (`get_rag_response`): normalise the
    question, retrieve at most five chunks of the selected novel, format them
    as the prompt's context, ask the chat model, and look the sources up again
    with the same normalised question. */
module RagService {

  import opened Wrappers
  import opened Documents
  import ArabicNormalizer
  import Strings

  /** The retriever's `k`. */
  const TopK: nat := 5

  /** The retriever's metadata filter: `{"$and": [{"author": …}, {"novel": …}]}`. */
  datatype Scope = Scope(author: string, novel: string)

  /** Exact equality on both the author and the novel. */
  predicate InScope(d: Document, scope: Scope)
  {
    d.metadata.author == scope.author && d.metadata.novel == scope.novel
  }

  /** The entries that pass the filter, keeping their ranking order. */
  function FilterScope(ranked: seq<Document>, scope: Scope): (r: seq<Document>)
    ensures |r| <= |ranked|
    ensures forall k :: 0 <= k < |r| ==> InScope(r[k], scope)
  {
    if ranked == [] then []
    else (if InScope(ranked[0], scope) then [ranked[0]] else []) + FilterScope(ranked[1..], scope)
  }

  /** Filtering distributes over concatenation, so the matches keep the ranking order. */
  lemma {:induction false} FilterScopeConcat(a: seq<Document>, b: seq<Document>, scope: Scope)
    ensures FilterScope(a + b, scope) == FilterScope(a, scope) + FilterScope(b, scope)
  {
    if a == [] {
      assert a + b == b;
    } else {
      var head := if InScope(a[0], scope) then [a[0]] else [];
      assert (a + b)[0] == a[0];
      assert (a + b)[1..] == a[1..] + b;
      assert FilterScope(a + b, scope) == head + FilterScope(a[1..] + b, scope);
      FilterScopeConcat(a[1..], b, scope);
    }
  }

  /** The filter keeps exactly the entries of the store that are in scope. */
  lemma {:induction false} FilterScopeMembers(ranked: seq<Document>, scope: Scope, d: Document)
    ensures d in FilterScope(ranked, scope) <==> d in ranked && InScope(d, scope)
  {
    if ranked != [] {
      FilterScopeMembers(ranked[1..], scope, d);
      assert ranked == [ranked[0]] + ranked[1..];
    }
  }

  /** The similarity retriever with `k = 5` and the scope filter, over the
      store's entries listed from most to least similar to the query. */
  function Retrieve(ranked: seq<Document>, scope: Scope): (r: seq<Document>)
    ensures |r| <= TopK
    ensures forall k :: 0 <= k < |r| ==> InScope(r[k], scope)
    ensures |FilterScope(ranked, scope)| <= TopK ==> r == FilterScope(ranked, scope)
    ensures |FilterScope(ranked, scope)| > TopK ==> |r| == TopK
    ensures r == FilterScope(ranked, scope)[..|r|]
  {
    var matches := FilterScope(ranked, scope);
    if |matches| <= TopK then matches else matches[..TopK]
  }

  /** A scope with no entry in the store retrieves nothing; this is not an error. */
  lemma RetrieveEmptyScope(ranked: seq<Document>, scope: Scope)
    requires forall k :: 0 <= k < |ranked| ==> !InScope(ranked[k], scope)
    ensures Retrieve(ranked, scope) == []
  {
    var matches := FilterScope(ranked, scope);
    if matches != [] {
      FilterScopeMembers(ranked, scope, matches[0]);
      assert false;
    }
  }

  /** The fallback the formatter prints when a chunk has no page number. */
  const UnknownPage: string := "غير معروف"

  /** The text that opens each context block. */
  const PageTag: string := "[الصفحة "

  /** `doc.metadata.get('page', 'غير معروف')` rendered by the f-string. */
  function PageLabel(d: Document): string
  {
    match d.metadata.page
    case Some(p) => Strings.Decimal(p)
    case None => UnknownPage
  }

  /** One context block: `[الصفحة p]: content`. */
  function Block(d: Document): string
  {
    PageTag + PageLabel(d) + "]: " + d.pageContent
  }

  /** `format_docs`: the blocks of the retrieved chunks, in retrieval order,
      joined with a blank line. */
  function FormatDocs(docs: seq<Document>): string
  {
    Strings.Join("\n\n", Blocks(docs))
  }

  /** The list comprehension of `format_docs`: one block per chunk, in order. */
  function Blocks(docs: seq<Document>): (r: seq<string>)
    ensures |r| == |docs|
    ensures forall i :: 0 <= i < |docs| ==> r[i] == Block(docs[i])
  {
    if docs == [] then [] else [Block(docs[0])] + Blocks(docs[1..])
  }

  /** An empty retrieval gives an empty context; one chunk gives its block alone. */
  lemma FormatDocsSmall(docs: seq<Document>)
    ensures docs == [] ==> FormatDocs(docs) == ""
    ensures |docs| == 1 ==> FormatDocs(docs) == Block(docs[0])
  {
  }

  /** The context is the formatting of the first chunks, a blank line, and the
      formatting of the rest: blocks appear in retrieval order, separated by "\n\n". */
  lemma FormatDocsSplit(docs: seq<Document>, i: nat)
    requires 0 < i < |docs|
    ensures FormatDocs(docs) == FormatDocs(docs[..i]) + "\n\n" + FormatDocs(docs[i..])
  {
    var blocks := Blocks(docs);
    Strings.JoinSplitAt("\n\n", blocks, i);
    assert blocks[..i] == Blocks(docs[..i]);
    assert blocks[i..] == Blocks(docs[i..]);
  }

  /** Each block starts with the page tag, names the page (read back as the
      page number, or the fallback when it is missing) and ends with the content. */
  lemma BlockShape(d: Document)
    ensures Block(d)[..|PageTag|] == PageTag
    ensures Block(d)[|Block(d)| - |d.pageContent|..] == d.pageContent
    ensures d.metadata.page.None? ==> PageLabel(d) == UnknownPage
    ensures d.metadata.page.Some? ==>
      (forall i :: 0 <= i < |PageLabel(d)| ==> Strings.IsDigit(PageLabel(d)[i]))
      && Strings.DigitsValue(PageLabel(d)) == d.metadata.page.value
  {
    if d.metadata.page.Some? {
      Strings.DecimalValue(d.metadata.page.value);
    }
  }

  /** What the chain hands to the prompt template. */
  datatype PromptInputs = PromptInputs(context: string, question: string, authorName: string, novelTitle: string)

  /** The dictionary `get_rag_response` returns. */
  datatype RagResponse = RagResponse(answer: string, sources: seq<Document>)

  /** One invocation of the retriever: the vector store's entries ranked for
      `query` (by `search`, which stands for the embedding service and the
      store and may raise) cut down by the scope filter and `k`. */
  function RetrieveWith(search: string -> Result<seq<Document>>, query: string, scope: Scope): (r: Result<seq<Document>>)
    ensures r.Success? <==> search(query).Success?
    ensures r.Success? ==> r.value == Retrieve(search(query).value, scope)
  {
    match search(query)
    case Failure(e) => Failure(e)
    case Success(ranked) => Success(Retrieve(ranked, scope))
  }

  /** `get_rag_response(question, author_name, novel_title)`. The chain runs
      the retriever and `format_docs` for the context and passes the question
      through; the chat model is `llm`. The sources come from a second
      retriever invocation with the same normalised question. */
  function GetRagResponse(
    question: string, authorName: string, novelTitle: string,
    search: string -> Result<seq<Document>>, llm: PromptInputs -> Result<string>): (r: Result<RagResponse>)
    ensures r.Success? ==>
      |r.value.sources| <= TopK
      && (forall k :: 0 <= k < |r.value.sources| ==> InScope(r.value.sources[k], Scope(authorName, novelTitle)))
    ensures r.Success? ==>
      search(ArabicNormalizer.Normalize(question)).Success?
      && r.value.sources == Retrieve(search(ArabicNormalizer.Normalize(question)).value, Scope(authorName, novelTitle))
    ensures r.Success? ==>
      llm(PromptInputs(FormatDocs(r.value.sources), ArabicNormalizer.Normalize(question), authorName, novelTitle))
        == Success(r.value.answer)
    ensures r.Success? <==>
      search(ArabicNormalizer.Normalize(question)).Success?
      && llm(PromptInputs(
           FormatDocs(Retrieve(search(ArabicNormalizer.Normalize(question)).value, Scope(authorName, novelTitle))),
           ArabicNormalizer.Normalize(question), authorName, novelTitle)).Success?
  {
    var query := ArabicNormalizer.Normalize(question);
    var scope := Scope(authorName, novelTitle);
    match RetrieveWith(search, query, scope)
    case Failure(e) => Failure(e)
    case Success(contextDocs) =>
      match llm(PromptInputs(FormatDocs(contextDocs), query, authorName, novelTitle))
      case Failure(e) => Failure(e)
      case Success(answer) =>
        match RetrieveWith(search, query, scope)
        case Failure(e) => Failure(e)
        case Success(sources) => Success(RagResponse(answer, sources))
  }

  /** Only the normalised question reaches the retriever and the model: a
      question and its normalisation get the same response. */
  lemma NormalizedQuestionSuffices(
    question: string, authorName: string, novelTitle: string,
    search: string -> Result<seq<Document>>, llm: PromptInputs -> Result<string>)
    ensures GetRagResponse(ArabicNormalizer.Normalize(question), authorName, novelTitle, search, llm)
         == GetRagResponse(question, authorName, novelTitle, search, llm)
  {
    ArabicNormalizer.NormalizeIdempotent(question);
  }

  /** A novel with no indexed chunk is answered with an empty context and no
      sources, not with an error. */
  lemma EmptyScopeAnswer(
    question: string, authorName: string, novelTitle: string,
    search: string -> Result<seq<Document>>, llm: PromptInputs -> Result<string>, ranked: seq<Document>, answer: string)
    requires search(ArabicNormalizer.Normalize(question)) == Success(ranked)
    requires forall k :: 0 <= k < |ranked| ==> !InScope(ranked[k], Scope(authorName, novelTitle))
    requires llm(PromptInputs("", ArabicNormalizer.Normalize(question), authorName, novelTitle)) == Success(answer)
    ensures GetRagResponse(question, authorName, novelTitle, search, llm) == Success(RagResponse(answer, []))
  {
    RetrieveEmptyScope(ranked, Scope(authorName, novelTitle));
  }
}
