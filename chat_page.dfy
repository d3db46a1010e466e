/** The chat page (`render_chat_page`): the conversation history kept in the
    session, and the source list shown under each answer. */
module ChatPage {

  import opened Wrappers
  import opened Documents
  import RagService

  /** Length of the content preview kept for a cited chunk. */
  const PreviewLength: nat := 50

  /** `doc.metadata.get("page", "?")`: the page number, or the text "?". */
  datatype PageValue = PageNumber(number: nat) | PageText(text: string)

  /** One `{"page": …, "preview": …}` entry of `formatted_sources`. */
  datatype SourceRef = SourceRef(page: PageValue, preview: string)

  /** An entry of `st.session_state.messages`. */
  datatype ChatMessage =
    | UserMessage(content: string)
    | AssistantMessage(content: string, sources: seq<SourceRef>)

  function Min(a: nat, b: nat): nat
  {
    if a <= b then a else b
  }

  /** The display record of one retrieved chunk. */
  function SourceOf(d: Document): (s: SourceRef)
    ensures |s.preview| == Min(PreviewLength, |d.pageContent|)
    ensures s.preview == d.pageContent[..|s.preview|]
    ensures d.metadata.page.None? ==> s.page == PageText("?")
    ensures d.metadata.page.Some? ==> s.page == PageNumber(d.metadata.page.value)
  {
    var page := if d.metadata.page.Some? then PageNumber(d.metadata.page.value) else PageText("?");
    var preview := if |d.pageContent| <= PreviewLength then d.pageContent else d.pageContent[..PreviewLength];
    SourceRef(page, preview)
  }

  /** The source list of a response: one display record per chunk, in order. */
  function SourcesOf(docs: seq<Document>): (r: seq<SourceRef>)
    ensures |r| == |docs|
    ensures forall i :: 0 <= i < |docs| ==> r[i] == SourceOf(docs[i])
  {
    if docs == [] then [] else [SourceOf(docs[0])] + SourcesOf(docs[1..])
  }

  /** The loop that builds `formatted_sources` by appending one record per
      retrieved chunk. */
  method FormatSources(docs: seq<Document>) returns (sources: seq<SourceRef>)
    ensures sources == SourcesOf(docs)
    ensures forall i :: 0 <= i < |sources| ==> |sources[i].preview| <= PreviewLength
  {
    sources := [];
    for i := 0 to |docs|
      invariant sources == SourcesOf(docs[..i])
    {
      assert docs[..i + 1] == docs[..i] + [docs[i]];
      SourcesOfAppend(docs[..i], docs[i]);
      sources := sources + [SourceOf(docs[i])];
    }
    assert docs[..|docs|] == docs;
  }

  lemma SourcesOfAppend(docs: seq<Document>, d: Document)
    ensures SourcesOf(docs + [d]) == SourcesOf(docs) + [SourceOf(d)]
  {
  }

  /** The history only grows by whole exchanges: the old entries stay, the
      user entry comes next, and the assistant entry, carrying the answer and
      the sources formatted from the retrieved chunks, follows only when the
      service answered. */
  lemma ExchangeShape(history: seq<ChatMessage>, prompt: string, r: Result<RagService.RagResponse>)
    ensures |Exchange(history, prompt, r)| == |history| + (if r.Success? then 2 else 1)
    ensures Exchange(history, prompt, r)[..|history|] == history
    ensures Exchange(history, prompt, r)[|history|] == UserMessage(prompt)
    ensures r.Success? ==>
      Exchange(history, prompt, r)[|history| + 1] == AssistantMessage(r.value.answer, SourcesOf(r.value.sources))
  {
  }

  /** The history after one question whose service call produced `r`. */
  function Exchange(history: seq<ChatMessage>, prompt: string, r: Result<RagService.RagResponse>): seq<ChatMessage>
  {
    match r
    case Success(resp) => history + [UserMessage(prompt), AssistantMessage(resp.answer, SourcesOf(resp.sources))]
    case Failure(_) => history + [UserMessage(prompt)]
  }

  /** What one rendering of the page did. */
  datatype PageOutcome = LibraryEmpty | NoNovelsForAuthor | HistoryCleared | Rendered

  /** The session state of one browser session. */
  class ChatSession {
    /** `st.session_state.messages`; `None` while the key is absent. */
    var messages: Option<seq<ChatMessage>>

    /** A new session has no history yet. */
    constructor ()
      ensures messages == None
    {
      messages := None;
    }

    /** The "clear chat" button. */
    method ClearHistory()
      modifies this
      ensures messages == Some([])
    {
      messages := Some([]);
    }

    /** Initialise the history if the key is absent; keep an existing one. */
    method InitHistory()
      modifies this
      ensures old(messages).None? ==> messages == Some([])
      ensures old(messages).Some? ==> messages == old(messages)
    {
      if messages.None? {
        messages := Some([]);
      }
    }

    /** A submitted question: the user entry is appended, then the service is
        called; on success the answer and its formatted sources follow, on an
        exception nothing more is added. */
    method Ask(
      prompt: string, author: string, novel: string,
      search: string -> Result<seq<Document>>, llm: RagService.PromptInputs -> Result<string>)
      requires messages.Some?
      modifies this
      ensures messages == Some(Exchange(old(messages).value, prompt, RagService.GetRagResponse(prompt, author, novel, search, llm)))
    {
      messages := Some(messages.value + [UserMessage(prompt)]);
      var response := RagService.GetRagResponse(prompt, author, novel, search, llm);
      if response.Success? {
        var sources := FormatSources(response.value.sources);
        messages := Some(messages.value + [AssistantMessage(response.value.answer, sources)]);
        assert messages.value == old(messages).value + [UserMessage(prompt), AssistantMessage(response.value.answer, sources)];
      }
    }

    /** One run of `render_chat_page`. The select boxes' choices, the clear
        button, and the chat input (`None` or the typed text) are parameters. */
    method Render(
      library: map<string, seq<string>>, selectedAuthor: string, selectedNovel: string,
      clearClicked: bool, prompt: Option<string>,
      search: string -> Result<seq<Document>>, llm: RagService.PromptInputs -> Result<string>)
      returns (outcome: PageOutcome)
      modifies this
      ensures library == map[] ==> outcome == LibraryEmpty && messages == old(messages)
      ensures library != map[] && (selectedAuthor !in library || library[selectedAuthor] == []) ==>
        outcome == NoNovelsForAuthor && messages == old(messages)
      ensures outcome == Rendered <==>
        library != map[] && selectedAuthor in library && library[selectedAuthor] != [] && !clearClicked
      ensures outcome == HistoryCleared <==>
        library != map[] && selectedAuthor in library && library[selectedAuthor] != [] && clearClicked
      ensures outcome == HistoryCleared ==> messages == Some([])
      ensures outcome == Rendered ==> messages.Some?
      ensures outcome == Rendered && (prompt.None? || prompt.value == "") ==>
        messages == Some(if old(messages).None? then [] else old(messages).value)
      ensures outcome == Rendered && prompt.Some? && prompt.value != "" ==>
        messages == Some(Exchange(if old(messages).None? then [] else old(messages).value, prompt.value,
                                  RagService.GetRagResponse(prompt.value, selectedAuthor, selectedNovel, search, llm)))
    {
      if library == map[] {
        return LibraryEmpty;
      }
      var availableNovels := if selectedAuthor in library then library[selectedAuthor] else [];
      if availableNovels == [] {
        return NoNovelsForAuthor;
      }
      if clearClicked {
        ClearHistory();
        return HistoryCleared;
      }
      InitHistory();
      if prompt.Some? && prompt.value != "" {
        Ask(prompt.value, selectedAuthor, selectedNovel, search, llm);
      }
      outcome := Rendered;
    }
  }
}
