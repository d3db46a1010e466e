/** The library catalog of the admin panel (`render_admin_panel`): the
    "add author" and "process and store" buttons update an author → titles
    table in place. */
module AdminPanel {

  import opened Wrappers
  import opened Documents
  import Ingest

  /** The library: author name → titles of the novels registered for that author. */
  type Catalog = map<string, seq<string>>

  /** The message the "add author" button shows. */
  datatype AddAuthorOutcome = AuthorSaved | AuthorExists | NothingShown

  /** No author lists a title twice. */
  predicate DuplicateFree(catalog: Catalog)
  {
    forall a :: a in catalog ==> forall i, j :: 0 <= i < j < |catalog[a]| ==> catalog[a][i] != catalog[a][j]
  }

  /** The catalog after "add author" with `name` in the text box. */
  function WithAuthor(catalog: Catalog, name: string): Catalog
  {
    if name != "" && name !in catalog then catalog[name := []] else catalog
  }

  /** The catalog after "process and store" registered `title` for `author`. */
  function WithNovel(catalog: Catalog, author: string, title: string): Catalog
    requires author in catalog
  {
    if title in catalog[author] then catalog else catalog[author := catalog[author] + [title]]
  }

  /** A new, non-empty name becomes a key with no titles; nothing else changes.
      An empty name or an existing author leaves the catalog as it was. */
  lemma WithAuthorEffect(catalog: Catalog, name: string)
    ensures name != "" && name !in catalog ==>
      WithAuthor(catalog, name).Keys == catalog.Keys + {name} && WithAuthor(catalog, name)[name] == []
    ensures forall a :: a in catalog ==> a in WithAuthor(catalog, name) && WithAuthor(catalog, name)[a] == catalog[a]
    ensures name == "" || name in catalog ==> WithAuthor(catalog, name) == catalog
  {
  }

  /** Registering keeps the author set and every other author's list; the
      author's list keeps its titles in order and ends with the title, added
      once. */
  lemma WithNovelEffect(catalog: Catalog, author: string, title: string)
    requires author in catalog
    ensures WithNovel(catalog, author, title).Keys == catalog.Keys
    ensures forall a :: a in catalog && a != author ==> WithNovel(catalog, author, title)[a] == catalog[a]
    ensures title in catalog[author] ==> WithNovel(catalog, author, title)[author] == catalog[author]
    ensures title !in catalog[author] ==> WithNovel(catalog, author, title)[author] == catalog[author] + [title]
    ensures title in WithNovel(catalog, author, title)[author]
  {
  }

  /** Both updates keep every author's list free of duplicates. */
  lemma UpdatesKeepDuplicateFree(catalog: Catalog, name: string, author: string, title: string)
    requires DuplicateFree(catalog)
    ensures DuplicateFree(WithAuthor(catalog, name))
    ensures author in catalog ==> DuplicateFree(WithNovel(catalog, author, title))
  {
    if author in catalog && title !in catalog[author] {
      var c := WithNovel(catalog, author, title);
      var l := c[author];
      forall i, j | 0 <= i < j < |l| ensures l[i] != l[j] {
        if j == |l| - 1 {
          assert l[j] == title;
          assert l[i] == catalog[author][i];
        }
      }
    }
  }

  /** Registering the same title twice is registering it once. */
  lemma WithNovelIdempotent(catalog: Catalog, author: string, title: string)
    requires author in catalog
    ensures WithNovel(WithNovel(catalog, author, title), author, title) == WithNovel(catalog, author, title)
  {
  }

  /** The admin panel's view of the library file. */
  class Library {
    var catalog: Catalog

    /** `load_library()`: the panel starts from the stored table. */
    constructor (stored: Catalog)
      ensures catalog == stored
    {
      catalog := stored;
    }

    /** The "save author" button of the first tab. */
    method AddAuthor(newAuthor: string) returns (outcome: AddAuthorOutcome)
      modifies this
      ensures catalog == WithAuthor(old(catalog), newAuthor)
      ensures outcome == AuthorSaved <==> newAuthor != "" && newAuthor !in old(catalog)
      ensures outcome == AuthorExists <==> newAuthor in old(catalog)
    {
      if newAuthor != "" && newAuthor !in catalog {
        catalog := catalog[newAuthor := []];
        outcome := AuthorSaved;
      } else if newAuthor in catalog {
        outcome := AuthorExists;
      } else {
        outcome := NothingShown;
      }
    }

    /** The "process and store" button of the second tab. The author comes
        from a select box over the catalog's keys; `upload` is the PDF's
        extracted pages, `None` when no file was chosen. The result is the
        Documents handed to the splitter, `None` when the fields were
        incomplete and nothing was ingested. */
    method ProcessAndStore(selectedAuthor: string, novelTitle: string, upload: Option<seq<Option<string>>>)
      returns (ingested: Option<seq<Document>>)
      requires selectedAuthor in catalog
      modifies this
      ensures upload.None? || novelTitle == "" ==> ingested.None? && catalog == old(catalog)
      ensures upload.Some? && novelTitle != "" ==>
        ingested == Some(Ingest.PageDocuments(upload.value, selectedAuthor, novelTitle))
        && catalog == WithNovel(old(catalog), selectedAuthor, novelTitle)
    {
      if upload.Some? && novelTitle != "" {
        var docs := Ingest.BuildDocuments(upload.value, selectedAuthor, novelTitle);
        ingested := Some(docs);
        if novelTitle !in catalog[selectedAuthor] {
          catalog := catalog[selectedAuthor := catalog[selectedAuthor] + [novelTitle]];
        }
      } else {
        ingested := None;
      }
    }
  }
}
