/** The `page` package: the Page record, the flat-file store behind it, and
    `ParseBody`. The filesystem is a map from file path to file contents. */
module PageStore {
  import opened Wrappers
  import opened Bytes
  import Renderer

  /** Title, the raw body, and the rendered content (set only for viewing). */
  datatype Page = Page(title: string, body: seq<Byte>, content: seq<Byte>)

  /** The content directory: file path to file bytes. */
  type Store = map<string, seq<Byte>>

  /** The file a page is kept in. */
  function FilePath(title: string): string {
    "data/" + title + ".txt"
  }

  /** Distinct titles are kept in distinct files. */
  lemma FilePathInjective(a: string, b: string)
    ensures FilePath(a) == FilePath(b) <==> a == b
  {
    if FilePath(a) == FilePath(b) {
      assert a == FilePath(a)[5..|FilePath(a)| - 4];
      assert b == FilePath(b)[5..|FilePath(b)| - 4];
    }
  }

  /** `Load`: the page stored under the title, with its Title set to that
      title, or an error when there is no such file. */
  function Load(store: Store, title: string): (r: Result<Page, string>)
    ensures r.Success? <==> FilePath(title) in store
    ensures r.Success? ==> r.value.title == title && r.value.content == []
    ensures r.Success? ==> r.value.body == store[FilePath(title)]
  {
    var path := FilePath(title);
    if path in store then Success(Page(title, store[path], []))
    else Failure("open " + path + ": no such file or directory")
  }

  /** `Page.Save`: creates or overwrites the page's file with its body; the
      rendered content is not stored. `writeErr` is the error the write
      reports, if it fails. */
  function Save(store: Store, p: Page, writeErr: Option<string>): (r: Result<Store, string>)
    ensures r.Failure? <==> writeErr.Some?
    ensures r.Failure? ==> r.error == writeErr.value
    ensures r.Success? ==> Load(r.value, p.title) == Success(Page(p.title, p.body, []))
    ensures r.Success? ==> forall t :: t != p.title ==> Load(r.value, t) == Load(store, t)
    ensures r.Success? ==> r.value.Keys == store.Keys + {FilePath(p.title)}
  {
    match writeErr
    case Some(e) => Failure(e)
    case None =>
      var updated := store[FilePath(p.title) := p.body];
      forall t | t != p.title
        ensures Load(updated, t) == Load(store, t)
      {
        FilePathInjective(t, p.title);
      }
      Success(updated)
  }

  /** `Page.ParseBody`: sets the rendered content from the body and leaves
      the title and the body as they are. */
  function ParseBody(p: Page): (q: Page)
    ensures q.title == p.title && q.body == p.body
    ensures q.content == Renderer.Content(p.body)
  {
    p.(content := Renderer.Content(p.body))
  }
}
