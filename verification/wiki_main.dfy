/** The monolithic copy of the server, which keeps its own Page code and
    renders inline instead of calling the `page` package. Each member is
    proved to behave exactly as its counterpart in the package-based copy,
    so every contract stated there holds of this copy as well. */
module WikiMain {
  import opened Wrappers
  import opened Bytes
  import opened Escape
  import opened HyperLink
  import opened ValidPath
  import opened PageStore
  import opened Http
  import Wiki

  const PathView := "/view/"
  const PathEdit := "/edit/"

  /** `loadPage`. */
  function LoadPage(store: Store, title: string): (r: Result<Page, string>)
    ensures r == PageStore.Load(store, title)
  {
    var path := "data/" + title + ".txt";
    if path in store then Success(Page(title, store[path], []))
    else Failure("open " + path + ": no such file or directory")
  }

  /** `Page.save`. */
  function SavePage(store: Store, p: Page, writeErr: Option<string>): (r: Result<Store, string>)
    ensures r == PageStore.Save(store, p, writeErr)
  {
    match writeErr
    case Some(e) => Failure(e)
    case None => Success(store["data/" + p.title + ".txt" := p.body])
  }

  /** `handleRoot`, with the front page written out literally. */
  function HandleRoot(path: string): (r: Response)
    ensures r == Wiki.HandleRoot(path)
  {
    Redirect("/view/FrontPage", StatusFound)
  }

  /** `render`. */
  function Render(tmpl: string, p: Page, renderErr: Option<string>): (r: Response)
    ensures r == Wiki.Render(tmpl, p, renderErr)
  {
    match renderErr
    case Some(e) => ServerError(e)
    case None => Rendered(tmpl + ".html", p)
  }

  /** `handleView`, escaping the body and rewriting its links in place. */
  function HandleView(title: string, env: Env): (o: Outcome)
    ensures o == Wiki.HandleView(title, env)
  {
    match LoadPage(env.store, title)
    case Failure(_) => Outcome(Redirect(PathEdit + title, StatusFound), env.store)
    case Success(page) =>
      var escape := HtmlEscape(page.body);
      var shown := page.(content := ReplaceLinks(escape));
      Outcome(Render("view", shown, env.renderErr), env.store)
  }

  /** `handleEdit`. */
  function HandleEdit(title: string, env: Env): (o: Outcome)
    ensures o == Wiki.HandleEdit(title, env)
  {
    var page := match LoadPage(env.store, title)
      case Success(page) => page
      case Failure(_) => Page(title, [], []);
    Outcome(Render("edit", page, env.renderErr), env.store)
  }

  /** `handleSave`. */
  function HandleSave(title: string, form: seq<Byte>, env: Env): (o: Outcome)
    ensures o == Wiki.HandleSave(title, form, env)
  {
    var page := Page(title, form, []);
    match SavePage(env.store, page, env.writeErr)
    case Failure(e) => Outcome(ServerError(e), env.store)
    case Success(stored) => Outcome(Redirect(PathView + title, StatusFound), stored)
  }

  function Handle(handler: Op, title: string, form: seq<Byte>, env: Env): Outcome {
    match handler
    case View => HandleView(title, env)
    case Edit => HandleEdit(title, env)
    case Save => HandleSave(title, form, env)
  }

  /** `makeHandler`: the two copies answer every request alike. */
  function MakeHandler(handler: Op, path: string, form: seq<Byte>, env: Env): (o: Outcome)
    ensures o == Wiki.MakeHandler(handler, path, form, env)
  {
    match Match(path)
    case None => Outcome(NotFound, env.store)
    case Some((_, title)) => Handle(handler, title, form, env)
  }
}
