/** The request handlers of the package-based server: the path check wrapped
    around every handler, and the view, edit and save handlers built on the
    `page` package. */
module Wiki {
  import opened Wrappers
  import opened Bytes
  import opened ValidPath
  import opened PageStore
  import opened Http
  import Renderer

  const PathHome := "/view/FrontPage"
  const PathView := "/view/"
  const PathEdit := "/edit/"

  /** `handleRoot`: every request it serves is sent to the front page, which
      the path check accepts as a view of FrontPage. */
  function HandleRoot(path: string): (r: Response)
    ensures r.Redirect? && Status(r) == 302 && r.location == "/view/FrontPage"
    ensures Match(r.location) == Some((View, "FrontPage"))
  {
    HomeViewsFrontPage();
    Redirect(PathHome, StatusFound)
  }

  /** The home path is accepted by the path pattern as a view of FrontPage. */
  lemma HomeViewsFrontPage()
    ensures Match(PathHome) == Some((View, "FrontPage"))
  {
    var t := "FrontPage";
    assert IsAlnum(t[0]) && IsAlnum(t[1]) && IsAlnum(t[2]) && IsAlnum(t[3]) && IsAlnum(t[4]);
    assert IsAlnum(t[5]) && IsAlnum(t[6]) && IsAlnum(t[7]) && IsAlnum(t[8]);
    assert IsName(t);
    assert PathHome == PathOf(View, t);
    MatchExactly(PathHome, View, t);
  }

  /** `render`: the named template executed on the page, or a 500 carrying
      the template engine's error. */
  function Render(tmpl: string, p: Page, renderErr: Option<string>): (r: Response)
    ensures renderErr.None? ==> r == Rendered(tmpl + ".html", p) && Status(r) == 200
    ensures renderErr.Some? ==> r == ServerError(renderErr.value) && Status(r) == 500
  {
    match renderErr
    case Some(e) => ServerError(e)
    case None => Rendered(tmpl + ".html", p)
  }

  /** `handleView`: a stored page is rendered and shown; a missing one sends
      the client to edit it. Viewing never writes. */
  function HandleView(title: string, env: Env): (o: Outcome)
    ensures o.store == env.store
    ensures FilePath(title) !in env.store ==> o.response == Redirect("/edit/" + title, 302)
    ensures FilePath(title) in env.store && env.renderErr.None? ==>
      var body := env.store[FilePath(title)];
      o.response == Rendered("view.html", Page(title, body, Renderer.Content(body)))
    ensures FilePath(title) in env.store && env.renderErr.Some? ==>
      o.response == ServerError(env.renderErr.value)
  {
    match Load(env.store, title)
    case Failure(_) => Outcome(Redirect(PathEdit + title, StatusFound), env.store)
    case Success(p) => Outcome(Render("view", ParseBody(p), env.renderErr), env.store)
  }

  /** `handleEdit`: the edit form is shown for the stored page, or for a page
      with only the title set when there is none. Editing never writes. */
  function HandleEdit(title: string, env: Env): (o: Outcome)
    ensures o.store == env.store
    ensures env.renderErr.None? ==>
      var body := if FilePath(title) in env.store then env.store[FilePath(title)] else [];
      o.response == Rendered("edit.html", Page(title, body, []))
    ensures env.renderErr.Some? ==> o.response == ServerError(env.renderErr.value)
  {
    var p := match Load(env.store, title)
      case Success(p) => p
      case Failure(_) => Page(title, [], []);
    Outcome(Render("edit", p, env.renderErr), env.store)
  }

  /** `handleSave`: the submitted body is stored under the title and the
      client is sent to view it; a failed write answers 500 and redirects
      nowhere. */
  function HandleSave(title: string, form: seq<Byte>, env: Env): (o: Outcome)
    ensures env.writeErr.Some? ==> o == Outcome(ServerError(env.writeErr.value), env.store)
    ensures env.writeErr.None? ==> o.response == Redirect("/view/" + title, 302)
    ensures env.writeErr.None? ==> Load(o.store, title) == Success(Page(title, form, []))
    ensures env.writeErr.None? ==> o.store == env.store[FilePath(title) := form]
  {
    var p := Page(title, form, []);
    match PageStore.Save(env.store, p, env.writeErr)
    case Failure(e) => Outcome(ServerError(e), env.store)
    case Success(stored) =>
      assert stored == env.store[FilePath(title) := form];
      Outcome(Redirect(PathView + title, StatusFound), stored)
  }

  /** The handler function `makeHandler` is given, named by its operation. */
  function Handle(handler: Op, title: string, form: seq<Byte>, env: Env): Outcome {
    match handler
    case View => HandleView(title, env)
    case Edit => HandleEdit(title, env)
    case Save => HandleSave(title, form, env)
  }

  /** `makeHandler(handler)` serving `path`: a path the pattern rejects is
      answered 404 without running the handler; otherwise the handler runs
      on the second capture, the title. `form` is the request's `body` form
      value. */
  function MakeHandler(handler: Op, path: string, form: seq<Byte>, env: Env): (o: Outcome)
    ensures Match(path).None? ==> o == Outcome(NotFound, env.store) && Status(o.response) == 404
    ensures Match(path).Some? ==> o == Handle(handler, Match(path).value.1, form, env)
  {
    match Match(path)
    case None => Outcome(NotFound, env.store)
    case Some((_, title)) => Handle(handler, title, form, env)
  }

  /** A request for `/op/title` runs the handler on exactly that title. */
  lemma HandlerGetsTitle(handler: Op, op: Op, title: string, form: seq<Byte>, env: Env)
    requires IsName(title)
    ensures MakeHandler(handler, PathOf(op, title), form, env) == Handle(handler, title, form, env)
  {
    MatchExactly(PathOf(op, title), op, title);
  }

  /** Whatever the operation, a title that is empty or holds a character
      outside `[a-zA-Z0-9]` is answered 404 and nothing is written. */
  lemma BadTitleNotFound(handler: Op, op: Op, title: string, form: seq<Byte>, env: Env)
    requires !IsName(title)
    ensures MakeHandler(handler, PathOf(op, title), form, env) == Outcome(NotFound, env.store)
  {
    RejectsBadTitle(op, title);
  }

  /** A request changes at most the file of its own, validated title, and
      only by storing the submitted body there. */
  lemma RequestWritesOnlyItsPage(handler: Op, path: string, form: seq<Byte>, env: Env)
    ensures var o := MakeHandler(handler, path, form, env);
      o.store == env.store ||
      (Match(path).Some? && IsName(Match(path).value.1) &&
       o.store == env.store[FilePath(Match(path).value.1) := form])
  {
  }

  /** A successful save is followed by a redirect that the path check
      accepts as a view of the same title, and following it shows the saved
      body, rendered. */
  lemma SaveThenView(title: string, form: seq<Byte>, env: Env)
    requires IsName(title) && env.writeErr.None? && env.renderErr.None?
    ensures var saved := MakeHandler(Save, PathOf(Save, title), form, env);
      saved.response.Redirect? &&
      Match(saved.response.location) == Some((View, title)) &&
      MakeHandler(View, saved.response.location, [], env.(store := saved.store)).response
        == Rendered("view.html", Page(title, form, Renderer.Content(form)))
  {
    HandlerGetsTitle(Save, Save, title, form, env);
    MatchExactly(PathView + title, View, title);
    assert PathView + title == PathOf(View, title);
  }

  /** Viewing a page that does not exist redirects to its edit path, and
      following that shows the edit form with the title and an empty body. */
  lemma MissingViewThenEdit(title: string, env: Env)
    requires IsName(title) && FilePath(title) !in env.store && env.renderErr.None?
    ensures var viewed := MakeHandler(View, PathOf(View, title), [], env);
      viewed.response == Redirect(PathOf(Edit, title), 302) &&
      MakeHandler(Edit, viewed.response.location, [], env).response
        == Rendered("edit.html", Page(title, [], []))
  {
    HandlerGetsTitle(View, View, title, [], env);
    assert PathEdit + title == PathOf(Edit, title);
    HandlerGetsTitle(Edit, Edit, title, [], env);
  }
}
