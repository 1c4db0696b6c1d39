# A verified model of a minimal Go wiki server

The server keeps named pages as flat files and serves three operations:
view, edit and save. A request path must have the form `/view/T`, `/edit/T`
or `/save/T`, with `T` a non-empty alphanumeric title. Any other path handed
to a wrapped handler gets 404. The root handler redirects to
`/view/FrontPage`. Viewing a page HTML-escapes its body and then turns every
`[Name]` token into a link to `/view/Name`. A missing page is viewed by
redirecting to its edit form. Editing a missing page starts from an empty
body. Saving writes `data/T.txt` and redirects to the view.

The repository has two copies of this logic:

- the package-based server, `src/wiki.go` together with `page/page.go`;
- the monolithic server, `wiki.go`.

The model treats them as one design. The shared pieces are modelled once:

- `ValidPath`: the path pattern;
- `Escape`: HTML escaping;
- `HyperLink`: link rewriting;
- `Renderer`: the two rendering stages together;
- `PageStore`: the page store.

Module `Wiki` holds the package-based handlers and states their contracts.
Module `WikiMain` mirrors `wiki.go` line by line, with its own load, save
and inline rendering code. Each `WikiMain` member is proved equal to its
`Wiki` or `PageStore` counterpart on every input, so every contract proved
for one copy also holds for the other.

The filesystem is a map from file path to bytes (`PageStore.Store`). The
outside world a request meets is `Http.Env`:

- the store;
- the error the file write would report, if any;
- the error template execution would report, if any.

A handler returns an `Http.Outcome`. It holds the response (`Redirect` with
its status code, `NotFound`, `ServerError`, or `Rendered` with a template
name and a page) and the store after the request. Page bodies and rendered
content are byte strings. Each byte is written as the char with the same
code, so that ASCII literals such as `"&amp;"` read naturally.

Three properties of the code shape the model:

- The escaping function the code calls, `template.HTMLEscapeString`, also
  rewrites NUL, to U+FFFD (bytes EF BF BD). So escaping can be undone exactly
  only for NUL-free bodies (`Escape.EscapeRoundTrip`). `Escape.EscapeMergesNul`
  shows the one collision.
- `Load` and `Save` accept any title. Only the path check in `makeHandler`
  keeps invalid titles away from the store (`Wiki.RequestWritesOnlyItsPage`).
- Of the ways a read can fail, only the missing file is modelled (see Left
  out).

## Model

| member | source | states |
|---|---|---|
| ValidPath.Match | wiki.go:27 | a match returns a non-empty alphanumeric title and an operation, and the path is exactly `/` + operation + `/` + title (anchored, nothing trailing) |
| ValidPath.MatchExactly | src/wiki.go:33 | a path is accepted with operation `op` and title `t` if and only if it is `/op/t` with `t` in `[a-zA-Z0-9]+`; the title returned is `t` unchanged |
| ValidPath.RejectsBadTitle | src/wiki.go:33 | for each of view, edit and save, an empty title or one with a character outside `[a-zA-Z0-9]` is rejected |
| Escape.HtmlEscape | page/page.go:43 | the escaped body contains no raw `<`, `>`, `"`, `'` or NUL, and is at least as long as the body |
| Escape.EscapeIdentity | page/page.go:43 | a body with none of NUL, `"`, `'`, `&`, `<`, `>` is returned unchanged |
| Escape.HtmlEscapeConcat | page/page.go:43 | escaping is applied byte by byte: it distributes over concatenation |
| Escape.EscapeRoundTrip | page/page.go:43 | every NUL-free body is recovered exactly by decoding the five entities the escape produces, so the markup characters appear only in entity form |
| Escape.EscapeMergesNul | page/page.go:43 | NUL and a literal U+FFFD escape to the same bytes, so the escape cannot be undone for bodies containing NUL |
| HyperLink.TokenLen | page/page.go:18 | a match found at the start of the text has length at least 3 and fits in the text |
| HyperLink.TokenLenExactly | page/page.go:18 | a match of `\[[a-zA-Z0-9]+\]` of length `n` starts the text if and only if TokenLen reports `n`, so a match at a given position is unique |
| HyperLink.TokenOpensOnce | page/page.go:18 | a `[` inside a match can only be its first byte, so two matches never overlap |
| HyperLink.ReplaceLinks | page/page.go:44-48 | `ReplaceAllFunc` with the anchor closure: the text is scanned left to right, a match at the current position is replaced and the scan resumes after it, otherwise one byte is copied; an anchor is longer than its token, so the output is never shorter than the input. Its behaviour is pinned down by `ReplaceAroundToken`, `NoTokensUnchanged`, `CopyUntokened` and `LinksRoundTrip` |
| HyperLink.ReplaceBeforeOpen | page/page.go:44 | no match straddles a `[`: the text before one is rewritten independently of what follows |
| HyperLink.NoTokensUnchanged | page/page.go:44-49 | text in which no match starts is copied unchanged |
| HyperLink.CopyUntokened | page/page.go:44-49 | a prefix in which no match starts is copied verbatim, and the rest of the text is rewritten on its own |
| HyperLink.MalformedBracketFirst | page/page.go:44-49 | a `[`, a bracket-free inside that is not a name, then `]` starts no match whatever follows; it is copied and the text after it is rewritten on its own |
| HyperLink.ReplaceAroundToken | page/page.go:44-48 | every occurrence of `[name]` becomes exactly `<a href="/view/name">name</a>`, with the brackets stripped, and the text on each side is rewritten independently |
| HyperLink.LinksRoundTrip | page/page.go:44-48 | on text without `<`, turning each anchor of the output back into its token gives back the input: every `<` of the output belongs to an inserted anchor and the text between matches is copied verbatim |
| Renderer.Content | page/page.go:43-49 | escaping runs before linking: removing the anchors from the content leaves exactly the escaped body, which has no raw markup byte |
| Renderer.RenderLossless | page/page.go:43-49 | a NUL-free body is recovered from its rendered content by unlinking and unescaping |
| Renderer.RenderAroundToken | page/page.go:43-47 | a `[name]` token written in the body survives escaping and is rendered as the anchor for `name`, the rest rendered on its own |
| Renderer.RenderLinkInPlainText | page/page.go:43-47 | with plain text around it (e.g. "See [FrontPage] for more"), the token becomes the anchor and the surrounding text is copied unchanged |
| Escape.EscapeNoBrackets | page/page.go:43 | escaping never introduces `[` or `]`: a bracket-free body escapes to a bracket-free text |
| Escape.EscapeKeepsNonName | page/page.go:43 | a text that is empty or holds a byte outside `[a-zA-Z0-9]` still does after escaping, so escaping cannot create a link name |
| Renderer.MalformedNotLinked | page/page.go:44-49 | a bracketed text whose inside is empty or holds a non-alphanumeric byte, and no bracket, contains no match anywhere and is copied by link rewriting |
| Renderer.MalformedTokenInText | page/page.go:43-49 | wherever it appears in a body (e.g. `See [a<b] and [Good]`), a bracketed token whose inside is empty or holds a non-alphanumeric byte, and no bracket, is not linked: it renders as `[` + escaped inside + `]`, and the text on each side is rendered on its own |
| Renderer.MalformedTokenEscaped | page/page.go:43-49 | the same token as the whole body (e.g. `[a<b]`, `[bad-token]`): its content is exactly its escaped text, `[` + escaped inside + `]` |
| Renderer.MalformedTokenUnchanged | page/page.go:43-49 | the same token with nothing to escape inside (e.g. `[bad-token]`) renders exactly as written |
| PageStore.FilePathInjective | page/page.go:22 | the storage key `data/` + title + `.txt` is injective: different titles use different storage keys |
| PageStore.Load | page/page.go:21-27 | Load succeeds if and only if the title's file exists; on success the page has that Title, the stored bytes as Body and no content; otherwise it returns an error and no page |
| PageStore.Save | page/page.go:37-40 | a save fails exactly when the write fails, with the write's error; otherwise a later Load of the title returns the saved body byte for byte, every other title loads as before, and the title's file is created or overwritten |
| PageStore.ParseBody | page/page.go:42-50 | only the content changes: title and body are kept, and the content is the rendered body |
| Wiki.HandleRoot | src/wiki.go:27-30 | every request to the root handler is redirected with 302 to `/view/FrontPage`, a path that the path pattern accepts as a view of FrontPage |
| Wiki.Render | src/wiki.go:73-78 | the template `name.html` is rendered (200), or the template engine's error is returned as 500 |
| Wiki.HandleView | src/wiki.go:49-60 | a missing page redirects with 302 to `/edit/` + title and renders nothing; a stored page is rendered with the view template, its content set by ParseBody; the store is unchanged |
| Wiki.HandleEdit | src/wiki.go:63-70 | the edit template is rendered with the stored page, or with a page with that title and an empty body when none is stored; the store is unchanged |
| Wiki.HandleSave | src/wiki.go:81-94 | a failed write yields 500 with its error, no redirect and no change to the store; a successful one stores the form body under the title and redirects with 302 to `/view/` + title |
| Wiki.MakeHandler | src/wiki.go:36-46 | a path the pattern rejects gets 404 without running the handler or touching the store; otherwise the handler runs on the captured title |
| Wiki.HandlerGetsTitle | src/wiki.go:38-44 | a request for `/op/title` runs the wrapped handler on exactly `title` |
| Wiki.BadTitleNotFound | src/wiki.go:38-43 | for every operation, a malformed title gets 404 and the store is unchanged |
| Wiki.RequestWritesOnlyItsPage | src/wiki.go:36-94 | a request leaves the store unchanged, or writes the submitted body to the file of its own validated title and changes nothing else |
| Wiki.SaveThenView | src/wiki.go:49-94 | after a successful save, the redirect target is accepted as a view of the same title, and viewing it renders the saved body |
| Wiki.MissingViewThenEdit | src/wiki.go:49-70 | viewing a missing page redirects to its edit path, and following the redirect renders the edit form with that title and an empty body |
| WikiMain.LoadPage | wiki.go:124-130 | the monolithic `loadPage` agrees with `Load` on every store and title |
| WikiMain.SavePage | wiki.go:119-122 | the monolithic `Page.save` agrees with `Save` on every store, page and write outcome |
| WikiMain.HandleRoot | wiki.go:43-46 | the monolithic root handler answers like the package-based one: 302 to `/view/FrontPage` |
| WikiMain.Render | wiki.go:89-94 | the monolithic `render` agrees with the package-based one |
| WikiMain.HandleView | wiki.go:60-78 | the monolithic view handler, with escaping and link rewriting inline, agrees with the package-based one on every title and environment |
| WikiMain.HandleEdit | wiki.go:80-87 | the monolithic edit handler agrees with the package-based one |
| WikiMain.HandleSave | wiki.go:96-109 | the monolithic save handler agrees with the package-based one, including the 500 branch that returns before any redirect |
| WikiMain.MakeHandler | wiki.go:48-58 | the monolithic path check and dispatch answer every request exactly as the package-based one |

## Left out

- Request routing (`http.HandleFunc` registration and `ServeMux`) is not modelled. In the code, `/` is a catch-all pattern, so every path outside `/view/`, `/edit/` and `/save/` reaches the root handler. The mux's path cleaning and its `/view` to `/view/` redirect are also left out. The model starts from the wrapped handler chosen for a request.
- `ListenAndServe`, `ResponseWriter` and `FormValue` are not modelled. The form field `body` is an input byte string. The HTTP method is ignored, as the code ignores it.
- Template parsing and execution are not modelled, because they are library calls on template files. A render either succeeds, or fails with an error message that is an input. Output written before a template failure is not modelled.
- `os.Mkdir`, the 0600 permission bits and the directory's existence are not modelled. Any write failure is the `writeErr` input.
- Read errors other than a missing file are not modelled, for example permission denied.
- PageStore.Save / PageStore.FilePathInjective: storage keys are compared as strings. Path resolution by the operating system is not modelled: `.`, `..` or `/` inside a title, and case-insensitive file systems where `frontpage` and `FrontPage` name one file. So a storage key and a file coincide only for titles without those characters on a case-sensitive file system. On a case-sensitive file system that covers every title `makeHandler` lets through, but not every title `Load` and `Save` accept when called directly.
- PageStore.Save: a failed write is modelled as leaving the store unchanged. A real failed `os.WriteFile` may already have truncated the file.
- The text of `os.ReadFile`'s error is represented by a fixed message; the handlers never use it.
- Logging (`logInfo`, `log.Println`) is not modelled. Nor are process startup and the fatal exit when the port cannot be bound.
- Concurrent saves (the last writer wins) are not modelled; the model is one request at a time.
- The Go regular-expression engine is replaced by hand-written matchers for the two patterns. URL decoding of the request path is done by `net/http`, which is not part of this model.
- The escaping function is Go's `template.HTMLEscapeString`, whose code is not part of this model. Its documentation only says it returns the escaped HTML equivalent of the text. The byte table in `Escape.EscapeByte` follows the standard library's implementation of that function: NUL to U+FFFD, `&#34;` and `&#39;` for the quotes, `&amp;`, `&lt;` and `&gt;`.
