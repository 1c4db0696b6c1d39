/** What a handler hands to the HTTP layer, and the outside world a request
    is served against. The transport and the template engine are not
    modelled: a response is the decision a handler makes. */
module Http {
  import opened Wrappers
  import opened PageStore

  const StatusOK := 200
  const StatusFound := 302
  const StatusNotFound := 404
  const StatusInternalServerError := 500

  datatype Response =
    | Redirect(location: string, code: int)   // http.Redirect
    | NotFound                                // http.NotFound
    | ServerError(message: string)            // http.Error with status 500
    | Rendered(template: string, page: Page)  // a template executed on a page

  function Status(r: Response): int {
    match r
    case Redirect(_, code) => code
    case NotFound => StatusNotFound
    case ServerError(_) => StatusInternalServerError
    case Rendered(_, _) => StatusOK
  }

  /** The state a request meets: the content directory, the error the file
      write would report (if any), and the error template execution would
      report (if any). */
  datatype Env = Env(store: Store, writeErr: Option<string>, renderErr: Option<string>)

  /** The response and the content directory after the request. */
  datatype Outcome = Outcome(response: Response, store: Store)
}
