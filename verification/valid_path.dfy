/** The request-path validator `^/(view|edit|save)/([a-zA-Z0-9]+)$`, written
    out by hand. Both copies of the server compile the same pattern. */
module ValidPath {
  import opened Wrappers
  import opened Bytes

  /** The first capture group `(view|edit|save)`. */
  datatype Op = View | Edit | Save

  function OpName(op: Op): (name: string)
    ensures |name| == 4
  {
    match op
    case View => "view"
    case Edit => "edit"
    case Save => "save"
  }

  function ParseOp(s: string): (r: Option<Op>)
    ensures r.Some? ==> OpName(r.value) == s
    ensures r.None? ==> forall op :: OpName(op) != s
  {
    if s == "view" then Some(View)
    else if s == "edit" then Some(Edit)
    else if s == "save" then Some(Save)
    else None
  }

  /** The path a matching request must have. */
  function PathOf(op: Op, title: string): string {
    "/" + OpName(op) + "/" + title
  }

  /** `FindStringSubmatch` of the pattern: the two captures, or None when the
      path does not match. The pattern is anchored at both ends, so the
      whole path must be consumed. */
  function Match(path: string): (m: Option<(Op, string)>)
    ensures m.Some? ==> IsName(m.value.1) && path == PathOf(m.value.0, m.value.1)
  {
    if |path| >= 6 && path[0] == '/' && path[5] == '/' then
      match ParseOp(path[1..5])
      case Some(op) =>
        var title := path[6..];
        if IsName(title) then
          assert path == PathOf(op, title);
          Some((op, title))
        else None
      case None => None
    else None
  }

  /** Matching is exact: a path is accepted with operation `op` and title
      `title` if and only if it is `/op/title` with a non-empty alphanumeric
      title, and the title handed on is that text unchanged. */
  lemma MatchExactly(path: string, op: Op, title: string)
    ensures Match(path) == Some((op, title)) <==> path == PathOf(op, title) && IsName(title)
  {
    if path == PathOf(op, title) && IsName(title) {
      var p := PathOf(op, title);
      assert p[1..5] == OpName(op);
      assert p[6..] == title;
    }
  }

  /** A title with a character outside `[a-zA-Z0-9]`, or an empty one, is
      rejected whatever the operation. */
  lemma RejectsBadTitle(op: Op, title: string)
    requires !IsName(title)
    ensures Match(PathOf(op, title)) == None
  {
  }
}
