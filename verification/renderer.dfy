/** The content renderer `Page.ParseBody`: the body is HTML-escaped first and
    the link tokens of the escaped text are then replaced by anchors. */
module Renderer {
  import opened Bytes
  import opened Escape
  import opened HyperLink

  /** The HTML placed unescaped into the view template. Taking its anchors
      back out leaves exactly the escaped body, which holds no `<`, `>` or
      quote: every raw tag of the result is an inserted link. */
  function Content(body: seq<Byte>): (html: seq<Byte>)
    ensures Unlink(html) == HtmlEscape(body)
  {
    LinksRoundTrip(HtmlEscape(body));
    ReplaceLinks(HtmlEscape(body))
  }

  /** Rendering loses nothing but NUL bytes: the body is recovered from the
      rendered content by unlinking and then unescaping. */
  lemma RenderLossless(body: seq<Byte>)
    requires NoNul(body)
    ensures Unescape(Unlink(Content(body))) == body
  {
    EscapeRoundTrip(body);
  }

  /** A link token written in the body survives escaping and becomes the
      anchor for its name; the text around it is rendered on its own. */
  lemma RenderAroundToken(pre: seq<Byte>, name: seq<Byte>, post: seq<Byte>)
    requires IsName(name)
    ensures Content(pre + Bracket(name) + post) == Content(pre) + Anchor(name) + Content(post)
  {
    EscapeIdentity(Bracket(name));
    HtmlEscapeConcat(pre, Bracket(name));
    HtmlEscapeConcat(pre + Bracket(name), post);
    ReplaceAroundToken(HtmlEscape(pre), name, HtmlEscape(post));
  }

  /** Text without `[` holds no link token. */
  lemma NoOpenNoTokens(s: seq<Byte>)
    requires forall i :: 0 <= i < |s| ==> s[i] != '['
    ensures NoTokens(s)
  {
    forall i | 0 <= i < |s|
      ensures TokenLen(s[i..]).None?
    {
      assert s[i..][0] == s[i];
    }
  }

  /** Text with nothing to escape and no `[` is rendered as it is. */
  lemma PlainTextUnchanged(s: seq<Byte>)
    requires forall i :: 0 <= i < |s| ==> !IsSpecial(s[i]) && s[i] != '['
    ensures Content(s) == s
  {
    EscapeIdentity(s);
    NoOpenNoTokens(s);
    NoTokensUnchanged(s);
  }

  /** Plain text around a link token is copied unchanged: for instance
      "See [FrontPage] for more" renders as "See ", then the anchor to
      FrontPage, then " for more". */
  lemma RenderLinkInPlainText(pre: seq<Byte>, name: seq<Byte>, post: seq<Byte>)
    requires IsName(name)
    requires forall i :: 0 <= i < |pre| ==> !IsSpecial(pre[i]) && pre[i] != '['
    requires forall i :: 0 <= i < |post| ==> !IsSpecial(post[i]) && post[i] != '['
    ensures Content(pre + Bracket(name) + post) == pre + Anchor(name) + post
  {
    RenderAroundToken(pre, name, post);
    PlainTextUnchanged(pre);
    PlainTextUnchanged(post);
  }

  /** A bracketed text whose inside is empty or holds a character outside
      `[a-zA-Z0-9]` (and no bracket) is not a link token anywhere, so link
      rewriting copies it. */
  lemma MalformedNotLinked(inner: seq<Byte>)
    requires !IsName(inner) && NoBrackets(inner)
    ensures ReplaceLinks(Bracket(inner)) == Bracket(inner)
  {
    MalformedBracketFirst(inner, []);
    assert Bracket(inner) + [] == Bracket(inner);
  }

  /** Escaping maps a bracketed text to the bracketed escape of its inside. */
  lemma EscapeBracket(inner: seq<Byte>)
    ensures HtmlEscape(Bracket(inner)) == Bracket(HtmlEscape(inner))
  {
    EscapeIdentity("[");
    EscapeIdentity("]");
    HtmlEscapeConcat("[", inner);
    HtmlEscapeConcat("[" + inner, "]");
  }

  /** Wherever it appears, a bracketed token whose inside is empty or holds
      a character outside `[a-zA-Z0-9]`, such as "[a<b]" or "[bad-token]", is
      not linked: it stays as its escaped text, brackets kept, and the text
      on each side is rendered on its own. */
  lemma MalformedTokenInText(pre: seq<Byte>, inner: seq<Byte>, post: seq<Byte>)
    requires !IsName(inner) && NoBrackets(inner)
    ensures Content(pre + Bracket(inner) + post) == Content(pre) + Bracket(HtmlEscape(inner)) + Content(post)
  {
    var e := HtmlEscape(inner);
    var ep := HtmlEscape(pre);
    var eq := HtmlEscape(post);
    EscapeAround(pre, inner, post);
    EscapeKeepsNonName(inner);
    EscapeNoBrackets(inner);
    ReplaceBeforeOpen(ep, Bracket(e) + eq);
    MalformedBracketFirst(e, eq);
    ConcatAssoc(ReplaceLinks(ep), Bracket(e), ReplaceLinks(eq));
  }

  /** Escaping a text around a bracketed one escapes each part, brackets
      kept. */
  lemma EscapeAround(pre: seq<Byte>, inner: seq<Byte>, post: seq<Byte>)
    ensures HtmlEscape(pre + Bracket(inner) + post)
      == HtmlEscape(pre) + (Bracket(HtmlEscape(inner)) + HtmlEscape(post))
  {
    var b := Bracket(inner);
    EscapeBracket(inner);
    HtmlEscapeConcat(pre, b);
    HtmlEscapeConcat(pre + b, post);
    ConcatAssoc(HtmlEscape(pre), HtmlEscape(b), HtmlEscape(post));
  }

  /** The same token as the whole body: its content is exactly its escaped
      text. */
  lemma MalformedTokenEscaped(inner: seq<Byte>)
    requires !IsName(inner) && NoBrackets(inner)
    ensures Content(Bracket(inner)) == HtmlEscape(Bracket(inner))
    ensures Content(Bracket(inner)) == Bracket(HtmlEscape(inner))
  {
    EscapeBracket(inner);
    EscapeKeepsNonName(inner);
    EscapeNoBrackets(inner);
    MalformedNotLinked(HtmlEscape(inner));
  }

  /** With nothing to escape inside, such as "[bad-token]", a malformed
      token renders exactly as it is written. */
  lemma MalformedTokenUnchanged(inner: seq<Byte>)
    requires !IsName(inner) && NoBrackets(inner)
    requires forall i :: 0 <= i < |inner| ==> !IsSpecial(inner[i])
    ensures Content(Bracket(inner)) == Bracket(inner)
  {
    MalformedTokenEscaped(inner);
    EscapeIdentity(inner);
  }
}
