/** Go's `template.HTMLEscapeString`, the first stage of rendering a page
    body. It works byte by byte: NUL, `"`, `'`, `&`, `<` and `>` are replaced,
    every other byte is copied. */
module Escape {
  import opened Bytes

  /** The bytes that HTMLEscapeString rewrites. */
  predicate IsSpecial(c: char) {
    c == '\0' || c == '"' || c == '\'' || c == '&' || c == '<' || c == '>'
  }

  /** The replacement for one byte. NUL becomes U+FFFD, whose UTF-8 encoding
      is the three bytes EF BF BD; the quotes use the short numeric forms. */
  function EscapeByte(c: Byte): (r: seq<Byte>)
    ensures !IsSpecial(c) ==> r == [c]
    ensures NoMarkup(r)
  {
    if c == '\0' then "\U{EF}\U{BF}\U{BD}"
    else if c == '"' then "&#34;"
    else if c == '\'' then "&#39;"
    else if c == '&' then "&amp;"
    else if c == '<' then "&lt;"
    else if c == '>' then "&gt;"
    else [c]
  }

  /** No byte that could open a tag, close one, or end an attribute value. */
  predicate NoMarkup(s: seq<char>) {
    forall i :: 0 <= i < |s| ==> s[i] != '<' && s[i] != '>' && s[i] != '"' && s[i] != '\'' && s[i] != '\0'
  }

  predicate NoNul(s: seq<char>) {
    forall i :: 0 <= i < |s| ==> s[i] != '\0'
  }

  /** HTMLEscapeString. Its output carries no raw markup byte. */
  function HtmlEscape(s: seq<Byte>): (r: seq<Byte>)
    ensures NoMarkup(r)
    ensures |r| >= |s|
  {
    if |s| == 0 then []
    else
      var head := EscapeByte(s[0]);
      var tail := HtmlEscape(s[1..]);
      NoMarkupConcat(head, tail);
      head + tail
  }

  lemma NoMarkupConcat(a: seq<char>, b: seq<char>)
    requires NoMarkup(a) && NoMarkup(b)
    ensures NoMarkup(a + b)
  {
  }

  /** A string with nothing to escape is returned as it is. */
  lemma {:induction false} EscapeIdentity(s: seq<Byte>)
    requires forall i :: 0 <= i < |s| ==> !IsSpecial(s[i])
    ensures HtmlEscape(s) == s
    decreases |s|
  {
    if |s| > 0 {
      EscapeIdentity(s[1..]);
      assert s == [s[0]] + s[1..];
    }
  }

  /** Escaping adds no bracket: the entities and U+FFFD hold none. */
  lemma {:induction false} EscapeNoBrackets(s: seq<Byte>)
    requires NoBrackets(s)
    ensures NoBrackets(HtmlEscape(s))
    decreases |s|
  {
    if |s| > 0 {
      EscapeNoBrackets(s[1..]);
      var h := EscapeByte(s[0]);
      assert NoBrackets(h);
      assert HtmlEscape(s) == h + HtmlEscape(s[1..]);
    }
  }

  /** Escaping keeps a text that is not a name from becoming one: a byte
      outside `[a-zA-Z0-9]` is copied or replaced by a sequence starting
      with `&` or with byte EF. */
  lemma {:induction false} EscapeKeepsNonName(s: seq<Byte>)
    requires !IsName(s)
    ensures !IsName(HtmlEscape(s))
    decreases |s|
  {
    if |s| > 0 {
      var r := HtmlEscape(s);
      var h := EscapeByte(s[0]);
      var t := HtmlEscape(s[1..]);
      assert r == h + t;
      NameCons(s);
      if IsAlnum(s[0]) {
        EscapeKeepsNonName(s[1..]);
        assert r == [s[0]] + t;
        assert r[1..] == t;
        NameCons(r);
      } else {
        assert !IsAlnum(h[0]);
        assert r[0] == h[0];
      }
    }
  }

  /** Escaping works byte by byte, so it distributes over concatenation. */
  lemma {:induction false} HtmlEscapeConcat(a: seq<Byte>, b: seq<Byte>)
    ensures HtmlEscape(a + b) == HtmlEscape(a) + HtmlEscape(b)
    decreases |a|
  {
    if |a| == 0 {
      assert a + b == b;
    } else {
      assert (a + b)[0] == a[0];
      assert (a + b)[1..] == a[1..] + b;
      HtmlEscapeConcat(a[1..], b);
    }
  }

  /** The decoder for the five entities HtmlEscape produces. Every other byte,
      and a `&` that does not start one of them, is copied. */
  function Unescape(s: seq<Byte>): (r: seq<Byte>)
    decreases |s|
  {
    if |s| == 0 then []
    else if StartsWith(s, "&amp;") then "&" + Unescape(s[5..])
    else if StartsWith(s, "&lt;") then "<" + Unescape(s[4..])
    else if StartsWith(s, "&gt;") then ">" + Unescape(s[4..])
    else if StartsWith(s, "&#34;") then "\"" + Unescape(s[5..])
    else if StartsWith(s, "&#39;") then "'" + Unescape(s[5..])
    else [s[0]] + Unescape(s[1..])
  }

  /** Decoding undoes the escape of a single byte other than NUL. */
  lemma UnescapeByte(c: Byte, rest: seq<Byte>)
    requires c != '\0'
    ensures Unescape(EscapeByte(c) + rest) == [c] + Unescape(rest)
  {
    var e := EscapeByte(c);
    StartsWithConcat(e, rest);
    assert (e + rest)[|e|..] == rest;
    var s := e + rest;
    if c == '<' || c == '>' || c == '"' || c == '\'' {
      assert s[1] == e[1];
      NotStartsWith(s, "&amp;", 1);
    }
    if c == '>' || c == '"' || c == '\'' {
      NotStartsWith(s, "&lt;", 1);
    }
    if c == '"' || c == '\'' {
      NotStartsWith(s, "&gt;", 1);
    }
    if c == '\'' {
      assert s[3] == e[3];
      NotStartsWith(s, "&#34;", 3);
    }
    if !IsSpecial(c) {
      assert s[0] == c;
      assert s[1..] == rest;
      NotStartsWith(s, "&amp;", 0);
      NotStartsWith(s, "&lt;", 0);
      NotStartsWith(s, "&gt;", 0);
      NotStartsWith(s, "&#34;", 0);
      NotStartsWith(s, "&#39;", 0);
    }
  }

  /** A text that differs from a prefix at some position does not start
      with it. */
  lemma NotStartsWith(s: seq<char>, prefix: seq<char>, i: nat)
    requires i < |prefix| && i < |s| && s[i] != prefix[i]
    ensures !StartsWith(s, prefix)
  {
    assert |s| < |prefix| || s[..|prefix|][i] == s[i];
  }

  /** Escaping loses nothing but NUL: a NUL-free body is recovered exactly
      from its escaped form. */
  lemma {:induction false} EscapeRoundTrip(s: seq<Byte>)
    requires NoNul(s)
    ensures Unescape(HtmlEscape(s)) == s
  {
    if |s| > 0 {
      EscapeRoundTrip(s[1..]);
      UnescapeByte(s[0], HtmlEscape(s[1..]));
      assert s == [s[0]] + s[1..];
    }
  }

  /** NUL is the one byte escaping cannot be undone for: it becomes the same
      bytes as a literal U+FFFD in the body. */
  lemma EscapeMergesNul()
    ensures HtmlEscape("\0") == HtmlEscape("\U{EF}\U{BF}\U{BD}")
  {
    var fffd: seq<Byte> := "\U{EF}\U{BF}\U{BD}";
    assert HtmlEscape(fffd) == fffd;
  }
}
