/** The link rewriting stage of rendering: `hyperLink.ReplaceAllFunc` with the
    pattern `\[[a-zA-Z0-9]+\]`, each match replaced by an anchor to the named
    page. Both copies of the server use the same pattern and replacement. */
module HyperLink {
  import opened Wrappers
  import opened Bytes

  /** A whole match of `\[[a-zA-Z0-9]+\]`. */
  predicate IsToken(t: seq<char>) {
    |t| >= 3 && t[0] == '[' && t[|t| - 1] == ']' && AllAlnum(t[1..|t| - 1])
  }

  function Bracket(name: seq<Byte>): seq<Byte> {
    "[" + name + "]"
  }

  /** The length of the match that starts at the beginning of `s`, if any.
      The class inside the brackets excludes `]`, so a match starting at a
      given position has only one possible length. */
  function TokenLen(s: seq<char>): (r: Option<nat>)
    ensures r.Some? ==> 3 <= r.value <= |s|
  {
    if |s| > 0 && s[0] == '[' then
      var k := LeadingAlnum(s[1..]);
      if 0 < k && k + 1 < |s| && s[k + 1] == ']' then Some(k + 2) else None
    else None
  }

  lemma InnerSlice(s: seq<char>, n: nat)
    requires 2 <= n <= |s|
    ensures s[..n][1..n - 1] == s[1..][..n - 2]
  {
  }

  /** TokenLen finds a match exactly when one starts there. */
  lemma TokenLenExactly(s: seq<char>, n: nat)
    ensures TokenLen(s) == Some(n) <==> n <= |s| && IsToken(s[..n])
  {
    if TokenLen(s) == Some(n) {
      LeadingAlnumRun(s[1..]);
      InnerSlice(s, n);
    }
    if n <= |s| && IsToken(s[..n]) {
      assert s[..n][0] == s[0];
      assert s[..n][n - 1] == s[n - 1];
      InnerSlice(s, n);
      LeadingAlnumExact(s[1..], n - 2);
    }
  }

  /** The replacement for the match `[name]`, brackets stripped. */
  function Anchor(name: seq<Byte>): seq<Byte> {
    "<a href=\"/view/" + name + "\">" + name + "</a>"
  }

  /** ReplaceAllFunc: scanning left to right, a match starting at the current
      position is replaced and the scan resumes after it; otherwise one byte
      is copied. An anchor is longer than its token, so the text never
      shrinks. */
  function ReplaceLinks(s: seq<Byte>): (r: seq<Byte>)
    ensures |r| >= |s|
    decreases |s|
  {
    if |s| == 0 then []
    else match TokenLen(s)
      case Some(n) => Anchor(s[1..n - 1]) + ReplaceLinks(s[n..])
      case None => [s[0]] + ReplaceLinks(s[1..])
  }

  /** No match starts anywhere in `s`. */
  predicate NoTokens(s: seq<char>) {
    forall i :: 0 <= i < |s| ==> TokenLen(s[i..]).None?
  }

  /** A `[` inside a match can only be its first byte. */
  lemma TokenOpensOnce(t: seq<char>, j: int)
    requires IsToken(t) && 0 < j < |t|
    ensures t[j] != '['
  {
    if j < |t| - 1 {
      assert t[1..|t| - 1][j - 1] == t[j];
    }
  }

  /** A match starting at the beginning of `s` ends before any later `[`. */
  lemma TokenEndsBeforeOpen(s: seq<char>, k: int)
    requires TokenLen(s).Some? && 0 < k < |s| && s[k] == '['
    ensures TokenLen(s).value <= k
  {
    var n := TokenLen(s).value;
    TokenLenExactly(s, n);
    if k < n {
      TokenOpensOnce(s[..n], k);
      assert false;
    }
  }

  /** A match at the start of `a + b` that ends inside `a` is a match of `a`. */
  lemma TokenLenPrefix(a: seq<Byte>, b: seq<Byte>, n: nat)
    requires n <= |a|
    ensures TokenLen(a + b) == Some(n) <==> TokenLen(a) == Some(n)
  {
    assert (a + b)[..n] == a[..n];
    TokenLenExactly(a, n);
    TokenLenExactly(a + b, n);
  }

  lemma ReplaceLinksToken(s: seq<Byte>, n: nat)
    requires TokenLen(s) == Some(n)
    ensures ReplaceLinks(s) == Anchor(s[1..n - 1]) + ReplaceLinks(s[n..])
  {
  }

  lemma ReplaceLinksPlain(s: seq<Byte>)
    requires |s| > 0 && TokenLen(s).None?
    ensures ReplaceLinks(s) == [s[0]] + ReplaceLinks(s[1..])
  {
  }

  lemma ConcatAssoc(a: seq<Byte>, b: seq<Byte>, c: seq<Byte>)
    ensures a + (b + c) == (a + b) + c
  {
  }

  lemma ConcatSlices(a: seq<Byte>, b: seq<Byte>, n: nat)
    requires 0 < n <= |a|
    ensures (a + b)[0] == a[0]
    ensures 2 <= n ==> (a + b)[1..n - 1] == a[1..n - 1]
    ensures (a + b)[n..] == a[n..] + b
  {
  }

  lemma ReplaceStepToken(pre: seq<Byte>, t: seq<Byte>, n: nat)
    requires TokenLen(pre + t) == Some(n) && n <= |pre|
    requires ReplaceLinks(pre[n..] + t) == ReplaceLinks(pre[n..]) + ReplaceLinks(t)
    ensures ReplaceLinks(pre + t) == ReplaceLinks(pre) + ReplaceLinks(t)
  {
    TokenLenPrefix(pre, t, n);
    ConcatSlices(pre, t, n);
    ReplaceLinksToken(pre + t, n);
    ReplaceLinksToken(pre, n);
    ConcatAssoc(Anchor(pre[1..n - 1]), ReplaceLinks(pre[n..]), ReplaceLinks(t));
  }

  lemma TokenLenNonePrefix(pre: seq<Byte>, t: seq<Byte>)
    requires TokenLen(pre + t).None?
    ensures TokenLen(pre).None?
  {
    if TokenLen(pre).Some? {
      TokenLenPrefix(pre, t, TokenLen(pre).value);
    }
  }

  lemma ReplaceStepPlain(pre: seq<Byte>, t: seq<Byte>)
    requires |pre| > 0 && TokenLen(pre + t).None?
    requires ReplaceLinks(pre[1..] + t) == ReplaceLinks(pre[1..]) + ReplaceLinks(t)
    ensures ReplaceLinks(pre + t) == ReplaceLinks(pre) + ReplaceLinks(t)
  {
    TokenLenNonePrefix(pre, t);
    ConcatSlices(pre, t, 1);
    ReplaceLinksPlain(pre + t);
    ReplaceLinksPlain(pre);
    ConcatAssoc([pre[0]], ReplaceLinks(pre[1..]), ReplaceLinks(t));
  }

  lemma OpenAfterPrefix(pre: seq<Byte>, t: seq<Byte>)
    requires |t| > 0 && t[0] == '['
    ensures (pre + t)[|pre|] == '['
  {
  }

  /** No match straddles a `[`, so the text before one is rewritten on its
      own. */
  lemma {:induction false} ReplaceBeforeOpen(pre: seq<Byte>, t: seq<Byte>)
    requires |t| > 0 && t[0] == '['
    ensures ReplaceLinks(pre + t) == ReplaceLinks(pre) + ReplaceLinks(t)
    decreases |pre|
  {
    if |pre| == 0 {
      assert pre + t == t;
    } else if TokenLen(pre + t).Some? {
      var n := TokenLen(pre + t).value;
      OpenAfterPrefix(pre, t);
      TokenEndsBeforeOpen(pre + t, |pre|);
      ReplaceBeforeOpen(pre[n..], t);
      ReplaceStepToken(pre, t, n);
    } else {
      ReplaceBeforeOpen(pre[1..], t);
      ReplaceStepPlain(pre, t);
    }
  }

  /** Text in which no match starts is copied unchanged; in particular a
      bracketed token that is empty or holds a character outside
      `[a-zA-Z0-9]` is not linked. */
  lemma {:induction false} NoTokensUnchanged(s: seq<Byte>)
    requires NoTokens(s)
    ensures ReplaceLinks(s) == s
    decreases |s|
  {
    if |s| > 0 {
      assert s[0..] == s;
      forall i | 0 <= i < |s[1..]|
        ensures TokenLen(s[1..][i..]).None?
      {
        assert s[1..][i..] == s[i + 1..];
      }
      NoTokensUnchanged(s[1..]);
      assert s == [s[0]] + s[1..];
    }
  }

  /** A prefix in which no match starts is copied, and rewriting resumes
      right after it. */
  lemma {:induction false} CopyUntokened(x: seq<Byte>, q: seq<Byte>)
    requires forall i :: 0 <= i < |x| ==> TokenLen((x + q)[i..]).None?
    ensures ReplaceLinks(x + q) == x + ReplaceLinks(q)
    decreases |x|
  {
    if |x| > 0 {
      assert (x + q)[0..] == x + q;
      CopyStepHead(x, q);
      UntokenedTail(x, q);
      CopyUntokened(x[1..], q);
      ConsSplit(x);
      ConcatAssoc([x[0]], x[1..], ReplaceLinks(q));
    } else {
      assert x + q == q;
    }
  }

  lemma CopyStepHead(x: seq<Byte>, q: seq<Byte>)
    requires |x| > 0 && TokenLen(x + q).None?
    ensures ReplaceLinks(x + q) == [x[0]] + ReplaceLinks(x[1..] + q)
  {
    ConcatSlices(x, q, 1);
    ReplaceLinksPlain(x + q);
  }

  lemma UntokenedTail(x: seq<Byte>, q: seq<Byte>)
    requires |x| > 0
    requires forall i :: 0 <= i < |x| ==> TokenLen((x + q)[i..]).None?
    ensures forall i :: 0 <= i < |x[1..]| ==> TokenLen((x[1..] + q)[i..]).None?
  {
    forall i | 0 <= i < |x[1..]|
      ensures TokenLen((x[1..] + q)[i..]).None?
    {
      assert (x[1..] + q)[i..] == (x + q)[i + 1..];
    }
  }

  /** A `[` followed by a bracket-free text that is not a name and then `]`
      starts no match, whatever comes after: the alphanumeric run stops
      before the `]`, or is empty. */
  lemma MalformedBracketNoMatch(e: seq<Byte>, q: seq<Byte>)
    requires !IsName(e) && NoBrackets(e)
    ensures TokenLen(Bracket(e) + q).None?
  {
    var s := Bracket(e) + q;
    assert s[1..] == e + ("]" + q);
    LeadingAlnumStops(e, "]" + q);
    var k := LeadingAlnum(e);
    LeadingAlnumRun(e);
    assert e[..|e|] == e;
    assert k >= |e| || s[k + 1] == e[k];
  }

  /** A malformed bracketed text is copied as it is, and the text after it
      is rewritten on its own. */
  lemma MalformedBracketFirst(e: seq<Byte>, q: seq<Byte>)
    requires !IsName(e) && NoBrackets(e)
    ensures ReplaceLinks(Bracket(e) + q) == Bracket(e) + ReplaceLinks(q)
  {
    var x := Bracket(e);
    var s := x + q;
    forall i | 0 <= i < |x|
      ensures TokenLen(s[i..]).None?
    {
      if i == 0 {
        assert s[i..] == s;
        MalformedBracketNoMatch(e, q);
      } else {
        assert s[i..][0] == x[i];
        assert i > |e| || x[i] == e[i - 1];
      }
    }
    CopyUntokened(x, q);
  }

  /** Each occurrence of `[name]` becomes exactly the anchor for `name`, and
      the text on either side is rewritten on its own, whatever it holds. */
  lemma ReplaceAroundToken(pre: seq<Byte>, name: seq<Byte>, post: seq<Byte>)
    requires IsName(name)
    ensures ReplaceLinks(pre + Bracket(name) + post) == ReplaceLinks(pre) + Anchor(name) + ReplaceLinks(post)
  {
    var t := Bracket(name) + post;
    assert pre + Bracket(name) + post == pre + t;
    ReplaceBeforeOpen(pre, t);
    TokenAtBracket(name, post);
    ReplaceLinksToken(t, |name| + 2);
  }

  /** `[name]` is the match at the start of `[name]` + `post`; what remains
      after it is `post`. */
  lemma TokenAtBracket(name: seq<Byte>, post: seq<Byte>)
    requires IsName(name)
    ensures var t := Bracket(name) + post; var n := |name| + 2;
      TokenLen(t) == Some(n) && t[1..n - 1] == name && t[n..] == post
  {
    var t := Bracket(name) + post;
    var n := |name| + 2;
    assert t[..n] == Bracket(name);
    assert t[..n][1..n - 1] == name;
    TokenLenExactly(t, n);
    assert t[1..n - 1] == name;
    assert t[n..] == post;
  }

  /** The name of the anchor that `s` starts with, if it starts with one. */
  function AnchorName(s: seq<Byte>): (r: Option<seq<Byte>>)
    ensures r.Some? ==> IsName(r.value) && StartsWith(s, Anchor(r.value))
  {
    var open: seq<Byte> := "<a href=\"/view/";
    if StartsWith(s, open) then
      var rest := s[|open|..];
      var name := rest[..LeadingAlnum(rest)];
      LeadingAlnumRun(rest);
      if |name| > 0 && StartsWith(s, Anchor(name)) then Some(name) else None
    else None
  }

  /** The inverse of the rewriting on text that holds no `<`: each anchor is
      turned back into its bracketed token. */
  function Unlink(s: seq<Byte>): seq<Byte>
    decreases |s|
  {
    if |s| == 0 then []
    else match AnchorName(s)
      case Some(name) => Bracket(name) + Unlink(s[|Anchor(name)|..])
      case None => [s[0]] + Unlink(s[1..])
  }

  lemma AnchorNameOf(name: seq<Byte>, rest: seq<Byte>)
    requires IsName(name)
    ensures AnchorName(Anchor(name) + rest) == Some(name)
  {
    var open: seq<Byte> := "<a href=\"/view/";
    var s := Anchor(name) + rest;
    var tail: seq<Byte> := "\">" + name + "</a>" + rest;
    assert s == open + (name + tail);
    StartsWithConcat(open, name + tail);
    assert s[|open|..] == name + tail;
    assert (name + tail)[..|name|] == name;
    LeadingAlnumExact(name + tail, |name|);
    StartsWithConcat(Anchor(name), rest);
  }

  lemma UnlinkAnchor(name: seq<Byte>, rest: seq<Byte>)
    requires IsName(name)
    ensures Unlink(Anchor(name) + rest) == Bracket(name) + Unlink(rest)
  {
    AnchorNameOf(name, rest);
    assert (Anchor(name) + rest)[|Anchor(name)|..] == rest;
  }

  lemma UnlinkPlain(c: Byte, rest: seq<Byte>)
    requires c != '<'
    ensures Unlink([c] + rest) == [c] + Unlink(rest)
  {
    var out := [c] + rest;
    if AnchorName(out).Some? {
      StartsWithHead(out, Anchor(AnchorName(out).value));
    }
    assert out[1..] == rest;
  }

  /** Removing the anchors from rewritten text gives back the text: on input
      without `<`, every `<` of the output belongs to an inserted anchor, and
      everything between anchors is the input copied verbatim. */
  lemma {:induction false} LinksRoundTrip(s: seq<Byte>)
    requires forall i :: 0 <= i < |s| ==> s[i] != '<'
    ensures Unlink(ReplaceLinks(s)) == s
    decreases |s|
  {
    if |s| > 0 {
      if TokenLen(s).Some? {
        var n := TokenLen(s).value;
        TokenLenExactly(s, n);
        TokenName(s, n);
        ReplaceLinksToken(s, n);
        UnlinkAnchor(s[1..n - 1], ReplaceLinks(s[n..]));
        LinksRoundTrip(s[n..]);
      } else {
        ReplaceLinksPlain(s);
        UnlinkPlain(s[0], ReplaceLinks(s[1..]));
        LinksRoundTrip(s[1..]);
        ConsSplit(s);
      }
    }
  }

  /** A match is its bracketed name, followed by the rest of the text. */
  lemma TokenName(s: seq<Byte>, n: nat)
    requires n <= |s| && IsToken(s[..n])
    ensures IsName(s[1..n - 1])
    ensures s == Bracket(s[1..n - 1]) + s[n..]
  {
    assert s[..n][1..n - 1] == s[1..n - 1];
    assert s[..n] == Bracket(s[1..n - 1]);
  }

  lemma ConsSplit(s: seq<Byte>)
    requires |s| > 0
    ensures s == [s[0]] + s[1..]
  {
  }
}
