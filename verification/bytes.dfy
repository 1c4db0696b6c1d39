/** Bytes, prefixes, and the character class `[a-zA-Z0-9]` that both regular
    expressions of the wiki use. */
module Bytes {

  /** A byte. It is written as the char with the same code, so that ASCII
      literals such as "&amp;" can be used as byte strings. */
  type Byte = c: char | c <= '\U{FF}' witness '\0'

  /** The class `[a-zA-Z0-9]`. */
  predicate IsAlnum(c: char) {
    'a' <= c <= 'z' || 'A' <= c <= 'Z' || '0' <= c <= '9'
  }

  predicate AllAlnum(s: seq<char>) {
    forall i :: 0 <= i < |s| ==> IsAlnum(s[i])
  }

  /** The identifier `[a-zA-Z0-9]+`: a page title, or the name inside a link. */
  predicate IsName(s: seq<char>) {
    |s| > 0 && AllAlnum(s)
  }

  /** Neither `[` nor `]` occurs. */
  predicate NoBrackets(s: seq<char>) {
    forall i :: 0 <= i < |s| ==> s[i] != '[' && s[i] != ']'
  }

  /** A name is an alphanumeric followed by nothing or by a name. */
  lemma NameCons(s: seq<char>)
    requires |s| > 0
    ensures IsName(s) <==> IsAlnum(s[0]) && (|s| == 1 || IsName(s[1..]))
  {
    if IsAlnum(s[0]) && |s| > 1 && IsName(s[1..]) {
      forall i | 0 < i < |s|
        ensures IsAlnum(s[i])
      {
        assert s[i] == s[1..][i - 1];
      }
    }
  }

  predicate StartsWith(s: seq<char>, prefix: seq<char>) {
    |prefix| <= |s| && s[..|prefix|] == prefix
  }

  /** The length of the longest run of `[a-zA-Z0-9]` at the start of `s`
      (what the greedy `[a-zA-Z0-9]+` consumes). */
  function LeadingAlnum(s: seq<char>): (n: nat)
    ensures n <= |s|
  {
    if |s| == 0 || !IsAlnum(s[0]) then 0 else 1 + LeadingAlnum(s[1..])
  }

  /** The run LeadingAlnum measures is alphanumeric and cannot be extended. */
  lemma {:induction false} LeadingAlnumRun(s: seq<char>)
    ensures AllAlnum(s[..LeadingAlnum(s)])
    ensures LeadingAlnum(s) < |s| ==> !IsAlnum(s[LeadingAlnum(s)])
  {
    if |s| > 0 && IsAlnum(s[0]) {
      LeadingAlnumRun(s[1..]);
      assert s[..LeadingAlnum(s)] == [s[0]] + s[1..][..LeadingAlnum(s[1..])];
    }
  }

  /** A run of alphanumerics followed by a non-alphanumeric (or the end) is
      exactly what LeadingAlnum measures. */
  lemma {:induction false} LeadingAlnumExact(s: seq<char>, n: nat)
    requires n <= |s| && AllAlnum(s[..n])
    requires n < |s| ==> !IsAlnum(s[n])
    ensures LeadingAlnum(s) == n
  {
    if n > 0 {
      assert s[..n][0] == s[0];
      assert s[1..][..n - 1] == s[..n][1..];
      LeadingAlnumExact(s[1..], n - 1);
    }
  }

  lemma StartsWithConcat(a: seq<char>, b: seq<char>)
    ensures StartsWith(a + b, a)
  {
    assert (a + b)[..|a|] == a;
  }

  /** The run stops at the first non-alphanumeric, whatever follows it. */
  lemma {:induction false} LeadingAlnumStops(e: seq<char>, t: seq<char>)
    requires |t| > 0 && !IsAlnum(t[0])
    ensures LeadingAlnum(e + t) == LeadingAlnum(e)
    decreases |e|
  {
    if |e| == 0 {
      assert e + t == t;
    } else {
      assert (e + t)[0] == e[0];
      assert (e + t)[1..] == e[1..] + t;
      LeadingAlnumStops(e[1..], t);
    }
  }

  /** A string can only start with a prefix whose first character it shares. */
  lemma StartsWithHead(s: seq<char>, prefix: seq<char>)
    requires |prefix| > 0 && StartsWith(s, prefix)
    ensures s[0] == prefix[0]
  {
    assert s[..|prefix|][0] == s[0];
  }
}
