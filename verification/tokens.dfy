/**
  Whitespace tokenisation of a macro's `keys` string, as done by Python's
  argument-less `str.split()` on a unicode string: runs of whitespace
  separate tokens, leading and trailing whitespace produce no token, and a
  string made of whitespace only produces no token at all.
 */
module Tokens {

  /** The characters `unicode.isspace()` holds of in Python 2.7
      (Unicode 5.2 database). */
  predicate IsSpace(c: char) {
    || c == ' '
    || '\t' <= c <= '\r'
    || '\U{1C}' <= c <= '\U{1F}'
    || c == '\U{85}'
    || c == '\U{A0}'
    || c == '\U{1680}'
    || c == '\U{180E}'
    || '\U{2000}' <= c <= '\U{200A}'
    || c == '\U{2028}'
    || c == '\U{2029}'
    || c == '\U{202F}'
    || c == '\U{205F}'
    || c == '\U{3000}'
  }

  /** A token: non-empty and free of whitespace. */
  predicate IsToken(t: string) {
    |t| > 0 && forall i :: 0 <= i < |t| ==> !IsSpace(t[i])
  }

  predicate Blank(s: string) {
    forall i :: 0 <= i < |s| ==> IsSpace(s[i])
  }

  /** Length of the maximal whitespace-free prefix of `s`. */
  function WordLength(s: string): (n: nat)
    ensures n <= |s|
    ensures forall i :: 0 <= i < n ==> !IsSpace(s[i])
    ensures n < |s| ==> IsSpace(s[n])
  {
    if s == [] || IsSpace(s[0]) then 0 else 1 + WordLength(s[1..])
  }

  /** Python's `s.split()`. */
  function Split(s: string): (toks: seq<string>)
    ensures forall i :: 0 <= i < |toks| ==> IsToken(toks[i])
    ensures |toks| <= |s|
    decreases |s|
  {
    if s == [] then []
    else if IsSpace(s[0]) then Split(s[1..])
    else
      var n := WordLength(s);
      [s[..n]] + Split(s[n..])
  }

  /** Python's `' '.join(toks)`. */
  function Join(toks: seq<string>): string {
    if toks == [] then ""
    else if |toks| == 1 then toks[0]
    else toks[0] + " " + Join(toks[1..])
  }

  /** A whitespace-only string splits into no tokens; this is why a
      `keys` value such as "   " passes the raw emptiness check and then
      validates as an empty macro. */
  lemma {:induction false} SplitBlank(s: string)
    requires Blank(s)
    ensures Split(s) == []
    decreases |s|
  {
    if s != [] {
      assert Blank(s[1..]);
      SplitBlank(s[1..]);
    }
  }

  lemma {:induction false} WordLengthStops(s: string, u: string)
    requires u != [] && IsSpace(u[0])
    ensures WordLength(s + u) == WordLength(s)
    decreases |s|
  {
    if s != [] && !IsSpace(s[0]) {
      assert (s + u)[1..] == s[1..] + u;
      WordLengthStops(s[1..], u);
    }
  }

  /** A whitespace character is a token boundary: splitting distributes
      over a concatenation whose right part starts with whitespace. */
  lemma {:induction false} SplitAppend(s: string, u: string)
    requires u != [] && IsSpace(u[0])
    ensures Split(s + u) == Split(s) + Split(u)
    decreases |s|
  {
    if s == [] {
      assert s + u == u;
    } else if IsSpace(s[0]) {
      assert (s + u)[1..] == s[1..] + u;
      SplitAppend(s[1..], u);
    } else {
      var n := WordLength(s);
      WordLengthStops(s, u);
      assert (s + u)[..n] == s[..n];
      assert (s + u)[n..] == s[n..] + u;
      SplitAppend(s[n..], u);
    }
  }

  /** A single token splits to itself. */
  lemma SplitToken(t: string)
    requires IsToken(t)
    ensures Split(t) == [t]
  {
    assert WordLength(t) == |t|;
    assert t[..|t|] == t;
    assert t[|t|..] == [];
  }

  /** Appending a space-separated token adds exactly that token. */
  lemma SplitAppendToken(s: string, t: string)
    requires IsToken(t)
    ensures Split(s + " " + t) == Split(s) + [t]
  {
    var u := " " + t;
    assert s + " " + t == s + u;
    SplitAppend(s, u);
    assert u[1..] == t;
    assert Split(u) == Split(t);
    SplitToken(t);
  }

  /** Round trip: splitting a space-joined list of tokens gives the list back. */
  lemma {:induction false} SplitJoin(toks: seq<string>)
    requires forall i :: 0 <= i < |toks| ==> IsToken(toks[i])
    ensures Split(Join(toks)) == toks
    decreases |toks|
  {
    if |toks| == 1 {
      SplitToken(toks[0]);
    } else if |toks| > 1 {
      var rest := toks[1..];
      var j := Join(rest);
      var u := " " + j;
      assert Join(toks) == toks[0] + u by {
        assert toks[0] + " " + j == toks[0] + u;
      }
      forall i | 0 <= i < |rest| ensures IsToken(rest[i]) {
        assert rest[i] == toks[i + 1];
      }
      SplitJoin(rest);
      SplitToken(toks[0]);
      SplitAppend(toks[0], u);
      assert u[1..] == j;
      assert Split(u) == Split(j);
      assert [toks[0]] + rest == toks;
    }
  }
}
