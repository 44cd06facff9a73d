/** Text cleaning and PDF text extraction (app.py, clean_text and extract_text).

    clean_text is a regular-expression substitution that deletes every
    character outside the class [\w\s.,;:!?()-]; here it is a character
    filter over strings. extract_text concatenates the text of every page
    in page order and then cleans the result; the PDF library that yields
    the page texts is not modelled, so the pages arrive as plain strings.
 */
module TextCleaning {

  /** Python's \w restricted to ASCII: letters, digits and the underscore. */
  predicate IsWordChar(c: char) {
    ('a' <= c <= 'z') || ('A' <= c <= 'Z') || ('0' <= c <= '9') || c == '_'
  }

  /** Python's \s on text: the characters for which str.isspace() holds. */
  predicate IsSpace(c: char) {
    ('\t' <= c <= '\r')                 // tab, line feed, vertical tab, form feed, carriage return
    || ('\U{1C}' <= c <= '\U{1F}')      // file, group, record and unit separators
    || c == ' ' || c == '\U{85}' || c == '\U{A0}' || c == '\U{1680}'
    || ('\U{2000}' <= c <= '\U{200A}')  // en quad .. hair space
    || c == '\U{2028}' || c == '\U{2029}' || c == '\U{202F}' || c == '\U{205F}' || c == '\U{3000}'
  }

  /** The punctuation the filter keeps; the trailing '-' of the class is a literal. */
  const Punctuation: string := ".,;:!?()-"

  /** A character the filter keeps. */
  predicate Allowed(c: char) {
    IsWordChar(c) || IsSpace(c) || c in Punctuation
  }

  predicate AllAllowed(s: string) {
    forall i :: 0 <= i < |s| ==> Allowed(s[i])
  }

  /** What the filter leaves of one character. */
  function Keep(c: char): string {
    if Allowed(c) then [c] else []
  }

  /** clean_text: delete every character that is not Allowed. */
  function CleanText(s: string): (r: string)
    ensures AllAllowed(r)
    ensures |r| <= |s|
  {
    if s == [] then []
    else Keep(s[0]) + CleanText(s[1..])
  }

  /** Cleaning distributes over concatenation: the filter looks at one character at a time. */
  lemma {:induction false} CleanTextAppend(a: string, b: string)
    ensures CleanText(a + b) == CleanText(a) + CleanText(b)
  {
    if a == [] {
      assert a + b == b;
    } else {
      assert (a + b)[0] == a[0] && (a + b)[1..] == a[1..] + b;
      CleanTextAppend(a[1..], b);
      calc {
        CleanText(a + b);
        Keep(a[0]) + CleanText(a[1..] + b);
        Keep(a[0]) + (CleanText(a[1..]) + CleanText(b));
        (Keep(a[0]) + CleanText(a[1..])) + CleanText(b);
      }
    }
  }

  /** Every allowed character is kept as often as it occurs; every other one is gone. */
  lemma {:induction false} CleanTextCounts(s: string, c: char)
    ensures multiset(CleanText(s))[c] == if Allowed(c) then multiset(s)[c] else 0
  {
    if s != [] {
      CleanTextCounts(s[1..], c);
      assert s == [s[0]] + s[1..];
    }
  }

  /** The positions of the allowed characters of s from position lo onwards, in increasing order. */
  function AllowedPositions(s: string, lo: nat): seq<nat>
    decreases |s| - lo
  {
    if lo >= |s| then []
    else (if Allowed(s[lo]) then [lo] else []) + AllowedPositions(s, lo + 1)
  }

  predicate StrictlyIncreasing(p: seq<nat>) {
    forall i, j :: 0 <= i < j < |p| ==> p[i] < p[j]
  }

  lemma {:induction false} AllowedPositionsSpec(s: string, lo: nat)
    requires lo <= |s|
    ensures var p := AllowedPositions(s, lo);
      && |p| == |CleanText(s[lo..])|
      && StrictlyIncreasing(p)
      && (forall k :: 0 <= k < |p| ==> lo <= p[k] < |s| && CleanText(s[lo..])[k] == s[p[k]])
      && (forall i :: lo <= i < |s| ==> (i in p <==> Allowed(s[i])))
    decreases |s| - lo
  {
    if lo < |s| {
      AllowedPositionsSpec(s, lo + 1);
      assert s[lo..][1..] == s[lo + 1..];
    }
  }

  /** The output of clean_text is exactly the allowed characters of the input, in their
      original order: it is s read at a strictly increasing list of positions, and a
      position is on that list if and only if the character there is allowed. */
  lemma CleanTextIsAllowedSubsequence(s: string)
    ensures var p := AllowedPositions(s, 0);
      && |p| == |CleanText(s)|
      && StrictlyIncreasing(p)
      && (forall k :: 0 <= k < |p| ==> p[k] < |s| && CleanText(s)[k] == s[p[k]])
      && (forall i :: 0 <= i < |s| ==> (i in p <==> Allowed(s[i])))
  {
    AllowedPositionsSpec(s, 0);
    assert s[0..] == s;
  }

  /** A string is left unchanged by clean_text exactly when all its characters are allowed. */
  lemma {:induction false} CleanTextFixpoint(s: string)
    ensures CleanText(s) == s <==> AllAllowed(s)
  {
    if s != [] {
      CleanTextFixpoint(s[1..]);
      if !Allowed(s[0]) {
        assert |CleanText(s)| < |s|;
      } else if CleanText(s) == s {
        assert CleanText(s[1..]) == s[1..];
        assert forall i :: 1 <= i < |s| ==> s[i] == s[1..][i - 1];
      } else {
        assert CleanText(s[1..]) != s[1..];
      }
    }
  }

  /** clean_text is idempotent. */
  lemma CleanTextIdempotent(s: string)
    ensures CleanText(CleanText(s)) == CleanText(s)
  {
    CleanTextFixpoint(CleanText(s));
  }

  /** clean_text never lengthens its input, and keeps the length exactly when nothing is deleted. */
  lemma {:induction false} CleanTextLength(s: string)
    ensures |CleanText(s)| <= |s|
    ensures |CleanText(s)| == |s| <==> AllAllowed(s)
  {
    if s != [] {
      CleanTextLength(s[1..]);
      if Allowed(s[0]) && AllAllowed(s[1..]) {
        assert forall i :: 1 <= i < |s| ==> s[i] == s[1..][i - 1];
      }
      if AllAllowed(s) {
        assert forall i :: 0 <= i < |s[1..]| ==> s[1..][i] == s[i + 1];
      }
    }
  }

  /** The raw text of a document: its pages' texts concatenated in page order. */
  function Concat(pages: seq<string>): string {
    if pages == [] then "" else Concat(pages[..|pages| - 1]) + pages[|pages| - 1]
  }

  /** Each page cleaned on its own. */
  function CleanEach(pages: seq<string>): seq<string> {
    seq(|pages|, i requires 0 <= i < |pages| => CleanText(pages[i]))
  }

  /** Cleaning the whole document is the same as cleaning each page and concatenating:
      no allowed character is lost or invented at a page boundary. */
  lemma {:induction false} CleanTextPagewise(pages: seq<string>)
    ensures CleanText(Concat(pages)) == Concat(CleanEach(pages))
  {
    if pages != [] {
      var front := pages[..|pages| - 1];
      CleanTextPagewise(front);
      CleanTextAppend(Concat(front), pages[|pages| - 1]);
      assert CleanEach(pages)[..|pages| - 1] == CleanEach(front);
    }
  }

  /** extract_text over page texts already produced by the PDF library: append every
      page's text in order, then clean the result. */
  method ExtractText(pages: seq<string>) returns (text: string)
    ensures text == CleanText(Concat(pages))
    ensures text == Concat(CleanEach(pages))
  {
    var raw := "";
    var i := 0;
    while i < |pages|
      invariant 0 <= i <= |pages|
      invariant raw == Concat(pages[..i])
    {
      assert pages[..i + 1][..i] == pages[..i];
      raw := raw + pages[i];
      i := i + 1;
    }
    assert pages[..i] == pages;
    text := CleanText(raw);
    CleanTextPagewise(pages);
  }
}
