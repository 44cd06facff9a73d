/** The document preview of the analytics view (app.py): the first 500 characters of
    the cleaned text followed by "...". Python's slice text[:500] takes the whole
    text when it is shorter. */
module Analytics {

  /** How many characters of the document the preview shows. */
  const PreviewLength: nat := 500

  const Ellipsis: string := "..."

  function Preview(text: string): (r: string)
    ensures |r| >= |Ellipsis| && r[|r| - |Ellipsis|..] == Ellipsis
    ensures r[..|r| - |Ellipsis|] <= text
    ensures |text| <= PreviewLength ==> r == text + Ellipsis
    ensures |text| > PreviewLength ==> |r| == PreviewLength + |Ellipsis|
  {
    text[..if |text| < PreviewLength then |text| else PreviewLength] + Ellipsis
  }

  /** Only the first 500 characters matter: what follows them never reaches the preview. */
  lemma PreviewIgnoresTail(text: string, more: string)
    requires |text| >= PreviewLength
    ensures Preview(text + more) == Preview(text)
  {
  }
}
