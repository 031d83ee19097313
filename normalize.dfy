/** `normalize_article`: maps possibly missing provider fields to a record in
    which every field is present. */
module Normalize {
  import opened Articles
  import opened Text

  const NoHeadline := "No Headline"
  const NoLink := "#"
  const NoSummary := "No summary available."
  const PlaceholderImage := "https://via.placeholder.com/150"
  const MaxSummaryLength := 1000

  /** Python truthiness of an optional string: `None` and `""` are false. */
  predicate Truthy(x: Option<string>) {
    x.Some? && x.value != ""
  }

  /** Python's `x or default` on an optional string. */
  function Or(x: Option<string>, default: string): (r: string)
    ensures Truthy(x) ==> r == x.value
    ensures !Truthy(x) ==> r == default
  {
    if Truthy(x) then x.value else default
  }

  /** Python's slice `s[:n]`. */
  function Take(s: string, n: nat): (r: string)
    ensures |r| <= n && |r| <= |s| && r == s[..|r|]
    ensures |s| <= n ==> r == s
    ensures |s| > n ==> |r| == n
  {
    if |s| <= n then s else s[..n]
  }

  function NormalizeArticle(title: Option<string>, link: Option<string>, source: Option<string>,
                            summary: Option<string>, date: Option<string>, image: Option<string>): (r: Article)
    // a missing title becomes the placeholder headline, so the title is never empty
    ensures r.title != ""
    ensures Truthy(title) ==> r.title == title.value
    ensures !Truthy(title) ==> r.title == NoHeadline
    ensures Truthy(link) ==> r.link == link.value
    ensures !Truthy(link) ==> r.link == NoLink
    // the source is upper-cased, character by character, and is empty when missing
    ensures IsUpperCase(r.source)
    ensures |r.source| == |Or(source, "")|
    ensures forall i :: 0 <= i < |r.source| ==> r.source[i] == UpperChar(Or(source, "")[i])
    // the summary is a non-empty prefix of the input (or of the placeholder), at most 1000 long
    ensures r.summary != ""
    ensures |r.summary| <= MaxSummaryLength
    ensures StartsWith(Or(summary, NoSummary), r.summary)
    ensures |Or(summary, NoSummary)| <= MaxSummaryLength ==> r.summary == Or(summary, NoSummary)
    ensures |Or(summary, NoSummary)| > MaxSummaryLength ==> |r.summary| == MaxSummaryLength
    ensures Truthy(date) ==> r.publishedAt == date.value
    ensures !Truthy(date) ==> r.publishedAt == ""
    ensures Truthy(image) ==> r.image == image.value
    ensures !Truthy(image) ==> r.image == PlaceholderImage
    // no embedding yet
    ensures r.embedding == None
  {
    Article(
      Or(title, NoHeadline),
      Or(link, NoLink),
      Upper(Or(source, "")),
      Take(Or(summary, NoSummary), MaxSummaryLength),
      Or(date, ""),
      Or(image, PlaceholderImage),
      None)
  }

  /** Normalizing the fields of a normalized record gives the same record:
      defaults are fixed points, upper-casing is idempotent and the summary is
      already short enough. */
  lemma NormalizeIdempotent(title: Option<string>, link: Option<string>, source: Option<string>,
                            summary: Option<string>, date: Option<string>, image: Option<string>)
    ensures var r := NormalizeArticle(title, link, source, summary, date, image);
      NormalizeArticle(Some(r.title), Some(r.link), Some(r.source), Some(r.summary),
                       Some(r.publishedAt), Some(r.image)) == r
  {
    var r := NormalizeArticle(title, link, source, summary, date, image);
    UpperIdempotent(Or(source, ""));
    assert Or(Some(r.source), "") == r.source;
    assert Or(Some(r.publishedAt), "") == r.publishedAt;
  }

  /** An already upper-case source passes through unchanged. */
  lemma NormalizeKeepsUpperSource(title: Option<string>, link: Option<string>, source: string,
                                  summary: Option<string>, date: Option<string>, image: Option<string>)
    requires IsUpperCase(source)
    ensures NormalizeArticle(title, link, Some(source), summary, date, image).source == source
  {
    UpperOfUpperCase(source);
  }
}
