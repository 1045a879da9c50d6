/**
  The indicator catalog: the ordered list of credibility indicators an editor
  may assert for a post, and lookups into it
  (class-credibility-indicators.php, `get_indicators` and `get_indicator`).
 */
module Catalog {
  import opened Values

  /** One catalog entry (`name` is the source's `label`). The source's
      entries are associative arrays with these four keys; the icon is an
      opaque SVG document read from the plugin's assets. */
  datatype Indicator = Indicator(description: string, name: string, slug: string, icon: string)

  /** Text domain of every translated string of the plugin. */
  const TextDomain := "credibility-indicators"

  const OriginalReporting := "original_reporting"
  const OnTheGround := "on_the_ground"
  const SourcesCited := "sources_cited"
  const SubjectSpecialist := "subject_specialist"

  /** Untranslated descriptions of the shipped indicators. */
  const OriginalReportingText := "This article contains firsthand information gathered by reporters. This includes directly interviewing sources and analyzing primary source documents."
  const OnTheGroundText := "A journalist was physically present to report the article from some or all of the locations it concerns."
  const SourcesCitedText := "This article includes a list of source material, including documents and people, so you can follow the story further."
  const SubjectSpecialistText := "The journalist and/or newsroom have/has a deep knowledge of the topic, location or community group covered in this article."

  function Slugs(c: seq<Indicator>): (r: seq<string>)
    ensures |r| == |c|
    ensures forall i | 0 <= i < |c| :: r[i] == c[i].slug
  {
    seq(|c|, i requires 0 <= i < |c| => c[i].slug)
  }

  predicate DistinctSlugs(c: seq<Indicator>) {
    forall i, j | 0 <= i < j < |c| :: c[i].slug != c[j].slug
  }

  /** The slugs of the shipped catalog, in order. */
  const ShippedSlugs := [OriginalReporting, OnTheGround, SourcesCited, SubjectSpecialist]

  lemma ShippedSlugsDistinct()
    ensures forall i, j | 0 <= i < j < |ShippedSlugs| :: ShippedSlugs[i] != ShippedSlugs[j]
  {
    assert OriginalReporting[1] == 'r' && OnTheGround[1] == 'n';
    assert SourcesCited[1] == 'o' && SubjectSpecialist[1] == 'u';
  }

  /** The four indicators the plugin ships, before any filter runs.
      `translate(text, domain)` stands for `__`, `svgAsset(path)` for reading
      a file of the plugin. The third description names the text domain
      "sources-cited.svg", as the source does. */
  function DefaultIndicators(translate: (string, string) -> string, svgAsset: string -> string): (c: seq<Indicator>)
    ensures |c| == 4
    ensures Slugs(c) == ShippedSlugs
    ensures DistinctSlugs(c)
  {
    var c := [
      Indicator(
        translate(OriginalReportingText, TextDomain),
        translate("Original Reporting", TextDomain),
        OriginalReporting,
        svgAsset("/assets/svg/original-reporting.svg")),
      Indicator(
        translate(OnTheGroundText, TextDomain),
        translate("On the Ground", TextDomain),
        OnTheGround,
        svgAsset("/assets/svg/on-the-ground.svg")),
      Indicator(
        translate(SourcesCitedText, "sources-cited.svg"),
        translate("References", TextDomain),
        SourcesCited,
        svgAsset("/assets/svg/sources-cited.svg")),
      Indicator(
        translate(SubjectSpecialistText, TextDomain),
        translate("Subject Specialist", TextDomain),
        SubjectSpecialist,
        svgAsset("/assets/svg/subject-specialist.svg"))
    ];
    assert forall k | 0 <= k < 4 :: c[k].slug == ShippedSlugs[k];
    assert Slugs(c) == ShippedSlugs;
    ShippedSlugsDistinct();
    c
  }

  /** `get_indicator($key)` as written: the catalog is a list, so the key
      is a PHP array subscript and only a decimal position finds an entry. */
  function GetIndicator(c: seq<Indicator>, key: string): (r: Option<Indicator>)
    ensures r.Some? <==> exists i: nat | i < |c| && i <= PhpIntMax :: key == Decimal(i)
    ensures forall i: nat | i < |c| && i <= PhpIntMax && key == Decimal(i) :: r == Some(c[i])
  {
    match ListIndexKey(key)
    case Some(n) =>
      if n < |c| then
        assert exists i: nat | i < |c| && i <= PhpIntMax :: key == Decimal(i) by {
          assert n < |c| && n <= PhpIntMax && key == Decimal(n);
        }
        Some(c[n])
      else None
    case None => None
  }

  /** `get_indicator` is documented as getting a single indicator by key,
      and its key is a string; every key the catalog gives its entries is a
      slug. This is that lookup: the first entry carrying `slug`. */
  function FindBySlug(c: seq<Indicator>, slug: string): (r: Option<Indicator>)
    ensures r.Some? <==> exists i | 0 <= i < |c| :: c[i].slug == slug
    ensures r.Some? ==> r.value in c && r.value.slug == slug
    ensures r.Some? ==> exists i | 0 <= i < |c| ::
      r.value == c[i] && c[i].slug == slug && forall j | 0 <= j < i :: c[j].slug != slug
    ensures DistinctSlugs(c) ==> forall i | 0 <= i < |c| && c[i].slug == slug :: r == Some(c[i])
  {
    if |c| == 0 then None
    else if c[0].slug == slug then Some(c[0])
    else
      var r := FindBySlug(c[1..], slug);
      assert forall i | 1 <= i < |c| :: c[i] == c[1..][i - 1];
      r
  }

  /** A key that does not start with a digit (every slug of the shipped
      catalog, and the default argument '') never finds an entry. */
  lemma NonNumericKeyMisses(c: seq<Indicator>, key: string)
    requires |key| == 0 || !IsDigit(key[0])
    ensures GetIndicator(c, key) == None
  {
    assert !CanonicalDecimal(key);
  }

  /** Slugs that start with a letter are never found by `get_indicator`,
      though a slug lookup finds every entry of a catalog with distinct slugs. */
  lemma LetterSlugsMiss(c: seq<Indicator>)
    requires forall i | 0 <= i < |c| :: |c[i].slug| > 0 && !IsDigit(c[i].slug[0])
    requires DistinctSlugs(c)
    ensures GetIndicator(c, "") == None
    ensures forall i | 0 <= i < |c| :: GetIndicator(c, c[i].slug) == None && FindBySlug(c, c[i].slug) == Some(c[i])
  {
    NonNumericKeyMisses(c, "");
    forall i | 0 <= i < |c| ensures GetIndicator(c, c[i].slug) == None {
      NonNumericKeyMisses(c, c[i].slug);
    }
  }

  /** The shipped catalog, in particular. */
  lemma SlugLookupMisses(translate: (string, string) -> string, svgAsset: string -> string)
    ensures var c := DefaultIndicators(translate, svgAsset);
      && GetIndicator(c, "") == None
      && forall i | 0 <= i < |c| :: GetIndicator(c, c[i].slug) == None && FindBySlug(c, c[i].slug) == Some(c[i])
  {
    var c := DefaultIndicators(translate, svgAsset);
    assert forall k | 0 <= k < 4 :: c[k].slug == ShippedSlugs[k];
    assert OriginalReporting[0] == 'o' && OnTheGround[0] == 'o';
    assert SourcesCited[0] == 's' && SubjectSpecialist[0] == 's';
    LetterSlugsMiss(c);
  }
}
