/**
  The front-end markup of the block (class-credibility-indicators.php,
  `render_block`): the indicators whose stored flag validates to true, in
  catalog order, each as a list item of the closed badge and as a table row
  of the open badge; nothing at all when no indicator is selected.

  The composition is modelled in two layers: `Compose` yields the selected
  fragments as data, `Serialize` writes them out as the source's markup, and
  the method `RenderBlock` is the source's loop, proved to produce exactly
  the serialised composition.
 */
module Render {
  import opened Values
  import opened Catalog
  import opened WordPress

  /** The tags and attributes an icon keeps (`$wp_kses_for_svgs`); `viewBox`
      is commented out in the source and so is not allowed. */
  const SvgAllowList: AllowList := map[
    "g" := {"fill", "fill-rule", "stroke", "stroke-linecap", "stroke-linejoin"},
    "path" := {"d", "fill", "fill-rule"},
    "svg" := {"height", "width", "xmlns"}
  ]

  /** Untranslated caption of the closed badge. */
  const BadgeTitle := "THE TRUST PROJECT"

  /** What `get_post_meta( id, 'credibility_indicators', true )` yields: an
      array of flags, or None when the post has no such meta (the source then
      gets '' and every lookup in it falls back to false). */
  type StoredFlags = Option<map<string, Value>>

  /** `$selected_indicators[ $slug ] ?? false`: a missing or null entry reads
      as false. */
  function FlagOf(stored: StoredFlags, slug: string): (v: Value)
    ensures v != Null
    ensures stored.Some? && slug in stored.value && stored.value[slug] != Null ==> v == stored.value[slug]
    ensures stored.None? || slug !in stored.value || stored.value[slug] == Null ==> v == Bool(false)
  {
    match stored
    case Some(m) => if slug in m && m[slug] != Null then m[slug] else Bool(false)
    case None => Bool(false)
  }

  /** Whether the indicator with `slug` is asserted for the post. */
  predicate IsOn(wp: Wp, stored: StoredFlags, slug: string) {
    wp.validateBoolean(FlagOf(stored, slug))
  }

  /** The catalog entries that are on, in catalog order. */
  function Selected(wp: Wp, c: seq<Indicator>, stored: StoredFlags): (r: seq<Indicator>)
    ensures |r| <= |c|
    ensures forall x | x in r :: x in c && IsOn(wp, stored, x.slug)
    ensures forall i | 0 <= i < |c| && IsOn(wp, stored, c[i].slug) :: c[i] in r
    decreases |c|
  {
    if |c| == 0 then []
    else
      var last := c[|c| - 1];
      var r := Selected(wp, c[..|c| - 1], stored);
      assert forall i | 0 <= i < |c| - 1 :: c[i] == c[..|c| - 1][i];
      if IsOn(wp, stored, last.slug) then r + [last] else r
  }

  /** Appending an entry to the catalog appends it to the selection when,
      and only when, it is on. */
  lemma SelectedSnoc(wp: Wp, c: seq<Indicator>, x: Indicator, stored: StoredFlags)
    ensures Selected(wp, c + [x], stored) == Selected(wp, c, stored) + (if IsOn(wp, stored, x.slug) then [x] else [])
  {
    assert (c + [x])[..|c|] == c;
  }

  /** Selection distributes over concatenation of catalogs: an entry's place
      in the output follows its place in the catalog. */
  lemma {:induction false} SelectedConcat(wp: Wp, a: seq<Indicator>, b: seq<Indicator>, stored: StoredFlags)
    ensures Selected(wp, a + b, stored) == Selected(wp, a, stored) + Selected(wp, b, stored)
    decreases |b|
  {
    if |b| == 0 {
      assert a + b == a;
    } else {
      var b' := b[..|b| - 1];
      var last := b[|b| - 1];
      var tail := if IsOn(wp, stored, last.slug) then [last] else [];
      assert b == b' + [last];
      assert a + b == (a + b') + [last];
      calc {
        Selected(wp, a + b, stored);
      == { SelectedSnoc(wp, a + b', last, stored); }
        Selected(wp, a + b', stored) + tail;
      == { SelectedConcat(wp, a, b', stored); }
        (Selected(wp, a, stored) + Selected(wp, b', stored)) + tail;
      ==
        Selected(wp, a, stored) + (Selected(wp, b', stored) + tail);
      == { SelectedSnoc(wp, b', last, stored); }
        Selected(wp, a, stored) + Selected(wp, b, stored);
      }
    }
  }

  /** Selection reads the flags of catalog slugs and nothing else. */
  lemma {:induction false} SelectedSameFlags(wp: Wp, c: seq<Indicator>, s1: StoredFlags, s2: StoredFlags)
    requires forall i | 0 <= i < |c| :: IsOn(wp, s1, c[i].slug) == IsOn(wp, s2, c[i].slug)
    ensures Selected(wp, c, s1) == Selected(wp, c, s2)
    decreases |c|
  {
    if |c| > 0 {
      var init := c[..|c| - 1];
      assert forall i | 0 <= i < |init| :: init[i] == c[i];
      SelectedSameFlags(wp, init, s1, s2);
    }
  }

  /** A closed-badge list item: sanitised icon, escaped name. */
  datatype ClosedItem = ClosedItem(icon: string, name: string)

  /** An open-badge table row: sanitised icon, escaped name and description. */
  datatype OpenRow = OpenRow(icon: string, name: string, description: string)

  /** The composed block: nothing, or both fragments and the caption. */
  datatype Badge = NoBadge | Badge(closed: seq<ClosedItem>, open: seq<OpenRow>, title: string)

  function ClosedItemOf(wp: Wp, ind: Indicator): ClosedItem {
    ClosedItem(wp.kses(ind.icon, SvgAllowList), wp.escHtml(ind.name))
  }

  function OpenRowOf(wp: Wp, ind: Indicator): OpenRow {
    OpenRow(wp.kses(ind.icon, SvgAllowList), wp.escHtml(ind.name), wp.escHtml(ind.description))
  }

  function ClosedItems(wp: Wp, sel: seq<Indicator>): (r: seq<ClosedItem>)
    ensures |r| == |sel|
    ensures forall i | 0 <= i < |sel| :: r[i] == ClosedItemOf(wp, sel[i])
  {
    if |sel| == 0 then [] else ClosedItems(wp, sel[..|sel| - 1]) + [ClosedItemOf(wp, sel[|sel| - 1])]
  }

  function OpenRows(wp: Wp, sel: seq<Indicator>): (r: seq<OpenRow>)
    ensures |r| == |sel|
    ensures forall i | 0 <= i < |sel| :: r[i] == OpenRowOf(wp, sel[i])
  {
    if |sel| == 0 then [] else OpenRows(wp, sel[..|sel| - 1]) + [OpenRowOf(wp, sel[|sel| - 1])]
  }

  /** The block's content for catalog `c` and the post's flags `stored`. */
  function Compose(wp: Wp, c: seq<Indicator>, stored: StoredFlags): (b: Badge)
    ensures b.NoBadge? <==> forall i | 0 <= i < |c| :: !IsOn(wp, stored, c[i].slug)
    ensures b.Badge? ==>
      var sel := Selected(wp, c, stored);
      && |b.closed| == |sel| && |b.open| == |sel|
      && (forall i | 0 <= i < |sel| :: b.closed[i] == ClosedItemOf(wp, sel[i]) && b.open[i] == OpenRowOf(wp, sel[i]))
      && b.title == wp.translate(BadgeTitle, TextDomain)
  {
    var sel := Selected(wp, c, stored);
    if |sel| == 0 then NoBadge
    else Badge(ClosedItems(wp, sel), OpenRows(wp, sel), wp.translate(BadgeTitle, TextDomain))
  }

  /** The two fragments show the same icon and name for each entry, and
      every icon shown is the sanitised icon of a catalog entry that is on. */
  lemma FragmentsAgree(wp: Wp, c: seq<Indicator>, stored: StoredFlags, i: nat)
    requires Compose(wp, c, stored).Badge?
    requires i < |Compose(wp, c, stored).closed|
    ensures var b := Compose(wp, c, stored);
      && i < |b.open|
      && b.closed[i].icon == b.open[i].icon
      && b.closed[i].name == b.open[i].name
      && exists j | 0 <= j < |c| :: IsOn(wp, stored, c[j].slug) && b.closed[i].icon == wp.kses(c[j].icon, SvgAllowList)
  {
    var sel := Selected(wp, c, stored);
    assert sel[i] in sel;
    var j :| 0 <= j < |c| && c[j] == sel[i];
  }

  /** Flags stored under keys that no catalog entry carries do not change
      the block. */
  lemma UnknownFlagIgnored(wp: Wp, c: seq<Indicator>, m: map<string, Value>, k: string, v: Value)
    requires forall i | 0 <= i < |c| :: c[i].slug != k
    ensures Compose(wp, c, Some(m[k := v])) == Compose(wp, c, Some(m))
  {
    SelectedSameFlags(wp, c, Some(m[k := v]), Some(m));
  }

  /** With no stored meta, or flags under other keys only, nothing renders. */
  lemma MissingFlagsRenderNothing(wp: Wp, c: seq<Indicator>, m: map<string, Value>)
    requires !wp.validateBoolean(Bool(false))
    requires forall i | 0 <= i < |c| :: c[i].slug !in m
    ensures Compose(wp, c, None) == NoBadge
    ensures Compose(wp, c, Some(m)) == NoBadge
  {
    assert forall i | 0 <= i < |c| :: FlagOf(Some(m), c[i].slug) == Bool(false);
  }

  /** A one-entry catalog: nothing renders without a flag, or with a flag
      under an obsolete key only; a true flag renders the entry once in each
      fragment. */
  lemma SingleIndicatorScenario(wp: Wp, ind: Indicator)
    requires ind.slug == OriginalReporting
    requires KeepsBooleans(wp)
    ensures Compose(wp, [ind], Some(map[])) == NoBadge
    ensures Compose(wp, [ind], Some(map["legacy_slug" := Bool(true)])) == NoBadge
    ensures Compose(wp, [ind], Some(map[OriginalReporting := Bool(true)]))
      == Badge([ClosedItemOf(wp, ind)], [OpenRowOf(wp, ind)], wp.translate(BadgeTitle, TextDomain))
  {
    assert [ind][..0] == [];
    assert "legacy_slug" != OriginalReporting;
  }

  // ----- serialisation -----

  const OpenIconCell := "\n<td class=\"credibility-indicators__open__icon\">"
  const OpenLabelCell := "</td>\n<td class=\"credibility-indicators__open__label\">"
  const OpenDescriptionCell := "</td>\n<td class=\"credibility-indicators__open__description\">"
  const OpenRowEnd := "</td>\n\t\t\t"

  /** `'<li>'`, then `sprintf( '%2$s <span>%1$s</span>', name, icon )`, then
      `'</li>'`: one list element, the icon ahead of the spanned name. */
  function ItemMarkup(item: ClosedItem): (s: string)
    ensures |s| == |item.icon| + |item.name| + 23
    ensures s[..4] == "<li>" && s[4..4 + |item.icon|] == item.icon
    ensures s[|s| - 12..] == "</span></li>"
    ensures s[|s| - 12 - |item.name|..|s| - 12] == item.name
  {
    "<li>" + (item.icon + " <span>" + item.name + "</span>") + "</li>"
  }

  /** `'<tr>'`, then the three-cell row template, then `'</tr>'`: one table
      row whose first cell holds the icon. */
  function RowMarkup(row: OpenRow): (s: string)
    ensures |s| == 4 + |OpenIconCell| + |row.icon| + |OpenLabelCell| + |row.name| + |OpenDescriptionCell| + |row.description| + |OpenRowEnd| + 5
    ensures s[..4] == "<tr>" && s[4..4 + |OpenIconCell|] == OpenIconCell
    ensures s[4 + |OpenIconCell|..4 + |OpenIconCell| + |row.icon|] == row.icon
    ensures s[|s| - 5..] == "</tr>"
  {
    "<tr>" + (OpenIconCell + row.icon + OpenLabelCell + row.name + OpenDescriptionCell + row.description + OpenRowEnd) + "</tr>"
  }

  function ClosedMarkup(items: seq<ClosedItem>): (s: string)
    ensures PhpEmpty(s) <==> |items| == 0
  {
    if |items| == 0 then "" else ClosedMarkup(items[..|items| - 1]) + ItemMarkup(items[|items| - 1])
  }

  function OpenMarkup(rows: seq<OpenRow>): (s: string)
    ensures PhpEmpty(s) <==> |rows| == 0
  {
    if |rows| == 0 then "" else OpenMarkup(rows[..|rows| - 1]) + RowMarkup(rows[|rows| - 1])
  }

  /** The heredoc wrapping both fragments, cut at its three interpolations:
      the closed section (its list, then its caption) comes first, the open
      section (its table) second. */
  const WrapperHead := "<div class=\"credibility-indicators__wrapper\">\n\t<div class=\"credibility-indicators__closed\">\n\t\t<ul>"
  const CaptionHead := "</ul>\n\t\t<h4 class=\"credibility-indicators__closed__label\">"
  const OpenSectionHead := "</h4>\n\t</div>\n\t<div class=\"credibility-indicators__open\">\n\t\t<table>"
  const WrapperTail := "</table>\n\t</div>\n</div>"

  function WrapperMarkup(closedMarkup: string, openMarkup: string, title: string): (s: string)
    ensures |s| == |WrapperHead| + |closedMarkup| + |CaptionHead| + |title| + |OpenSectionHead| + |openMarkup| + |WrapperTail|
    ensures s[..|WrapperHead|] == WrapperHead
    ensures s[|WrapperHead|..|WrapperHead| + |closedMarkup|] == closedMarkup
    ensures s[|s| - |WrapperTail|..] == WrapperTail
    ensures s[|s| - |WrapperTail| - |openMarkup|..|s| - |WrapperTail|] == openMarkup
  {
    WrapperHead + closedMarkup + CaptionHead + title + OpenSectionHead + openMarkup + WrapperTail
  }

  /** The markup of a composed block; the empty string stands for nothing. */
  function Serialize(b: Badge): (html: string)
    ensures html == "" <==> b.NoBadge?
  {
    match b
    case NoBadge => ""
    case Badge(closed, open, title) =>
      var html := WrapperMarkup(ClosedMarkup(closed), OpenMarkup(open), title);
      assert |html| > 0;
      html
  }

  /** The closed list and the open table of catalog `c`, as markup. */
  function ClosedMarkupOf(wp: Wp, c: seq<Indicator>, stored: StoredFlags): string {
    ClosedMarkup(ClosedItems(wp, Selected(wp, c, stored)))
  }

  function OpenMarkupOf(wp: Wp, c: seq<Indicator>, stored: StoredFlags): string {
    OpenMarkup(OpenRows(wp, Selected(wp, c, stored)))
  }

  /** One pass of the render loop: the markup grows by one item and one row
      exactly when the next catalog entry is on. */
  lemma RenderStep(wp: Wp, c: seq<Indicator>, k: nat, stored: StoredFlags)
    requires k < |c|
    ensures IsOn(wp, stored, c[k].slug) ==>
      && ClosedMarkupOf(wp, c[..k + 1], stored) == ClosedMarkupOf(wp, c[..k], stored) + ItemMarkup(ClosedItemOf(wp, c[k]))
      && OpenMarkupOf(wp, c[..k + 1], stored) == OpenMarkupOf(wp, c[..k], stored) + RowMarkup(OpenRowOf(wp, c[k]))
    ensures !IsOn(wp, stored, c[k].slug) ==>
      && ClosedMarkupOf(wp, c[..k + 1], stored) == ClosedMarkupOf(wp, c[..k], stored)
      && OpenMarkupOf(wp, c[..k + 1], stored) == OpenMarkupOf(wp, c[..k], stored)
  {
    var sel := Selected(wp, c[..k], stored);
    assert c[..k + 1][..k] == c[..k];
    if IsOn(wp, stored, c[k].slug) {
      var next := sel + [c[k]];
      assert next[..|next| - 1] == sel;
      var items := ClosedItems(wp, next);
      assert items[..|items| - 1] == ClosedItems(wp, sel);
      var rows := OpenRows(wp, next);
      assert rows[..|rows| - 1] == OpenRows(wp, sel);
    }
  }

  /** The serialised composition, spelled out in terms of the selection. */
  lemma ComposeMarkup(wp: Wp, c: seq<Indicator>, stored: StoredFlags)
    ensures var sel := Selected(wp, c, stored);
      var closedMarkup := ClosedMarkup(ClosedItems(wp, sel));
      var openMarkup := OpenMarkup(OpenRows(wp, sel));
      && (PhpEmpty(closedMarkup) <==> |sel| == 0)
      && (PhpEmpty(openMarkup) <==> |sel| == 0)
      && Serialize(Compose(wp, c, stored))
         == if |sel| == 0 then "" else WrapperMarkup(closedMarkup, openMarkup, wp.translate(BadgeTitle, TextDomain))
  {
    var sel := Selected(wp, c, stored);
    if |sel| == 0 {
      assert Compose(wp, c, stored) == NoBadge;
    } else {
      assert Compose(wp, c, stored) == Badge(ClosedItems(wp, sel), OpenRows(wp, sel), wp.translate(BadgeTitle, TextDomain));
    }
  }

  /** The loop of `render_block`: one list item and one table row appended
      per selected indicator, in catalog order. */
  method AccumulateMarkup(wp: Wp, catalog: seq<Indicator>, stored: StoredFlags) returns (closedMarkup: string, openMarkup: string)
    ensures closedMarkup == ClosedMarkupOf(wp, catalog, stored)
    ensures openMarkup == OpenMarkupOf(wp, catalog, stored)
  {
    closedMarkup := "";
    openMarkup := "";
    var k := 0;
    while k < |catalog|
      invariant 0 <= k <= |catalog|
      invariant closedMarkup == ClosedMarkupOf(wp, catalog[..k], stored)
      invariant openMarkup == OpenMarkupOf(wp, catalog[..k], stored)
    {
      var ind := catalog[k];
      RenderStep(wp, catalog, k, stored);
      if IsOn(wp, stored, ind.slug) {
        closedMarkup := closedMarkup + ItemMarkup(ClosedItemOf(wp, ind));
        openMarkup := openMarkup + RowMarkup(OpenRowOf(wp, ind));
      }
      k := k + 1;
    }
    assert catalog[..k] == catalog;
  }

  /** The body of `render_block` for a given catalog: the loop, then the
      emptiness test and the wrapper. */
  method RenderMarkup(wp: Wp, catalog: seq<Indicator>, stored: StoredFlags) returns (html: string)
    ensures html == "" <==> forall i | 0 <= i < |catalog| :: !IsOn(wp, stored, catalog[i].slug)
    ensures html == Serialize(Compose(wp, catalog, stored))
  {
    var closedMarkup, openMarkup := AccumulateMarkup(wp, catalog, stored);
    ComposeMarkup(wp, catalog, stored);
    if PhpEmpty(closedMarkup) || PhpEmpty(openMarkup) {
      return "";
    }
    html := WrapperMarkup(closedMarkup, openMarkup, wp.translate(BadgeTitle, TextDomain));
  }

  /** `render_block`: the markup for the filtered catalog and the post's
      stored flags. */
  method RenderBlock(wp: Wp, stored: StoredFlags) returns (html: string)
    ensures html == "" <==> forall i | 0 <= i < |GetIndicators(wp)| :: !IsOn(wp, stored, GetIndicators(wp)[i].slug)
    ensures html == Serialize(Compose(wp, GetIndicators(wp), stored))
  {
    html := RenderMarkup(wp, GetIndicators(wp), stored);
  }
}
