/**
  The editor's document-settings panel (src/credibility-indicators-panel.js):
  one checkbox per catalog entry, checked from the post's stored flags merged
  over all-false defaults; a click writes the whole merged map back with one
  flag negated. The panel renders nothing outside posts.
 */
module Panel {
  import opened Values
  import opened Catalog
  import opened WordPress
  import MetaSchema
  import Render

  /** A post meta field as the editor receives it: a scalar, or an object of
      scalars (the shape the REST schema gives the flags). */
  datatype MetaField = Scalar(v: Value) | Object(fields: map<string, Value>)

  /** The post's `meta` object. */
  type Meta = map<string, MetaField>

  /** The only post type the panel appears on. */
  const PanelPostType := "post"

  /** `Object.fromEntries( new Map( catalog.map( ( { slug } ) => [ slug, false ] ) ) )` */
  function DefaultStatuses(c: seq<Indicator>): (d: map<string, Value>)
    ensures forall k :: k in d <==> exists i | 0 <= i < |c| :: c[i].slug == k
    ensures forall k | k in d :: d[k] == Bool(false)
  {
    if |c| == 0 then map[]
    else
      var init := c[..|c| - 1];
      assert forall i | 0 <= i < |init| :: init[i] == c[i];
      DefaultStatuses(init)[c[|c| - 1].slug := Bool(false)]
  }

  /** What `...meta.credibility_indicators` spreads: the stored object's own
      entries; spreading a missing, null, boolean or numeric value adds none. */
  function StoredStatuses(meta: Meta): map<string, Value> {
    if MetaSchema.MetaKey in meta && meta[MetaSchema.MetaKey].Object? then meta[MetaSchema.MetaKey].fields else map[]
  }

  /** `{ ...defaultIndicatorStatuses, ...meta.credibility_indicators }` */
  function Merge(c: seq<Indicator>, meta: Meta): (m: map<string, Value>)
    ensures forall k :: k in m <==> (exists i | 0 <= i < |c| :: c[i].slug == k) || k in StoredStatuses(meta)
    ensures forall k | k in StoredStatuses(meta) :: m[k] == StoredStatuses(meta)[k]
    ensures forall i | 0 <= i < |c| && c[i].slug !in StoredStatuses(meta) :: m[c[i].slug] == Bool(false)
  {
    DefaultStatuses(c) + StoredStatuses(meta)
  }

  /** A `CheckboxControl`: its key, its label and its `checked` value. */
  datatype Checkbox = Checkbox(key: string, name: string, checked: Value)

  /** The panel's checkboxes, one per catalog entry in catalog order. */
  function Checkboxes(c: seq<Indicator>, meta: Meta): (r: seq<Checkbox>)
    ensures |r| == |c|
    ensures forall i | 0 <= i < |c| ::
      && r[i].key == c[i].slug
      && r[i].name == c[i].name
      && r[i].checked == (if c[i].slug in StoredStatuses(meta) then StoredStatuses(meta)[c[i].slug] else Bool(false))
  {
    var merged := Merge(c, meta);
    seq(|c|, i requires 0 <= i < |c| => Checkbox(c[i].slug, c[i].name, merged[c[i].slug]))
  }

  /** `CredibilityIndicatorsPanel`: nothing (`null`) unless the post type is
      `post`. */
  function PanelView(postType: string, c: seq<Indicator>, meta: Meta): (r: Option<seq<Checkbox>>)
    ensures r.Some? <==> postType == "post"
    ensures r.Some? ==> r.value == Checkboxes(c, meta)
  {
    if postType in [PanelPostType] then Some(Checkboxes(c, meta)) else None
  }

  /** The `onChange` of checkbox `i`: the new `meta`, with every other meta
      key kept and the flags object replaced by the merged map in which the
      clicked slug's value is negated. */
  function OnChange(c: seq<Indicator>, meta: Meta, i: nat): (r: Meta)
    requires i < |c|
    ensures forall k | k != MetaSchema.MetaKey :: (k in r <==> k in meta) && (k in meta ==> r[k] == meta[k])
    ensures MetaSchema.MetaKey in r && r[MetaSchema.MetaKey].Object?
    ensures var written := r[MetaSchema.MetaKey].fields;
      var merged := Merge(c, meta);
      && (forall j | 0 <= j < |c| :: c[j].slug in written)
      && c[i].slug in merged
      && written[c[i].slug] == Bool(!JsTruthy(merged[c[i].slug]))
      && (forall k | k != c[i].slug :: (k in written <==> k in merged) && (k in written ==> written[k] == merged[k]))
  {
    var merged := Merge(c, meta);
    var slug := c[i].slug;
    meta[MetaSchema.MetaKey := Object(merged[slug := Bool(!JsTruthy(merged[slug]))])]
  }

  /** Flags that already name every catalog slug are what the merge yields. */
  lemma MergeOfComplete(c: seq<Indicator>, meta: Meta)
    requires forall j | 0 <= j < |c| :: c[j].slug in StoredStatuses(meta)
    ensures Merge(c, meta) == StoredStatuses(meta)
  {
    var m := Merge(c, meta);
    assert forall k :: k in m <==> k in StoredStatuses(meta);
  }

  /** Re-reading what the editor wrote gives the map it wrote: the merge is
      idempotent once the flags object holds every catalog slug. */
  lemma MergeIdempotent(c: seq<Indicator>, meta: Meta)
    ensures Merge(c, meta[MetaSchema.MetaKey := Object(Merge(c, meta))]) == Merge(c, meta)
  {
    var m := Merge(c, meta);
    var meta' := meta[MetaSchema.MetaKey := Object(m)];
    assert StoredStatuses(meta') == m;
    MergeOfComplete(c, meta');
  }

  /** Clicking the same checkbox twice writes back the merged map, with the
      clicked slug's value replaced by its truthiness. */
  lemma ToggleTwice(c: seq<Indicator>, meta: Meta, i: nat)
    requires i < |c|
    ensures var slug := c[i].slug;
      var merged := Merge(c, meta);
      OnChange(c, OnChange(c, meta, i), i)
        == meta[MetaSchema.MetaKey := Object(merged[slug := Bool(JsTruthy(merged[slug]))])]
  {
    var slug := c[i].slug;
    var merged := Merge(c, meta);
    var written := merged[slug := Bool(!JsTruthy(merged[slug]))];
    var once := meta[MetaSchema.MetaKey := Object(written)];
    assert OnChange(c, meta, i) == once;
    assert StoredStatuses(once) == written;
    MergeOfComplete(c, once);
    assert written[slug := Bool(JsTruthy(merged[slug]))] == merged[slug := Bool(JsTruthy(merged[slug]))];
  }

  /** When the stored value is a boolean, two clicks restore the merged map. */
  lemma ToggleTwiceRestores(c: seq<Indicator>, meta: Meta, i: nat)
    requires i < |c|
    requires Merge(c, meta)[c[i].slug].Bool?
    ensures OnChange(c, OnChange(c, meta, i), i) == meta[MetaSchema.MetaKey := Object(Merge(c, meta))]
    ensures Merge(c, OnChange(c, OnChange(c, meta, i), i)) == Merge(c, meta)
  {
    var merged := Merge(c, meta);
    ToggleTwice(c, meta, i);
    assert merged[c[i].slug := Bool(JsTruthy(merged[c[i].slug]))] == merged;
    MergeIdempotent(c, meta);
  }

  /** A run of the editor: the checkboxes clicked, in order. Outside posts
      the panel renders no checkbox, so nothing is written. */
  function EditSession(postType: string, c: seq<Indicator>, meta: Meta, clicks: seq<nat>): (r: Meta)
    requires forall j | 0 <= j < |clicks| :: clicks[j] < |c|
    ensures postType != "post" ==> r == meta
    ensures forall k | k != MetaSchema.MetaKey :: (k in r <==> k in meta) && (k in meta ==> r[k] == meta[k])
    ensures postType == "post" && |clicks| > 0 ==>
      && MetaSchema.MetaKey in r && r[MetaSchema.MetaKey].Object?
      && forall j | 0 <= j < |c| :: c[j].slug in r[MetaSchema.MetaKey].fields
    decreases |clicks|
  {
    if postType !in [PanelPostType] || |clicks| == 0 then meta
    else
      var next := OnChange(c, meta, clicks[0]);
      var r := EditSession(postType, c, next, clicks[1..]);
      if |clicks| == 1 then r
      else
        assert StoredStatuses(next) == next[MetaSchema.MetaKey].fields;
        r
  }

  /** After a click, the front end shows the clicked indicator exactly when
      its checkbox had been unchecked (for a `wp_validate_boolean` that hands
      booleans back unchanged). */
  lemma ToggleFlipsRenderedIndicator(wp: Wp, c: seq<Indicator>, meta: Meta, i: nat)
    requires i < |c|
    requires KeepsBooleans(wp)
    ensures Render.IsOn(wp, Some(StoredStatuses(OnChange(c, meta, i))), c[i].slug)
      == !JsTruthy(Checkboxes(c, meta)[i].checked)
  {
    var merged := Merge(c, meta);
    var flag := Bool(!JsTruthy(merged[c[i].slug]));
    assert StoredStatuses(OnChange(c, meta, i))[c[i].slug] == flag;
    assert Render.FlagOf(Some(StoredStatuses(OnChange(c, meta, i))), c[i].slug) == flag;
  }

  /** The schema's default object and the editor's default map agree: the
      catalog slugs, each false. */
  lemma SchemaDefaultsMatchEditorDefaults(c: seq<Indicator>)
    ensures forall k :: k in MetaSchema.MetaRegistration(c).default <==> k in DefaultStatuses(c)
    ensures forall k | k in DefaultStatuses(c) ::
      Bool(MetaSchema.MetaRegistration(c).default[k]) == DefaultStatuses(c)[k]
  {
  }
}
