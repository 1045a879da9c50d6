# Credibility Indicators — a Dafny model

This project models the core of the Credibility Indicators WordPress plugin. Editors mark
a post with credibility indicators ("Original Reporting", "On the Ground", "References",
"Subject Specialist"), and the plugin renders a badge on the published page. There are
three pieces of logic, and each gets its own modules.

- **The catalog and the stored flags** (`class-credibility-indicators.php`).
  - `Catalog` holds the ordered indicator catalog, the shipped defaults and both lookups.
  - `MetaSchema` holds the post-meta registration. It gives every catalog slug a boolean
    schema property and a false default.
- **The render-time composer** (`render_block`), in `Render`.
  - A catalog entry is selected when its stored flag passes `wp_validate_boolean`. A
    missing or null flag counts as false.
  - Each selected entry, in catalog order, becomes one list item of the closed badge and
    one table row of the open badge.
  - No selection means the empty string. Otherwise the output is a fixed wrapper: the
    closed section (its list, then the "THE TRUST PROJECT" caption), then the open
    section (its table).
  - `Compose` builds the fragments as data and `Serialize` writes them as the source's
    markup. The loop methods `AccumulateMarkup`, `RenderMarkup` and `RenderBlock` are
    proved to produce exactly the serialised composition.
- **The editor panel** (`src/credibility-indicators-panel.js`), in `Panel`.
  - The panel starts from a map of all-false defaults, one per catalog slug, and spreads
    the stored flags over it.
  - It shows one checkbox per catalog entry.
  - A click writes the whole merged map back with one value negated. Every other meta key
    is kept.
  - The panel renders nothing outside the `post` post type.
- **The front-end disclosure toggle** (`src/frontend.js`), in `Frontend`.
  - A click on a badge's closed section suppresses the event's default action.
  - It flips the inline `display` of that badge's open section only.

WordPress functions whose code is not part of this model are fields of the `WordPress.Wp`
record. Each is an uninterpreted total function:
- `__` (translation)
- `esc_html`
- `wp_kses`
- `wp_validate_boolean`
- `apply_filters`
- reading an asset file

Stored meta, the post type and the page's badges are parameters.

Two places where the plugin's own descriptions and its code differ. The model follows the
code in both:
- The merged editor state keeps stored keys that are not catalog slugs. The object spread
  does not drop them. Rendering ignores them, because it iterates over the catalog.
- The click handler is documented as toggling the display (src/frontend.js:17), but the
  first click on a freshly loaded badge writes `display: none`. It does not show the open
  section. See Findings.

## Model

| member | source | states |
|---|---|---|
| `Catalog.DefaultIndicators` | class-credibility-indicators.php:21-47 | the shipped catalog has four entries with the distinct slugs original_reporting, on_the_ground, sources_cited, subject_specialist, in that order |
| `WordPress.GetIndicators` | class-credibility-indicators.php:21-50 | the catalog every other part reads is the shipped catalog passed once through the `credibility_indicators\\indicators` filter, whose result is taken as a list of entries |
| `Catalog.Slugs` | class-credibility-indicators.php:84 | the plucked slug list has one slug per catalog entry, the i-th being the i-th entry's slug |
| `Catalog.ShippedSlugsDistinct` | class-credibility-indicators.php:26-44 | no two shipped slugs are equal |
| `Values.ListIndexKey` | class-credibility-indicators.php:59 | a string subscript names list position n exactly when it is n's canonical decimal numeral within PHP's integer range |
| `Catalog.GetIndicator` | class-credibility-indicators.php:58-60 | `get_indicator` finds an entry exactly when the key is the decimal position of an entry, and then returns that entry |
| `Catalog.NonNumericKeyMisses` | class-credibility-indicators.php:58-60 | a key that is empty or does not start with a digit yields null |
| `Catalog.LetterSlugsMiss` | class-credibility-indicators.php:58-60 | in a catalog with distinct slugs that start with letters, `get_indicator` finds no entry by its slug, while a slug lookup finds every entry |
| `Catalog.SlugLookupMisses` | class-credibility-indicators.php:21-60 | on the shipped catalog, '' and every slug yield null through `get_indicator`, while a slug lookup finds each entry |
| `Catalog.FindBySlug` | class-credibility-indicators.php:52-60 | corrected lookup: finds an entry exactly when some entry carries the slug; with distinct slugs it is that entry |
| `MetaSchema.ReduceProperties` | class-credibility-indicators.php:86-97 | the fold's keys are the carried keys plus the slugs; every slug maps to type 'boolean' with default 'false'; other carried entries are kept |
| `MetaSchema.ReduceDefaults` | class-credibility-indicators.php:99-107 | the fold's keys are the carried keys plus the slugs; every slug maps to false; other carried entries are kept |
| `MetaSchema.MetaRegistration` | class-credibility-indicators.php:81-126 | the registered schema's properties and default have exactly the catalog slugs as keys; each property is boolean with the string default 'false'; each default is false |
| `MetaSchema.RegisterMeta` | class-credibility-indicators.php:81-126 | the registration is made under the meta key `credibility_indicators`, and its schema properties and its default object are keyed by exactly the slugs of the filtered catalog |
| `Render.FlagOf` | class-credibility-indicators.php:188 | `?? false`: a flag that is stored and not null is read as stored; a missing flag, a null flag or absent meta reads as false, so the value read is never null |
| `Render.IsOn` | class-credibility-indicators.php:188-193 | an entry is selected exactly when `wp_validate_boolean` accepts the flag read for its slug |
| `Render.Selected` | class-credibility-indicators.php:179-193 | the selection holds only catalog entries whose flag validates to true, and holds every such entry |
| `Render.SelectedSnoc` | class-credibility-indicators.php:180-193 | appending an entry to the catalog appends it to the selection exactly when its flag validates to true |
| `Render.SelectedConcat` | class-credibility-indicators.php:180-193 | selecting from concatenated catalogs concatenates the selections, so the output keeps catalog order |
| `Render.SelectedSameFlags` | class-credibility-indicators.php:180-188 | two flag maps that agree on every catalog slug select the same entries |
| `Render.Compose` | class-credibility-indicators.php:179-236 | nothing is composed exactly when no catalog flag validates to true; otherwise the list items and the table rows match the selection one to one, in order; the caption is the translated title |
| `Render.FragmentsAgree` | class-credibility-indicators.php:200-227 | the i-th list item and the i-th table row show the same icon and name; every icon shown is the SVG-allowlist sanitisation of the icon of a catalog entry whose flag is on |
| `Render.UnknownFlagIgnored` | class-credibility-indicators.php:180-188 | a flag under a key that no catalog entry carries does not change the output |
| `Render.MissingFlagsRenderNothing` | class-credibility-indicators.php:187-193 | with no stored meta, or no flag for any catalog slug, nothing renders, given that `wp_validate_boolean(false)` is false |
| `Render.SingleIndicatorScenario` | class-credibility-indicators.php:180-236 | for a one-entry catalog: no flags or only an obsolete flag give nothing; a true flag gives exactly one item and one row for the entry |
| `Render.ItemMarkup` | class-credibility-indicators.php:200-206 | a list item is one `<li>` element: the icon right after the opening tag, the name right before the closing `</span></li>`, and 23 characters of template around the two |
| `Render.RowMarkup` | class-credibility-indicators.php:213-227 | a table row is one `<tr>` element whose first cell opens right after the tag and starts with the icon; its length is the template's plus the three values' |
| `Render.WrapperMarkup` | class-credibility-indicators.php:240-250 | the wrapper starts with the wrapper and list heads followed by the closed markup, and ends with the open markup followed by the table and wrapper tails; its length is the template's plus the two markups' and the caption's |
| `Render.ClosedMarkup` | class-credibility-indicators.php:200-206 | the closed list markup is PHP-empty exactly when there are no items |
| `Render.OpenMarkup` | class-credibility-indicators.php:213-227 | the open table markup is PHP-empty exactly when there are no rows |
| `Render.Serialize` | class-credibility-indicators.php:230-250 | the markup is the empty string exactly when nothing was composed |
| `Render.RenderStep` | class-credibility-indicators.php:180-228 | one pass of the loop appends one item and one row exactly when the entry's flag validates to true, and nothing otherwise |
| `Render.ComposeMarkup` | class-credibility-indicators.php:230-250 | the two markups are PHP-empty exactly when the selection is empty; the serialised composition is '' then, and otherwise the wrapper around both markups |
| `Render.AccumulateMarkup` | class-credibility-indicators.php:179-228 | the loop builds the closed list and the open table of the selected entries, in catalog order |
| `Render.RenderMarkup` | class-credibility-indicators.php:149-251 | the block's markup is '' exactly when no catalog flag validates to true, and equals the serialised composition |
| `Render.RenderBlock` | class-credibility-indicators.php:149-152 | the same, for the catalog returned by `get_indicators` |
| `Panel.DefaultStatuses` | src/credibility-indicators-panel.js:38-43 | the default map's keys are exactly the catalog slugs, each mapped to false |
| `Panel.StoredStatuses` | src/credibility-indicators-panel.js:50 | spreading the post's `credibility_indicators` meta contributes the stored object's entries, and nothing when the meta is missing or not an object |
| `Panel.Merge` | src/credibility-indicators-panel.js:45-51 | the merged keys are the catalog slugs plus the stored keys; a stored value overrides the default; a catalog slug with no stored value is false |
| `Panel.Checkboxes` | src/credibility-indicators-panel.js:57-61 | there is one checkbox per catalog entry, in catalog order, keyed and labelled by the entry; it is checked with the stored value of its slug, or false |
| `Panel.PanelView` | src/credibility-indicators-panel.js:17-22 | the panel renders exactly when the post type is 'post' |
| `Panel.OnChange` | src/credibility-indicators-panel.js:62-71 | a click keeps every other meta key; it writes a flags object holding every catalog slug, with the clicked slug's merged value negated and every other merged entry unchanged |
| `Panel.MergeOfComplete` | src/credibility-indicators-panel.js:48-51 | if the stored flags already hold every catalog slug, the merge returns them unchanged |
| `Panel.MergeIdempotent` | src/credibility-indicators-panel.js:48-51 | merging a stored merged map gives that map back |
| `Panel.ToggleTwice` | src/credibility-indicators-panel.js:62-71 | two clicks on one checkbox write back the merged map, with that slug's value replaced by its truthiness |
| `Panel.ToggleTwiceRestores` | src/credibility-indicators-panel.js:62-71 | when the slug's merged value is a boolean, two clicks restore the merged map exactly |
| `Panel.EditSession` | src/credibility-indicators-panel.js:17-71 | outside posts nothing is written; every click sequence leaves other meta keys unchanged; after any click the flags object holds every catalog slug |
| `Panel.ToggleFlipsRenderedIndicator` | src/credibility-indicators-panel.js:61-69 | after a click, the front end shows the indicator exactly when its checkbox had been unchecked, given that `wp_validate_boolean` keeps booleans |
| `Panel.SchemaDefaultsMatchEditorDefaults` | src/credibility-indicators-panel.js:41-43 | the editor's default map and the registered schema default have the same keys and the same false values |
| `Frontend.ToggleDisplay` | src/frontend.js:20 | the new display is always 'none' or 'block', and it is 'block' exactly when the old display was 'none' |
| `Frontend.ToggleDisplayFlips` | src/frontend.js:18-21 | a click flips visibility exactly when an inline display was already set; from the unset display the section stays hidden |
| `Frontend.ToggleVisibility` | src/frontend.js:20 | corrected toggle: every click flips visibility, the unset display included |
| `Frontend.OnClick` | src/frontend.js:10-21 | a click on wrapper i prevents the default action, updates wrapper i's display and leaves every other wrapper unchanged |
| `Frontend.Clicks` | src/frontend.js:9-22 | after any click sequence, each wrapper's display is its own display stepped once per click on that wrapper |
| `Frontend.AlternatesAfterFirstClick` | src/frontend.js:18-21 | after at least one click the display is 'none' or 'block', and it alternates on each further click |
| `Frontend.FromUnset` | src/frontend.js:20 | from the unset display, an odd number of clicks leaves 'none' and an even number leaves 'block' |
| `Frontend.CorrectedFromUnset` | src/frontend.js:20 | with the corrected toggle, the section is visible exactly after an odd number of clicks |

## Left out

- The `$trustmark` assignment (class-credibility-indicators.php:238) is never used and lacks its terminating semicolon. As written, the file would not parse. The model treats the line as absent.
- The `$label`, `$description` and `$slug` locals (class-credibility-indicators.php:183-185) feed no markup, and only `$slug` feeds the flag lookup. In `render_block`, a catalog entry whose filter dropped its `slug` reads the slug as the empty string (`?? ''`). PHP's warnings are not modelled. The panel does not read it that way: a missing slug becomes the key "undefined" in `Object.fromEntries` (src/credibility-indicators-panel.js:41-43), so the editor would write a flag under a key the renderer never reads. The model gives every entry a slug, so neither reading arises.
- The WordPress functions `__`, `esc_html`, `wp_kses`, `wp_validate_boolean`, `apply_filters` and `file_get_contents` are uninterpreted, because their code is not part of this model.
- Render.FragmentsAgree: states only that both fragments pass each icon through the same SVG allowlist. It does not state what `wp_kses` removes, because `wp_kses` is uninterpreted.
- `get_post_meta` and `get_the_ID` are not modelled. The post's stored flags are a parameter, and a post with no meta is `None`.
- `register_rest_field`, `register_block`, `enqueue_frontend_assets`, the bootstrap file, src/index.js, build/index.js and webpack.config.js are left out. They are registration, asset loading or build configuration, with no logic of their own.
- The React hooks `useSelect`, `useEntityProp` and `setMeta` are not modelled. The post type, the meta object and the catalog are parameters, and the write is the returned meta object.
- Catalog.GetIndicator: the catalog is a `seq`, so it assumes the filter at class-credibility-indicators.php:49 returns a list keyed 0 to n-1. A filter that removes an entry with `unset` or `array_filter` leaves keys such as 0, 2, 3; the source's `get_indicator('1')` is then null while the model returns the second entry. Such a catalog also reaches the editor as a JSON object, which `.map` at src/credibility-indicators-panel.js:42 and :57 cannot iterate. Non-list catalogs are not modelled.
- Panel.StoredStatuses: a `credibility_indicators` value that is a string is treated as contributing no keys. JavaScript would spread its characters under index keys. The REST schema declares the field an object.
- JavaScript numbers are integers here, so NaN and fractions are left out. Object key order is left out, because the plugin never depends on it.
- PHP casts a numeric-string slug such as "12" to an integer array key in the `register_meta` folds. The model keeps slugs as strings, because no shipped slug is numeric.
- DOM querying is left out. The page is the sequence of the wrappers' open-section displays. A wrapper without a closed or open section (the source would throw) is not modelled.
- The stylesheet that hides the open section until a display is set is not part of this model. `Frontend.Shown` states that assumption.

## Findings

| source | as written | input that shows it | evidently intended | confidence | as-written member | corrected member |
|---|---|---|---|---|---|---|
| class-credibility-indicators.php:58-60 | `get_indicator` subscripts the catalog list with the key, so only "0" to "3" find an entry | the key 'on_the_ground' yields null although that slug is in the catalog | return the entry that carries the slug | not executed; medium, since nothing in the plugin calls it | `Catalog.SlugLookupMisses` | `Catalog.FindBySlug` |
| src/frontend.js:20 | the unset inline display '' becomes 'none' | the first click on a freshly loaded badge leaves the open section hidden | the first click shows the open section | not executed; medium, since it depends on the stylesheet hiding the section by default | `Frontend.ToggleDisplayFlips` | `Frontend.ToggleVisibility` |
