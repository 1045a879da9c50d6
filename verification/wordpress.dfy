/**
  The WordPress functions the plugin calls but whose code is not part of this
  model, gathered as one record of uninterpreted total functions, and the
  filtered catalog built from them (`get_indicators`).
 */
module WordPress {
  import opened Values
  import opened Catalog

  /** An allowlist for `wp_kses`: tag name to the attribute names kept on it. */
  type AllowList = map<string, set<string>>

  datatype Wp = Wp(
    /** `__( text, domain )` */
    translate: (string, string) -> string,
    /** `esc_html` */
    escHtml: string -> string,
    /** `wp_kses( content, allowlist )` */
    kses: (string, AllowList) -> string,
    /** `wp_validate_boolean` */
    validateBoolean: Value -> bool,
    /** `apply_filters( hook, catalog )` for a filter returning a catalog */
    applyFilters: (string, seq<Indicator>) -> seq<Indicator>,
    /** `file_get_contents` of a path under the plugin directory */
    svgAsset: string -> string
  )

  /** The filter hook through which other code may change the catalog. */
  const IndicatorsHook := "credibility_indicators\\indicators"

  /** `get_indicators`: the shipped catalog, passed once through the filter. */
  function GetIndicators(wp: Wp): seq<Indicator> {
    wp.applyFilters(IndicatorsHook, DefaultIndicators(wp.translate, wp.svgAsset))
  }

  /** `wp_validate_boolean` hands a boolean back unchanged; properties that
      depend on this take it as a precondition. */
  predicate KeepsBooleans(wp: Wp) {
    wp.validateBoolean(Bool(true)) && !wp.validateBoolean(Bool(false))
  }
}
