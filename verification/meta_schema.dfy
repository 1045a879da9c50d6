/**
  The post-meta registration of the per-post indicator flags
  (class-credibility-indicators.php, `register_meta`): a REST schema with one
  boolean property per catalog slug, and a default object mapping every slug
  to false.
 */
module MetaSchema {
  import opened Catalog
  import opened WordPress

  /** The meta key under which a post's flags are stored. */
  const MetaKey := "credibility_indicators"

  /** One property of the schema. Its default is the STRING "false", as in
      the source, not the boolean. */
  datatype PropertySchema = PropertySchema(typ: string, default: string)

  const BooleanProperty := PropertySchema("boolean", "false")

  datatype Registration = Registration(
    objectType: string,
    metaKey: string,
    authCallback: string,
    metaType: string,
    single: bool,
    schemaType: string,
    properties: map<string, PropertySchema>,
    default: map<string, bool>
  )

  /** The first `array_reduce`: folds the slugs left to right, setting each
      one's schema entry in the carried map. */
  function ReduceProperties(slugs: seq<string>, carry: map<string, PropertySchema>): (r: map<string, PropertySchema>)
    ensures forall k :: k in r <==> k in carry || k in slugs
    ensures forall k | k in slugs :: r[k] == BooleanProperty
    ensures forall k | k in carry && k !in slugs :: r[k] == carry[k]
    decreases |slugs|
  {
    if |slugs| == 0 then carry
    else
      var r := ReduceProperties(slugs[1..], carry[slugs[0] := BooleanProperty]);
      assert forall k | k in slugs :: k == slugs[0] || k in slugs[1..];
      r
  }

  /** The second `array_reduce`: folds the slugs left to right, setting each
      one's default to false. */
  function ReduceDefaults(slugs: seq<string>, carry: map<string, bool>): (r: map<string, bool>)
    ensures forall k :: k in r <==> k in carry || k in slugs
    ensures forall k | k in slugs :: r[k] == false
    ensures forall k | k in carry && k !in slugs :: r[k] == carry[k]
    decreases |slugs|
  {
    if |slugs| == 0 then carry
    else
      var r := ReduceDefaults(slugs[1..], carry[slugs[0] := false]);
      assert forall k | k in slugs :: k == slugs[0] || k in slugs[1..];
      r
  }

  /** The registration `register_meta` performs for the catalog `c`
      (`wp_list_pluck` of the slugs, then the two folds from the empty map). */
  function MetaRegistration(c: seq<Indicator>): (reg: Registration)
    ensures reg.objectType == "post" && reg.metaKey == MetaKey && reg.single
    ensures reg.metaType == "object" && reg.schemaType == "object"
    ensures forall k :: k in reg.properties <==> exists i | 0 <= i < |c| :: c[i].slug == k
    ensures forall k :: k in reg.default <==> exists i | 0 <= i < |c| :: c[i].slug == k
    ensures forall k | k in reg.properties :: reg.properties[k] == PropertySchema("boolean", "false")
    ensures forall k | k in reg.default :: !reg.default[k]
  {
    var slugs := Slugs(c);
    assert forall k :: k in slugs <==> exists i | 0 <= i < |c| :: c[i].slug == k by {
      forall k | k in slugs ensures exists i | 0 <= i < |c| :: c[i].slug == k {
        var i :| 0 <= i < |slugs| && slugs[i] == k;
        assert c[i].slug == k;
      }
    }
    Registration(
      "post", MetaKey, "__return_true", "object", true, "object",
      ReduceProperties(slugs, map[]),
      ReduceDefaults(slugs, map[]))
  }

  /** `register_meta` itself, reading the catalog through `get_indicators`. */
  function RegisterMeta(wp: Wp): (reg: Registration)
    ensures reg.metaKey == MetaKey
    ensures forall k :: k in reg.properties <==> k in Slugs(GetIndicators(wp))
    ensures forall k :: k in reg.default <==> k in Slugs(GetIndicators(wp))
  {
    MetaRegistration(GetIndicators(wp))
  }
}
