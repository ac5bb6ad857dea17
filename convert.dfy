/** `convertYamlToProperties` after the YAML text has been loaded: a root
    that is not a mapping counts as an empty mapping, and every flattened
    value is copied into the properties table. */
module Convert {
  import opened Results
  import opened DottedKeys
  import opened ConfigTree
  import opened Flattening

  /** The loaded document's root: `None` for an empty document (`null`),
      `Some(Leaf(_))` for a scalar or list root, `Some(Mapping(_))` for a
      mapping. */
  type Document = Option<Node>

  /** The properties the conversion produces for a loaded document. A root
      that is not a mapping gives no properties and no error. For any
      mapping, a key is produced exactly when some path of entries reaches a
      scalar recorded under it, with the scalar of the last such path; for a
      well-formed mapping, that is when the key's segments lead to a
      scalar, and it holds that scalar. */
  function PropertiesOf(root: Document): (r: map<string, string>)
    ensures !(root.Some? && root.value.Mapping?) ==> r == map[]
    ensures root.Some? && root.value.Mapping? ==>
      var es := root.value.entries;
      forall k :: (k in r <==> exists p :: Reaches(es, |es|, "", p, k)) &&
                  (k in r ==> exists p :: LastReach(es, |es|, "", p, k) && LeafEntry(es, p, "").value.1 == r[k])
    ensures root.Some? && root.value.Mapping? && WellFormed(root.value) && NoUnnamedMapping(root.value.entries) ==>
      forall k :: (k in r <==> LeafAt(root.value, Split(k)).Some?) &&
                  (k in r ==> r[k] == LeafAt(root.value, Split(k)).value)
  {
    match root
    case Some(Mapping(es)) =>
      var r := Flatten(es);
      assert WellFormed(Mapping(es)) && NoUnnamedMapping(es) ==>
        forall k :: (k in r <==> LeafAt(Mapping(es), Split(k)).Some?) &&
                    (k in r ==> r[k] == LeafAt(Mapping(es), Split(k)).value) by {
        if WellFormed(Mapping(es)) && NoUnnamedMapping(es) {
          forall k
            ensures (k in r <==> LeafAt(Mapping(es), Split(k)).Some?) &&
                    (k in r ==> r[k] == LeafAt(Mapping(es), Split(k)).value)
          {
            FlattenLeaves(es, k);
          }
        }
      }
      r
    case _ => map[]
  }

  /** The guard `as? Map<String, Any> ?: emptyMap()` followed by the copy
      loop `properties[key] = value.toString()`; values are already their
      string form. */
  method ConvertYamlToProperties(root: Document) returns (properties: map<string, string>)
    ensures properties == PropertiesOf(root)
  {
    var yamlMap: Entries := [];
    if root.Some? && root.value.Mapping? {
      yamlMap := root.value.entries;
    }
    var flattenedMap := FlattenYamlMap(yamlMap, "");
    properties := map[];
    var remaining := flattenedMap.Keys;
    while remaining != {}
      invariant remaining <= flattenedMap.Keys
      invariant forall k :: k in properties <==> k in flattenedMap && k !in remaining
      invariant forall k :: k in properties ==> properties[k] == flattenedMap[k]
      decreases remaining
    {
      var key :| key in remaining;
      properties := properties[key := flattenedMap[key]];
      remaining := remaining - {key};
    }
    assert properties.Keys == flattenedMap.Keys;
  }
}
