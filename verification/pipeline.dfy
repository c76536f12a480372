/**
 * The hand-over between encoder and decoder in MainGUI: the column map is
 * inverted into index -> label, and the decoder reads the labels the encoder
 * wrote. Under the assumption that no URI holds a column marker, the inverted
 * map is injective and every column comes back as the statement it stands for.
 */
module Pipeline {
  import opened Strings
  import opened Rdf
  import opened Columns
  import opened Encoding
  import opened Decoding
  import SummaryBuilding

  /** `inv` maps each index of `m` to the label of a column key stored at that index, and holds nothing else. */
  ghost predicate Inverts(m: map<Feature, nat>, inv: map<int, string>) {
    && (forall j :: j in inv <==> exists f :: f in m && m[f] == j)
    && (forall j :: j in inv ==> exists f :: f in m && m[f] == j && inv[j] == Label(f))
  }

  /**
   * The itemMap loop: one put(value, key) per entry of the column map, in the
   * map's own (unspecified) entry order.
   */
  method InvertPredicateMap(predicateMap: map<Feature, nat>) returns (itemMap: map<int, string>)
    ensures Inverts(predicateMap, itemMap)
  {
    itemMap := map[];
    var todo := predicateMap.Keys;
    while todo != {}
      invariant todo <= predicateMap.Keys
      invariant forall j :: j in itemMap <==> exists f :: f in predicateMap && f !in todo && predicateMap[f] == j
      invariant forall j :: j in itemMap ==> exists f :: f in predicateMap && f !in todo && predicateMap[f] == j && itemMap[j] == Label(f)
      decreases todo
    {
      var key := SummaryBuilding.Pick(todo);
      itemMap := itemMap[predicateMap[key] := Label(key)];
      todo := todo - {key};
    }
  }

  /** Column index to the label of the column at that position of the insertion order. */
  function ItemMap(keys: seq<Feature>): map<int, string> {
    map j | 0 <= j < |keys| :: Label(keys[j])
  }

  /**
   * Whatever order the entries are visited in, inverting a dense column map
   * gives the labels of the columns by position.
   */
  lemma InvertedIsItemMap(keys: seq<Feature>, m: map<Feature, nat>, inv: map<int, string>)
    requires IndexedBy(keys, m) && Inverts(m, inv)
    ensures inv == ItemMap(keys)
  {
    IndexedByLookup(keys, m);
    forall j | 0 <= j < |keys|
      ensures j in inv
    {
      assert keys[j] in m && m[keys[j]] == j;
    }
    forall j | j in inv
      ensures 0 <= j < |keys| && inv[j] == Label(keys[j])
    {
      var f :| f in m && m[f] == j && inv[j] == Label(f);
    }
  }

  /** A graph none of whose predicates or rdf:type objects holds a column marker. */
  ghost predicate UnmarkedGraph(ts: seq<Triple>) {
    forall t :: t in ts ==> Unmarked(t.pred) && (t.pred == RDF_TYPE ==> Unmarked(NodeString(t.obj)))
  }

  /** The columns of an unmarked graph carry unmarked URIs. */
  lemma ColumnKeysUnmarked(ts: seq<Triple>)
    requires UnmarkedGraph(ts)
    ensures forall f :: f in ColumnKeys(ts) ==> Unmarked(f.uri)
  {
    ColumnKeysCover(ts);
    forall f | f in ColumnKeys(ts)
      ensures Unmarked(f.uri)
    {
      match f
      case Type(c) =>
        var t :| t in ts && t.pred == RDF_TYPE && NodeString(t.obj) == c;
      case Direct(p) =>
        var t :| t in ts && t.pred == p;
      case Inverse(p) =>
        var t :| t in ts && t.pred == p;
    }
  }

  /** The labels of distinct unmarked columns are distinct, so the decoder may assume an injective map. */
  lemma ItemMapInjective(keys: seq<Feature>)
    requires Distinct(keys)
    requires forall f :: f in keys ==> Unmarked(f.uri)
    ensures Injective(ItemMap(keys))
  {
    forall a, b | a in ItemMap(keys) && b in ItemMap(keys) && ItemMap(keys)[a] == ItemMap(keys)[b]
      ensures a == b
    {
      LabelInjective(keys[a], keys[b]);
    }
  }

  /**
   * The decoder reads back what the encoder wrote: with the labels of an
   * unmarked graph's columns, item `j` of pattern `i` yields the type assertion
   * of a type column, the placeholder edge of a direct column, and for a
   * reverse column an edge to the first pattern holding the direct column of
   * the same predicate, which is column `j - 1`; an index that is no column
   * yields nothing.
   */
  lemma DecodeColumn(ts: seq<Triple>, patterns: seq<Pattern>, hash: string -> nat, i: nat, j: int)
    requires UnmarkedGraph(ts) && i < |patterns|
    ensures Injective(ItemMap(ColumnKeys(ts)))
    ensures var keys, item := ColumnKeys(ts), ItemTriple(patterns, ItemMap(ColumnKeys(ts)), hash, i, j);
            && (!(0 <= j < |keys|) ==> item.None?)
            && (0 <= j < |keys| && keys[j].Type? ==>
                  item == Some(Triple(PatternNode(i), RDF_TYPE, Res(Named(keys[j].uri)))))
            && (0 <= j < |keys| && keys[j].Direct? ==>
                  item == Some(Triple(PatternNode(i), keys[j].uri, Res(Placeholder(hash, keys[j].uri)))))
            && (0 <= j < |keys| && keys[j].Inverse? ==>
                  && 0 < j && keys[j - 1] == Direct(keys[j].uri)
                  && (item.Some? <==> exists k :: 0 <= k < |patterns| && j - 1 in patterns[k].items)
                  && (item.Some? ==> exists k ::
                        && 0 <= k < |patterns| && j - 1 in patterns[k].items
                        && (forall k' :: 0 <= k' < k ==> j - 1 !in patterns[k'].items)
                        && item.value == Triple(PatternNode(i), keys[j].uri, Res(PatternNode(k)))))
  {
    var keys := ColumnKeys(ts);
    var labels := ItemMap(keys);
    ColumnKeysDistinct(ts);
    ColumnKeysUnmarked(ts);
    ItemMapInjective(keys);
    if 0 <= j < |keys| {
      var f := keys[j];
      LabelRoundTrip(f);
      if f.Inverse? {
        InverseFollowsDirect(ts);
        var p := f.uri;
        assert labels[j - 1] == p;
        forall k | 0 <= k < |patterns|
          ensures HasItemLabelled(patterns[k], labels, p) <==> j - 1 in patterns[k].items
        {
          HasItemLabelledIff(patterns[k], labels, j - 1);
        }
        var target := FindTargetPattern(patterns, labels, j);
        assert RemoveAll(labels[j], REVERSE) == p;
        if target >= 0 {
          assert ItemTriple(patterns, labels, hash, i, j).value == Triple(PatternNode(i), p, Res(PatternNode(target)));
        }
      }
    }
  }

  /** The labels the decoder receives from an unmarked graph form an injective map. */
  lemma DecoderLabelsInjective(ts: seq<Triple>, m: map<Feature, nat>, inv: map<int, string>)
    requires UnmarkedGraph(ts) && IndexedBy(ColumnKeys(ts), m) && Inverts(m, inv)
    ensures inv == ItemMap(ColumnKeys(ts)) && Injective(inv)
  {
    InvertedIsItemMap(ColumnKeys(ts), m, inv);
    ColumnKeysDistinct(ts);
    ColumnKeysUnmarked(ts);
    ItemMapInjective(ColumnKeys(ts));
  }
}
