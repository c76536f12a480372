/** The decoder: SummaryGraphBuilder rebuilds a graph from mined patterns, one node per pattern. */
module SummaryBuilding {
  import opened Strings
  import opened Rdf
  import opened Columns
  import opened Decoding

  /** The pattern nodes of the first `n` positions, as patternURIs holds them. */
  function PatternURIs(n: nat): map<int, Resource> {
    map i: int | 0 <= i < n :: PatternNode(i)
  }

  lemma PatternURIsNext(m: map<int, Resource>, i: nat)
    ensures (m + PatternURIs(i))[i := PatternNode(i)] == m + PatternURIs(i + 1)
  {
  }

  lemma PatternURIsLookup(m: map<int, Resource>, n: nat)
    ensures forall j :: 0 <= j < n ==> j in m + PatternURIs(n) && (m + PatternURIs(n))[j] == PatternNode(j)
  {
  }

  /** Some element of a non-empty set: the iteration order of a Java collection is left open. */
  method Pick<T>(s: set<T>) returns (x: T)
    requires s != {}
    ensures x in s
  {
    x :| x in s;
  }

  class SummaryGraphBuilder {
    const patterns: seq<Pattern>
    /** Column index to column label. */
    const predicateMap: map<int, string>
    /** Stands for Math.abs(String.hashCode()), from which placeholder nodes are named. */
    const labelHash: string -> nat
    var patternURIs: map<int, Resource>

    constructor(patterns: seq<Pattern>, predicateMap: map<int, string>, labelHash: string -> nat)
      ensures this.patterns == patterns && this.predicateMap == predicateMap && this.labelHash == labelHash
      ensures patternURIs == map[]
    {
      this.patterns := patterns;
      this.predicateMap := predicateMap;
      this.labelHash := labelHash;
      patternURIs := map[];
    }

    /**
     * Builds the summary graph: first a node with its extent for every pattern,
     * then, pattern by pattern, the statement each item adds. Only patternURIs
     * changes; the patterns and the label map are read only.
     */
    method BuildSummaryGraph() returns (model: set<Triple>)
      requires Injective(predicateMap)
      modifies this`patternURIs
      ensures model == SummaryGraph(patterns, predicateMap, labelHash)
      ensures patternURIs == old(patternURIs) + PatternURIs(|patterns|)
    {
      model := {};

      // nodes for patterns
      for i := 0 to |patterns|
        invariant model == ExtentTriples(patterns, i)
        invariant patternURIs == old(patternURIs) + PatternURIs(i)
      {
        var node := PatternNode(i);
        model := model + {Triple(node, EXTENT, Lit(DecimalString(|patterns[i].transactions|)))};
        PatternURIsNext(old(patternURIs), i);
        patternURIs := patternURIs[i := node];
      }

      // items in each pattern
      for i := 0 to |patterns|
        invariant model == ExtentTriples(patterns, |patterns|) + PatternTriples(patterns, predicateMap, labelHash, i)
        invariant patternURIs == old(patternURIs) + PatternURIs(|patterns|)
      {
        PatternURIsLookup(old(patternURIs), |patterns|);
        var patternNode := patternURIs[i];
        model := AddItemStatements(model, i, patternNode);
      }
    }

    /** The loop over the items of pattern `i`. */
    method AddItemStatements(model: set<Triple>, i: nat, patternNode: Resource) returns (model': set<Triple>)
      requires Injective(predicateMap) && i < |patterns| && patternNode == PatternNode(i)
      requires forall j :: 0 <= j < |patterns| ==> j in patternURIs && patternURIs[j] == PatternNode(j)
      ensures model' == model + ItemTriples(patterns, predicateMap, labelHash, i, patterns[i].items)
    {
      model' := model;
      var pattern := patterns[i];
      var todo := pattern.items;
      while todo != {}
        invariant todo <= pattern.items
        invariant model' == model + ItemTriples(patterns, predicateMap, labelHash, i, pattern.items - todo)
        decreases todo
      {
        var item := Pick(todo);
        ItemTriplesStep(patterns, predicateMap, labelHash, i, pattern.items, todo, item);
        model' := AddItemStatement(model', i, patternNode, item);
        todo := todo - {item};
      }
      assert pattern.items - {} == pattern.items;
    }

    /** The body of the item loop: adds the statement one item of pattern `i` contributes, if any. */
    method AddItemStatement(model: set<Triple>, i: nat, patternNode: Resource, item: int) returns (model': set<Triple>)
      requires Injective(predicateMap) && i < |patterns| && patternNode == PatternNode(i)
      requires forall j :: 0 <= j < |patterns| ==> j in patternURIs && patternURIs[j] == PatternNode(j)
      ensures model' == model + (match ItemTriple(patterns, predicateMap, labelHash, i, item) case Some(t) => {t} case None => {})
    {
      model' := model;
      if item !in predicateMap {
        return;
      }
      var predicateStr := predicateMap[item];
      if EndsWith(predicateStr, REVERSE) {
        var directPred := RemoveAll(predicateStr, REVERSE);
        var targetIndex := FindTargetPattern(patterns, predicateMap, item);
        if targetIndex >= 0 {
          model' := model' + {Triple(patternNode, directPred, Res(patternURIs[targetIndex]))};
        }
      } else if Contains(predicateStr, CLASS) {
        var typeUri := RemoveAll(predicateStr, CLASS);
        model' := model' + {Triple(patternNode, RDF_TYPE, Res(Named(typeUri)))};
      } else {
        model' := model' + {Triple(patternNode, predicateStr, Res(Placeholder(labelHash, predicateStr)))};
      }
    }
  }
}
