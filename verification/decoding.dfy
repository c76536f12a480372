/**
 * What SummaryGraphBuilder computes, stated as functions of the mined patterns
 * and the column-index-to-label map: the target-pattern search, the statement
 * each item of a pattern contributes, and the summary graph as a whole.
 */
module Decoding {
  import opened Strings
  import opened Rdf
  import opened Columns

  datatype Option<T> = None | Some(value: T)

  /** A mined pattern: the rows (transactions) it covers and the columns (items) it holds. */
  datatype Pattern = Pattern(transactions: set<int>, items: set<int>)

  const PATTERN_NS: string := "http://example.org/pattern/"
  const LITERAL_NS: string := "http://example.org/literal/"
  const EXTENT: string := "http://example.org/vocab#extent"

  /** The node minted for the pattern at position `i`. */
  function PatternNode(i: nat): Resource {
    Named(PATTERN_NS + DecimalString(i))
  }

  /** A pattern node's URI is the pattern namespace followed by the position, which reads back. */
  lemma PatternNodeParses(i: nat)
    ensures PatternNode(i).Named? && StartsWith(PatternNode(i).uri, PATTERN_NS)
    ensures ParseDecimal(PatternNode(i).uri[|PATTERN_NS|..]) == i
  {
    assert PatternNode(i).uri[|PATTERN_NS|..] == DecimalString(i);
    DecimalRoundTrip(i);
  }

  /**
   * The placeholder node for a label. The source derives its number from the
   * label's hash code; `hash` stands for that function.
   */
  function Placeholder(hash: string -> nat, key: string): Resource {
    Named(LITERAL_NS + DecimalString(hash(key)))
  }

  /** A placeholder's URI is the literal namespace followed by the label's hash, which reads back. */
  lemma PlaceholderParses(hash: string -> nat, key: string)
    ensures Placeholder(hash, key).Named? && StartsWith(Placeholder(hash, key).uri, LITERAL_NS)
    ensures ParseDecimal(Placeholder(hash, key).uri[|LITERAL_NS|..]) == hash(key)
  {
    assert Placeholder(hash, key).uri[|LITERAL_NS|..] == DecimalString(hash(key));
    DecimalRoundTrip(hash(key));
  }

  /** Distinct pattern positions get distinct nodes. */
  lemma PatternNodeInjective(i: nat, j: nat)
    ensures PatternNode(i) == PatternNode(j) ==> i == j
  {
    if PatternNode(i) == PatternNode(j) {
      var a, b := PATTERN_NS + DecimalString(i), PATTERN_NS + DecimalString(j);
      assert a[|PATTERN_NS|..] == DecimalString(i);
      assert b[|PATTERN_NS|..] == DecimalString(j);
      DecimalStringInjective(i, j);
    }
  }

  /** No two columns share a label (true of the map obtained by inverting the encoder's column map). */
  ghost predicate Injective(labels: map<int, string>) {
    forall a, b :: a in labels && b in labels && labels[a] == labels[b] ==> a == b
  }

  /** The pattern holds an item whose label is `key`. */
  predicate HasItemLabelled(p: Pattern, labels: map<int, string>, key: string) {
    exists d :: d in p.items && d in labels && labels[d] == key
  }

  /** The first pattern at or after `from` holding an item labelled `key`, or -1. */
  function FirstPatternWith(patterns: seq<Pattern>, labels: map<int, string>, key: string, from: nat): (r: int)
    requires from <= |patterns|
    ensures r == -1 || from <= r < |patterns|
    ensures r >= 0 ==> HasItemLabelled(patterns[r], labels, key)
    ensures forall i :: from <= i < |patterns| && (r < 0 || i < r) ==> !HasItemLabelled(patterns[i], labels, key)
    decreases |patterns| - from
  {
    if from == |patterns| then -1
    else if HasItemLabelled(patterns[from], labels, key) then from
    else FirstPatternWith(patterns, labels, key, from + 1)
  }

  /** Under an injective map, holding an item labelled `key` means holding the one item that carries it. */
  lemma HasItemLabelledIff(p: Pattern, labels: map<int, string>, d: int)
    requires Injective(labels) && d in labels
    ensures HasItemLabelled(p, labels, labels[d]) <==> d in p.items
  {
  }

  /**
   * findTargetPattern: for a reverse item, the least pattern position holding
   * the direct item of the same predicate (the current pattern included), or -1
   * when the item is unmapped, is not a reverse item, or no pattern holds the
   * direct item. The source looks up the direct item among the map's entries
   * and then scans the patterns; with an injective map there is at most one
   * such entry, so scanning the patterns for an item with that label is the same.
   */
  function FindTargetPattern(patterns: seq<Pattern>, labels: map<int, string>, reverseItem: int): (r: int)
    requires Injective(labels)
    ensures -1 <= r < |patterns|
    ensures r >= 0 <==>
              && reverseItem in labels && EndsWith(labels[reverseItem], REVERSE)
              && exists i :: 0 <= i < |patterns| && HasItemLabelled(patterns[i], labels, RemoveAll(labels[reverseItem], REVERSE))
    ensures r >= 0 ==>
              && HasItemLabelled(patterns[r], labels, RemoveAll(labels[reverseItem], REVERSE))
              && forall i :: 0 <= i < r ==> !HasItemLabelled(patterns[i], labels, RemoveAll(labels[reverseItem], REVERSE))
  {
    if reverseItem !in labels || !EndsWith(labels[reverseItem], REVERSE) then -1
    else FirstPatternWith(patterns, labels, RemoveAll(labels[reverseItem], REVERSE), 0)
  }

  /**
   * The statement one item of pattern `i` adds: nothing for an unmapped item;
   * for a reverse label, an edge to the target pattern if there is one; for a
   * label holding "::C", a type assertion; otherwise an edge to the label's
   * placeholder node.
   */
  function ItemTriple(patterns: seq<Pattern>, labels: map<int, string>, hash: string -> nat, i: nat, item: int): (r: Option<Triple>)
    requires Injective(labels) && i < |patterns|
    ensures r.Some? ==> r.value.subj == PatternNode(i) && r.value.obj.Res?
    ensures r.None? <==> item !in labels || (EndsWith(labels[item], REVERSE) && FindTargetPattern(patterns, labels, item) < 0)
  {
    if item !in labels then None
    else
      var key := labels[item];
      match Classify(key)
      case Inverse(directPred) =>
        var target := FindTargetPattern(patterns, labels, item);
        if target >= 0 then Some(Triple(PatternNode(i), directPred, Res(PatternNode(target)))) else None
      case Type(typeUri) => Some(Triple(PatternNode(i), RDF_TYPE, Res(Named(typeUri))))
      case Direct(_) => Some(Triple(PatternNode(i), key, Res(Placeholder(hash, key))))
  }

  /** The statements the items in `items` of pattern `i` add. */
  function ItemTriples(patterns: seq<Pattern>, labels: map<int, string>, hash: string -> nat, i: nat, items: set<int>): set<Triple>
    requires Injective(labels) && i < |patterns|
  {
    set item | item in items && ItemTriple(patterns, labels, hash, i, item).Some? :: ItemTriple(patterns, labels, hash, i, item).value
  }

  /** The extent statement of pattern `i`: the number of rows it covers. */
  function ExtentTriple(patterns: seq<Pattern>, i: nat): Triple
    requires i < |patterns|
  {
    Triple(PatternNode(i), EXTENT, Lit(DecimalString(|patterns[i].transactions|)))
  }

  /** The extent statement hangs off the pattern's node, and its literal reads back as the row count. */
  lemma ExtentTripleParses(patterns: seq<Pattern>, i: nat)
    requires i < |patterns|
    ensures ExtentTriple(patterns, i).subj == PatternNode(i) && ExtentTriple(patterns, i).pred == EXTENT
    ensures ExtentTriple(patterns, i).obj.Lit?
    ensures ParseDecimal(ExtentTriple(patterns, i).obj.lexical) == |patterns[i].transactions|
  {
    DecimalRoundTrip(|patterns[i].transactions|);
  }

  /** The extent statements of the first `n` patterns. */
  function ExtentTriples(patterns: seq<Pattern>, n: nat): set<Triple>
    requires n <= |patterns|
  {
    if n == 0 then {} else ExtentTriples(patterns, n - 1) + {ExtentTriple(patterns, n - 1)}
  }

  /** The item statements of the first `n` patterns. */
  function PatternTriples(patterns: seq<Pattern>, labels: map<int, string>, hash: string -> nat, n: nat): set<Triple>
    requires Injective(labels) && n <= |patterns|
  {
    if n == 0 then {}
    else PatternTriples(patterns, labels, hash, n - 1) + ItemTriples(patterns, labels, hash, n - 1, patterns[n - 1].items)
  }

  /** The summary graph: a set, since adding a statement twice to a Jena model keeps one copy. */
  function SummaryGraph(patterns: seq<Pattern>, labels: map<int, string>, hash: string -> nat): set<Triple>
    requires Injective(labels)
  {
    ExtentTriples(patterns, |patterns|) + PatternTriples(patterns, labels, hash, |patterns|)
  }

  /** Handling one more item adds its statement, if it has one, and nothing else. */
  lemma ItemTriplesAdd(patterns: seq<Pattern>, labels: map<int, string>, hash: string -> nat, i: nat, items: set<int>, item: int)
    requires Injective(labels) && i < |patterns|
    ensures ItemTriples(patterns, labels, hash, i, items + {item}) ==
              ItemTriples(patterns, labels, hash, i, items) +
              (match ItemTriple(patterns, labels, hash, i, item) case Some(t) => {t} case None => {})
  {
  }

  /** Moving one item from the pending set to the handled set adds that item's statement. */
  lemma ItemTriplesStep(patterns: seq<Pattern>, labels: map<int, string>, hash: string -> nat, i: nat, items: set<int>, todo: set<int>, item: int)
    requires Injective(labels) && i < |patterns| && item in todo && todo <= items
    ensures ItemTriples(patterns, labels, hash, i, items - (todo - {item})) ==
              ItemTriples(patterns, labels, hash, i, items - todo) +
              (match ItemTriple(patterns, labels, hash, i, item) case Some(t) => {t} case None => {})
  {
    assert items - (todo - {item}) == (items - todo) + {item};
    ItemTriplesAdd(patterns, labels, hash, i, items - todo, item);
  }

  /** Every item statement hangs off a pattern node and points at a resource. */
  lemma {:induction false} PatternTriplesShape(patterns: seq<Pattern>, labels: map<int, string>, hash: string -> nat, n: nat)
    requires Injective(labels) && n <= |patterns|
    ensures forall t :: t in PatternTriples(patterns, labels, hash, n) ==> t.obj.Res? && exists i :: 0 <= i < n && t.subj == PatternNode(i)
  {
    if n > 0 {
      PatternTriplesShape(patterns, labels, hash, n - 1);
    }
  }

  /** Among the first `n` extent statements, pattern `i` has one, and it carries its row count. */
  lemma {:induction false} ExtentTriplesExact(patterns: seq<Pattern>, n: nat, i: nat, v: string)
    requires n <= |patterns|
    ensures Triple(PatternNode(i), EXTENT, Lit(v)) in ExtentTriples(patterns, n) <==>
              i < n && v == DecimalString(|patterns[i].transactions|)
  {
    if n > 0 {
      ExtentTriplesExact(patterns, n - 1, i, v);
      PatternNodeInjective(i, n - 1);
    }
  }

  /**
   * One node per pattern, and its extent: the summary graph states an extent
   * for the node of pattern `i` exactly when `i` is a pattern position, and
   * that extent is the size of the pattern's transaction set.
   */
  lemma ExtentOfPattern(patterns: seq<Pattern>, labels: map<int, string>, hash: string -> nat, i: nat, v: string)
    requires Injective(labels)
    ensures Triple(PatternNode(i), EXTENT, Lit(v)) in SummaryGraph(patterns, labels, hash) <==>
              i < |patterns| && v == DecimalString(|patterns[i].transactions|)
  {
    ExtentTriplesExact(patterns, |patterns|, i, v);
    PatternTriplesShape(patterns, labels, hash, |patterns|);
  }

  /**
   * The statements hanging off the node of pattern `i` other than its extent
   * are exactly those its own items add.
   */
  lemma {:induction false} PatternOwnsItsTriples(patterns: seq<Pattern>, labels: map<int, string>, hash: string -> nat, n: nat, i: nat, t: Triple)
    requires Injective(labels) && i < n <= |patterns| && t.subj == PatternNode(i)
    ensures t in PatternTriples(patterns, labels, hash, n) <==> t in ItemTriples(patterns, labels, hash, i, patterns[i].items)
  {
    PatternNodeInjective(i, n - 1);
    if i < n - 1 {
      PatternOwnsItsTriples(patterns, labels, hash, n - 1, i, t);
    } else {
      PatternTriplesShape(patterns, labels, hash, n - 1);
      if t in PatternTriples(patterns, labels, hash, n - 1) {
        var j :| 0 <= j < n - 1 && t.subj == PatternNode(j);
        PatternNodeInjective(i, j);
      }
    }
  }
}
