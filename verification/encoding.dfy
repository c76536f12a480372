/**
 * What MatrixBuilder computes, stated as functions of the statement list:
 * the first-seen row and column key orders of calculateDimensions, the
 * statement that justifies a 1 in a cell of populateMatrix, and the
 * properties of all three.
 */
module Encoding {
  import opened Rdf
  import opened Columns

  /** LinkedHashMap insertion of an absent key: an existing key keeps its place. */
  function Register<K(==)>(keys: seq<K>, k: K): (r: seq<K>)
    ensures k in r && keys <= r && |r| <= |keys| + 1
    ensures k in keys ==> r == keys
  {
    if k in keys then keys else keys + [k]
  }

  /** The rows one statement registers: its subject, then its object when that is a blank node. */
  function RowStep(keys: seq<Resource>, t: Triple): seq<Resource> {
    var withSubject := Register(keys, t.subj);
    if t.obj.Res? && t.obj.r.Anon? then Register(withSubject, t.obj.r) else withSubject
  }

  /**
   * The columns one statement registers: the type column of its object for
   * rdf:type; otherwise, on the predicate's first appearance only, its direct
   * column followed by its reverse column when the object is a resource.
   */
  function ColumnStep(keys: seq<Feature>, t: Triple): seq<Feature> {
    if t.pred == RDF_TYPE then Register(keys, Type(NodeString(t.obj)))
    else if Direct(t.pred) in keys then keys
    else if t.obj.Res? then keys + [Direct(t.pred), Inverse(t.pred)]
    else keys + [Direct(t.pred)]
  }

  /** Row keys in the order calculateDimensions inserts them into instanceMap. */
  function RowKeys(ts: seq<Triple>): seq<Resource>
    decreases |ts|
  {
    if ts == [] then [] else RowStep(RowKeys(ts[..|ts| - 1]), ts[|ts| - 1])
  }

  /** Column keys in the order calculateDimensions inserts them into predicateMap. */
  function ColumnKeys(ts: seq<Triple>): seq<Feature>
    decreases |ts|
  {
    if ts == [] then [] else ColumnStep(ColumnKeys(ts[..|ts| - 1]), ts[|ts| - 1])
  }

  ghost predicate Distinct<K>(s: seq<K>) {
    forall i, j :: 0 <= i < j < |s| ==> s[i] != s[j]
  }

  /** The map gives each key its position in the insertion order: dense indices 0..|keys|-1, one per key. */
  ghost predicate IndexedBy<K>(keys: seq<K>, m: map<K, nat>) {
    && (forall i :: 0 <= i < |keys| ==> keys[i] in m && m[keys[i]] == i)
    && (forall k :: k in m ==> k in keys)
  }

  /** A resource that can own a row: some statement's subject, or some statement's blank-node object. */
  ghost predicate IsRowEntity(ts: seq<Triple>, n: Resource) {
    exists t :: t in ts && (t.subj == n || (t.obj == Res(n) && n.Anon?))
  }

  /** The statement that introduces predicate `p` has a resource object. */
  ghost predicate FirstUseHasResourceObject(ts: seq<Triple>, p: string) {
    exists i :: 0 <= i < |ts| && ts[i].pred == p && ts[i].obj.Res? && (forall j :: 0 <= j < i ==> ts[j].pred != p)
  }

  /** The statement that makes cell (n, f) a 1. */
  ghost predicate Justifies(ts: seq<Triple>, n: Resource, f: Feature) {
    match f
    case Direct(p) => exists t :: t in ts && t.subj == n && t.pred == p
    case Inverse(p) => exists t :: t in ts && t.pred == p && t.obj == Res(n)
    case Type(c) => exists t :: t in ts && t.subj == n && t.pred == RDF_TYPE && t.obj == Res(Named(c))
  }

  // Model.listSubjectsWithProperty and Model.listObjectsOfProperty over the statement list.

  function SubjectsWithProperty(ts: seq<Triple>, p: string): set<Resource> {
    set t | t in ts && t.pred == p :: t.subj
  }

  function SubjectsWithValue(ts: seq<Triple>, p: string, o: Node): set<Resource> {
    set t | t in ts && t.pred == p && t.obj == o :: t.subj
  }

  function ObjectsOfProperty(ts: seq<Triple>, p: string): set<Node> {
    set t | t in ts && t.pred == p :: t.obj
  }

  /** Every statement's subject and every blank-node object gets a row, and nothing else does. */
  lemma {:induction false} RowKeysCover(ts: seq<Triple>)
    ensures forall n :: n in RowKeys(ts) <==> IsRowEntity(ts, n)
    decreases |ts|
  {
    if ts != [] {
      var init, t := ts[..|ts| - 1], ts[|ts| - 1];
      RowKeysCover(init);
      assert ts == init + [t];
    }
  }

  /** A resource is registered once: the row keys are pairwise distinct. */
  lemma {:induction false} RowKeysDistinct(ts: seq<Triple>)
    ensures Distinct(RowKeys(ts))
    decreases |ts|
  {
    if ts != [] {
      RowKeysDistinct(ts[..|ts| - 1]);
    }
  }

  /** Later statements only append rows: a row index, once given, never changes. */
  lemma {:induction false} RowKeysStable(ts: seq<Triple>, us: seq<Triple>)
    ensures RowKeys(ts) <= RowKeys(ts + us)
    decreases |us|
  {
    if us == [] {
      assert ts + us == ts;
    } else {
      var init := us[..|us| - 1];
      assert (ts + us)[..|ts + us| - 1] == ts + init;
      RowKeysStable(ts, init);
    }
  }

  /** Later statements only append columns: a column index, once given, never changes. */
  lemma {:induction false} ColumnKeysStable(ts: seq<Triple>, us: seq<Triple>)
    ensures ColumnKeys(ts) <= ColumnKeys(ts + us)
    decreases |us|
  {
    if us == [] {
      assert ts + us == ts;
    } else {
      var init := us[..|us| - 1];
      assert (ts + us)[..|ts + us| - 1] == ts + init;
      ColumnKeysStable(ts, init);
    }
  }

  /**
   * Type columns come from rdf:type statements and from nothing else; a direct
   * column exists exactly for the other predicates in use; a reverse column
   * never exists without its direct column.
   */
  lemma {:induction false} ColumnKeysCover(ts: seq<Triple>)
    ensures forall c :: Type(c) in ColumnKeys(ts) <==> exists t :: t in ts && t.pred == RDF_TYPE && NodeString(t.obj) == c
    ensures forall p :: Direct(p) in ColumnKeys(ts) <==> p != RDF_TYPE && exists t :: t in ts && t.pred == p
    ensures forall p :: Inverse(p) in ColumnKeys(ts) ==> Direct(p) in ColumnKeys(ts)
    decreases |ts|
  {
    if ts != [] {
      var init, t := ts[..|ts| - 1], ts[|ts| - 1];
      ColumnKeysCover(init);
      assert ts == init + [t];
    }
  }

  /** Each column key is registered once. */
  lemma {:induction false} ColumnKeysDistinct(ts: seq<Triple>)
    ensures Distinct(ColumnKeys(ts))
    decreases |ts|
  {
    if ts != [] {
      var init, t := ts[..|ts| - 1], ts[|ts| - 1];
      ColumnKeysDistinct(init);
      ColumnKeysCover(init);
    }
  }

  /** A reverse column sits immediately after the direct column of the same predicate. */
  lemma {:induction false} InverseFollowsDirect(ts: seq<Triple>)
    ensures forall j :: 0 <= j < |ColumnKeys(ts)| && ColumnKeys(ts)[j].Inverse? ==>
              0 < j && ColumnKeys(ts)[j - 1] == Direct(ColumnKeys(ts)[j].uri)
    decreases |ts|
  {
    if ts != [] {
      InverseFollowsDirect(ts[..|ts| - 1]);
    }
  }

  /** Appending a statement does not move the first use of a predicate that is already in use. */
  lemma FirstUseKept(init: seq<Triple>, t: Triple, p: string)
    requires exists u :: u in init && u.pred == p
    ensures FirstUseHasResourceObject(init + [t], p) <==> FirstUseHasResourceObject(init, p)
  {
    var ts := init + [t];
    var u :| u in init && u.pred == p;
    var k :| 0 <= k < |init| && init[k] == u;
    if FirstUseHasResourceObject(ts, p) {
      var i :| 0 <= i < |ts| && ts[i].pred == p && ts[i].obj.Res? && (forall j :: 0 <= j < i ==> ts[j].pred != p);
      assert ts[k] == u;
      assert i <= k;
      assert forall j :: 0 <= j < i ==> init[j] == ts[j];
    }
    if FirstUseHasResourceObject(init, p) {
      var i :| 0 <= i < |init| && init[i].pred == p && init[i].obj.Res? && (forall j :: 0 <= j < i ==> init[j].pred != p);
      assert forall j :: 0 <= j <= i ==> init[j] == ts[j];
    }
  }

  /** When `p` is not yet in use, the appended statement is its first use. */
  lemma FirstUseNew(init: seq<Triple>, t: Triple, p: string)
    requires forall u :: u in init ==> u.pred != p
    ensures FirstUseHasResourceObject(init + [t], p) <==> t.pred == p && t.obj.Res?
  {
    var ts := init + [t];
    assert ts[|init|] == t;
    assert forall j :: 0 <= j < |init| ==> ts[j] == init[j] && init[j] in init;
  }

  /**
   * A reverse column for `p` exists exactly when `p` is not rdf:type and the
   * first statement using `p` has a resource object; later statements of `p`
   * with resource objects do not create it.
   */
  lemma {:induction false} InverseColumnExists(ts: seq<Triple>, p: string)
    ensures Inverse(p) in ColumnKeys(ts) <==> p != RDF_TYPE && FirstUseHasResourceObject(ts, p)
    decreases |ts|
  {
    if ts != [] {
      var init, t := ts[..|ts| - 1], ts[|ts| - 1];
      assert ts == init + [t];
      InverseColumnExists(init, p);
      ColumnKeysCover(init);
      if Direct(p) in ColumnKeys(init) {
        FirstUseKept(init, t, p);
      } else if p != RDF_TYPE {
        FirstUseNew(init, t, p);
      }
    }
  }

  /** A reverse column of `p` is backed by some statement of `p` with a resource object. */
  lemma InverseColumnWitness(ts: seq<Triple>, p: string)
    requires Inverse(p) in ColumnKeys(ts)
    ensures exists t :: t in ts && t.pred == p && t.obj.Res?
  {
    InverseColumnExists(ts, p);
    var i :| 0 <= i < |ts| && ts[i].pred == p && ts[i].obj.Res? && (forall j :: 0 <= j < i ==> ts[j].pred != p);
    assert ts[i] in ts;
  }

  /** A statement already seen adds no row and no column. */
  lemma AppendSeenStatement(ts: seq<Triple>, t: Triple)
    requires t in ts
    ensures RowKeys(ts + [t]) == RowKeys(ts)
    ensures ColumnKeys(ts + [t]) == ColumnKeys(ts)
  {
    assert (ts + [t])[..|ts|] == ts;
    RowKeysCover(ts);
    ColumnKeysCover(ts);
  }

  /** The statement list with every statement written twice in a row. */
  function Doubled(ts: seq<Triple>): (r: seq<Triple>)
    ensures |r| == 2 * |ts|
    decreases |ts|
  {
    if ts == [] then [] else Doubled(ts[..|ts| - 1]) + [ts[|ts| - 1], ts[|ts| - 1]]
  }

  lemma {:induction false} DoubledSameStatements(ts: seq<Triple>)
    ensures forall t :: t in Doubled(ts) <==> t in ts
    decreases |ts|
  {
    if ts != [] {
      var init, t := ts[..|ts| - 1], ts[|ts| - 1];
      DoubledSameStatements(init);
      assert ts == init + [t];
    }
  }

  /** Doubling every statement leaves both key orders as they were. */
  lemma {:induction false} DoubledKeys(ts: seq<Triple>)
    ensures RowKeys(Doubled(ts)) == RowKeys(ts)
    ensures ColumnKeys(Doubled(ts)) == ColumnKeys(ts)
    decreases |ts|
  {
    if ts != [] {
      var init, t := ts[..|ts| - 1], ts[|ts| - 1];
      DoubledKeys(init);
      var once := Doubled(init) + [t];
      assert once[..|once| - 1] == Doubled(init);
      assert Doubled(ts)[..|Doubled(ts)| - 1] == once;
      assert once[|once| - 1] == t;
      AppendSeenStatement(once, t);
      assert Doubled(ts) == once + [t];
    }
  }

  /**
   * Duplicate tolerance: doubling every statement leaves both key orders and
   * every cell's justification as they were.
   */
  lemma DuplicatesChangeNothing(ts: seq<Triple>)
    ensures RowKeys(Doubled(ts)) == RowKeys(ts)
    ensures ColumnKeys(Doubled(ts)) == ColumnKeys(ts)
    ensures forall n, f :: Justifies(Doubled(ts), n, f) <==> Justifies(ts, n, f)
  {
    DoubledKeys(ts);
    DoubledSameStatements(ts);
  }

  /** A dense index map has exactly as many entries as there are keys (instanceMap.size() is the row count). */
  lemma {:induction false} IndexedBySize<K>(keys: seq<K>, m: map<K, nat>)
    requires IndexedBy(keys, m)
    ensures |m| == |keys|
    decreases |keys|
  {
    if keys != [] {
      var init, k := keys[..|keys| - 1], keys[|keys| - 1];
      var m' := m - {k};
      forall i | 0 <= i < |init|
        ensures init[i] in m' && m'[init[i]] == i
      {
        assert m[keys[i]] == i && m[k] == |keys| - 1;
      }
      forall x | x in m'
        ensures x in init
      {
        var j :| 0 <= j < |keys| && keys[j] == x;
      }
      IndexedBySize(init, m');
      assert m.Keys == m'.Keys + {k};
    }
  }

  /** In a dense index map every index is in range and names its own key. */
  lemma IndexedByLookup<K>(keys: seq<K>, m: map<K, nat>)
    requires IndexedBy(keys, m)
    ensures forall k :: k in m ==> m[k] < |keys| && keys[m[k]] == k
  {
    forall k | k in m
      ensures m[k] < |keys| && keys[m[k]] == k
    {
      var i :| 0 <= i < |keys| && keys[i] == k;
    }
  }

  /** What a map that may or may not be dense promises when it is: its size and its lookups. */
  lemma IndexedByFacts<K>(keys: seq<K>, m: map<K, nat>)
    ensures IndexedBy(keys, m) ==> |m| == |keys| && forall k :: k in m ==> m[k] < |keys| && keys[m[k]] == k
  {
    if IndexedBy(keys, m) {
      IndexedBySize(keys, m);
      IndexedByLookup(keys, m);
    }
  }

  /** Inserting an absent key at the next index keeps the map dense. */
  lemma IndexedByAppend<K>(keys: seq<K>, m: map<K, nat>, k: K)
    requires IndexedBy(keys, m) && k !in m
    ensures IndexedBy(keys + [k], m[k := |keys|])
  {
    var keys', m' := keys + [k], m[k := |keys|];
    forall i | 0 <= i < |keys'|
      ensures keys'[i] in m' && m'[keys'[i]] == i
    {
      if i < |keys| {
        assert keys'[i] == keys[i] != k;
      }
    }
  }

  /**
   * The resources Jena hands populateMatrix for a column are exactly those the
   * column's rule justifies.
   */
  lemma QueriesMatchRules(ts: seq<Triple>, n: Resource)
    ensures forall p :: n in SubjectsWithProperty(ts, p) <==> Justifies(ts, n, Direct(p))
    ensures forall p :: Res(n) in ObjectsOfProperty(ts, p) <==> Justifies(ts, n, Inverse(p))
    ensures forall c :: n in SubjectsWithValue(ts, RDF_TYPE, Res(Named(c))) <==> Justifies(ts, n, Type(c))
  {
  }
}
