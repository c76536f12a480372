/** The encoder: MatrixBuilder turns the statement list into a 0/1 matrix over row and column keys. */
module MatrixBuilding {
  import opened Rdf
  import opened Columns
  import opened Encoding

  class MatrixBuilder {
    const model: seq<Triple>

    /** Column key to column index (a LinkedHashMap); predicateKeys is its insertion order. */
    var predicateMap: map<Feature, nat>
    var predicateKeys: seq<Feature>

    /** Row resource to row index (a LinkedHashMap); instanceKeys is its insertion order. */
    var instanceMap: map<Resource, nat>
    var instanceKeys: seq<Resource>

    /** Null until Build runs. */
    var matrix: array2?<int>

    constructor(model: seq<Triple>)
      ensures this.model == model
      ensures predicateMap == map[] && predicateKeys == []
      ensures instanceMap == map[] && instanceKeys == []
      ensures matrix == null
    {
      this.model := model;
      predicateMap, predicateKeys := map[], [];
      instanceMap, instanceKeys := map[], [];
      matrix := null;
    }

    /**
     * The state Build leaves: first-seen dense indices for rows and columns, an
     * R x C matrix, and a 1 in exactly the cells some statement justifies.
     */
    ghost predicate Built()
      reads this, matrix
    {
      && instanceKeys == RowKeys(model) && IndexedBy(instanceKeys, instanceMap)
      && predicateKeys == ColumnKeys(model) && IndexedBy(predicateKeys, predicateMap)
      && matrix != null
      && matrix.Length0 == |instanceKeys| && matrix.Length1 == |predicateKeys|
      && forall r, c :: 0 <= r < matrix.Length0 && 0 <= c < matrix.Length1 ==>
           matrix[r, c] == if Justifies(model, instanceKeys[r], predicateKeys[c]) then 1 else 0
    }

    /** Two passes: index discovery, then allocation of a zero matrix and population. */
    method Build()
      requires instanceMap == map[] && instanceKeys == []
      requires predicateMap == map[] && predicateKeys == []
      modifies this
      ensures Built() && fresh(matrix)
    {
      var statements := model;
      var width, height := CalculateDimensions(statements);
      matrix := new int[width, height]((r, c) => 0);
      PopulateMatrix();
    }

    /** First pass: registers rows and columns in first-seen order and returns the matrix dimensions. */
    method CalculateDimensions(statements: seq<Triple>) returns (width: nat, height: nat)
      requires instanceMap == map[] && instanceKeys == []
      requires predicateMap == map[] && predicateKeys == []
      modifies this
      ensures instanceKeys == RowKeys(statements) && IndexedBy(instanceKeys, instanceMap)
      ensures predicateKeys == ColumnKeys(statements) && IndexedBy(predicateKeys, predicateMap)
      ensures width == |instanceKeys| && height == |predicateKeys|
      ensures matrix == old(matrix)
    {
      var instanceIndex := 0;
      var predicateIndex := 0;
      for k := 0 to |statements|
        invariant instanceKeys == RowKeys(statements[..k]) && IndexedBy(instanceKeys, instanceMap)
        invariant predicateKeys == ColumnKeys(statements[..k]) && IndexedBy(predicateKeys, predicateMap)
        invariant instanceIndex == |instanceKeys| && predicateIndex == |predicateKeys|
        invariant matrix == old(matrix)
      {
        var stmt := statements[k];
        assert statements[..k + 1][..k] == statements[..k];
        ColumnKeysCover(statements[..k]);
        instanceIndex := RegisterInstances(stmt, instanceIndex);
        predicateIndex := RegisterPredicates(stmt, predicateIndex);
      }
      assert statements[..|statements|] == statements;
      width, height := instanceIndex, predicateIndex;
    }

    /** The row half of one step of the first pass: the subject, then a blank-node object. */
    method RegisterInstances(stmt: Triple, instanceIndex: nat) returns (next: nat)
      requires IndexedBy(instanceKeys, instanceMap) && instanceIndex == |instanceKeys|
      modifies this`instanceMap, this`instanceKeys
      ensures instanceKeys == RowStep(old(instanceKeys), stmt) && IndexedBy(instanceKeys, instanceMap)
      ensures next == |instanceKeys|
    {
      next := instanceIndex;
      var subject, obj := stmt.subj, stmt.obj;
      if subject !in instanceMap {
        PutInstance(subject, next);
        next := next + 1;
      }
      // only a blank-node object gets a row of its own
      if obj.Res? && obj.r.Anon? {
        var objRes := obj.r;
        if objRes !in instanceMap {
          PutInstance(objRes, next);
          next := next + 1;
        }
      }
    }

    /**
     * The column half of one step of the first pass: a type column for rdf:type;
     * otherwise, on the predicate's first appearance, its direct column and,
     * when the object is a resource, its reverse column.
     */
    method RegisterPredicates(stmt: Triple, predicateIndex: nat) returns (next: nat)
      requires IndexedBy(predicateKeys, predicateMap) && predicateIndex == |predicateKeys|
      requires Inverse(stmt.pred) in predicateKeys ==> Direct(stmt.pred) in predicateKeys
      modifies this`predicateMap, this`predicateKeys
      ensures predicateKeys == ColumnStep(old(predicateKeys), stmt) && IndexedBy(predicateKeys, predicateMap)
      ensures next == |predicateKeys|
    {
      next := predicateIndex;
      var pred, obj := stmt.pred, stmt.obj;
      if pred == RDF_TYPE {
        var typeKey := Type(NodeString(obj));
        if typeKey !in predicateMap {
          PutPredicate(typeKey, next);
          next := next + 1;
        }
      } else {
        var predKey := Direct(pred);
        var revKey := Inverse(pred);
        if predKey !in predicateMap {
          PutPredicate(predKey, next);
          next := next + 1;
          if obj.Res? {
            PutPredicate(revKey, next);
            next := next + 1;
          }
        }
      }
    }

    /** instanceMap.put of an absent resource at the next row index. */
    method PutInstance(res: Resource, index: nat)
      requires IndexedBy(instanceKeys, instanceMap) && res !in instanceMap && index == |instanceKeys|
      modifies this`instanceMap, this`instanceKeys
      ensures instanceKeys == old(instanceKeys) + [res] && instanceMap == old(instanceMap)[res := index]
      ensures IndexedBy(instanceKeys, instanceMap)
    {
      IndexedByAppend(instanceKeys, instanceMap, res);
      instanceMap := instanceMap[res := index];
      instanceKeys := instanceKeys + [res];
    }

    /** predicateMap.put of an absent column key at the next column index. */
    method PutPredicate(key: Feature, index: nat)
      requires IndexedBy(predicateKeys, predicateMap) && key !in predicateMap && index == |predicateKeys|
      modifies this`predicateMap, this`predicateKeys
      ensures predicateKeys == old(predicateKeys) + [key] && predicateMap == old(predicateMap)[key := index]
      ensures IndexedBy(predicateKeys, predicateMap)
    {
      IndexedByAppend(predicateKeys, predicateMap, key);
      predicateMap := predicateMap[key := index];
      predicateKeys := predicateKeys + [key];
    }

    /** Second pass: for each column, in insertion order, sets the rows that Jena reports for it. */
    method PopulateMatrix()
      requires matrix != null
      requires IndexedBy(instanceKeys, instanceMap) && IndexedBy(predicateKeys, predicateMap)
      requires matrix.Length0 == |instanceKeys| && matrix.Length1 == |predicateKeys|
      requires forall r, c :: 0 <= r < matrix.Length0 && 0 <= c < matrix.Length1 ==> matrix[r, c] == 0
      modifies matrix
      ensures forall r, c :: 0 <= r < matrix.Length0 && 0 <= c < matrix.Length1 ==>
                matrix[r, c] == if Justifies(model, instanceKeys[r], predicateKeys[c]) then 1 else 0
    {
      for j := 0 to |predicateKeys|
        invariant forall r, c :: 0 <= r < matrix.Length0 && 0 <= c < matrix.Length1 ==>
                    matrix[r, c] == if c < j && Justifies(model, instanceKeys[r], predicateKeys[c]) then 1 else 0
      {
        var predKey := predicateKeys[j];
        var col := predicateMap[predKey];
        var hits: set<Resource>;
        match predKey {
          case Inverse(base) =>
            // reverse column: resource objects of the base predicate
            hits := set o | o in ObjectsOfProperty(model, base) && o.Res? :: o.r;
          case Type(classUri) =>
            // type column: subjects typed with the class URI
            hits := SubjectsWithValue(model, RDF_TYPE, Res(Named(classUri)));
          case Direct(p) =>
            // direct column: subjects of the predicate
            hits := SubjectsWithProperty(model, p);
        }
        forall r | 0 <= r < matrix.Length0
          ensures instanceKeys[r] in hits <==> Justifies(model, instanceKeys[r], predKey)
        {
          QueriesMatchRules(model, instanceKeys[r]);
        }
        MarkRows(col, hits);
      }
    }

    /** The inner while loops of populateMatrix: a 1 in column `col` for every hit that has a row. */
    method MarkRows(col: nat, hits: set<Resource>)
      requires matrix != null && col < matrix.Length1
      requires matrix.Length0 == |instanceKeys| && IndexedBy(instanceKeys, instanceMap)
      modifies matrix
      ensures forall r, c :: 0 <= r < matrix.Length0 && 0 <= c < matrix.Length1 ==>
                matrix[r, c] == if c == col && instanceKeys[r] in hits then 1 else old(matrix[r, c])
    {
      var todo := hits;
      while todo != {}
        invariant todo <= hits
        invariant forall r, c :: 0 <= r < matrix.Length0 && 0 <= c < matrix.Length1 ==>
                    matrix[r, c] == if c == col && instanceKeys[r] in hits - todo then 1 else old(matrix[r, c])
        decreases todo
      {
        var res :| res in todo;
        if res in instanceMap {
          var row := instanceMap[res];
          matrix[row, col] := 1;
        }
        todo := todo - {res};
      }
    }

    /**
     * getMatrix: after Build, instanceMap.size() rows and predicateMap.size()
     * columns, and the cell a resource and a column key index through the two
     * maps is 1 when a statement justifies it and 0 otherwise.
     */
    function GetMatrix(): (m: array2?<int>)
      reads this, matrix
      requires Built()
      ensures m != null && m.Length0 == |GetInstanceMap()| && m.Length1 == |GetPredicateMap()|
      ensures forall n, f :: n in GetInstanceMap() && f in GetPredicateMap() ==>
                && GetInstanceMap()[n] < m.Length0 && GetPredicateMap()[f] < m.Length1
                && m[GetInstanceMap()[n], GetPredicateMap()[f]] == if Justifies(model, n, f) then 1 else 0
    {
      IndexedBySize(instanceKeys, instanceMap);
      IndexedBySize(predicateKeys, predicateMap);
      IndexedByLookup(instanceKeys, instanceMap);
      IndexedByLookup(predicateKeys, predicateMap);
      matrix
    }

    /** getPredicateMap: after Build, each column key mapped to its first-seen position, and nothing else. */
    function GetPredicateMap(): (m: map<Feature, nat>)
      reads this, matrix
      ensures Built() ==>
                && |m| == |ColumnKeys(model)|
                && (forall j :: 0 <= j < |ColumnKeys(model)| ==> ColumnKeys(model)[j] in m && m[ColumnKeys(model)[j]] == j)
                && (forall f :: f in m ==> m[f] < |m| && ColumnKeys(model)[m[f]] == f)
    {
      IndexedByFacts(predicateKeys, predicateMap);
      predicateMap
    }

    /** getInstanceMap: after Build, each row resource mapped to its first-seen position, and nothing else. */
    function GetInstanceMap(): (m: map<Resource, nat>)
      reads this, matrix
      ensures Built() ==>
                && |m| == |RowKeys(model)|
                && (forall j :: 0 <= j < |RowKeys(model)| ==> RowKeys(model)[j] in m && m[RowKeys(model)[j]] == j)
                && (forall n :: n in m ==> m[n] < |m| && RowKeys(model)[m[n]] == n)
    {
      IndexedByFacts(instanceKeys, instanceMap);
      instanceMap
    }
  }
}
