/**
 * Column keys of the matrix. The mapper keeps them as strings: a predicate URI
 * for a direct column, the predicate URI followed by "::R" for a reverse column,
 * and a class string followed by "::C" for a type column. Here they are a tagged
 * value, with Label giving the string the mapper stores and Classify the suffix
 * test the summary-graph builder applies to such a string.
 */
module Columns {
  import opened Strings

  const REVERSE: string := "::R"
  const CLASS: string := "::C"

  datatype Feature = Direct(uri: string) | Inverse(uri: string) | Type(uri: string)

  /** The string key under which the mapper stores a column. */
  function Label(f: Feature): string {
    match f
    case Direct(p) => p
    case Inverse(p) => p + REVERSE
    case Type(c) => c + CLASS
  }

  /** A key is the column's URI, followed by the reverse or class marker for those kinds. */
  lemma LabelShape(f: Feature)
    ensures f.Direct? ==> Label(f) == f.uri
    ensures f.Inverse? ==> EndsWith(Label(f), REVERSE) && Label(f)[..|Label(f)| - |REVERSE|] == f.uri
    ensures f.Type? ==> EndsWith(Label(f), CLASS) && Label(f)[..|Label(f)| - |CLASS|] == f.uri
  {
  }

  /**
   * The decoder's dispatch on a label: a "::R" suffix first, then any "::C"
   * inside the label, otherwise a direct predicate; the marker is removed
   * everywhere it occurs, as String.replace does.
   */
  function Classify(key: string): (f: Feature)
    ensures f.Inverse? <==> EndsWith(key, REVERSE)
    ensures f.Type? <==> !EndsWith(key, REVERSE) && Contains(key, CLASS)
    ensures f.Direct? ==> f.uri == key
  {
    if EndsWith(key, REVERSE) then Inverse(RemoveAll(key, REVERSE))
    else if Contains(key, CLASS) then Type(RemoveAll(key, CLASS))
    else Direct(key)
  }

  /** A URI or class string that holds neither marker. */
  predicate Unmarked(s: string) {
    !Contains(s, REVERSE) && !Contains(s, CLASS)
  }

  /** Decoding the label of a column recovers the column, as long as its URI holds no marker. */
  lemma LabelRoundTrip(f: Feature)
    requires Unmarked(f.uri)
    ensures Classify(Label(f)) == f
  {
    match f
    case Direct(p) =>
      if EndsWith(p, REVERSE) {
        EndsWithContains(p, REVERSE);
      }
    case Inverse(p) =>
      assert (p + REVERSE)[|p + REVERSE| - 3..] == REVERSE;
      RemoveAppendedMarker(p, REVERSE);
    case Type(c) =>
      var l := c + CLASS;
      assert l[|l| - 1] == 'C';
      assert l[|l| - 3..] == CLASS;
      EndsWithContains(l, CLASS);
      RemoveAppendedMarker(c, CLASS);
  }

  /** Distinct unmarked columns have distinct labels, so the label map can be inverted. */
  lemma LabelInjective(f: Feature, g: Feature)
    requires Unmarked(f.uri) && Unmarked(g.uri)
    ensures Label(f) == Label(g) ==> f == g
  {
    if Label(f) == Label(g) {
      LabelRoundTrip(f);
      LabelRoundTrip(g);
    }
  }
}
