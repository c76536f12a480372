/** Small graphs and patterns that show the encoder's and decoder's rules at work. */
module Scenarios {
  import opened Strings
  import opened Rdf
  import opened Columns
  import opened Encoding
  import opened Decoding

  /**
   * Two named objects of one predicate: the code gives a row to the subject
   * only. The reverse column exists, and both objects justify a 1 in it, but
   * neither has a row, so the only row reads [1, 0].
   */
  lemma SubjectAndNamedObjects()
    ensures var ts := [Triple(Named("a"), "knows", Res(Named("b"))), Triple(Named("a"), "knows", Res(Named("c")))];
            && RowKeys(ts) == [Named("a")]
            && ColumnKeys(ts) == [Direct("knows"), Inverse("knows")]
            && Justifies(ts, Named("a"), Direct("knows")) && !Justifies(ts, Named("a"), Inverse("knows"))
            && Justifies(ts, Named("b"), Inverse("knows")) && Justifies(ts, Named("c"), Inverse("knows"))
  {
    var ts := [Triple(Named("a"), "knows", Res(Named("b"))), Triple(Named("a"), "knows", Res(Named("c")))];
    assert ts[..1] == [ts[0]];
    assert ts[..1][..0] == [];
    assert ts[0] in ts && ts[1] in ts;
  }

  /**
   * The first statement of a predicate decides its reverse column: a literal
   * first keeps it out even though a later statement has a blank-node object,
   * which does get a row.
   */
  lemma FirstUseDecidesReverseColumn()
    ensures var ts := [Triple(Named("a"), "p", Lit("x")), Triple(Named("a"), "p", Res(Anon("b")))];
            && ColumnKeys(ts) == [Direct("p")]
            && RowKeys(ts) == [Named("a"), Anon("b")]
            && Justifies(ts, Anon("b"), Inverse("p"))
  {
    var ts := [Triple(Named("a"), "p", Lit("x")), Triple(Named("a"), "p", Res(Anon("b")))];
    assert ts[..1] == [ts[0]];
    assert ts[..1][..0] == [];
    assert ts[1] in ts;
  }

  /**
   * A type assertion gives one row and one type column, and no direct or
   * reverse column. The column is populated from URI classes only: with a
   * literal in the object position the column exists but holds no 1.
   */
  lemma TypeAssertion()
    ensures var ts := [Triple(Named("x"), RDF_TYPE, Res(Named("Person")))];
            && RowKeys(ts) == [Named("x")]
            && ColumnKeys(ts) == [Type("Person")]
            && Justifies(ts, Named("x"), Type("Person"))
    ensures var ts := [Triple(Named("x"), RDF_TYPE, Lit("Person"))];
            ColumnKeys(ts) == [Type("Person")] && !Justifies(ts, Named("x"), Type("Person"))
  {
    var ts := [Triple(Named("x"), RDF_TYPE, Res(Named("Person")))];
    assert ts[..0] == [];
    assert ts[0] in ts;
    var us := [Triple(Named("x"), RDF_TYPE, Lit("Person"))];
    assert us[..0] == [];
  }

  /**
   * Reconnection: the reverse item of the second pattern becomes an edge to
   * the first pattern, which holds the direct item; the direct item itself
   * becomes an edge to its placeholder.
   */
  lemma ReverseItemReconnects(hash: string -> nat)
    ensures Injective(map[0 := "knows", 1 := "knows::R"])
    ensures var ps, labels := [Pattern({0, 1}, {0}), Pattern({2}, {1})], map[0 := "knows", 1 := "knows::R"];
            && ItemTriple(ps, labels, hash, 1, 1) == Some(Triple(PatternNode(1), "knows", Res(PatternNode(0))))
            && ItemTriple(ps, labels, hash, 0, 0) == Some(Triple(PatternNode(0), "knows", Res(Placeholder(hash, "knows"))))
  {
    var ps, labels := [Pattern({0, 1}, {0}), Pattern({2}, {1})], map[0 := "knows", 1 := "knows::R"];
    AbsentFirstChar("knows", REVERSE);
    AbsentFirstChar("knows", CLASS);
    assert Classify(labels[1]) == Inverse("knows") by {
      LabelRoundTrip(Inverse("knows"));
      assert Label(Inverse("knows")) == "knows::R";
    }
    assert Classify(labels[0]) == Direct("knows") by {
      LabelRoundTrip(Direct("knows"));
    }
    assert FindTargetPattern(ps, labels, 1) == 0 by {
      assert EndsWith(labels[1], REVERSE);
      assert HasItemLabelled(ps[0], labels, "knows");
    }
  }

  /** An unresolvable reverse item: no pattern holds the direct item, and the reverse item adds nothing. */
  lemma ReverseItemDropped(hash: string -> nat)
    ensures Injective(map[0 := "likes", 1 := "likes::R"])
    ensures var ps, labels := [Pattern({0}, {1})], map[0 := "likes", 1 := "likes::R"];
            ItemTriple(ps, labels, hash, 0, 1) == None
  {
    var ps, labels := [Pattern({0}, {1})], map[0 := "likes", 1 := "likes::R"];
    assert Classify(labels[1]) == Inverse("likes") by {
      AbsentFirstChar("likes", REVERSE);
      AbsentFirstChar("likes", CLASS);
      LabelRoundTrip(Inverse("likes"));
      assert Label(Inverse("likes")) == "likes::R";
    }
    assert FindTargetPattern(ps, labels, 1) == -1 by {
      assert EndsWith(labels[1], REVERSE);
      assert !HasItemLabelled(ps[0], labels, "likes");
    }
  }
}
