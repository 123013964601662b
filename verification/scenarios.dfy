/** Worked examples of the extractor and the dedup loop on small documents. */
module Scenarios {
  import opened Wrappers
  import opened Json
  import opened DotPath
  import opened FixedFormat
  import opened Extractor
  import opened Uniq

  /** `{"a":"x","b":1}`, `{"a":"x","b":2}`, `{"a":"y","b":3}` under key `a`: the second is a duplicate. */
  lemma DuplicateStringKeyDropped()
    ensures var d1 := map["a" := Str("x"), "b" := Num(1.0)];
      var d2 := map["a" := Str("x"), "b" := Num(2.0)];
      var d3 := map["a" := Str("y"), "b" := Num(3.0)];
      Dedup(KeyOf("a"), [d1, d2, d3]) == State([d1, d3], {"x", "y"}, None)
  {
    var d1 := map["a" := Str("x"), "b" := Num(1.0)];
    var d2 := map["a" := Str("x"), "b" := Num(2.0)];
    var d3 := map["a" := Str("y"), "b" := Num(3.0)];
    var docs := [d1, d2, d3];
    SplitSingle("a");
    assert docs[..2] == [d1, d2] && docs[..2][..1] == [d1] && [d1][..0] == [];
    assert Dedup(KeyOf("a"), [d1]) == State([d1], {"x"}, None);
    assert Dedup(KeyOf("a"), [d1, d2]) == State([d1], {"x"}, None);
  }

  /** `{"n":3}` then `{"n":3.0}` under key `n`: both decode to the value 3 and share the key "3.000000". */
  lemma NumberKeyCollapses()
    ensures var d1 := map["n" := Num(3.0)];
      var d2 := map["n" := Num(3.0)];
      Dedup(KeyOf("n"), [d1, d2]) == State([d1], {"3.000000"}, None)
  {
    var d := map["n" := Num(3.0)];
    assert StringValue("n", d) == Success("3.000000") by {
      SplitSingle("n");
      FormatFixed6Integral();
      StringValueNumberLeaf("n", d, 3.0);
    }
    assert Dedup(KeyOf("n"), [d]) == State([d], {"3.000000"}, None) by {
      DedupAppend(KeyOf("n"), [], d);
      assert [] + [d] == [d];
    }
    assert Dedup(KeyOf("n"), [d, d]) == State([d], {"3.000000"}, None) by {
      DedupAppend(KeyOf("n"), [d], d);
      assert [d] + [d] == [d, d];
    }
  }

  /**
    `{"a":{"b":"v"}}`: both `a.b` and `a.b.c` give "v", the string leaf
    ending the lookup whatever follows.
   */
  lemma StringLeafEndsPath()
    ensures StringValue("a.b", map["a" := Obj(map["b" := Str("v")])]) == Success("v")
    ensures StringValue("a.b.c", map["a" := Obj(map["b" := Str("v")])]) == Success("v")
  {
    var doc := map["a" := Obj(map["b" := Str("v")])];
    SplitJoin(["a", "b"]);
    assert Join(["a", "b"]) == "a.b" by {
      assert ["a", "b"][1..] == ["b"];
    }
    StringValueDescends("a.b", doc, map["b" := Str("v")]);
    StringValueThirdSegmentIgnored("a", "b", "c", doc);
  }

  /**
    `{"a":{"b":{"c":"v"}}}` under `a.b.c`: the descent looks up `b` alone,
    finds an object with no segment left, and fails.
   */
  lemma ThreeLevelPathFails()
    ensures StringValue("a.b.c", map["a" := Obj(map["b" := Obj(map["c" := Str("v")])])]) == Failure(NoValueFound)
  {
    var inner := map["b" := Obj(map["c" := Str("v")])];
    var doc := map["a" := Obj(inner)];
    SplitJoin(["a", "b"]);
    assert Join(["a", "b"]) == "a.b" by {
      assert ["a", "b"][1..] == ["b"];
    }
    StringValueThirdSegmentIgnored("a", "b", "c", doc);
    StringValueDescends("a.b", doc, inner);
    StringValueObjectAtEnd("b", inner);
  }

  /** A boolean under the key stops the run before anything after it is written. */
  lemma BooleanStopsRun()
    ensures var d1 := map["k" := Str("x")];
      var d2 := map["k" := Bool(true)];
      var d3 := map["k" := Str("y")];
      Dedup(KeyOf("k"), [d1, d2, d3]) == State([d1], {"x"}, Some(UnknownType))
  {
    var d1 := map["k" := Str("x")];
    var d2 := map["k" := Bool(true)];
    var d3 := map["k" := Str("y")];
    var docs := [d1, d2, d3];
    SplitSingle("k");
    assert docs[..2] == [d1, d2] && docs[..2][..1] == [d1] && [d1][..0] == [];
    assert Dedup(KeyOf("k"), [d1]) == State([d1], {"x"}, None);
    assert StringValue("k", d2) == Failure(UnknownType);
    assert Dedup(KeyOf("k"), [d1, d2]) == State([d1], {"x"}, Some(UnknownType));
  }
}
