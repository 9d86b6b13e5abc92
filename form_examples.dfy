/** Worked examples of the form parse node on concrete text. */
module FormExamples {
  import opened Common
  import opened JavaText
  import opened FormSerialization

  /** Any casing of "true" is true. */
  lemma ExampleTrue()
    ensures BooleanValue("TRUE") == Value(true)
  {
    UrlDecodePlain("TRUE");
    assert ToLower("TRUE") == "true";
  }

  /** Words other than true, false, 1 and 0 give null. */
  lemma ExampleYes()
    ensures BooleanValue("yes") == Null
  {
    UrlDecodePlain("yes");
    assert ToLower("yes") == "yes";
  }

  /** Any casing of "null" is the null string; the boolean getter then
      dereferences null. */
  lemma ExampleNull()
    ensures StringValue("NuLl") == Null
    ensures BooleanValue("null") == Thrown(NullPointerException)
  {
    UrlDecodePlain("NuLl");
    UrlDecodePlain("null");
    assert ToLower("NuLl") == "null";
    assert ToLower("null") == "null";
  }

  /** With a repeated key the first value is kept. */
  lemma ExampleRepeatedKey()
    ensures ParseFields("t=1&t=2") == Ok(map["t" := "1"])
  {
    var fields := [("t", "1"), ("t", "2")];
    TrimFixedIff("t");
    TrimFixedIff("1");
    TrimFixedIff("2");
    assert EncodeField(("t", "1")) == "t=1" && EncodeField(("t", "2")) == "t=2";
    assert EncodeSegments(fields) == ["t=1", "t=2"];
    assert Join(["t=1", "t=2"], '&') == "t=1&t=2";
    assert FirstWins(fields) == map["t" := "1"] by {
      assert fields[..1] == [("t", "1")];
      assert [("t", "1")][..0] == [];
    }
    ParseEncodedForm(fields);
  }

  /** Two fields, each under its own key. */
  lemma ExampleTwoFields()
    ensures ParseFields("a=1&b=2") == Ok(map["a" := "1", "b" := "2"])
  {
    var fields := [("a", "1"), ("b", "2")];
    TrimFixedIff("a");
    TrimFixedIff("b");
    TrimFixedIff("1");
    TrimFixedIff("2");
    assert EncodeField(("a", "1")) == "a=1" && EncodeField(("b", "2")) == "b=2";
    assert EncodeSegments(fields) == ["a=1", "b=2"];
    assert Join(["a=1", "b=2"], '&') == "a=1&b=2";
    assert FirstWins(fields) == map["a" := "1", "b" := "2"] by {
      assert fields[..1] == [("a", "1")];
      assert [("a", "1")][..0] == [];
    }
    ParseEncodedForm(fields);
  }

  /** A one-digit number reads back. */
  lemma ExampleIntegerOne()
    ensures IntegerValue("1") == Value(1)
  {
    UrlDecodePlain("1");
    assert ParseDecimal("1") == Some(1) by { assert "1"[..0] == []; }
  }

  /** A leading minus sign is accepted. */
  lemma ExampleIntegerNegative()
    ensures IntegerValue("-25") == Value(-25)
  {
    UrlDecodePlain("-25");
    assert ParseDecimal("-25") == Some(-25) by {
      assert "-25"[1..] == "25" && "25"[..1] == "2" && "2"[..0] == [];
    }
  }

  /** Exponent notation is not an integer: the getter returns null. */
  lemma ExampleIntegerExponent()
    ensures IntegerValue("1e3") == Null
  {
    UrlDecodePlain("1e3");
    assert !IsDigit("1e3"[1]);
  }

  /** "name=Alice&extra=1" against a table with only "name": the bag receives
      "extra" alone. */
  lemma ExampleAdditionalData<D>(nameDeserializer: D)
    ensures AdditionalData(AssignInputs(map["name" := "Alice", "extra" := "1"], map["name" := nameDeserializer],
                                        true, None, None))
            == map["extra" := "1"]
  {
    var m := AdditionalData(AssignInputs(map["name" := "Alice", "extra" := "1"], map["name" := nameDeserializer],
                                         true, None, None));
    assert m.Keys == {"extra"};
  }
}
