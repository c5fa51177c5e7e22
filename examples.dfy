/** Concrete uses of the option-code flag, worked through the model. */
module FlagsExamples {

  import opened Wrappers
  import opened Strconv
  import Strings
  import Csv
  import opened Flags

  lemma DecimalExamples()
    ensures Decimal(1) == "1" && Decimal(2) == "2" && Decimal(3) == "3" && Decimal(6) == "6"
    ensures Decimal(12) == "12" && Decimal(255) == "255"
  {
    assert Decimal(25) == Decimal(2) + "5";
    assert Decimal(12) == Decimal(1) + "2";
  }

  /** The two occurrences of the repeated-flag example parse as [1, 3, 6] and [12]. */
  lemma ParseOccurrences()
    ensures Parse("1,3,6") == Success([1, 3, 6])
    ensures Parse("12") == Success([12])
    ensures Parse("1,2") == Success([1, 2])
    ensures Parse("3") == Success([3])
  {
    DecimalExamples();
    ParseDecimalList([1, 3, 6]);
    assert DecimalTokens([1, 3, 6]) == ["1", "3", "6"];
    assert Strings.Join(["1", "3", "6"], ",") == "1,3,6";
    ParseDecimalList([12]);
    assert DecimalTokens([12]) == ["12"];
    ParseDecimalList([1, 2]);
    assert DecimalTokens([1, 2]) == ["1", "2"];
    assert Strings.Join(["1", "2"], ",") == "1,2";
    ParseDecimalList([3]);
    assert DecimalTokens([3]) == ["3"];
  }

  /** `--options=1,3,6 --options=12` accumulates to [1, 3, 6, 12], recovered through the flag set. */
  method RepeatedFlag() returns (codes: Result<seq<uint8>, LookupError>)
    ensures codes == Success([1, 3, 6, 12])
  {
    var first, second := "1,3,6", "12";
    ParseOccurrences();
    assert Parse(first) == Success([1, 3, 6]) && Parse(second) == Success([12]);
    var v := new OptionCodeSliceValue();
    var e1 := v.Set(first);
    var e2 := v.Set(second);
    assert v.value == [1, 3, 6] + [12] == [1, 3, 6, 12];
    codes := GetOptionCodes(map["options" := OptionCodes(v)], "options");
  }

  /** "1,2" then "3" gives [1, 2, 3]: the second occurrence appends. */
  lemma AccumulateTwice()
    ensures Run(Fresh, ["1,2", "3"]).codes == [1, 2, 3]
    ensures Run(Fresh, ["1,2", "3"]).changed
  {
    ParseOccurrences();
    var vals := ["1,2", "3"];
    RunFromFresh(vals);
    var outcomes := Outcomes(vals);
    assert outcomes[0] == Success([1, 2]) && outcomes[1] == Success([3]);
    assert outcomes[1..] == [Success([3])] && outcomes[1..][1..] == [];
    assert Collected(vals) == [1, 2] + ([3] + []);
  }

  /** "256" is out of range: `Set("256")` fails and changes nothing. */
  lemma RejectOutOfRange(s: Snapshot)
    ensures Parse("256") == Failure(NumErr(ErrRange("256")))
    ensures Apply(s, "256") == s
  {
    ReadAsCSVPlain("256");
    Strings.SplitNoSep("256", ',');
    assert ParseUint8("256") == Failure(ErrRange("256"));
    assert ["256"][..0] == [];
    assert ParseCodes(["256"]) == Failure(ErrRange("256"));
  }

  /** "abc" is not decimal: `Set("abc")` fails and changes nothing. */
  lemma RejectNotDecimal(s: Snapshot)
    ensures Parse("abc") == Failure(NumErr(ErrSyntax("abc")))
    ensures Apply(s, "abc") == s
  {
    ReadAsCSVPlain("abc");
    Strings.SplitNoSep("abc", ',');
    assert ["abc"][..0] == [];
    assert ParseCodes(["abc"]) == Failure(ErrSyntax("abc"));
  }

  /** Leading zeros are allowed: "007" is the code 7. */
  lemma LeadingZeros()
    ensures Parse("007") == Success([7])
  {
    assert DecimalValue("007") == 7 by {
      assert "007"[..2] == "00" && "00"[..1] == "0" && "0"[..0] == "";
    }
    ParseSingleCode("007");
  }

  /** A comma inside quotes does not split: "\"1,2\"" is one token, which is not decimal. */
  lemma QuotedComma()
    ensures ReadAsCSV("\"1,2\"") == Success(["1,2"])
    ensures Parse("\"1,2\"") == Failure(NumErr(ErrSyntax("1,2")))
  {
    Csv.ReadWriteRoundTrip(["1,2"]);
    assert Csv.Escape("1,2") == "1,2" by {
      assert Csv.Escape("2") == "2";
      assert Csv.Escape(",2") == "," + Csv.Escape("2");
    }
    assert Csv.WriteRecord(["1,2"]) == "\"1,2\"";
    assert ["1,2"][..0] == [];
    assert ParseCodes(["1,2"]) == Failure(ErrSyntax("1,2"));
  }

  /** Only the first line is read: "1\n2" sets [1] alone. */
  lemma FirstLineOnly()
    ensures Parse("1\n2") == Success([1])
  {
    Csv.NormalizeNoCr("1\n2");
    assert Csv.Record("1\n2") == Csv.Fields("1\n2") == Csv.Unquoted("1\n2", []);
    assert "1\n2"[1..] == "\n2" && [] + ['1'] == "1";
    assert Csv.Unquoted("\n2", "1") == Success(["1"]);
    assert Csv.Unquoted("1\n2", "") == Csv.Unquoted("\n2", "" + "1");
    assert Csv.Read("1\n2") == Success(["1"]);
    DecimalExamples();
    ParseDecimal(1);
    assert ["1"][..0] == [];
    assert ParseCodes(["1"]) == Success([] + [1]);
    assert ReadAsCSV("1\n2") == Success(["1"]) && [] + [1 as uint8] == [1];
  }

  /** [1, 255] with only 1 named "A" renders as "[A,Unknown(255)]". */
  lemma RenderExample()
    ensures Render([1, 255], map[1 := "A"]) == "[A,Unknown(255)]"
  {
    DecimalExamples();
    assert Part(255, map[1 := "A"]) == "Unknown(255)";
    assert Parts([1, 255], map[1 := "A"]) == ["A", "Unknown(255)"];
  }

  /** A missing name and a flag of another type are both lookup errors. */
  method LookupErrors() returns (missing: Result<seq<uint8>, LookupError>, wrong: Result<seq<uint8>, LookupError>)
    ensures missing == Failure(NotDefined("x"))
    ensures wrong == Failure(WrongType("stringSlice"))
  {
    var v := new OptionCodeSliceValue();
    missing := GetOptionCodes(map["options" := OptionCodes(v)], "x");
    wrong := GetOptionCodes(map["x" := Other("stringSlice")], "x");
  }
}
