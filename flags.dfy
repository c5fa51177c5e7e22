/**
 * The repeatable `pflag` value of the DHCPv4 command: a list of option codes
 * given as comma-separated decimal numbers, accumulated over every occurrence
 * of the flag, and the helpers that recover the list from a flag set.
 */
module Flags {

  import opened Wrappers
  import opened Strconv
  import Strings
  import Csv

  /** The error `Set` returns: the CSV reader's, or `strconv.ParseUint`'s for the first bad token. */
  datatype SetError = CsvErr(csv: Csv.ReadError) | NumErr(num: NumError)

  /** The lookup helpers' errors: no flag of that name, or a flag of another type. */
  datatype LookupError = NotDefined(name: string) | WrongType(typeName: string)

  /** `readAsCSV`: the empty text is the empty list, anything else one CSV record. */
  function ReadAsCSV(val: string): (r: Result<seq<string>, Csv.ReadError>)
    ensures val == "" ==> r == Success([])
    ensures val != "" && r.Success? ==> |r.value| >= 1
    ensures '"' !in val ==> r.Success? || r == Failure(Csv.EOF)
  {
    if val == "" then Success([]) else Csv.Read(val)
  }

  /** The codes of the tokens, or the error of the first token that does not parse. */
  function ParseCodes(tokens: seq<string>): (r: Result<seq<uint8>, NumError>)
    ensures r.Success? ==> |r.value| == |tokens|
    ensures r.Failure? ==> exists j :: 0 <= j < |tokens| && ParseUint8(tokens[j]) == Failure(r.error)
    decreases |tokens|
  {
    if tokens == [] then Success([])
    else
      match ParseCodes(tokens[..|tokens| - 1])
      case Failure(e) => Failure(e)
      case Success(codes) =>
        match ParseUint8(tokens[|tokens| - 1])
        case Failure(e) => Failure(e)
        case Success(c) => Success(codes + [c])
  }

  /** What one occurrence of the flag contributes, or why `Set` rejects it. */
  function Parse(val: string): (r: Result<seq<uint8>, SetError>)
    ensures r.Success? ==> ReadAsCSV(val).Success? && |r.value| == |ReadAsCSV(val).value|
    ensures r.Failure? && r.error.NumErr? ==> ReadAsCSV(val).Success?
    ensures val == "" ==> r == Success([])
  {
    match ReadAsCSV(val)
    case Failure(e) => Failure(CsvErr(e))
    case Success(tokens) =>
      match ParseCodes(tokens)
      case Failure(e) => Failure(NumErr(e))
      case Success(codes) => Success(codes)
  }

  /** The state of an option-code value: the stored codes and the `changed` flag. */
  datatype Snapshot = Snapshot(codes: seq<uint8>, changed: bool)

  /** A value as `NewOptionCodeSliceValue` creates it. */
  const Fresh := Snapshot([], false)

  /**
   * The commit step of `Set` once the text has been parsed: a rejected text
   * leaves the state as it was; otherwise the parsed codes replace the stored
   * ones if `changed` was false and are appended to them if it was true, and
   * `changed` becomes true.
   */
  function Commit(s: Snapshot, parsed: Result<seq<uint8>, SetError>): (r: Snapshot)
    ensures parsed.Failure? ==> r == s
    ensures r.changed <==> s.changed || parsed.Success?
    ensures parsed.Success? ==>
              |r.codes| >= |parsed.value| && r.codes[|r.codes| - |parsed.value|..] == parsed.value
    ensures parsed.Success? && s.changed ==> |r.codes| >= |s.codes| && r.codes[..|s.codes|] == s.codes
    ensures parsed.Success? ==> |r.codes| == (if s.changed then |s.codes| else 0) + |parsed.value|
  {
    match parsed
    case Failure(_) => s
    case Success(codes) => Snapshot(if s.changed then s.codes + codes else codes, true)
  }

  /** The state after `Set(val)`. */
  function Apply(s: Snapshot, val: string): (r: Snapshot)
    ensures Parse(val).Failure? ==> r == s
    ensures r.changed <==> s.changed || Parse(val).Success?
    ensures Reachable(s) ==> r.codes == s.codes + Accepted(Parse(val)) && Reachable(r)
  {
    CommitAppends(s, Parse(val));
    Commit(s, Parse(val))
  }

  /** How `Set` parses each of `vals`. */
  function Outcomes(vals: seq<string>): seq<Result<seq<uint8>, SetError>> {
    seq(|vals|, i requires 0 <= i < |vals| => Parse(vals[i]))
  }

  /** The state after `Set` calls whose texts parsed, in turn, as `outcomes`. */
  function RunParsed(s: Snapshot, outcomes: seq<Result<seq<uint8>, SetError>>): Snapshot
    decreases |outcomes|
  {
    if outcomes == [] then s else RunParsed(Commit(s, outcomes[0]), outcomes[1..])
  }

  /** The state after `Set` was called with each of `vals` in turn. */
  function Run(s: Snapshot, vals: seq<string>): Snapshot {
    RunParsed(s, Outcomes(vals))
  }

  /** The codes one occurrence contributes: its parsed codes, or none when it is rejected. */
  function Accepted(parsed: Result<seq<uint8>, SetError>): seq<uint8> {
    match parsed
    case Success(codes) => codes
    case Failure(_) => []
  }

  /** The codes of the accepted occurrences among `outcomes`, in order. */
  function CollectedParsed(outcomes: seq<Result<seq<uint8>, SetError>>): seq<uint8>
    decreases |outcomes|
  {
    if outcomes == [] then [] else Accepted(outcomes[0]) + CollectedParsed(outcomes[1..])
  }

  /** The codes of the accepted occurrences among `vals`, in order. */
  function Collected(vals: seq<string>): seq<uint8> {
    CollectedParsed(Outcomes(vals))
  }

  /** The text `String` shows for one code. */
  function Part(c: uint8, optionNames: map<uint8, string>): (r: string)
    ensures c in optionNames ==> r == optionNames[c]
    ensures c !in optionNames ==>
              && |r| > 9 && r[..8] == "Unknown(" && r[|r| - 1] == ')'
              && r[8..|r| - 1] == Decimal(c as nat)
              && (|r| > 10 ==> r[8] != '0')
              && ParseUint8(r[8..|r| - 1]) == Success(c)
  {
    if c in optionNames then optionNames[c]
    else
      ParseDecimal(c);
      DecimalSpec(c as nat);
      var d := Decimal(c as nat);
      assert ("Unknown(" + d + ")")[8..|d| + 8] == d;
      "Unknown(" + d + ")"
  }

  /** The `out` slice of `String`: one part per code, in order. */
  function Parts(codes: seq<uint8>, optionNames: map<uint8, string>): (r: seq<string>)
    ensures |r| == |codes|
    ensures forall i :: 0 <= i < |codes| && codes[i] in optionNames ==> r[i] == optionNames[codes[i]]
    ensures forall i :: 0 <= i < |codes| && codes[i] !in optionNames ==>
              |r[i]| > 9 && r[i][..8] == "Unknown(" && r[i][|r[i]| - 1] == ')'
  {
    seq(|codes|, i requires 0 <= i < |codes| => Part(codes[i], optionNames))
  }

  /** The bracketed, comma-joined rendering of `codes`. */
  function Render(codes: seq<uint8>, optionNames: map<uint8, string>): (r: string)
    ensures |r| >= 2 && r[0] == '[' && r[|r| - 1] == ']'
    ensures codes == [] ==> r == "[]"
  {
    "[" + Strings.Join(Parts(codes, optionNames), ",") + "]"
  }

  /** `optionCodeSliceValue`: the codes parsed so far and whether any `Set` succeeded. */
  class OptionCodeSliceValue {

    var value: seq<uint8>
    var changed: bool

    /** `NewOptionCodeSliceValue`. */
    constructor ()
      ensures value == [] && !changed
    {
      value := [];
      changed := false;
    }

    /**
     * Parses one occurrence of the flag. Nothing is stored unless every token
     * parses; on success the codes replace the initial empty list on the first
     * call and are appended on later ones.
     */
    method Set(val: string) returns (err: Option<SetError>)
      modifies this
      ensures Parse(val).Failure? ==>
                err == Some(Parse(val).error) && value == old(value) && changed == old(changed)
      ensures Parse(val).Success? ==>
                && err == None
                && value == (if old(changed) then old(value) + Parse(val).value else Parse(val).value)
                && changed
      ensures Snapshot(value, changed) == Apply(old(Snapshot(value, changed)), val)
    {
      var read := ReadAsCSV(val);
      if read.Failure? {
        return Some(CsvErr(read.error));
      }
      var values := read.value;
      var optcodes: seq<uint8> := [];
      var i := 0;
      while i < |values|
        invariant 0 <= i <= |values|
        invariant ParseCodes(values[..i]) == Success(optcodes)
        invariant value == old(value) && changed == old(changed)
      {
        var optcode := ParseUint8(values[i]);
        if optcode.Failure? {
          ParseCodesStep(values, i);
          return Some(NumErr(optcode.error));
        }
        ParseCodesStep(values, i);
        optcodes := optcodes + [optcode.value];
        i := i + 1;
      }
      assert values[..i] == values;
      if !changed {
        value := optcodes;
      } else {
        value := value + optcodes;
      }
      changed := true;
      err := None;
    }

    function Type(): (t: string)
      ensures t == "optionCodeSlice"
    {
      "optionCodeSlice"
    }

    /** Renders the stored codes; does not change the value. */
    method String(optionNames: map<uint8, string>) returns (s: string)
      ensures s == Render(value, optionNames)
    {
      var out := new string[|value|];
      for i := 0 to |value|
        invariant forall k :: 0 <= k < i ==> out[k] == Part(value[k], optionNames)
      {
        if value[i] in optionNames {
          out[i] := optionNames[value[i]];
        } else {
          out[i] := "Unknown(" + Decimal(value[i] as nat) + ")";
        }
      }
      assert out[..] == Parts(value, optionNames);
      s := "[" + Strings.Join(out[..], ",") + "]";
    }
  }

  /** A `pflag.Value` as the flag set stores it. */
  datatype FlagValue = OptionCodes(v: OptionCodeSliceValue) | Other(typeName: string) {
    /** `v.Type()`: the option-code value's constant name, or the other value's own type name. */
    function Type(): (t: string)
      ensures OptionCodes? ==> t == "optionCodeSlice"
      ensures Other? ==> t == typeName
    {
      match this
      case OptionCodes(v) => v.Type()
      case Other(t) => t
    }
  }

  /** The codes held by a flag value, if it is an option-code value. */
  function GetOptionCodesValue(fv: FlagValue): (r: Result<seq<uint8>, LookupError>)
    reads if fv.OptionCodes? then {fv.v} else {}
    ensures r.Success? <==> fv.OptionCodes?
    ensures fv.OptionCodes? ==> r.value == fv.v.value
    ensures fv.Other? ==> r.error == WrongType(fv.typeName)
  {
    if fv.OptionCodes? then Success(fv.v.value) else Failure(WrongType(fv.Type()))
  }

  /** The codes of the flag registered as `name` in `flags`. */
  function GetOptionCodes(flags: map<string, FlagValue>, name: string): (r: Result<seq<uint8>, LookupError>)
    reads if name in flags && flags[name].OptionCodes? then {flags[name].v} else {}
    ensures name !in flags ==> r == Failure(NotDefined(name))
    ensures name in flags && flags[name].Other? ==> r == Failure(WrongType(flags[name].typeName))
    ensures r.Success? <==> name in flags && flags[name].OptionCodes?
    ensures r.Success? ==> r.value == flags[name].v.value
  {
    if name !in flags then Failure(NotDefined(name)) else GetOptionCodesValue(flags[name])
  }

  // ---------------------------------------------------------------------------
  // Parsing one occurrence

  /** The loop step of `Set`: one more token either extends the codes or fails the whole list. */
  lemma ParseCodesStep(tokens: seq<string>, i: nat)
    requires i < |tokens| && ParseCodes(tokens[..i]).Success?
    ensures ParseUint8(tokens[i]).Success? ==>
              ParseCodes(tokens[..i + 1]) == Success(ParseCodes(tokens[..i]).value + [ParseUint8(tokens[i]).value])
    ensures ParseUint8(tokens[i]).Failure? ==> ParseCodes(tokens) == Failure(ParseUint8(tokens[i]).error)
  {
    assert tokens[..i + 1][..i] == tokens[..i];
    if ParseUint8(tokens[i]).Failure? {
      ParseCodesFailureSticks(tokens, i + 1);
    }
  }

  /** Once a prefix of the tokens fails, the whole list fails with the same error. */
  lemma {:induction false} ParseCodesFailureSticks(tokens: seq<string>, k: nat)
    requires k <= |tokens| && ParseCodes(tokens[..k]).Failure?
    ensures ParseCodes(tokens) == ParseCodes(tokens[..k])
    decreases |tokens| - k
  {
    if k == |tokens| {
      assert tokens[..k] == tokens;
    } else {
      var longer := tokens[..k + 1];
      assert longer[..k] == tokens[..k];
      ParseCodesFailureSticks(tokens, k + 1);
    }
  }

  /**
   * The tokens are accepted exactly when each of them parses, and then the codes
   * are the tokens' values in order, one per token; otherwise the error is that of
   * the first token that does not parse.
   */
  lemma {:induction false} ParseCodesSpec(tokens: seq<string>)
    ensures ParseCodes(tokens).Success? <==> forall i :: 0 <= i < |tokens| ==> ParseUint8(tokens[i]).Success?
    ensures ParseCodes(tokens).Success? ==>
              && |ParseCodes(tokens).value| == |tokens|
              && forall i :: 0 <= i < |tokens| ==> ParseCodes(tokens).value[i] == ParseUint8(tokens[i]).value
    ensures ParseCodes(tokens).Failure? ==>
              exists j :: && 0 <= j < |tokens|
                          && ParseUint8(tokens[j]) == Failure(ParseCodes(tokens).error)
                          && forall i :: 0 <= i < j ==> ParseUint8(tokens[i]).Success?
    decreases |tokens|
  {
    if tokens != [] {
      var init := tokens[..|tokens| - 1];
      var last := |tokens| - 1;
      ParseCodesSpec(init);
      assert forall i :: 0 <= i < |init| ==> init[i] == tokens[i];
      if ParseCodes(init).Failure? {
        var j :| && 0 <= j < |init|
                 && ParseUint8(init[j]) == Failure(ParseCodes(init).error)
                 && forall i :: 0 <= i < j ==> ParseUint8(init[i]).Success?;
        assert ParseUint8(tokens[j]).Failure?;
      } else if ParseUint8(tokens[last]).Failure? {
        assert forall i :: 0 <= i < last ==> ParseUint8(tokens[i]).Success?;
      }
    }
  }

  /** The empty text reads as no tokens, although the CSV reader alone reports end of input for it. */
  lemma ReadAsCSVEmpty()
    ensures ReadAsCSV("") == Success([])
    ensures Csv.Read("") == Failure(Csv.EOF)
  {
  }

  /** Text without quotes or line breaks is cut at its commas, the empty text into no tokens. */
  lemma ReadAsCSVPlain(val: string)
    requires '"' !in val && '\n' !in val && '\r' !in val
    ensures ReadAsCSV(val) == Success(if val == "" then [] else Strings.Split(val, ','))
  {
    if val != "" {
      Csv.ReadPlain(val);
    }
  }

  /** A single decimal token of at most 255 is accepted as that one code. */
  lemma ParseSingleCode(s: string)
    requires s != [] && AllDigits(s) && DecimalValue(s) <= 255
    ensures Parse(s) == Success([DecimalValue(s) as uint8])
  {
    assert '"' !in s && '\n' !in s && '\r' !in s && ',' !in s by {
      forall i | 0 <= i < |s| ensures IsDigit(s[i]) { }
    }
    ReadAsCSVPlain(s);
    Strings.SplitPrefix(s, [], ',');
    assert Strings.Split([], ',') == [[]];
    assert s + [] == s && Strings.Split(s, ',') == [s];
    ParseUint8Spec(s);
    assert [s][..0] == [];
    assert ParseCodes([s]) == Success([] + [DecimalValue(s) as uint8]);
    assert [] + [DecimalValue(s) as uint8] == [DecimalValue(s) as uint8];
  }

  /** The tokens that render `codes` in decimal. */
  function DecimalTokens(codes: seq<uint8>): seq<string> {
    seq(|codes|, i requires 0 <= i < |codes| => Decimal(codes[i] as nat))
  }

  /** Each decimal token is free of CSV punctuation and parses back to its code. */
  lemma DecimalTokensParse(codes: seq<uint8>, i: nat)
    requires i < |codes|
    ensures var t := DecimalTokens(codes)[i];
      && ',' !in t && '"' !in t && '\n' !in t && '\r' !in t
      && ParseUint8(t) == Success(codes[i])
  {
    var t := DecimalTokens(codes)[i];
    DecimalSpec(codes[i] as nat);
    ParseDecimal(codes[i]);
    assert forall k :: 0 <= k < |t| ==> IsDigit(t[k]);
  }

  /** The comma-joined decimal tokens hold no quote or line break. */
  lemma DecimalTextPlain(codes: seq<uint8>)
    ensures var val := Strings.Join(DecimalTokens(codes), ",");
      '"' !in val && '\n' !in val && '\r' !in val
  {
    var tokens := DecimalTokens(codes);
    forall i | 0 <= i < |tokens|
      ensures '"' !in tokens[i] && '\n' !in tokens[i] && '\r' !in tokens[i]
    {
      DecimalTokensParse(codes, i);
    }
    Strings.JoinExcludes(tokens, ",", '"');
    Strings.JoinExcludes(tokens, ",", '\n');
    Strings.JoinExcludes(tokens, ",", '\r');
  }

  /** Tokens that each parse to the matching code parse, together, to those codes. */
  lemma ParseCodesOf(tokens: seq<string>, codes: seq<uint8>)
    requires |tokens| == |codes|
    requires forall i :: 0 <= i < |tokens| ==> ParseUint8(tokens[i]) == Success(codes[i])
    ensures ParseCodes(tokens) == Success(codes)
  {
    ParseCodesSpec(tokens);
    assert forall i :: 0 <= i < |tokens| ==> ParseUint8(tokens[i]).Success?;
    var r := ParseCodes(tokens).value;
    assert |r| == |codes|;
    forall i | 0 <= i < |codes| ensures r[i] == codes[i] {
      assert r[i] == ParseUint8(tokens[i]).value;
    }
    assert r == codes;
  }

  /** Writing codes as comma-separated decimals and setting the flag to that text gives the codes back. */
  lemma ParseDecimalList(codes: seq<uint8>)
    ensures Parse(Strings.Join(DecimalTokens(codes), ",")) == Success(codes)
  {
    var tokens := DecimalTokens(codes);
    var val := Strings.Join(tokens, ",");
    DecimalTextPlain(codes);
    ReadAsCSVPlain(val);
    if codes != [] {
      forall i | 0 <= i < |tokens|
        ensures ',' !in tokens[i] && ParseUint8(tokens[i]) == Success(codes[i])
      {
        DecimalTokensParse(codes, i);
      }
      assert val != "" by {
        DecimalSpec(codes[0] as nat);
        assert val[..|tokens[0]|] == tokens[0];
      }
      Strings.SplitJoin(tokens, ',');
      assert ReadAsCSV(val) == Success(tokens);
      ParseCodesOf(tokens, codes);
    }
  }

  // ---------------------------------------------------------------------------
  // Accumulating occurrences

  /** The empty text is accepted: it keeps the codes or, on a first call, leaves them empty. */
  lemma SetEmpty(s: Snapshot)
    ensures Apply(s, "") == Snapshot(if s.changed then s.codes else [], true)
  {
    assert s.codes + [] == s.codes;
  }

  /** A rejected occurrence leaves the state as it was, codes and `changed` alike. */
  lemma SetRejected(s: Snapshot, val: string)
    requires Parse(val).Failure?
    ensures Apply(s, val) == s
  {
  }

  /** Every state reachable from a fresh value has no codes until some `Set` succeeded. */
  ghost predicate Reachable(s: Snapshot) {
    !s.changed ==> s.codes == []
  }

  /** One commit from a reachable state appends what the occurrence contributes. */
  lemma CommitAppends(s: Snapshot, parsed: Result<seq<uint8>, SetError>)
    ensures Reachable(s) ==> Commit(s, parsed).codes == s.codes + Accepted(parsed)
    ensures Reachable(s) ==> Reachable(Commit(s, parsed))
  {
    if parsed.Failure? {
      assert s.codes + [] == s.codes;
    }
  }

  /** Concatenation is associative; stated on its own to keep `RunAppends` cheap for the solver. */
  lemma AppendAssoc(a: seq<uint8>, b: seq<uint8>, c: seq<uint8>)
    ensures a + b + c == a + (b + c)
  {
  }

  /**
   * From a reachable state, a series of `Set` calls appends the codes of every
   * accepted occurrence, in order, duplicates kept.
   */
  lemma {:induction false} RunAppends(s: Snapshot, outcomes: seq<Result<seq<uint8>, SetError>>)
    requires Reachable(s)
    ensures RunParsed(s, outcomes).codes == s.codes + CollectedParsed(outcomes)
    ensures Reachable(RunParsed(s, outcomes))
    decreases |outcomes|
  {
    if outcomes == [] {
      assert s.codes + [] == s.codes;
    } else {
      var next, rest := Commit(s, outcomes[0]), outcomes[1..];
      CommitAppends(s, outcomes[0]);
      RunAppends(next, rest);
      var head, tail := Accepted(outcomes[0]), CollectedParsed(rest);
      assert RunParsed(s, outcomes) == RunParsed(next, rest);
      assert CollectedParsed(outcomes) == head + tail;
      AppendAssoc(s.codes, head, tail);
    }
  }

  /** `changed` ends up true exactly when it already was or some occurrence was accepted. */
  lemma {:induction false} RunChanged(s: Snapshot, outcomes: seq<Result<seq<uint8>, SetError>>)
    ensures RunParsed(s, outcomes).changed <==> s.changed || exists i :: 0 <= i < |outcomes| && outcomes[i].Success?
    decreases |outcomes|
  {
    if outcomes != [] {
      var rest := outcomes[1..];
      RunChanged(Commit(s, outcomes[0]), rest);
      if exists i :: 0 <= i < |outcomes| && outcomes[i].Success? {
        var i :| 0 <= i < |outcomes| && outcomes[i].Success?;
        if i > 0 {
          assert rest[i - 1].Success?;
        }
      }
      if exists i :: 0 <= i < |rest| && rest[i].Success? {
        var i :| 0 <= i < |rest| && rest[i].Success?;
        assert outcomes[i + 1].Success?;
      }
    }
  }

  /** From a fresh value, the codes are those of all accepted occurrences, concatenated in order. */
  lemma RunFromFresh(vals: seq<string>)
    ensures Run(Fresh, vals).codes == Collected(vals)
    ensures Run(Fresh, vals).changed <==> exists i :: 0 <= i < |vals| && Parse(vals[i]).Success?
  {
    var outcomes := Outcomes(vals);
    RunAppends(Fresh, outcomes);
    RunChanged(Fresh, outcomes);
    assert Run(Fresh, vals) == RunParsed(Fresh, outcomes);
    OutcomesAccepted(vals);
  }

  /** Some outcome is a success exactly when some text parses. */
  lemma OutcomesAccepted(vals: seq<string>)
    ensures (exists i :: 0 <= i < |Outcomes(vals)| && Outcomes(vals)[i].Success?)
        <==> exists i :: 0 <= i < |vals| && Parse(vals[i]).Success?
  {
    var outcomes := Outcomes(vals);
    if exists i :: 0 <= i < |outcomes| && outcomes[i].Success? {
      var i :| 0 <= i < |outcomes| && outcomes[i].Success?;
      assert Parse(vals[i]).Success?;
    }
    if exists i :: 0 <= i < |vals| && Parse(vals[i]).Success? {
      var i :| 0 <= i < |vals| && Parse(vals[i]).Success?;
      assert outcomes[i].Success?;
    }
  }

  // ---------------------------------------------------------------------------
  // Rendering

  /** A code's part is never empty, and has no comma when the table's names have none. */
  lemma PartPlain(c: uint8, optionNames: map<uint8, string>)
    requires c in optionNames ==> optionNames[c] != "" && ',' !in optionNames[c]
    ensures Part(c, optionNames) != "" && ',' !in Part(c, optionNames)
  {
    if c !in optionNames {
      var d := Decimal(c as nat);
      DecimalSpec(c as nat);
      assert forall k :: 0 <= k < |d| ==> IsDigit(d[k]);
      assert Part(c, optionNames) == "Unknown(" + d + ")";
    }
  }

  /**
   * The rendering is bracketed; with comma-free names it has exactly one
   * comma-separated part per stored code, in order, and "[]" for no codes.
   */
  lemma RenderParts(codes: seq<uint8>, optionNames: map<uint8, string>)
    requires forall c :: c in optionNames ==> optionNames[c] != "" && ',' !in optionNames[c]
    ensures var r := Render(codes, optionNames);
      && |r| >= 2 && r[0] == '[' && r[|r| - 1] == ']'
      && (codes == [] <==> r == "[]")
      && (codes != [] ==> Strings.Split(r[1..|r| - 1], ',') == Parts(codes, optionNames))
  {
    var parts := Parts(codes, optionNames);
    var r := Render(codes, optionNames);
    var inner := Strings.Join(parts, ",");
    assert r[1..|r| - 1] == inner;
    if codes != [] {
      forall i | 0 <= i < |parts|
        ensures parts[i] != "" && ',' !in parts[i]
      {
        PartPlain(codes[i], optionNames);
      }
      Strings.SplitJoin(parts, ',');
      assert inner[..|parts[0]|] == parts[0];
    }
  }
}
