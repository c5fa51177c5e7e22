# Option-code flag of the DHCPv4 command

This project is a Dafny model of `optionCodeSliceValue`, the repeatable `pflag`
value that the DHCPv4 command of fbender uses for lists of DHCP option codes
(`cmd/dhcpv4/flags.go`), together with proofs about it.

Each occurrence of the flag, such as `--options=1,3,6`, is passed to `Set`.
`Set` reads the text as one CSV record and parses each field as an unsigned
decimal number of at most 8 bits. It stores the codes only if every field
parses. The first successful call replaces the initial empty list and later
ones append. So `--options=1,3,6 --options=12` gives `[1 3 6 12]`. `String`
shows the list as `[name,name,...]` and writes `Unknown(n)` for a code that
has no name. `GetOptionCodes` and `GetOptionCodesValue` recover the list from
a flag set.

Modules, one per file:

- `Wrappers` (`wrappers.dfy`): `Option` and `Result`, which stand in for Go's `(value, error)` returns.
- `Strconv` (`strconv.dfy`): the `uint8` type of option codes. `ParseUint8` models `strconv.ParseUint(s, 10, 8)`, scanning left to right: the first non-digit gives `ErrSyntax`, and the first prefix whose value exceeds 255 gives `ErrRange`. `Decimal` models `%d`.
- `Strings` (`strings.dfy`): `Join` models `strings.Join`. `Split` is its inverse on comma-free parts and is used only in proofs.
- `Csv` (`csv.dfy`): the first record that a fresh `encoding/csv` Reader with default settings returns from one `Read`. The Reader:
  - turns `\r\n` into `\n` and drops a trailing `\r`;
  - skips empty lines before the record, and gives `EOF` when no record is left;
  - treats a field starting with `"` as quoted, where `""` stands for one quote;
  - reports `ErrBareQuote` for a quote inside an unquoted field;
  - reports `ErrQuote` for an unterminated quote, or for a character other than a comma, a line break or the end of input after a closing quote;
  - reads the first line only (a record continues onto the next line only inside quotes).

  This reader is library code outside the repository. It is modelled as Go's reader behaves.
- `Flags` (`flags.dfy`): the core. It has:
  - `readAsCSV`;
  - the token loop, as the specification function `ParseCodes`;
  - the class `OptionCodeSliceValue`, with fields `value` and `changed` and the methods `Set`, `Type` and `String`;
  - the value-level state `Snapshot`. `Commit` is the commit step of `Set` applied to a parse result. `Apply` is one `Set` call. `Run` is a series of calls, defined through `RunParsed` over the calls' parse results;
  - the rendering `Render`;
  - the flag set, as a map from names to `FlagValue`;
  - the two lookup helpers.
- `FlagsExamples` (`examples.dfy`): concrete cases worked through the model.

Codes have type `uint8` (0..255), so every stored code is at most 255 by
type. `ParseUint8Spec` proves that what the parser accepts is the decimal
value of the token, and that this value is at most 255.

The name table `dhcpv4.OptionCodeToString` belongs to another package. It
is the parameter `optionNames: map<uint8, string>` of `String` and
`Render`. The flag set (`*pflag.FlagSet`) is a `map<string, FlagValue>`.
`FlagValue` is either `OptionCodes(v)`, a reference to an
`OptionCodeSliceValue` object, or `Other(typeName)` for any other kind of
`pflag.Value`. The lookup therefore reads the same object that `Set`
mutates. The value has no `Get` operation of its own: reading the list
back goes through `GetOptionCodesValue`, as in the code.

## Model

| member | source | states |
|---|---|---|
| `Flags.OptionCodeSliceValue.constructor` | cmd/dhcpv4/flags.go:27-33 | a new value holds the empty list with `changed` false |
| `Flags.OptionCodeSliceValue.Set` | cmd/dhcpv4/flags.go:44-64 | if the text is rejected, the error is the CSV reader's or that of the first bad token, and `value` and `changed` are exactly as before; if it is accepted, there is no error, `changed` is true, and `value` is the parsed codes (first success) or the old codes followed by them (later successes); the new state is `Apply` of the old one |
| `Flags.OptionCodeSliceValue.Type` | cmd/dhcpv4/flags.go:66-68 | the type name is always `optionCodeSlice` |
| `Flags.OptionCodeSliceValue.String` | cmd/dhcpv4/flags.go:70-79 | the result is `Render` of the stored codes: `[`, one part per code joined by commas, `]`, where a part is the table name or `Unknown(<decimal>)`; the value is not modified |
| `Flags.RenderParts` | cmd/dhcpv4/flags.go:70-79 | the rendering starts with `[` and ends with `]`; it is `[]` exactly when there are no codes; between the brackets it splits at commas into exactly one part per code, in order |
| `Flags.FlagValue.Type` | cmd/dhcpv4/flags.go:96 | the `Type()` of a flag value: `optionCodeSlice` for an option-code value, and the value's own type name for any other |
| `Flags.GetOptionCodesValue` | cmd/dhcpv4/flags.go:91-97 | it succeeds exactly for an option-code value and then returns its stored codes; any other value type gives `WrongType` with that type's name |
| `Flags.GetOptionCodes` | cmd/dhcpv4/flags.go:82-89 | a name that is not registered gives `NotDefined(name)`; a registered flag of another type gives `WrongType` with that type's name, as `GetOptionCodesValue` does; it succeeds exactly for an option-code value and then returns its codes |
| `Flags.ReadAsCSV` | cmd/dhcpv4/flags.go:35-42 | the empty text gives zero tokens with no error; any other text that reads gives at least one field; a text without quotes fails only at end of input, never with a quoting error |
| `Flags.ParseCodes` | cmd/dhcpv4/flags.go:49-56 | on success there is one code per token; on failure the error is that of some token that `ParseUint` rejects (which one, and the order of codes, are stated by `ParseCodesSpec`) |
| `Flags.Parse` | cmd/dhcpv4/flags.go:44-56 | an accepted text read as CSV and yields one code per token; a number error happens only after the CSV read succeeded; the empty text is accepted as no codes |
| `Flags.Commit` | cmd/dhcpv4/flags.go:57-62 | a rejected text leaves the state as it was; `changed` is true afterwards exactly when it was before or the text was accepted; on success the list has exactly the old codes' length (after a previous success) or none of them (on the first success), plus the parsed codes' length; the parsed codes end the list, and after a previous success the old codes stay in front of them, so nothing is dropped, deduplicated or left over from before the first success |
| `Flags.Apply` | cmd/dhcpv4/flags.go:44-64 | a rejected text leaves the state unchanged; `changed` is true afterwards exactly when it was before or the text was accepted; from a state that holds no codes before its first success, the new codes are the old ones followed by the text's parsed codes (none if rejected), and that condition still holds |
| `Flags.Part` | cmd/dhcpv4/flags.go:72-77 | a code in the name table shows its name; any other code shows `Unknown(`, then the `%d` digits of the code with no leading zero, then `)`, and those digits parse back to the code |
| `Flags.PartPlain` | cmd/dhcpv4/flags.go:72-77 | when the code's table name, if it has one, is non-empty and contains no comma, its part is non-empty and has no comma; an empty name in the table renders as an empty part |
| `Flags.Parts` | cmd/dhcpv4/flags.go:71-78 | the `out` slice: exactly one part per stored code, in order; a code in the table gets its name, and any other code a text of the form `Unknown(...)` |
| `Flags.Render` | cmd/dhcpv4/flags.go:70-79 | the rendering starts with `[` and ends with `]`, and is `[]` for no codes (one part per code is stated by `RenderParts`) |
| `Strconv.ParseUint8` | cmd/dhcpv4/flags.go:51 | a failure carries the rejected token; a success comes only from a non-empty all-digit token (the exact condition and value are stated by `ParseUint8Spec`) |
| `Strconv.Scan` | cmd/dhcpv4/flags.go:51 | the left-to-right digit scan of `ParseUint`: an error carries the whole token, and a success means every remaining character is a digit |
| `Csv.Read` | cmd/dhcpv4/flags.go:39-41 | a record that reads has at least one field; a text without quotes never gives a quoting error, only end of input when it holds no record |
| `Flags.ReadAsCSVEmpty` | cmd/dhcpv4/flags.go:35-38 | the empty text reads as zero tokens with no error, although the CSV reader alone would report end of input for it |
| `Flags.ReadAsCSVPlain` | cmd/dhcpv4/flags.go:35-42 | text without quotes or line breaks reads as its comma-separated pieces, empty pieces included; the empty text reads as no tokens |
| `Flags.ParseCodesStep` | cmd/dhcpv4/flags.go:50-56 | one loop step: a token that parses appends its code to the codes so far; a token that fails makes the whole list fail with that token's error |
| `Flags.ParseCodesFailureSticks` | cmd/dhcpv4/flags.go:51-54 | once some prefix of the tokens fails, the whole list fails with the same error; later tokens are not looked at |
| `Flags.ParseCodesSpec` | cmd/dhcpv4/flags.go:49-56 | the tokens are accepted if and only if every token parses; the codes are then the tokens' values, one per token, in order; otherwise the error is that of the first token that fails |
| `Flags.ParseSingleCode` | cmd/dhcpv4/flags.go:44-56 | a single decimal token of value at most 255 yields exactly that one code |
| `Flags.ParseDecimalList` | cmd/dhcpv4/flags.go:44-56 | any list of codes, written as comma-separated decimals, parses back to the same list, order and duplicates included |
| `Flags.SetEmpty` | cmd/dhcpv4/flags.go:35-62 | `Set("")` succeeds and sets `changed`; on a first call the list stays empty, and on later calls it is unchanged |
| `Flags.SetRejected` | cmd/dhcpv4/flags.go:45-56 | a rejected text leaves the state, both codes and `changed`, as it was |
| `Flags.CommitAppends` | cmd/dhcpv4/flags.go:57-62 | from a state that holds no codes before its first success, one commit appends exactly the occurrence's parsed codes (none if it was rejected), and keeps that condition |
| `Flags.RunAppends` | cmd/dhcpv4/flags.go:57-62 | a series of `Set` calls, starting where no codes are held before the first success, appends the codes of every accepted occurrence in order, with no replacement, deduplication or sorting; the series keeps that starting condition |
| `Flags.RunChanged` | cmd/dhcpv4/flags.go:57-62 | after a series of `Set` calls, `changed` is true exactly when it already was or some occurrence was accepted |
| `Flags.RunFromFresh` | cmd/dhcpv4/flags.go:27-62 | from a newly created value, the list is the concatenation of the codes of all accepted occurrences, and `changed` says whether any was accepted |
| `Strconv.ParseUint8Spec` | cmd/dhcpv4/flags.go:51-55 | `ParseUint(v, 10, 8)` succeeds if and only if `v` is non-empty, all ASCII digits (leading zeros allowed) and of value at most 255, and then returns that value; an all-digit token above 255 is a range error; the empty token is a syntax error |
| `Strconv.Decimal` | cmd/dhcpv4/flags.go:76 | the `%d` in `Unknown(%d)`: a non-empty string of decimal digits, a single digit exactly for numbers below 10 (its value and the absence of a leading zero are stated by `DecimalSpec`) |
| `Strconv.DecimalSpec` | cmd/dhcpv4/flags.go:76 | `%d` of a code is a non-empty digit string without a leading zero that denotes the code |
| `Strconv.ParseDecimal` | cmd/dhcpv4/flags.go:51-55 | parsing a code's decimal rendering gives the code back |
| `Csv.ReadPlain` | cmd/dhcpv4/flags.go:39-41 | a non-empty text with no quote, line feed or carriage return reads as the pieces between its commas |
| `Csv.ReadWriteRoundTrip` | cmd/dhcpv4/flags.go:39-41 | for one or more fields, none containing a carriage return, writing every field quoted and comma-separated and reading the text back gives the same fields, with commas, quotes and line feeds inside them kept; the carriage-return condition is needed because the line reader turns `\r\n` into `\n` even inside quotes, and zero fields write the empty text, which reads as end of input |
| `Strings.Join` | cmd/dhcpv4/flags.go:79 | `strings.Join`: no parts join to the empty text, and a join of one or more parts starts with the first part (the inverse `Split` and the round trips are stated by `SplitJoin` and `JoinSplit`) |
| `Strings.SplitJoin` | cmd/dhcpv4/flags.go:79 | joining comma-free parts with commas and splitting the result gives the parts back |
| `Strings.JoinSplit` | cmd/dhcpv4/flags.go:79 | splitting at commas and joining with commas gives the text back |
| `FlagsExamples.RepeatedFlag` | cmd/dhcpv4/flags.go:44-97 | `Set("1,3,6")` then `Set("12")` on a registered value, looked up by name, gives `[1, 3, 6, 12]` |
| `FlagsExamples.AccumulateTwice` | cmd/dhcpv4/flags.go:57-62 | `"1,2"` then `"3"` gives `[1, 2, 3]` |
| `FlagsExamples.RejectOutOfRange` | cmd/dhcpv4/flags.go:51-54 | `"256"` is a range error and leaves any state unchanged |
| `FlagsExamples.RejectNotDecimal` | cmd/dhcpv4/flags.go:51-54 | `"abc"` is a syntax error and leaves any state unchanged |
| `FlagsExamples.LeadingZeros` | cmd/dhcpv4/flags.go:51-55 | `"007"` is accepted as code 7 |
| `FlagsExamples.QuotedComma` | cmd/dhcpv4/flags.go:39-54 | a quoted `"1,2"` is one token, not two, and it is then rejected as not decimal |
| `FlagsExamples.FirstLineOnly` | cmd/dhcpv4/flags.go:39-41 | only the first CSV record is read: `"1\n2"` gives `[1]` |
| `FlagsExamples.RenderExample` | cmd/dhcpv4/flags.go:70-79 | `[1, 255]`, with only 1 named `A`, renders as `[A,Unknown(255)]` |
| `FlagsExamples.LookupErrors` | cmd/dhcpv4/flags.go:83-97 | a name that is not registered, and a flag of another type, are both lookup errors |

## Left out

- `log/log_test.go`: tests of a logging wrapper that writes to an `io.Writer` and panics when a write fails. This is stream I/O, and the wrapper itself is not part of this model.
- The text of error messages (`fmt.Errorf`, `*strconv.NumError.Error()`, the positions inside `*csv.ParseError`). Errors carry only their kind, plus the rejected token, missing name or other type's name.
- Byte-level input: Go's strings are bytes, and the model reads characters. Digits, commas, quotes and line breaks are ASCII, so they mean the same in both. Invalid UTF-8 is not modelled.
- CSV Reader settings other than the defaults that `readAsCSV` uses, and the field-count check, which never fires on a fresh Reader's first record.
- Aliasing: `GetOptionCodesValue` returns a slice that shares storage with the flag's value. The model returns a sequence value, and it keeps the list directly in the `value` field rather than behind a pointer.
- `pflag` beyond the name lookup: registering flags, normalizing flag names, the framework's own `changed` bookkeeping, and dispatching each occurrence to `Set`.
- The real entries of `dhcpv4.OptionCodeToString`: the table is a parameter.
- Reading the output of `String` back with `Set`: the rendering is for display only.
- Flags.RenderParts: states "one part per code" only for tables whose names are non-empty and contain no comma. An empty name renders as nothing, and a name containing a comma adds a split point.
