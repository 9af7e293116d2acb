# go-api-k8s in Dafny

A model of the core of `go-api-k8s`, a small HTTP service. It has two parts.

The **`/comics` handler** (package `controller`):
- It reads a `start` and an `end` query parameter and rejects them with a 400 and a fixed message when they are missing or are not integers.
- It fetches every comic numbered `start` to `end` in ascending order and answers 500 with the error of the first fetch that fails.
- It keeps the comics published in an odd month.
- It sorts them by a title key that skips leading non-letters.
- It answers 200 with the sorted list.

The **configuration** (package `config`):
- The `Config` struct is a field table with tags.
- `MarshalConfig` prints it one `Name: value` line per non-sensitive field.
- `AddCobraFlag` / `BindCobraFlagsToCmd` turn every field into a command-line flag whose default is parsed from the field's tag. Each flag is then bound to the configuration store.
- `BindCobraFlags` derives each flag's environment-variable key and applies the precedence flag value > value already set > flag default.
- `DecodeSliceHook` turns the bracketed text of a list setting back into a list.

Modules, one file each:

| file | module | models |
|---|---|---|
| `wrappers.dfy` | `Wrappers` | `Option` and `Result` |
| `gostrings.dfy` | `GoStrings` | Go strings as byte sequences; `strings.TrimPrefix/TrimSuffix/Split/Join/ReplaceAll/ToUpper`; the `<` order on strings |
| `strconv.dfy` | `Strconv` | `strconv.Atoi` and the `ParseInt`/`ParseUint` scan under it, `%d`, `strconv.ParseBool`, `%t` |
| `helpers.dfy` | `Helpers` | `pkg/controller/helpers.go` |
| `controller.dfy` | `Controller` | `pkg/controller/controller.go`: the `Comic` record and `GetComics` |
| `config.dfy` | `Config` | `pkg/config/config.go`: the `Config` struct, `MarshalConfig` and `BindCobraFlags` |
| `envs.dfy` | `Envs` | `DecodeSliceHook` of `pkg/config/envs.go` |
| `flags.dfy` | `Flags` | `pkg/config/flags.go` |

Abstractions:
- **Fetching.** Fetching one comic covers building the request, sending it, reading the body and decoding the JSON. It is a function parameter `Fetcher = int -> Result<Comic, Bytes>`. It is total: every identifier, however large or negative, gets either a comic or an error.
- **The store's binding.** The store's environment-variable binding (`BindEnv`) is a parameter `Binder` that returns an optional error text.
- **Integers.** Go's `int` is taken to be 64 bits wide, as on the platforms the service is built for. Query parameters, comic numbers and int settings are `Int64` values. `Atoi` reports a range error for a decimal outside that width. The handler's loop counter wraps from MaxInt64 to MinInt64 as Go's `i++` does (`pkg/controller/controller.go:61`). With `end` = MaxInt64 the loop runs until a fetch fails, and if none fails it never answers; the model calls that `NoAnswer`.
- **Empty results.** When the handler keeps no comic, its `comics` slice is still nil (`pkg/controller/controller.go:47`), so it answers `{"comics":null}`. This is the `NullComicsBody` response. A non-empty list is a `ComicsBody`.
- **Panics in the handler.** A panic in the sort comparator (the `title[0]` of an empty title) is the 500 response without a body that gin's recovery middleware (`pkg/server/server.go:31`) sends.
- **Panics in the configuration.**
  - The decode hook's failed type assertion (`pkg/config/envs.go:53`) panics while the configuration is unmarshalled. It is an `Err(NotAString(..))`.
  - A flag defined twice in one set panics in pflag. It is an `Err(Redefined(..))` that ends the loop.
  - Binding a missing flag is the store's nil-flag error.

## Model

| member | source | states |
|---|---|---|
| Helpers.IsAlphabetical | pkg/controller/helpers.go:18-21 | the letter test on one byte: the two ASCII letter ranges, compared as bytes (its meaning is stated by IsAlphabeticalIsLetter) |
| Helpers.IsAlphabeticalIsLetter | pkg/controller/helpers.go:18-21 | a byte is accepted exactly when it is one of the 52 letters of the English alphabet, lower or upper case |
| Helpers.NonAsciiIsNotAlphabetical | pkg/controller/helpers.go:18-21 | no byte of a multi-byte UTF-8 sequence (0x80 and above) counts as a letter |
| Helpers.IsAlphabeticalExamples | pkg/controller/helpers_test.go:25-54 | 'A' and 'b' are letters, '@' is not |
| Helpers.ScanFrom | pkg/controller/helpers.go:25-30 | the loop from index i on returns a suffix of the input that starts at the first letter at or after i, or the whole input when no letter follows index 0 |
| Helpers.FindFirstAlphabeticalCharacter | pkg/controller/helpers.go:23-31 | the result is a suffix of the input; it is the input itself when no letter occurs from index 1 on, otherwise it starts at the smallest index of at least 1 holding a letter (index 0 is never examined) |
| Helpers.FindFirstShortInput | pkg/controller/helpers.go:23-31 | the result is never longer than the input, and inputs of at most one byte come back unchanged |
| Helpers.FindFirstExamples | pkg/controller/helpers_test.go:56-90 | "12th Avenue" gives "th Avenue", "@!42&characters" gives "characters", "     spaces" gives "spaces" |
| Helpers.FindFirstUnicodeExample | pkg/controller/helpers_test.go:72-76 | the UTF-8 bytes of the four symbols before "unicode" are skipped one byte at a time and the result starts at "unicode" |
| Helpers.GetStartEnd | pkg/controller/helpers.go:33-51 | each of the three error messages and success happens if and only if its condition holds: a missing key first, then an unparseable start, then an unparseable end; on success the two parsed integers come back unordered |
| Helpers.Message | pkg/controller/helpers.go:37-48 | the three 400 texts, one per rejection: missing bounds, a start that is not an integer, an end that is not an integer (GetStartEnd and GetStartEndExamples state which input gets which) |
| Helpers.MissingKeyDominates | pkg/controller/helpers.go:37-39 | a missing key is reported whatever value the other key holds |
| Helpers.StartCheckedBeforeEnd | pkg/controller/helpers.go:41-48 | an unparseable start is reported whatever the present end holds |
| Helpers.GetStartEndExamples | pkg/controller/controller_test.go:123-162 | the empty query, start only and end only are missing bounds; start=now is a bad start, end=never a bad end; 40 and 42 parse |
| Strconv.AtoiItoa | pkg/config/config.go:52-54 | an int64 printed with `%d` parses back to the same int64 |
| Strconv.ItoaIsDecimal | pkg/config/config.go:52-54 | `%d` prints every integer as an optionally signed run of digits whose value is that integer |
| Strconv.Atoi | pkg/controller/helpers.go:41-48 | the parse the handler and the flags use: a value exactly when ParseInt reports no error (its meaning is stated by AtoiIsRangeCheckedDecimal) |
| Strconv.AtoiIsRangeCheckedDecimal | pkg/controller/helpers.go:41-48 | Atoi succeeds exactly on an optionally signed, non-empty run of decimal digits whose value lies in the int64 range, and then returns that value |
| Strconv.AtoiRangeError | pkg/controller/helpers.go:41-48 | the decimal text of an integer outside the int64 range is rejected, and the value Atoi discards is the bound on the integer's side |
| Strconv.ParseInt | pkg/controller/controller.go:86 | the signed scan under Atoi: a syntax error yields 0, a range error yields the bound of the sign, otherwise the signed value (its meaning is stated by ParseIntOnError and AtoiIsRangeCheckedDecimal) |
| Strconv.ParseUint | pkg/controller/controller.go:86 | the unsigned digit scan that stops at the first bad byte or at the first overflow of 64 bits (its meaning is stated by ParseUintMeaning) |
| Strconv.ParseUintMeaning | pkg/controller/controller.go:86 | the unsigned scan is a syntax error on the empty text, a range error when the leading digit run's value exceeds 2^64-1, a syntax error when a non-digit follows the run, and otherwise the run's value |
| Strconv.ParseIntOnError | pkg/controller/controller.go:86 | the value a failed parse leaves behind: MaxInt64 or MinInt64 for an out-of-range decimal, and for any other text 0 unless its leading digits overflow, in which case the bound of its sign |
| Strconv.ParseBoolFormatBool | pkg/config/config.go:49-51 | a bool printed with `%t` parses back to the same bool |
| Strconv.ParseBool | pkg/config/flags.go:20 | strconv.ParseBool: the spellings 1, t, T, TRUE, true, True and 0, f, F, FALSE, false, False, anything else an error (its round trip with `%t` is ParseBoolFormatBool) |
| Strconv.AtoiExamples | pkg/controller/helpers.go:41-48 | signed decimal texts parse; the empty text, a lone sign, a leading space and words do not |
| GoStrings.SplitJoin | pkg/config/envs.go:56 | splitting pieces joined by a separator that none of them contains gives the pieces back |
| GoStrings.TrimPrefix | pkg/config/envs.go:54 | with the prefix present, the prefix followed by the result is the input; otherwise the input is unchanged |
| GoStrings.TrimSuffix | pkg/config/envs.go:55 | with the suffix present, the result followed by the suffix is the input; otherwise the input is unchanged |
| GoStrings.Split | pkg/config/envs.go:56 | one more piece than separators, no piece holds the separator, and joining the pieces with it gives the input back |
| GoStrings.ToUpper | pkg/config/config.go:75 | the length is kept, no lower-case ASCII letter remains, each lower-case letter becomes the same letter upper-cased and every other byte is unchanged |
| GoStrings.ReplaceAll | pkg/config/config.go:75 | the length is kept, every occurrence of the old byte becomes the new one and nothing else changes, so a different old byte no longer occurs |
| GoStrings.LexLeFirstDifference | pkg/controller/controller.go:104 | Go's string order: a is before or equal to b exactly when a is a prefix of b or the first differing byte of a is smaller |
| Controller.OddMonthMeansParsedOdd | pkg/controller/controller.go:86-88 | a comic whose month parses is kept exactly when the month is odd, negative odd months included; a decimal month above MaxInt64 reads as MaxInt64 and is kept, one below MinInt64 reads as MinInt64 and is dropped; any other unparseable month is kept exactly when the discarded value is MaxInt64 |
| Controller.GoRem | pkg/controller/controller.go:86 | Go's `%` with a positive divisor: the dividend is the truncated quotient times the divisor plus the remainder, and the remainder is smaller than the divisor in size, never negative for a non-negative dividend and never positive for a negative one, which fixes it uniquely |
| Controller.MonthNumber | pkg/controller/controller.go:86 | the month as the handler reads it: Atoi's value, kept even when Atoi reports an error (stated by OddMonthMeansParsedOdd and ParseIntOnError) |
| Controller.IsOddMonth | pkg/controller/controller.go:86 | the filter `m%2 != 0` on that month (its meaning is stated by OddMonthMeansParsedOdd) |
| Controller.OddMonthPositions | pkg/controller/controller.go:85-88 | the positions holding an odd-month comic, strictly increasing, each in range, with no odd-month position missing |
| Controller.KeepOddMonths | pkg/controller/controller.go:85-88 | the kept comics are exactly the comics at the odd-month positions, in fetch order |
| Controller.Range | pkg/controller/controller.go:61 | the identifiers start..end inclusive in ascending order, none when start > end |
| Controller.Visits | pkg/controller/controller.go:61 | one turn of the counter: start..end when end is below MaxInt64, and otherwise all 2^64 values from start upwards, wrapping from MaxInt64 to MinInt64 |
| Controller.EveryInt64Visited | pkg/controller/controller.go:61 | with end at MaxInt64 every int64 is requested in one turn of the counter |
| Controller.FetchFiltered | pkg/controller/controller.go:61-89 | the loop over a list of identifiers: the first failure's error, otherwise the odd-month comics in fetch order (its meaning is stated by FirstFailureAborts and AllFetchedKeepsOddMonths) |
| Controller.Attempted | pkg/controller/controller.go:61-84 | the identifiers the loop requests: all of them, or those up to and including the first failing one (stated by FirstFailureAborts and AllFetchedKeepsOddMonths) |
| Controller.AllFetchedKeepsOddMonths | pkg/controller/controller.go:61-89 | when every fetch succeeds, every identifier is requested and the loop yields the odd-month comics in fetch order |
| Controller.KeepOddMonthsKeepsAllOdd | pkg/controller/controller.go:85-88 | a list of odd-month comics passes the filter unchanged |
| Controller.FirstFailureAborts | pkg/controller/controller.go:61-84 | when position k is the first failing fetch, the loop's result is that fetch's error and exactly the identifiers up to k are requested |
| Controller.FirstFailureExists | pkg/controller/controller.go:61-84 | when some fetch fails there is a first failing one |
| Controller.FailureIsFinal | pkg/controller/controller.go:63-83 | once the loop has failed, later identifiers change neither the result nor the requests |
| Controller.FetchOddMonthComics | pkg/controller/controller.go:61-89 | the imperative loop, whose counter wraps from MaxInt64 to MinInt64, has no outcome when end is MaxInt64 and every fetch succeeds; otherwise it has the recursive loop's result over one turn of the counter; it requests the identifiers of the turn up to the first failure |
| Controller.FetchTurn | pkg/controller/controller.go:61-89 | the loop body over any sequence that is one turn of the counter: the same result and requests as the recursive definition, and no outcome when every fetch succeeds and end is MaxInt64 |
| Controller.SortKey | pkg/controller/controller.go:96-102 | the comparator's key is a non-empty suffix of a non-empty title |
| Controller.SortKeyCharacterisation | pkg/controller/controller.go:96-102 | the key is the title exactly when the title starts with a letter or has no letter after its first byte; otherwise it starts at the first letter from index 1 on |
| Controller.SortKeyExamples | pkg/controller/controller.go:96-102 | "Geico" and "A Story" keep their titles, "#Hashtag" sorts as "Hashtag", "1984" stays "1984" |
| Controller.Insert | pkg/controller/controller.go:91-105 | inserting into a key-sorted list gives a key-sorted permutation of the list plus the new comic |
| Controller.SortComics | pkg/controller/controller.go:91-105 | the result is a permutation of the input and is sorted by the comparator's key order |
| Controller.SortedMeansNoInversion | pkg/controller/controller.go:104 | in a sorted result no later comic is strictly less than an earlier one under the comparator |
| Controller.ComparatorPanics | pkg/controller/controller.go:92-105 | the comparator indexes `title[0]`, so sorting panics when two or more comics are kept and one of them has an empty title |
| Controller.GetComics | pkg/controller/controller.go:45-108 | 400 exactly when the parameters are rejected, with their message; no answer only when end is MaxInt64; every answer is 200, 400 or 500; a 200 carries either a non-empty key-sorted list or the null list |
| Controller.Requests | pkg/controller/controller.go:61-84 | the identifiers the handler requests: none on a parameter error, otherwise the turn's identifiers up to the first failure (stated by ParamErrorFetchesNothing, UpstreamFailureAborts, WrappedFailureAborts and SuccessIsSortedPermutation) |
| Controller.ParamErrorFetchesNothing | pkg/controller/controller.go:52-56 | a parameter error is answered with 400 and its message before anything is requested |
| Controller.UpstreamFailureAborts | pkg/controller/controller.go:61-84 | with valid parameters and a first failing id between start and end, the identifiers from start to it are requested in order and its error is the 500 answer |
| Controller.RangeFirstFailure | pkg/controller/controller.go:61-84 | an id between start and end that is the first to fail is the first failure of the turn, at position id - start, with start..id before and at it |
| Controller.WrappedFailureAborts | pkg/controller/controller.go:61-84 | with end at MaxInt64, when everything from start up succeeds and the first failure comes after the wrap, start..MaxInt64 and then MinInt64..id are requested and that error is the 500 answer |
| Controller.NeverAnswers | pkg/controller/controller.go:61-89 | the handler never answers if and only if the parameters parse, end is MaxInt64 and every int64 fetches successfully |
| Controller.EndlessTurn | pkg/controller/controller.go:61-89 | when every int64 fetches successfully the loop up to MaxInt64 has no outcome, whatever the start |
| Controller.FailureEndsTurn | pkg/controller/controller.go:61-84 | when some int64 fails to fetch the loop up to MaxInt64 ends, whatever the start |
| Controller.SuccessIsSortedPermutation | pkg/controller/controller.go:61-107 | when end is below MaxInt64, every fetch succeeds and no title is empty, the whole range is requested and the 200 answer is a key-sorted permutation of the odd-month comics, written as null exactly when none is kept |
| Controller.ReversedRangeIsEmpty | pkg/controller/controller.go:47-107 | start > end requests nothing and answers 200 with the nil list, which is written as `{"comics":null}` |
| Controller.GetComicsFixture | pkg/controller/controller_test.go:73-122 | `?start=40&end=42` against the three January comics requests 40, 41, 42 and answers 200 with Geico, Light, Old Drawing |
| Controller.JanuaryTrioAnswers | pkg/controller/controller_test.go:73-122 | any source serving three January comics titled Light, Old Drawing and Geico as 40..42 gets that same ordered answer |
| Config.Values | pkg/config/config.go:19-30 | a configuration has ten values, each of the Go type its field declares |
| Config.Fields | pkg/config/config.go:19-30 | the fields carry the declared names and sensitive tags, in declaration order |
| Config.MarshalAppend | pkg/config/config.go:43-60 | the printout of two runs of fields is the concatenation of their printouts |
| Config.MarshalFields | pkg/config/config.go:43-60 | the loop over the fields, each writing its entry in turn (stated by MarshalAppend, SensitiveFieldOmitted and PlainFieldPrinted) |
| Config.MarshalConfig | pkg/config/config.go:38-62 | the printout is the non-sensitive fields' printed lines, each followed by a line break |
| Config.SensitiveFieldOmitted | pkg/config/config.go:44-47 | a field with a sensitive tag contributes nothing: removing it leaves the printout unchanged |
| Config.PlainFieldPrinted | pkg/config/config.go:47-58 | a field without a sensitive tag appears as `Name: value` and a line break, between the printouts of the fields before and after it |
| Config.Render | pkg/config/config.go:48-58 | the value text of a printed field: `%t` for a bool, `%d` for an int, `%s` for a string or a bracketed, space-joined list (stated by RenderIntParses, RenderBoolParses and RenderStringsBracketed) |
| Config.MarshalIsUnlines | pkg/config/config.go:38-62 | the printout is the non-sensitive fields' lines, each ended by a line break |
| Config.MarshalLines | pkg/config/config.go:38-62 | when no name or value holds a line break, splitting the printout at line breaks gives exactly the non-sensitive fields' lines in order, then the empty text |
| Config.RenderIntParses | pkg/config/config.go:52-54 | a printed int reads back as the same int |
| Config.RenderBoolParses | pkg/config/config.go:49-51 | a printed bool is `true` or `false` and reads back as the same bool |
| Config.RenderStringsBracketed | pkg/config/config.go:55-57 | a printed string list is bracketed, `[]` when empty, and a non-empty list of space-free elements is recovered by splitting inside the brackets at spaces |
| Config.MarshalPlain | pkg/config/config.go:38-62 | with no sensitive field, every field's line is printed in order |
| Config.NoSensitiveField | pkg/config/config.go:19-30 | no field of Config carries a sensitive tag |
| Config.MarshalLogLevelOnly | pkg/config/config_test.go:23-29 | the log-level-only configuration prints the ten lines the test expects, zero values as empty text, 0, [] and false |
| Config.MarshalSeveralFields | pkg/config/config_test.go:30-39 | one-element lists print as their element in brackets, even when it contains a space |
| Config.EnvVarName | pkg/config/config.go:74-78 | the key has the name's length and no dash; a dashed name has dashes turned into underscores and letters upper-cased; an undashed name is kept as it is |
| Config.EnvVarNameIdempotent | pkg/config/config.go:74-78 | deriving the key of a key changes nothing |
| Config.EnvVarNamesMatchKeys | pkg/config/config.go:19-30 | every field's flag name derives exactly its `mapstructure` key |
| Config.ApplyFlag | pkg/config/config.go:86-89 | only the flag's key changes; it ends up with the flag's value when changed, else a value already set, else the flag's default |
| Config.BindCobraFlags | pkg/config/config.go:66-96 | the visit of every flag: bind its key, then apply it, keeping the last binding error (stated by BindLeavesOtherKeys, BindResolvesFlag, BindFailsIffSomeBindFails and BindErrorIsLastFailure) |
| Config.BindLeavesOtherKeys | pkg/config/config.go:71-91 | keys that belong to no flag keep their presence and value |
| Config.BindResolvesFlag | pkg/config/config.go:71-91 | with distinct keys, every flag whose key binds ends up with its resolved value, whether or not other flags failed |
| Config.BindFailsIffSomeBindFails | pkg/config/config.go:79-84 | an error is returned if and only if some flag's key fails to bind |
| Config.BindErrorMessage | pkg/config/config.go:82 | the error text for a flag whose key failed to bind, naming the flag and carrying the cause (BindErrorIsLastFailure states which flag's text is returned) |
| Config.BindErrorIsLastFailure | pkg/config/config.go:79-95 | the error returned names the last flag whose key failed to bind, with its cause |
| Envs.Unbracket | pkg/config/envs.go:54-55 | at most one `[` is removed at the front and at most one `]` at the back, each only when present |
| Envs.DecodeSlice | pkg/config/envs.go:54-56 | the pieces are comma-free, one more than the commas inside the brackets, and joined with commas they give the unbracketed text |
| Envs.DecodeSliceHook | pkg/config/envs.go:44-60 | a non-list target passes the data through; a list target with string data gets comma-free pieces, one more than the commas in the unbracketed text, that join with commas back to it; a list target with non-string data panics |
| Envs.DecodeBracketedList | pkg/config/envs.go:52-56 | a non-empty list of comma-free elements printed as `[a,b,c]` decodes to the same list |
| Envs.BracketedDecode | pkg/config/envs.go:52-56 | decoding a bracketed text and printing the pieces gives the text back |
| Envs.EmptyListDecodesToEmptyString | pkg/config/envs.go:54-56 | an empty list prints as `[]` and decodes to a list of one empty string |
| Envs.DecodeSliceExamples | pkg/config/envs.go:54-56 | brackets are optional, only one pair is stripped, spaces are kept and the empty text is one empty piece |
| Envs.HookExamples | pkg/config/envs.go:52-58 | int and bool targets pass through; `[a,b]` decodes to a and b; slice data for a list target panics |
| Flags.DefaultFor | pkg/config/flags.go:15-27 | a default exists exactly for the four known types; an int default is Atoi's value when it parses; a bool default is ParseBool's value, false when it does not parse; a string default is the tag itself; a list default is the tag split at single spaces |
| Flags.IntDefaultOnError | pkg/config/flags.go:16-18 | an int default that does not parse keeps the value Atoi discards: the bound of its sign when the decimal is out of range, and otherwise 0 or a bound |
| Flags.Lookup | pkg/config/flags.go:48 | no flag is found exactly when no flag has the name; a found flag has the name and is in the set |
| Flags.AddCobraFlag | pkg/config/flags.go:14-28 | an unknown type adds nothing; a known type with a taken name panics; otherwise the new flag is found under its name with its parsed default, and every other name's lookup is unchanged |
| Flags.LookupAppend | pkg/config/flags.go:14-28 | an appended flag is found under its name and no other lookup changes |
| Flags.WithTarget | pkg/config/flags.go:37-40 | the flags go to the persistent set of a root command and the local set of a sub-command; the other set is untouched |
| Flags.BindPFlag | pkg/config/flags.go:48-50 | binding a missing flag is the nil-flag error; otherwise only the key's binding changes |
| Flags.BindField | pkg/config/flags.go:35-50 | one field's turn: add its flag to the target set, then bind the flag found under its name (stated by FirstFieldBinds, RedefinitionPanics and UnknownTypeBindsExistingFlag) |
| Flags.BindFields | pkg/config/flags.go:34-51 | the fields in declaration order, the first error ending the loop (stated by BindFieldsSucceeds, BindFieldsBindsEach and BindFieldsStopsAtUnknown) |
| Flags.BindCobraFlagsToCmd | pkg/config/flags.go:32-53 | with known types and distinct untaken names, binding succeeds and the target set gains exactly the fields' flags, in order |
| Flags.FlagsOf | pkg/config/flags.go:34-46 | one flag per field, in order, with the field's parsed default |
| Flags.BindFieldsSucceeds | pkg/config/flags.go:32-53 | with known types and distinct fresh names, binding succeeds, the target set gains exactly the fields' flags in order, and the other set and parent status are untouched |
| Flags.BindFieldsBindsEach | pkg/config/flags.go:48-50 | under the same conditions every field's name is bound to its flag |
| Flags.BindFieldsBindsAll | pkg/config/flags.go:34-51 | under the same conditions every field's name is bound to its flag, all at once |
| Flags.BindFieldsKeepsOthers | pkg/config/flags.go:48-50 | under the same conditions no other name's binding changes |
| Flags.BindFieldsStopsAtUnknown | pkg/config/flags.go:42-50 | the first field of unknown type with an untaken name ends the loop with the nil-flag error for that name |
| Flags.RedefinitionPanics | pkg/config/flags.go:42-46 | a known-type field whose name is taken panics the loop |
| Flags.UnknownTypeBindsExistingFlag | pkg/config/flags.go:42-50 | an unknown-type field whose name is taken adds nothing and binds the existing flag |
| Flags.DefValueReadsBack | pkg/config/flags.go:15-27 | a parsed default, printed as pflag keeps it, reads back to the same default through Atoi, ParseBool or the decode hook |
| Flags.DefValue | pkg/config/config.go:88 | the text pflag keeps as a flag's default, which BindCobraFlags stores for an unchanged flag (DefValueReadsBack states that it reads back to the default) |
| Flags.SchemaTypesKnown | pkg/config/config.go:19-30 | every field of Config has one of the four known types |
| Flags.SchemaFlagsDistinct | pkg/config/config.go:19-30 | no two fields of Config share a flag name |
| Flags.RootCommandGetsPersistentFlags | pkg/config/flags.go:32-53 | on a root command the ten fields become its persistent flags in declaration order, each bound under its name |
| Flags.SubCommandGetsLocalFlags | pkg/config/flags.go:37-40 | on a sub-command they become local flags and its persistent flags stay as they were |
| Flags.SecondBindingPanics | pkg/config/flags.go:42-46 | binding the fields a second time into the same set panics on `log-level` |
| Flags.ScalarDefaults | pkg/config/config.go:20-29 | the scalar fields' defaults parse to "info", 10, false and 1 |
| Flags.AllowOriginsDefault | pkg/config/config.go:24 | the origins default splits into the single element `*` |
| Flags.AllowMethodsDefault | pkg/config/flags.go:24-26 | the methods default splits into GET, POST, PUT, DELETE |
| Flags.AllowHeadersDefault | pkg/config/flags.go:24-26 | the headers default splits into Origin and content-type |
| Flags.ExposeHeadersDefault | pkg/config/config.go:27 | the exposed-headers default splits into the single element Content-Length |
| Flags.SchemaDefaultsReadBack | pkg/config/config.go:19-30 | every field's default, printed as pflag keeps it and read back as the configuration reads it, is the default the flag was created with |

## Left out

- HTTP: routing, the request URL, the outbound client, reading response bodies, JSON encoding and decoding. They are abstracted into the `Fetcher` parameter and the `Response` datatype. The handler does not look at the upstream status code, so any non-JSON reply surfaces as a decode error from the fetcher.
- The handler reuses one `comic` variable for every JSON decode (`pkg/controller/controller.go:48,79`), so a field missing from a later reply keeps the previous comic's value. The fetcher returns whole records and does not model that carry-over.
- `AbortWithError` logging through `c.Error`. Only the status and the `{"error": ...}` body are modelled.
- `Controller.SortComics`: it only proves that the result is a key-sorted permutation. It does not model pdqsort's placement of comics with equal keys, because sort.Slice is not stable and the order among equal keys is not specified.
- `Controller.ComparatorPanics`: it assumes that sorting two or more comics calls the comparator on every one of them. That holds for Go's sort.Slice, whose code is not part of this model.
- Platforms where Go's `int` is 32 bits wide. The model fixes `int` at 64 bits, so a range error on such a platform is not modelled.
- `Controller.FetchOddMonthComics`: when every fetch succeeds and `end` is MaxInt64, the Go loop requests the same 2^64 identifiers again and again for as long as it runs. The model stops after one turn of the counter and reports no outcome. `requested` and `Controller.Requests` list that one turn.
- `GoStrings.ToUpper`: it upper-cases ASCII letters only, because flag names are ASCII.
- `Config.BindCobraFlags`:
  - The store's case-insensitive keys are not modelled.
  - `IsSet` is modelled as key presence in the store map.
  - The flag visiting order is a parameter, because pflag's sorted visiting order is not part of this model.
- `Config.BindCobraFlags`: the comment at `pkg/config/config.go:80-83` says the code "exits abruptly", but the `return` only ends that flag's callback. The model follows the code: later flags are still processed, and the last failure's error is the one returned.
- `Flags.BindPFlag`: the store's lower-casing of keys and its `%q` quoting in the nil-flag message are not modelled.
- `Flags.DefValue` / `Envs.BracketedList`: they do not model pflag's CSV quoting of list elements that need it. The CSV writer quotes an element that contains a comma, a quote, `\n` or `\r`, one that starts with whitespace, and the element `\.`. The round-trip lemmas require comma-free elements and the schema's list defaults contain none of these.
- `Envs.DecodeSliceHook`: an empty list does not survive printing and decoding (`Envs.EmptyListDecodesToEmptyString`). This is stated as the source behaves, not corrected.
- Panic messages: pflag's redefinition panic message and gin's recovery log are not modelled.
- Not modelled because they are I/O or wiring:
  - `GetViper` (`pkg/config/envs.go:16-42`).
  - `Health`.
  - The server and logger packages.
  - `cmd/root.go` and `main.go`.
