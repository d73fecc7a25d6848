# `.env` configuration provider — a Dafny model

This project models `DotEnvConfigurationProvider.Load` of the LocalSharpAi API.
The provider reads an optional `.env` file and folds its lines, in order, into
the provider's `Data` dictionary, which the host's configuration system then
reads. For each line it does the following:

1. It trims the line.
2. It skips the line if the trimmed text is blank or starts with `#`.
3. It skips the line if there is no `=`, or if the first `=` is the first character.
4. It cuts the key before the first `=` and the value after it, and trims both.
5. It strips one pair of matching outer `"` or `'` quotes from the value.
6. It rewrites every `__` in the key as the section delimiter `:`.
7. It stores the pair, so a later line overwrites an earlier one with the same key.

The model is split into four modules:

- `Wrappers` (`wrappers.dfy`): the `Option` and `Result` datatypes.
- `Text` (`text.dfy`): the .NET string operations the parser calls.
  - `IsWhitespace` is `Char.IsWhiteSpace`.
  - `IsBlank` is `String.IsNullOrWhiteSpace`.
  - `Trim` is `String.Trim`. It is built from `Lead` and `Trail`, which count the white space at the front and at the back.
  - `IndexOf` is `String.IndexOf(char)`. It returns -1 when the character is absent.
  - `StartsWith` and `EndsWith` are the `char` overloads of those methods.
- `DotEnvLine` (`dotenv_line.dfy`): one line.
  - `StripQuotes` strips the quotes.
  - `ReplaceDoubleUnderscore` is `key.Replace("__", ":")`.
  - `ParseLine` is the loop body. It returns `None` where the loop `continue`s, and otherwise the `Entry` it stores.
- `DotEnvProvider` (`dotenv_provider.dfy`): the whole load.
  - `EnvFile` stands in for the file system. It is `Missing` when `File.Exists` is false, `Unreadable` when `File.ReadAllLines` throws, or `Present(lines)`.
  - `Store` is `Data[configKey] = value`.
  - `Fold` is the `foreach` loop as a pure left fold.
  - `StoreAll` is the same loop written as a loop.
  - `Load` is the method itself. It takes the prior `Data` and returns the new `Data`, or the file-access error.

Each operation is characterised without repeating its definition:

- `Trim` is the unique slice with white space around it and none at its ends (`TrimUnique`).
- Quoting and then stripping is a round trip (`StripQuotesOfQuote`).
- Key normalisation is idempotent (`ReplaceIdempotent`), and `ExpandColons` inverts it for keys without `:` (`ExpandAfterReplace`).
- Parsing a rendered entry gives the entry back (`ParseRender`).
- The fold obeys last-write-wins, a frame condition and idempotence.

## Model

| member | source | states |
|---|---|---|
| Text.Lead | src/LocalSharpAi.Api/DotEnvFileConfiguration/DotEnvConfigurationProvider.cs:30 | the count is at most the length; every character before it is white space; the character at it, if any, is not |
| Text.Trail | src/LocalSharpAi.Api/DotEnvFileConfiguration/DotEnvConfigurationProvider.cs:30 | the count is at most the length; every character in the last `n` is white space; the character before them, if any, is not |
| Text.Trim | src/LocalSharpAi.Api/DotEnvFileConfiguration/DotEnvConfigurationProvider.cs:30 | the result has no white space at either end; it is the slice of the input that starts after the leading white space; only white space follows it |
| Text.TrimUnique | src/LocalSharpAi.Api/DotEnvFileConfiguration/DotEnvConfigurationProvider.cs:30 | any slice that has only white space around it and no white space at its ends equals the trim, so the trim is uniquely determined |
| Text.TrimOfTrimmed | src/LocalSharpAi.Api/DotEnvFileConfiguration/DotEnvConfigurationProvider.cs:30 | trimming a string without white space at its ends leaves it unchanged |
| Text.TrimIdempotent | src/LocalSharpAi.Api/DotEnvFileConfiguration/DotEnvConfigurationProvider.cs:30 | trimming twice equals trimming once |
| Text.BlankTrimmedIsEmpty | src/LocalSharpAi.Api/DotEnvFileConfiguration/DotEnvConfigurationProvider.cs:33 | on a trimmed line, `IsNullOrWhiteSpace` holds exactly when the line is empty |
| Text.TrimKeepsNonWhitespace | src/LocalSharpAi.Api/DotEnvFileConfiguration/DotEnvConfigurationProvider.cs:45 | a string with a non-white-space character has a non-empty trim |
| Text.TrimContents | src/LocalSharpAi.Api/DotEnvFileConfiguration/DotEnvConfigurationProvider.cs:45 | every character of the trim occurs in the input |
| Text.IndexOf | src/LocalSharpAi.Api/DotEnvFileConfiguration/DotEnvConfigurationProvider.cs:39 | the result is -1 exactly when the character is absent; otherwise it is the position of the character's first occurrence |
| DotEnvLine.StripQuotes | src/LocalSharpAi.Api/DotEnvFileConfiguration/DotEnvConfigurationProvider.cs:49-54 | a value of length at least 2 whose ends are the same quote character loses exactly that pair (2 shorter, inner slice kept); any other value is returned unchanged |
| DotEnvLine.StripQuotesOfQuote | src/LocalSharpAi.Api/DotEnvFileConfiguration/DotEnvConfigurationProvider.cs:49-54 | wrapping any text in `"` or `'` and then stripping gives the text back, inner quotes and spaces included, so only one level is removed |
| DotEnvLine.StripQuotesKeepsUnmatched | src/LocalSharpAi.Api/DotEnvFileConfiguration/DotEnvConfigurationProvider.cs:49-54 | a lone quote and a value that opens with a quote it does not close (`"abc`, `"abc'`) are left as they are |
| DotEnvLine.ReplaceDoubleUnderscore | src/LocalSharpAi.Api/DotEnvFileConfiguration/DotEnvConfigurationProvider.cs:57 | the normalised key is no longer than the key and is non-empty when the key is; it never has two adjacent `_` |
| DotEnvLine.ReplaceWithoutDoubleUnderscore | src/LocalSharpAi.Api/DotEnvFileConfiguration/DotEnvConfigurationProvider.cs:57 | a key without `__` is left unchanged |
| DotEnvLine.ReplaceIdempotent | src/LocalSharpAi.Api/DotEnvFileConfiguration/DotEnvConfigurationProvider.cs:57 | normalising a normalised key changes nothing |
| DotEnvLine.ReplaceKeepsOtherChars | src/LocalSharpAi.Api/DotEnvFileConfiguration/DotEnvConfigurationProvider.cs:57 | any character other than `_` and `:` occurs in the normalised key exactly when it occurs in the key |
| DotEnvLine.ReplaceAfterSegment | src/LocalSharpAi.Api/DotEnvFileConfiguration/DotEnvConfigurationProvider.cs:57 | `a__b` becomes `a:` followed by the normalised `b` when `a` has no `__` and does not end in `_` (so `LLM__ApiKey` becomes `LLM:ApiKey`); with `a` empty it fixes the left-to-right scan, so `___` becomes `:` followed by the unchanged `_`, that is `:_` |
| DotEnvLine.ExpandAfterReplace | src/LocalSharpAi.Api/DotEnvFileConfiguration/DotEnvConfigurationProvider.cs:57 | for a key without `:`, writing each `:` of the normalised key back as `__` recovers the key, so the normalisation loses no character of the key |
| DotEnvLine.ParseLine | src/LocalSharpAi.Api/DotEnvFileConfiguration/DotEnvConfigurationProvider.cs:30-57 | a line is skipped exactly when its trimmed form is empty, starts with `#`, has no `=`, or starts with `=`; every accepted line yields a non-empty key with no `=` and no `__` |
| DotEnvLine.KeyIsValid | src/LocalSharpAi.Api/DotEnvFileConfiguration/DotEnvConfigurationProvider.cs:39-57 | the text before the first `=` of a trimmed line, trimmed and normalised, is a non-empty key free of `=` and `__` |
| DotEnvLine.ParseAtSeparator | src/LocalSharpAi.Api/DotEnvFileConfiguration/DotEnvConfigurationProvider.cs:39-57 | a line whose trimmed form has its first `=` at a positive position is split there: normalised trimmed key, quote-stripped trimmed value |
| DotEnvLine.ParseKeyValue | src/LocalSharpAi.Api/DotEnvFileConfiguration/DotEnvConfigurationProvider.cs:39-54 | for a trimmed key `k` without `=` or a leading `#`, the line `k=v` yields `k` normalised and the trimmed, quote-stripped `v`, so later `=` stay in the value |
| DotEnvLine.ParseEmptyValue | src/LocalSharpAi.Api/DotEnvFileConfiguration/DotEnvConfigurationProvider.cs:46 | `KEY=` yields `KEY` normalised (`A__B=` gives `A:B`), with the empty value |
| DotEnvLine.ParseRender | src/LocalSharpAi.Api/DotEnvFileConfiguration/DotEnvConfigurationProvider.cs:30-57 | writing an entry as `key="value"` and parsing the line gives back the same entry, for any value and any trimmed valid key that does not start with `#` |
| DotEnvProvider.Store | src/LocalSharpAi.Api/DotEnvFileConfiguration/DotEnvConfigurationProvider.cs:59 | a skipped line leaves the data unchanged; an accepted line adds exactly its key with its value, and every other key keeps its value |
| DotEnvProvider.Fold | src/LocalSharpAi.Api/DotEnvFileConfiguration/DotEnvConfigurationProvider.cs:28-60 | the loaded keys are the prior keys plus the keys the lines yield, so nothing is cleared; a key no line yields keeps its prior value |
| DotEnvProvider.FoldLastWriteWins | src/LocalSharpAi.Api/DotEnvFileConfiguration/DotEnvConfigurationProvider.cs:28-59 | when no later entry has the same key, the loaded value of that key is the value of the entry |
| DotEnvProvider.LinesLastWriteWins | src/LocalSharpAi.Api/DotEnvFileConfiguration/DotEnvConfigurationProvider.cs:28-59 | when several lines normalise to the same key, the loaded data holds the value from the last of them |
| DotEnvProvider.FoldWrittenIgnoresStart | src/LocalSharpAi.Api/DotEnvFileConfiguration/DotEnvConfigurationProvider.cs:28-59 | the loaded value of a key some line yields does not depend on the prior data |
| DotEnvProvider.FoldIdempotent | src/LocalSharpAi.Api/DotEnvFileConfiguration/DotEnvConfigurationProvider.cs:18-61 | loading the same lines a second time changes nothing |
| DotEnvProvider.LoadedKeysValid | src/LocalSharpAi.Api/DotEnvFileConfiguration/DotEnvConfigurationProvider.cs:39-59 | every key a file adds to the data is non-empty and free of `=` and `__` |
| DotEnvProvider.StoreAll | src/LocalSharpAi.Api/DotEnvFileConfiguration/DotEnvConfigurationProvider.cs:28-60 | the imperative loop computes the same data as the fold |
| DotEnvProvider.Load | src/LocalSharpAi.Api/DotEnvFileConfiguration/DotEnvConfigurationProvider.cs:18-61 | a missing file is not an error and leaves the data as it was; a read failure is reported before any line is stored; a readable file's lines are folded into the data in order |

## Left out

- File I/O is not modelled. `File.Exists` and `File.ReadAllLines` become the `EnvFile` input. How the framework splits a file into lines and decodes its text is not modelled.
- Case-insensitive keys are not modelled. The base class `ConfigurationProvider` keeps `Data` in a dictionary that compares keys ignoring case. That class belongs to Microsoft.Extensions.Configuration, which is not part of this model, so keys are compared exactly.
- Strings are sequences of Unicode scalar values, not UTF-16 code units. Every character the parser tests is in the Basic Multilingual Plane, so this changes positions only, never results.
- `IsWhitespace` is a concrete version of `Char.IsWhiteSpace`: the Unicode White_Space set. The proofs depend only on `=`, `#`, the quote characters, `_` and `:` not being white space.
- Worked examples such as `NESTED__A__B=x` or `K="hello` are not written as lemmas about literal strings. The general lemmas cover them: `ParseKeyValue`, `ParseEmptyValue`, `ParseRender`, `StripQuotesOfQuote`, `StripQuotesKeepsUnmatched`, `ReplaceAfterSegment`, the `ParseLine` contract and `LinesLastWriteWins`.
- `DotEnvConfigurationSource` and `DotEnvConfigurationExtensions` are not modelled. They only construct the provider with the default path `.env`.
- The host wiring in `Program.cs` and the endpoint classes is not modelled. It is routing, API versioning, Swagger setup and reflection over endpoint metadata, all declarative calls into framework libraries.
- The configuration system's reload and change tokens are not modelled. `Load` takes the prior `Data` as a parameter instead.
