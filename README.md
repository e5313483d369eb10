# conjur-bitbucket-pipe core, in Dafny

This project models the part of the Conjur Bitbucket pipe (`pipe/pipe.py`) that turns a
comma-separated list of Conjur secret identifiers into shell variable assignments, and proves
properties of that model.

- **Parsing the list.** `PipeConfig.secrets_to_list` splits the `SECRETS` input on `,` and drops
  the empty pieces.
- **Checking the names.** `ConjurPipe.validateSecretNames` computes each identifier's short name,
  which is its last `/`-segment.
  - It rejects the list when two short names coincide.
  - Otherwise it rejects the list when a short name does not match `^[a-zA-Z_][a-zA-Z0-9_]*$`
    under Python's `re.match`.
  - The error message quotes the offending name with `json.dumps`.
- **Fetching.** `ConjurPipe.fetch_secrets` runs that check before the one batched `get_many`
  request to the Conjur client, and returns the client's answer unchanged.
- **Writing the env file.** `ConjurPipe.writeSecrets` writes one line per secret to
  `secrets.env`, as `shortname=` followed by `json.dumps(value)`. It also writes the constant
  `activate_script` to `load_secrets.sh`.

Modules, one file each:

| file | module | what it holds |
|---|---|---|
| `wrappers.dfy` | `Wrappers` | `Option` and `Result`. A raised `ValueError` is a `Failure`. |
| `text.dfy` | `Text` | Python's `str.split` and `str.join` on a one-character separator, and their laws. |
| `pipe_config.dfy` | `PipeConfig` | `secrets_to_list`. |
| `json_string.dfy` | `JsonString` | `json.dumps` on a `str` with the default `ensure_ascii=True` (section 7 of RFC 8259), and a JSON string decoder that is its left inverse. |
| `secret_names.dfy` | `SecretNames` | Short names, the regular expression as Python runs it, and `validateSecretNames`. Also the corrected check described under Findings. |
| `env_file.dfy` | `EnvFile` | The writing loop of `writeSecrets` as an imperative method, the text it produces, a reader for that text, and the activation script. |
| `secret_fetch.dfy` | `SecretFetch` | `fetch_secrets` as a method over a `Client` class. The class records every `get_many` call and answers from a map. |

Notes on the code:

- The duplicate-name error carries no name. Its message is fixed (`pipe/pipe.py:151`).
- The files are opened with modes `0o644` and `0o755` (`pipe/pipe.py:123-128`), which are not
  owner-only. The model claims nothing about permissions.
- No directory is created. An absent directory argument falls back to `os.getcwd()`
  (`pipe/pipe.py:118-119`).

A dictionary of secrets is modelled as the sequence of its `(identifier, value)` entries in
iteration order.

## Model

| member | source | states |
|---|---|---|
| `Text.JoinSplit` | pipe/pipe.py:72 | Joining the pieces of `s.split(sep)` with `sep` gives `s` back, so splitting loses nothing. |
| `Text.SplitJoin` | pipe/pipe.py:72 | Splitting a join of one or more separator-free pieces gives the pieces back. |
| `Text.SplitConcat` | pipe/pipe.py:135 | The split of `a + sep + b` is the split of `a` followed by the split of `b`. |
| `Text.SplitTerminated` | pipe/pipe.py:136 | Separator-terminated lines split back into those lines plus one final empty piece. |
| `PipeConfig.RemoveEmpty` | pipe/pipe.py:72 | `filter(None, pieces)`. Each element of the result is non-empty and is one of the pieces, and there are no more elements than pieces. `RemoveEmptyCounts` and `RemoveEmptyAppend` characterise it fully. |
| `PipeConfig.SecretsToList` | pipe/pipe.py:70-72 | Every element of the result is non-empty and has no comma. |
| `PipeConfig.RemoveEmptyCounts` | pipe/pipe.py:72 | `filter(None, …)` keeps each non-empty piece exactly as often as it occurs, and drops every empty piece. |
| `PipeConfig.SecretsToListMembers` | pipe/pipe.py:72 | A string is in the result exactly when it is a non-empty piece of the comma split. |
| `PipeConfig.SecretsToListKeepsCharacters` | pipe/pipe.py:72 | The elements, concatenated in order, are the input with its commas removed, so no character is lost and the characters keep their order. |
| `PipeConfig.SecretsToListConcat` | pipe/pipe.py:72 | The list of `a,b` is the list of `a` followed by the list of `b`, so the identifiers keep their order in the input. |
| `PipeConfig.SecretsToListOfJoin` | pipe/pipe.py:70-72 | Non-empty, comma-free identifiers joined with `,` parse back to exactly that list. |
| `PipeConfig.EmptyInput` | test/test_config.py:45-53 | `""` gives `[]`. |
| `PipeConfig.TwoSecrets` | test/test_config.py:14-23 | `"secret1,secret2"` gives `["secret1", "secret2"]`. |
| `PipeConfig.SingleSecret` | test/test_config.py:30-37 | `"single_secret"` gives `["single_secret"]`. |
| `PipeConfig.EmptyPiecesDropped` | pipe/pipe.py:71-72 | `"a,,b,"` gives `["a", "b"]`. |
| `JsonString.EscapeChar` | pipe/pipe.py:133 | The escape of one character under `ensure_ascii`. It is non-empty and all printable ASCII. `DecodeUnitOfEscape`, `EscapeCharUnits` and `PairEscape` characterise it. |
| `JsonString.EscapeAll` | pipe/pipe.py:133 | The escapes of all characters in order, without the quotes. The result is all printable ASCII. `DecodeEscapeAll` and `EscapeAllUnits` characterise it. |
| `JsonString.Dumps` | pipe/pipe.py:132-133 | The quoted value begins and ends with `"`, and every character in it is printable ASCII. |
| `JsonString.UnicodeEscape` | pipe/pipe.py:133 | `\uXXXX` is six printable characters: a backslash, `u`, and four hex digits whose value is the code unit. |
| `JsonString.EscapeAllQuotes` | pipe/pipe.py:132-133 | Inside the quotes, every `"` directly follows a backslash. |
| `JsonString.EscapeAllUnits` | pipe/pipe.py:132-133 | Read one escape unit at a time (a backslash and the character after it, or one other character), the escaped value ends on a unit boundary and holds no raw `"`. So no raw quote closes the value early. |
| `JsonString.DumpsShape` | pipe/pipe.py:132-133 | The quoted value is a quote, the escaped value and a quote. It contains no raw newline, and the escaped value holds no raw quote when read unit by unit, so the last quote is the first one that ends the string. |
| `JsonString.DecodeUnitOfEscape` | pipe/pipe.py:133 | Decoding the escape of any character, followed by anything, gives that character and consumes exactly the escape. |
| `JsonString.DecodeEscapeAll` | pipe/pipe.py:133 | The escaped body of any string decodes back to that string. |
| `JsonString.RoundTrip` | pipe/pipe.py:132-133 | Decoding `json.dumps(value)` gives `value` for every string. |
| `JsonString.EscapeAllPlain` | pipe/pipe.py:133 | A string of printable ASCII without `"` or `\` is copied unchanged. |
| `JsonString.QuoteExample` | test/test_pipe.py:86-103 | `value"3` becomes `"value\"3"`. |
| `JsonString.DumpsPlain` | test/test_pipe.py:84-87 | A value of printable ASCII without `"` or `\` is only surrounded by quotes, as `value 1`, `value=2` and `value'4` are. |
| `JsonString.DumpsAround` | pipe/pipe.py:132-133 | One character between two such plain runs: only that character is replaced by its escape. |
| `JsonString.DumpsChar` | pipe/pipe.py:132-133 | A one-character value is the escape of that character between quotes. |
| `JsonString.HighSurrogate` | pipe/pipe.py:133 | The high surrogate of a code point above U+FFFF lies in `D800`-`DBFF`. |
| `JsonString.LowSurrogate` | pipe/pipe.py:133 | The low surrogate of a code point above U+FFFF lies in `DC00`-`DFFF`. |
| `JsonString.SurrogateArithmetic` | pipe/pipe.py:133 | The two surrogates recombine to the code point they were taken from. |
| `JsonString.PairEscape` | pipe/pipe.py:133 | A code point above U+FFFF is escaped as the `\uXXXX` of its high surrogate followed by that of its low surrogate. |
| `JsonString.NewlineExample` | pipe/pipe.py:133 | An embedded newline becomes the two characters `\n`. |
| `JsonString.NonAsciiExample` | pipe/pipe.py:133 | U+00E9 becomes `\u00e9`, in lowercase hex. |
| `JsonString.AstralExample` | pipe/pipe.py:133 | U+1F600 becomes the surrogate pair `\ud83d\ude00`. |
| `SecretNames.ShortName` | pipe/pipe.py:147 | `key.split('/')[-1]`, also applied at lines 135 and 154. It has no contract of its own. `ShortNameIsLastSegment`, `ShortNameIdempotent` and `ShortNameOfPath` characterise it. |
| `SecretNames.ShortNames` | pipe/pipe.py:147 | The list comprehension of short names, one per identifier. It has no contract of its own. `ShortNameElements` relates it to `set(keys)`. |
| `SecretNames.ShortNameIsLastSegment` | pipe/pipe.py:147 | The short name has no `/`. It is a suffix of the identifier, and is either the whole identifier or directly preceded by `/`. |
| `SecretNames.ShortNameIdempotent` | pipe/pipe.py:154 | Truncating a short name again changes nothing. |
| `SecretNames.ShortNameOfPath` | pipe/pipe.py:135 | A name without `/` is its own short name, and is the short name of `path/name` for any path. |
| `SecretNames.NameRunEnd` | pipe/pipe.py:156 | The greedy `[a-zA-Z0-9_]*` run from a position ends at the first character outside the class, or at the end. |
| `SecretNames.MatchesNamePattern` | pipe/pipe.py:156-157 | `re.compile("^[a-zA-Z_][a-zA-Z0-9_]*$").match(s)` as Python runs it, with a greedy run and `$` matching at the end or before one final newline. It has no contract of its own. `MatchesNamePatternIff` characterises it. |
| `SecretNames.MatchesNamePatternIff` | pipe/pipe.py:156-157 | `re.match` with this pattern accepts exactly two kinds of string: the shell variable names, and those names followed by one `\n`. |
| `SecretNames.DistinctIffNoSetLoss` | pipe/pipe.py:150 | `len(keys) == len(set(keys))` holds exactly when the keys are pairwise distinct. |
| `SecretNames.CheckNames` | pipe/pipe.py:153-158 | The loop passes exactly when every re-truncated key matches. Otherwise it raises the unsupported-name error for the first key that does not match, quoted with `json.dumps`. |
| `SecretNames.ValidateDuplicates` | pipe/pipe.py:147-151 | The duplicate error is raised exactly when two identifiers share a short name. |
| `SecretNames.ValidateSucceeds` | pipe/pipe.py:142-158 | Validation passes exactly when the short names are pairwise distinct and each matches the pattern. |
| `SecretNames.ValidateReportsFirstInvalid` | pipe/pipe.py:153-158 | An unsupported-name error means the short names were distinct. It quotes the first short name that fails the pattern. |
| `SecretNames.ValidateOrderIndependent` | pipe/pipe.py:147-151 | Reordering the identifiers changes neither whether validation passes nor whether it reports duplicates. |
| `SecretNames.ShortNameElements` | pipe/pipe.py:147-150 | `set(keys)` is the set of short names of the identifiers. |
| `SecretNames.ErrorMessage` | pipe/pipe.py:151-158 | The text of the two `ValueError`s. It has no contract of its own. `ErrorMessageQuotes` states the unsupported-name prefix. |
| `SecretNames.Validate` | pipe/pipe.py:142-158 | `validateSecretNames` as written. It has no contract of its own. `ValidateDuplicates`, `ValidateSucceeds`, `ValidateReportsFirstInvalid` and `ValidateOrderIndependent` characterise it. |
| `SecretNames.ErrorMessageQuotes` | pipe/pipe.py:158 | The unsupported-name message starts with `Unsupported secret name ` followed by the quoted name. |
| `SecretNames.RejectsSingleName` | pipe/pipe.py:157-158 | A single `/`-free name that fails the pattern gives the unsupported-name error for `json.dumps(name)`. |
| `SecretNames.AcceptsSingleName` | pipe/pipe.py:153-157 | A single `/`-free name passes exactly when it matches the pattern. |
| `SecretNames.TestNamesWithSpacesFail` | test/test_pipe.py:59-64 | `contains spaces`, `trailing_space ` and ` leading_space` fail the pattern. |
| `SecretNames.TestNamesWithSymbolsFail` | test/test_pipe.py:61-65 | `quote"char"`, `<special>chars` and `equal=sign` fail the pattern. |
| `SecretNames.TestNamesWithSignsFail` | test/test_pipe.py:60-67 | `dollar$sign`, `hypen-sign` and `8numeric` fail the pattern. |
| `SecretNames.TestNamesMatchPattern` | test/test_pipe.py:37-39 | `secret1` and `secret2`, the short names of the fetch test, match the pattern. It also states that `_x` and `A_B2` match, which no test uses. |
| `SecretNames.DuplicateAcrossPaths` | test/test_pipe.py:43-53 | The same name under two paths is a duplicate, in either order. |
| `SecretNames.DistinctNamesAcrossPaths` | test/test_pipe.py:37-39 | Distinct matching names under any paths pass. |
| `SecretNames.DuplicatePathsExample` | test/test_pipe.py:43-52 | `['path/secret1', 'other/path/secret1']` is a duplicate. |
| `SecretNames.DistinctPathsExample` | test/test_pipe.py:37-39 | `['path/secret1', 'other/path/secret2']` passes. |
| `SecretNames.TrailingNewlineAccepted` | pipe/pipe.py:156-157 | As written, a shell variable name followed by `\n` passes validation, although it is not a shell variable name, and its short name keeps the newline. |
| `SecretNames.NewlineNameInList` | pipe/pipe.py:153-158 | For a list of a shell variable name followed by another one with a trailing newline, the check as written passes. The corrected check rejects the list, quoting the second name with its newline. |
| `SecretNames.ShellNameNoSlash` | pipe/pipe.py:147 | A shell variable name has no `/`, so it is its own short name. |
| `SecretNames.CheckShellNames` | pipe/pipe.py:153-158 | The corrected loop passes exactly when every re-truncated key is a shell variable name. Otherwise it raises the unsupported-name error for the first key that is not one, quoted with `json.dumps`. |
| `SecretNames.ValidateStrict` | pipe/pipe.py:142-158 | `validateSecretNames` with the corrected pattern check (see Findings). It has no contract of its own. `ValidateStrictSucceeds`, `ValidateStrictDuplicates`, `ValidateStrictAgrees` and `ValidateStrictReportsFirstInvalid` characterise it. |
| `SecretNames.ValidateStrictSucceeds` | pipe/pipe.py:142-158 | The corrected check passes exactly when the short names are pairwise distinct shell variable names. It implies the check as written, and the two agree unless a short name ends in `\n`. |
| `SecretNames.ValidateStrictReportsFirstInvalid` | pipe/pipe.py:153-158 | With the corrected check, an unsupported-name error means the short names were distinct. It quotes the first short name that is not a shell variable name. |
| `SecretNames.ValidateStrictDuplicates` | pipe/pipe.py:150-151 | Both checks report duplicates on exactly the same lists. |
| `SecretNames.ValidateStrictAgrees` | pipe/pipe.py:142-158 | When no short name ends in `\n`, the corrected check gives exactly the result of the check as written, error included. |
| `SecretNames.StrictRejectsSingleName` | pipe/pipe.py:157-158 | With the corrected check, a single `/`-free name that is not a shell variable name gives the error quoting it. |
| `SecretNames.StrictDistinctNamesAcrossPaths` | test/test_pipe.py:37-39 | With the corrected check, distinct shell variable names under any paths pass. |
| `EnvFile.EnvLine` | pipe/pipe.py:133-136 | One line without its newline: the short name, `=` and `json.dumps(value)`. It has no contract of its own. `EnvLineShape`, `EnvLineOfPath` and `ParseEnvLine` characterise it. |
| `EnvFile.RenderEnv` | pipe/pipe.py:130-136 | The whole text of `secrets.env`, the specification of the loop. It has no contract of its own. `RenderEnvAppend`, `RenderEnvIsTerminated` and `RenderEnvRoundTrip` characterise it. |
| `EnvFile.ACTIVATE_SCRIPT` | pipe/pipe.py:25-31 | The `activate_script` constant. `ActivateScriptLines` states its exact text. |
| `EnvFile.WriteSecrets` | pipe/pipe.py:130-139 | After the loop over the entries, the env-file text is the specification `RenderEnv(secrets)`. The script is the activation script. |
| `EnvFile.RenderEnvPrefix` | pipe/pipe.py:131-136 | Writing the first `i + 1` entries adds exactly the line of entry `i` and a newline, which is the step of the loop. |
| `EnvFile.RenderEnvSnoc` | pipe/pipe.py:131-136 | Writing one more entry appends exactly its line and a newline. |
| `EnvFile.RenderEnvAppend` | pipe/pipe.py:131-136 | Rendering two runs of entries concatenates their texts, so the file is built line by line. |
| `EnvFile.RenderEnvIsTerminated` | pipe/pipe.py:136 | The file is its lines, each followed by `\n`. |
| `EnvFile.EnvLineShape` | pipe/pipe.py:133-136 | A line is the short name, `=`, and the quoted value. The quoted value starts and ends with `"`, has no raw newline, holds no raw `"` between its quotes when read escape unit by escape unit, and decodes to the value. |
| `EnvFile.ParseEnvLine` | pipe/pipe.py:136 | A line whose name has no `=` and no newline reads back as that name and the exact value. |
| `EnvFile.RenderEnvLines` | pipe/pipe.py:131-136 | When no short name contains a newline, the file splits into exactly one line per entry, in order, followed by an empty piece. |
| `EnvFile.ParseAllLines` | pipe/pipe.py:131-136 | Those lines read back to all entries, renamed to their short names. |
| `EnvFile.RenderEnvRoundTrip` | pipe/pipe.py:130-136 | When no short name holds `=` or a newline, reading the file back gives every entry, in order, under its short name and with its exact value. |
| `EnvFile.ShellNamesRoundTrip` | pipe/pipe.py:130-136 | Entries whose short names are pairwise distinct shell variable names read back in full, under those names. |
| `EnvFile.StrictNamesRoundTrip` | pipe/pipe.py:130-158 | For identifiers that pass the corrected check, the file reads back under pairwise distinct shell variable names. |
| `EnvFile.ShellNamesAreLineNames` | pipe/pipe.py:156 | A shell variable name holds neither `=` nor a newline. |
| `EnvFile.TrailingNewlineBreaksLine` | pipe/pipe.py:135-136 | As written, `name + "\n"` passes validation. Its line splits in two, the file has three pieces, and it no longer reads back. |
| `EnvFile.BrokenFile` | pipe/pipe.py:135-136 | The file of one entry named `name + "\n"` splits into three pieces and does not read back. |
| `EnvFile.SingleLine` | pipe/pipe.py:131-136 | One entry gives a file of exactly its line and a newline. |
| `EnvFile.ActivateScriptLines` | pipe/pipe.py:25-31 | The script is an empty line, the shebang, `set -a`, `source ./secrets.env`, `rm ./secrets.env` and `set +a`, each ending in a newline. |
| `EnvFile.EnvLineOfPath` | pipe/pipe.py:133-136 | The line of `name` or of `path/name` is `name=` followed by the quoted value. |
| `EnvFile.PlainLine` | pipe/pipe.py:133-136 | For a plain value, the line of `name` and of `path/name` is `name="value"`. |
| `EnvFile.EscapedLine` | pipe/pipe.py:133-136 | For a value with one special character between plain runs, the line escapes only that character. |
| `EnvFile.TestLineWithSpace` | test/test_pipe.py:84-101 | `'secret1': 'value 1'` gives `secret1="value 1"`. |
| `EnvFile.TestLineWithEquals` | test/test_pipe.py:85-102 | `'secret2': 'value=2'` gives `secret2="value=2"`. |
| `EnvFile.TestLineWithQuote` | test/test_pipe.py:86-103 | `'secret3': 'value"3'` gives `secret3="value\"3"`. |
| `EnvFile.TestLineWithPath` | test/test_pipe.py:87-104 | `'path/secret4': "value'4"` gives `secret4="value'4"`. |
| `EnvFile.FourLines` | pipe/pipe.py:131-136 | A file of four entries is their four lines, in order, each followed by a newline. |
| `EnvFile.TestEnvFile` | test/test_pipe.py:82-105 | The test's dictionary gives exactly the expected `secrets.env`: `secret1="value 1"`, `secret2="value=2"`, `secret3="value\"3"` and `secret4="value'4"`, in that order, each followed by a newline. |
| `SecretFetch.Fetch` | pipe/pipe.py:110-114 | The specification of `fetch_secrets`: the validation error, or else the client's answer. It has no contract of its own. `FetchSucceeds`, `RejectedNamesFailClosed` and `FetchThenRender` characterise it, and `FetchSecrets` is proved against it. |
| `SecretFetch.Lookup` | pipe/pipe.py:114 | The stand-in `get_many` succeeds exactly when every identifier is held. It then returns each identifier with its value, in request order. Otherwise it reports the first missing identifier. |
| `SecretFetch.Client.constructor` | pipe/pipe.py:114 | A new client holds the given values and has received no call. |
| `SecretFetch.Client.GetMany` | pipe/pipe.py:114 | The call is appended to the call record, and the answer is `Lookup`. |
| `SecretFetch.FetchSecrets` | pipe/pipe.py:110-114 | The result is the specification `Fetch`. A rejected list leaves the call record unchanged. An accepted list adds exactly one call with the identifiers as given. |
| `SecretFetch.RejectedNamesFailClosed` | pipe/pipe.py:110-114 | A rejected list gives the validation error whatever the server holds. |
| `SecretFetch.FetchSucceeds` | pipe/pipe.py:110-114 | A fetch succeeds exactly when the short names are distinct shell variable names and every identifier is held. It then returns each identifier with its value, in order. |
| `SecretFetch.FetchThenRender` | pipe/pipe.py:95-96 | The result of a successful fetch, rendered, reads back to every secret under pairwise distinct shell variable names. This rests on the stand-in `get_many` answering with exactly the requested identifiers, in request order. |
| `SecretFetch.FetchTwoSecrets` | test/test_pipe.py:32-41 | Two accepted identifiers cause one call with both, and the client's answer comes back unchanged. |
| `SecretFetch.TestIdentifiersPass` | test/test_pipe.py:39 | `['path/secret1', 'other/path/secret2']` passes the check. |
| `SecretFetch.FetchDuplicateNames` | test/test_pipe.py:43-55 | `['path/secret1', 'other/path/secret1']` gives the duplicate error and no call. |
| `SecretFetch.FetchInvalidName` | test/test_pipe.py:57-77 | A `/`-free name that is not a shell variable name gives the unsupported-name error quoting it, and no call. |

## Left out

- Authentication and the HTTP client: `BitbucketAuthenticationStrategy`, `create_conjur_client` and `client.authenticate()` (`pipe/pipe.py:37-57`, `93`, `100-107`). These are calls into `conjur_api`, which is not part of this model.
- `get_many` itself: it is a stand-in that answers from a map and records its calls. The error a real request raises is unknown here. The stand-in reports the first missing identifier. It answers with exactly the requested identifiers as keys, in request order. `fetch_secrets` and `writeSecrets` never look at the keys of the dictionary a real client returns (`pipe/pipe.py:114`, `131`), so the distinct-names guarantee of `SecretFetch.FetchThenRender` holds only under that assumption.
- File I/O: the `open`/`os.open` calls and their modes `0o644` and `0o755` (`pipe/pipe.py:123-130`, `138`), and the `os.getcwd()` default directory (`pipe/pipe.py:118-119`). `WriteSecrets` returns the two texts instead of writing them.
- The log line `Writing secrets to …` (`pipe/pipe.py:121`).
- `fetch_config_from_env` (`pipe/pipe.py:75-83`): this is `os.getenv` plumbing. The `output_dir` field and the defaults its tests assert do not exist in `PipeConfig`.
- `run`, `success`, the toolkit `Pipe`, the schema and the `asyncio` entry point (`pipe/pipe.py:17-23`, `86-98`, `160-162`). They are plumbing without logic of their own. `FetchThenRender` states how fetching and rendering compose.
- How the shell reads `secrets.env`. `EnvFile.ParseEnv` reads it with the JSON string grammar. A POSIX shell `source` reads the double-quoted value differently: the backslash still escapes `"` and `\`, so those two come back, but `\n`, `\r`, `\t`, `\b`, `\f` and `\uXXXX` are kept as written. So values holding control or non-ASCII characters do not survive `source`. The shell also expands `$` and backquotes inside double quotes, which `json.dumps` leaves as they are. The runtime effect of the activation script (exporting the variables, deleting the file) is not modelled either.
- JsonString.Dumps: a Python `str` can hold a lone surrogate code point (`json.dumps('\ud800')` gives `"\ud800"`), but a Dafny `char` cannot, so values with lone surrogates are not modelled.
- `JsonString.Loads` is the decoder for the strings `json.dumps` produces, not Python's full `json.loads`. It rejects lone surrogate escapes and accepts no whitespace around the string. It is only a left inverse of `Dumps`: it also accepts `\/`, uppercase hex digits, and raw DEL or non-ASCII characters, none of which `Dumps` produces.
- Secret values are modelled as `str`. Values of other JSON types are not modelled, nor is the `bytes` a client might return.
- SecretFetch.Fetch: it uses the corrected name check (see Findings), and so do the members stated in its terms: `SecretFetch.FetchSecrets`, `SecretFetch.RejectedNamesFailClosed`, `SecretFetch.FetchSucceeds`, `SecretFetch.FetchThenRender` and `SecretFetch.FetchInvalidName`. On identifiers whose short name ends in a newline, the source accepts the list and calls `get_many`, where these members report the unsupported-name error with no call. `SecretNames.Validate` models the acceptance as written, and `SecretNames.ValidateStrictAgrees` shows that the two checks give the same result on every other list.

## Findings

| source | as written | input that shows it | evidently intended | confidence | as-written member | corrected member |
|---|---|---|---|---|---|---|
| pipe/pipe.py:156-157 | `re.match` with `^…$` is used as the name check, and Python's `$` also matches before one final newline. So a name followed by `\n` passes. Its `secrets.env` line then breaks in two: `abc` on one line, `="…"` on the next. | `fetch_secrets(client, ["abc\n"])`: validation passes and `get_many` is called | only names matching the whole pattern (`re.fullmatch`, or `\Z` instead of `$`) are accepted | not executed | `SecretNames.TrailingNewlineAccepted`, `EnvFile.TrailingNewlineBreaksLine` | `SecretNames.ValidateStrict` (proved in `SecretNames.ValidateStrictSucceeds`), used by `SecretFetch.Fetch` and proved to round-trip in `EnvFile.StrictNamesRoundTrip` and `SecretFetch.FetchThenRender` |
