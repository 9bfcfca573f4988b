# HDTools batch layer in Dafny

HDTools is a set of Python scripts that query Clemson's help-desk identity
service. Three generations of the same batch tool exist:

- `hdcli.py`;
- `hdtui.py`;
- `main.py`.

Each tool reads usernames, or username/password lines, from the command line
and an input file. It normalises the names. Each command handler runs one backend query per
identity inside `try`/`except` and collects the answers in an
insertion-ordered `dict`. It may filter that dict or relabel it before
printing it or writing it to files.

Around the HTTP calls sit a small library and two helpers:

- `hdtools/client.py`: username normalisation, cookie selection, the shape
  checks on search results and identity records, and the module renderers;
- `hdtools/config.py`: a `.env` loader;
- `hdtools/cli.py`: the parsing bits of an interactive shell.

This project models that pure layer. The modules are:

| module | file | models |
|---|---|---|
| `Wrappers` | `wrappers.dfy` | `Option`, and `Result` whose error is the text `str(e)` of a Python exception |
| `Strings` | `strings.dfy` | `str.strip`, `removesuffix`, `lower` (ASCII), `in`, `split`, `join`, `partition`, `isdigit`/`int`, `str(int)` |
| `Json` | `json.dfy` | a JSON-like `Value` and the Python operations the scripts apply to it: truthiness, `.get`, `[...]`, `[0]`, iteration, `in`, `str`/`repr` |
| `OrderedMap` | `ordered_map.dfy` | the results `dict`: Python key equality (`True == 1`), unhashable keys, and a re-assigned key keeping its place |
| `Config` | `config.dfy` | `load_dotenv` as a fold over the file's lines into an environment map |
| `Client` | `client.dfy` | the functions of `hdtools/client.py`, with each HTTP endpoint an oracle field of a `Backend` |
| `Shell` | `shell.dfy` | the identity menu, the choice validation, command splitting, zid extraction and the module status label of `hdtools/cli.py` |
| `Batch` | `batch.dfy` | what the scripts share: credential loading, the per-identity loop as a sequence of dict assignments, lockout and activity rules, employee-record selection, reset entries, the bool filters of `hdtui.py`/`main.py`, and `handle_output` of `hdtui.py`/`main.py` |
| `Hdcli` | `hdcli.py` variants in `hdcli.dfy` | label views, the formatters, and the print/output flag logic |
| `Hdtui` | `hdtui.dfy` | the raw `login` result, the filters that keep error entries under `all`, and the `supervisor` list comprehension |
| `MainScript` | `main_script.dfy` | `load_usernames`, the top-level lockout rule, and results keyed by the input name |

**How a handler is modelled.** A handler's loop body is a function from one
credential to the assignments `results[key] = value` it makes (`Writes`). A
handler is `Batch.Run`, which applies all the assignments in order to an empty
dict.

The model assumes that every operation of a handler run succeeds, except one:
a Python `dict` raises `TypeError` for an unhashable key. The handler's
`except` clause then assigns again under the same key and raises again, so
the run aborts with that error.

A key that is a string, bool, int or `None` is hashable. The alias taken from
`primaryUserName[0]` can be any JSON value, so keys are `Value`s.

**Where the code and its description disagree, the model follows the code:**

- `parse_username` is not idempotent. `"a@clemson.edu@clemson.edu"` becomes
  `"a@clemson.edu"`, and `"a @clemson.edu"` becomes `"a "`. See
  `Client.DoubledSuffixSurvives` and `Client.InnerSpaceSurvives`.
- The lockout rule of `hdcli.py` and `hdtui.py` replaces only the empty string
  with `False`. Every other value is stored as it is, including the string
  `"false"`.
- `load_credentials` keeps a name whose stripped form is non-blank. A name can
  still become empty after its suffix is removed (`"@clemson.edu"`).
- The `ErrorMessage` branch of `get_user_data` tests `isinstance(response,
  dict)` on the HTTP response object, which is never a `dict`. An error
  envelope therefore fails as "unknown data returned".
- `format_department` and `format_supervisor` of `hdcli.py` join whatever they
  are given. A stored `{"error": ...}` entry iterates over its keys, so the
  line reads `name:error`.

## Model

| member | source | states |
|---|---|---|
| Config.ParseLine | hdtools/config.py:15-19 | A line is skipped exactly when, once stripped, it is empty, starts with `#`, or has no `=`. Otherwise the key is the text before the first `=`, and the value is the stripped rest, which may itself contain `=`. |
| Config.SetVar | hdtools/config.py:20-21 | Storing a variable succeeds exactly when the name is non-empty and holds no `=`, and neither name nor value contains NUL; then only that name changes. An empty name fails with the POSIX `OSError` "[Errno 22] Invalid argument". |
| Config.Step | hdtools/config.py:14-21 | One line never changes a variable that already has a non-empty value. |
| Config.Store | hdtools/config.py:20-21 | Storing a variable keeps every variable that already has a non-empty value. |
| Config.LoadLines | hdtools/config.py:14-21 | Loading all the lines never changes a variable that already had a non-empty value. |
| Config.LoadDotenv | hdtools/config.py:9-21 | A missing file leaves the environment as it was, and a loaded file keeps every non-empty variable. |
| Config.FirstNonEmpty | hdtools/config.py:19-21 | A non-empty value from the ones a file assigns, absent exactly when all of them are empty. |
| Config.StepValue | hdtools/config.py:14-21 | Processing one line leaves the final value of every variable, as the reference definition computes it, unchanged. |
| Config.StorableLoads | hdtools/config.py:19-21 | A file in which every parsed line has a non-empty name and no NUL byte loads without error. |
| Config.LoadLinesValue | hdtools/config.py:14-21 | Whenever the load succeeds, including when an illegal line is skipped because its variable is already set: after loading, a variable that was non-empty keeps its value. Otherwise it holds the first non-empty value the file assigns. Failing that it holds "" if the file assigns it, and otherwise what it held before. |
| Config.NoOverride | hdtools/config.py:20 | A non-empty environment variable survives loading any file. |
| Config.EmptyNameFails | hdtools/config.py:19-21 | A line starting with `=` has an empty name; on a POSIX system `setenv` refuses it, and the load aborts with the `OSError` "[Errno 22] Invalid argument". |
| Json.EscapeChar | hdcli.py:246 | A character stands for itself in `repr` exactly when it is printable and neither the quote nor a backslash. Any other character starts with a backslash, and a non-printable Latin-1 control gets its two-digit hex escape. |
| Client.CookieHeader | hdtools/client.py:8-20 | `HDTOOLS_COOKIE` is used when it is set. Otherwise the header is `NAME=VALUE` when both parts are set. It fails exactly when neither source is complete. |
| Client.CookiePrecedence | hdtools/client.py:9-13 | With a full cookie set, the split name/value variables make no difference. |
| Client.TestCookie | hdtools/client.py:31-46 | The session check succeeds exactly when a cookie exists, the request succeeds, and the final URL, lower-cased, contains neither `idp.app.clemson.edu` nor `shib`. |
| Client.LoginRedirectFails | hdtools/client.py:36-39 | A final URL containing either marker in any letter case fails the check. |
| Client.ParseUsername | hdtools/client.py:144-145 | The result is a prefix of the stripped name. `@clemson.edu` is cut exactly when the stripped name ends in it, and `@g.clemson.edu` is cut exactly when it ends what that first cut left, so what is cut off is `@clemson.edu`, `@g.clemson.edu@clemson.edu`, `@g.clemson.edu`, or nothing. |
| Client.RemoveTwoSuffixes | hdtools/client.py:145 | Removing two suffixes in turn removes at most one of each, in that order, and the second is removed exactly when it ends the text left by the first removal. |
| Client.ParseUsernameFixpoint | hdtools/client.py:144-145 | A name is unchanged exactly when it is already stripped and ends in neither suffix. |
| Client.ParseUsernameIdempotence | hdtools/client.py:145 | Normalising twice gives the same result exactly when the first result does not end in whitespace or in one of the suffixes. |
| Client.DoubledSuffixSurvives | hdtools/client.py:145 | A doubled `@clemson.edu` loses only one copy, and a second pass changes the result again. |
| Client.InnerSpaceSurvives | hdtools/client.py:145 | A space before the suffix is left at the end, and a second pass changes the result again. |
| Client.GetUserData | hdtools/client.py:148-162 | A failed search is passed on. A non-list answer fails as "unknown data returned" and an empty list as "no users returned". A non-empty list gives its first element. |
| Client.ErrorEnvelopeIsUnknownData | hdtools/client.py:154-158 | An `ErrorMessage` object is reported as unknown data, because the guard tests the response object instead of the payload. |
| Client.ExtractIdAndUsername | hdtools/client.py:164-174 | Errors: a non-object record raises on `.get`; a missing or null `zid` fails; a null `primaryUserName` fails; a missing name list defaults to `[]` and then fails on `[0]`. Otherwise the result is the zid and the first name. |
| Client.ExtractIdAndUsernameCases | hdtools/client.py:169-174 | A non-empty name list gives its first entry. A missing or empty list fails with "list index out of range". |
| Client.LabelTest | hdtools/client.py:188 | An item is tested only when `item['data']['label']` is a string and the username is a string. The test is their lower-cased equality. |
| Client.FindLabel | hdtools/client.py:188 | The first item whose label matches, with no earlier match. None exactly when no item matches, and it cannot fail when every item has a label. |
| Client.PasswordChangeTime | hdtools/client.py:186-190 | A result is the `passwordChangedTime` of the first item whose label matches. When every item has a label and none matches, `None` is subscripted and the call fails. |
| Client.PasswordChangeTimeFirstMatch | hdtools/client.py:188-190 | Conversely, when item `i` matches and every earlier item has a label that does not match, the result is item `i`'s `passwordChangedTime`. |
| Client.GetLastPasswordChange | hdtools/client.py:176-192 | Failures of the search and of the record pass through. A `None` alias fails with "Username None not in data". A failed password-module fetch passes through. Otherwise the result is that of the label match over the module of the record's zid, against the record's alias. |
| Client.GetByValue | hdtools/client.py:105 | `data.get(key, "")` succeeds for any object and hashable key, and gives the field or the default. |
| Client.FieldLine | hdtools/client.py:103-107 | A field renders exactly when the data is a dict and the field's `id` is hashable. A missing `id` gives no line. A line appears exactly when the value is truthy, and reads `id: value` without a label and `label: value` with one. |
| Client.FieldLines | hdtools/client.py:102-107 | Rendering succeeds exactly when every field renders. There is at most one line per field, none when every value is falsy, and one field gives exactly that field's output. |
| Client.FieldLinesAppend | hdtools/client.py:102-107 | The fields render one after the other: rendering a concatenation is rendering each part and concatenating the lines, or the first part's failure. |
| Client.ModuleLines | hdtools/client.py:99-107 | Rendering succeeds exactly when every item renders. One item gives that item's lines. |
| Client.ItemLines | hdtools/client.py:99-107 | A non-dict item fails on `.get`, and so does a non-dict `properties`. Otherwise the item's lines are those of its `fields` list rendered against its `data`, and an item without `properties` gives no lines. |
| Client.ModuleLinesAppend | hdtools/client.py:99-107 | The items render one after the other: rendering a concatenation is rendering each part and concatenating the lines, or the first part's failure. |
| Client.FormatModule | hdtools/client.py:91-110 | A non-object gives the failure text. A page without items, or with falsy items, gives "No data found.". Otherwise the lines are joined by newlines, or the first error is reported as the failure text. |
| Client.FormatModuleFieldRules | hdtools/client.py:103-107 | A field without a label is shown under its id, and only when its value is truthy. |
| Client.FirstTen | hdtools/client.py:119 | A list is cut to its first ten entries. |
| Client.HistoryEntry | hdtools/client.py:120-127 | An entry renders exactly when it is an object, and then as three lines: `[datetime] operation name`, `  Reason: reason` with "N/A" for a missing field, and the 20-dash rule. |
| Client.HistoryLines | hdtools/client.py:119-127 | The lines are the entries' three-line blocks, entry `k` at lines `3k` to `3k+2`. Every third line is the rule, and rendering fails exactly when some entry is not an object. |
| Client.FormatVaultHistory | hdtools/client.py:112-131 | Empty or falsy data gives "No vault history found.". A non-empty dict fails on the slice. A list renders its first ten entries joined by newlines. |
| Client.VaultHistoryShowsAtMostTen | hdtools/client.py:118-129 | A non-empty list of objects shows exactly three lines for each of its first `min(n, 10)` entries. |
| Client.VaultHistoryDefaults | hdtools/client.py:120-127 | Missing fields read "N/A". |
| Shell.OrBlank | hdtools/cli.py:7-10 | `x or [""]` is always truthy and keeps a truthy `x`. |
| Shell.ChoiceLine | hdtools/cli.py:6-13 | A menu line starts with the 1-based number and ". ", and a non-object item raises on `.get`. |
| Shell.MenuLines | hdtools/cli.py:6-13 | The menu prints exactly when every item prints, one line per item in order, line `k` being item `k`'s numbered line. |
| Shell.MenuLinesFirstError | hdtools/cli.py:6-13 | The menu fails with the error of the first item that fails. |
| Shell.DisplayNameFallback | hdtools/cli.py:7-13 | For any lists of names starting with strings, the preferred name is shown when it is non-empty, and the first name otherwise. |
| Shell.MenuTextOfStrings | hdtools/cli.py:13 | The line is `n. display last (user)`, with `<no username>` for an empty username. |
| Shell.EmptyRecordLine | hdtools/cli.py:7-13 | A record with none of the fields shows empty names and `<no username>`. |
| Shell.ChoiceIndex | hdtools/cli.py:16-20 | An answer is accepted exactly when, stripped, it is all digits with a value from 1 to the number of items. It then selects item `n - 1`. |
| Shell.ChoiceRoundTrip | hdtools/cli.py:16-20 | Typing an item's number, padded with blanks or not, selects that item. |
| Shell.ChoiceOfStripped | hdtools/cli.py:16-20 | An answer that strips to an item's number selects it. |
| Shell.PromptIdentityChoice | hdtools/cli.py:4-21 | The menu is printed before any answer is read, so the prompt fails exactly when a menu line fails, with that error. Otherwise it returns something exactly when some answer is acceptable, and what it returns is one of the listed items. |
| Shell.AnswerLoop | hdtools/cli.py:15-21 | The answer loop returns something exactly when some answer is acceptable, and it is one of the listed items. |
| Shell.PromptFailsOnNonObject | hdtools/cli.py:6-13 | When item `k` is not a dict and the items before it print, the prompt fails on `.get` of item `k`, whatever is typed. |
| Shell.PromptPicksFirst | hdtools/cli.py:15-21 | When the menu prints and answer `j` is the first acceptable one, the prompt returns the item that answer selects. |
| Shell.FirstChoice | hdtools/cli.py:16-20 | The loop stops at the first accepted answer, and finds none exactly when no given answer is accepted. |
| Shell.NoItemsNoChoice | hdtools/cli.py:15-21 | With no items the menu is empty and no answer is ever accepted. |
| Shell.ParseCommand | hdtools/cli.py:29-35 | Exactly the blank lines are skipped, and exactly `exit`/`quit` in any letter case, padded or not, ends the loop. |
| Shell.Dispatch | hdtools/cli.py:30-54 | On a stripped line: only the empty line is skipped, and only `exit`/`quit` in any case ends the loop. |
| Shell.SearchShape | hdtools/cli.py:44-54 | A search is the word `search` in any case, one space, and a non-blank argument, which is the rest of the line. |
| Shell.SearchSplit | hdtools/cli.py:44-52 | Splitting at the first space gives the word and the whole rest of the line. |
| Shell.ExitAnyCase | hdtools/cli.py:29-35 | `exit` or `quit` padded with blanks ends the loop. |
| Shell.ParseTwoWords | hdtools/cli.py:44-54 | For a line with a space: another word is an unknown command; `search` with a blank argument prints the usage; otherwise the rest is searched for. |
| Shell.StrippedLine | hdtools/cli.py:29 | The dispatcher only ever sees the stripped line. |
| Shell.SearchCommand | hdtools/cli.py:44-56 | `search <arg>` searches for exactly `<arg>`. |
| Shell.SearchWithoutArgument | hdtools/cli.py:51-54 | `search` followed only by blanks prints the usage and does no lookup. |
| Shell.CommandWithText | hdtools/cli.py:33-54 | `exit`, `quit` or `help` followed by text is an unknown command. |
| Shell.ZidOf | hdtools/cli.py:68 | The zid contains neither `,` nor `=`. |
| Shell.ZidOfDn | hdtools/cli.py:68 | For `a=z…` with no `,` or `=` in `a` and `z`, optionally followed by more `=`-parts and then by `,` and anything, the zid is `z`. |
| Shell.EqualsSplit | hdtools/cli.py:68 | Splitting `a=z` followed by nothing or by more `=`-parts at `=` gives `z` as the second piece. |
| Shell.ZidRoundTrip | hdtools/cli.py:68 | The zid of `Vaultzid=<z>,ou=Identities,o=cuvault` is `z`. |
| Shell.ModuleStatus | hdtools/cli.py:82-86 | The label is `SK` exactly for `None`, `OK` exactly for truthy, and `NO` for every other value. |
| Shell.ModuleLine | hdtools/cli.py:87 | A module line starts with two spaces and one of the three labels. |
| Shell.ModuleEntryLine | hdtools/cli.py:79-87 | An entry gives a line exactly when it has a `module` and a `label`. The line is the status label computed from the authorisation answer for that module, followed by the label and the module, and starts with `  SK`, `  OK` or `  NO`. |
| Shell.ModuleReport | hdtools/cli.py:77-87 | The report succeeds exactly when every `nav` entry gives a line, and line `k` is entry `k`'s line. |
| Batch.ExtractCred | hdcli.py:201-208 | A line without a tab is a name with no password. A line with a tab either splits into a tab-free name and password that rebuild it, or gives the blank name with no password. |
| Batch.CredentialRoundTrip | hdcli.py:205-206 | `user<TAB>password` reads back as that pair. |
| Batch.TooManyTabs | hdcli.py:207-208 | Three fields give `('', None)`. |
| Batch.KeepNamed | hdcli.py:221 | The filter never grows the list, and leaves it empty exactly when every username is blank. |
| Batch.KeepNamedAppend | hdcli.py:221 | The filter works entry by entry, so the order of the input is kept. |
| Batch.KeepNamedSource | hdcli.py:221 | Every kept credential is a non-blank input with its name normalised and its password unchanged, and every such input is kept. |
| Batch.Unpaired | hdcli.py:212 | Each command-line name is paired with no password, in order. |
| Batch.FileCredentials | hdcli.py:218 | The file gives one credential per newline-separated line, blank lines included. |
| Batch.LoadCredentials | hdcli.py:210-221 | The command-line names come first, then the file's lines, each part filtered on its own. The `("", "")` placeholder used when no names are given never survives. |
| Batch.KeepUnpaired | hdcli.py:212-221 | A kept command-line credential has no password, and its name is a normalised non-blank input name. |
| Batch.CommandLineOnly | hdcli.py:210-221 | Without a file, every credential is a normalised non-blank command-line name with no password. |
| Batch.Single | hdcli.py:25-28 | One assignment under the key: the answer, or `{"error": str(e)}` when the call raised. |
| Batch.ApplyWrites | hdcli.py:24-28 | The run fails exactly when some key is unhashable. Otherwise the dict stays duplicate-free, and each key holds the last value assigned to an equal key. |
| Batch.ApplyWritesKeys | hdcli.py:24-28 | The dict's keys are the old keys followed by each newly assigned key in order of its first assignment; a re-assigned key keeps its place. |
| Batch.PutThenFind | hdcli.py:26 | An assignment changes only the entry of keys equal to the key assigned. |
| Batch.Run | hdcli.py:22-28 | The loop's dict never holds two equal keys. |
| Batch.RunKeys | hdcli.py:22-28 | The results list the keys in the order of their first assignment. |
| Batch.RunIsolation | hdcli.py:22-28 | Each identity's entry is the last value assigned under it. A failure stored for one identity does not disturb the others, and the run aborts only on an unhashable key. |
| Batch.LastWriteOverwritten | hdcli.py:58-62 | A value assigned and then reassigned under the same key leaves no trace. |
| Batch.Identify | hdcli.py:120-121 | The identity is the search result's first record, passed through `extract_id_and_username`, with either step's failure passed on. |
| Batch.LockoutField | hdcli.py:122 | The flag is read from `items[0].data` and defaults to "". |
| Batch.NormaliseLockout | hdcli.py:123-124 | Only "" becomes `False`. Every other value is kept, and the truth value never changes. |
| Batch.ComposeActive | hdcli.py:59-62 | The stored value is `False` exactly when the status is falsy or the lockout is truthy. Otherwise it is the raw status, and it is truthy exactly when the status is truthy and the lockout is not. |
| Batch.FetchLockout | hdcli.py:122-124 | A module-fetch failure or a failure to reach the flag passes through. Otherwise the value is the flag with "" turned into `False`, so it is never "". |
| Batch.LockoutWrites | hdcli.py:118-127 | One assignment. A failure before the identity resolves is stored under the input name. After it, the alias holds the fetched flag, or the error entry of the fetch. The value is never "". |
| Batch.ActiveCaught | hdcli.py:63-67 | An exception whose text is `0` stores "Not Found" in `hdcli.py`. Every other exception stores an error entry. |
| Batch.ActiveWrites | hdcli.py:47-67 | Without `--locked`, the status call's failure or its composed value goes under the input name. With it, a failure of the status or the identity goes under the input name and a failed lockout fetch under the alias. A full success assigns the lockout and then the status composed with it, both under the alias. |
| Batch.CollectFrom | hdcli.py:92-95 | Collection succeeds exactly when every item and its `data` are objects, keeping at most one name per item, and one item gives exactly that item's contribution. |
| Batch.RecordField | hdcli.py:93-95 | An item contributes exactly when it and its `data` are dicts. It then contributes its field exactly when it is an active employee record. |
| Batch.CollectFromAppend | hdcli.py:92-95 | Items are collected one after the other: collecting a concatenation concatenates the parts, or gives the first part's failure. |
| Batch.CollectOne | hdcli.py:93-95 | An item contributes its field exactly when it is an active employee record. |
| Batch.EmployeeWrites | hdcli.py:84-97 | Before the identity resolves, a failure goes under the input name. After it, the writes are those of the record step under the alias. |
| Batch.RecordWrites | hdcli.py:88-97 | A failed module fetch or a non-dict module stores the error under the alias. Otherwise there are two assignments under the alias: the placeholder `[]`, then the collected names as a list, or the error entry of the collection. |
| Batch.ResetEntry | hdcli.py:162-167 | The entry holds the message and the description, plus the `error` key exactly when the message is falsy. |
| Batch.ResetCall | hdcli.py:160-165 | A failure of the reset or of the description call passes through, and so does `.get` on a non-dict answer. Otherwise the entry is built from the two answers' `SuccessMessage` and `description`. |
| Batch.ResetWrites | hdcli.py:156-169 | One assignment: the identity's failure under the input name; otherwise, under the alias, the reset entry or the error entry of the failed call. |
| Batch.BoolFilter | hdtui.py:32-35 | The filtered dict's keys are a subsequence of the input's, and it stays duplicate-free. |
| Batch.BoolFilterFind | hdtui.py:32-35 | Under a filter a key keeps its value exactly when it is a bool matching the target. Under `all` the dict is unchanged, error entries included. |
| Batch.FlagReport | hdtui.py:24-36 | The report fails exactly when the loop does. Each key shows the last value stored under it, when the filter keeps that value. |
| Batch.SingleOutput | hdtui.py:150-167 | Exactly one branch runs, in the order `output_all`, `output`, `output_json`, print. Only the print branch writes to standard output, and it prints `str(data)`. |
| Batch.ReportOutput | hdtui.py:150-167 | A formatter-less report writes and prints `str(data)`: any text printed or written is the dict's repr, and files are written exactly when an output flag is set. |
| Batch.DictRepr | hdtui.py:154-167 | `str(data)` of a dict is braced, and `{}` for an empty one. |
| Hdcli.LabelView | hdcli.py:30-36 | The view's keys are a subsequence of the results' keys, and it stays duplicate-free. |
| Hdcli.LabelViewFind | hdcli.py:30-36 | A key shows exactly when its value is a bool and the filter is `all` or names its label. It then shows the label. |
| Hdcli.ShownVersusKept | hdcli.py:30-36 | Under a filter `hdcli.py` keeps the same keys as `hdtui.py`, relabelled. Under `all` it drops every non-bool entry that `hdtui.py` keeps. |
| Hdcli.StatusReport | hdcli.py:21-38 | The report fails exactly when the loop does. Each key shows the label of the last bool stored under it, when the filter allows. |
| Hdcli.ReportOfOne | hdcli.py:24-36 | A single identity shows the label of its answer, when the filter allows. |
| Hdcli.AbroadOfOne | hdcli.py:24-36 | An abroad answer shows as "Abroad" or "Local" only when it is a bool the filter allows. Errors never show. |
| Hdcli.ActiveOfOne | hdcli.py:47-75 | Without `--locked` a falsy status reads "Inactive" and `True` reads "Active". A truthy non-bool, an error or "Not Found" is not reported. |
| Hdcli.LoginWrites | hdcli.py:144-148 | "Succeeded" exactly for a truthy answer and "Failed" exactly for a falsy one. An exception stores an error entry. |
| Hdcli.RenderLines | hdcli.py:254-256 | One line per entry in order. Otherwise the failure of the first entry that fails. |
| Hdcli.FormatGeneric | hdcli.py:251-256 | The empty dict gives the empty text. Otherwise, when no line holds a newline, splitting the text at newlines gives back one `key: value` line per entry, in dict order. |
| Hdcli.FormatLines | hdcli.py:258-274 | A line-by-line formatter fails exactly when some entry's line fails, with the first such failure. Otherwise, when no line holds a newline, splitting its text at newlines gives back each entry's line in dict order. |
| Hdcli.FirstNonString | hdcli.py:261 | The position of the first non-string item, none exactly when all items are strings. |
| Hdcli.JoinNames | hdcli.py:261 | A list of strings is joined with `;`. A non-iterable fails with "can only join an iterable", and the first non-string fails with Python's "sequence item i" message. |
| Hdcli.NamesOfStrings | hdcli.py:258-263 | A collected list renders as its names joined by `;`, and an empty one as "None". |
| Hdcli.NamesOfError | hdcli.py:258-263 | A stored error entry renders as the word "error". |
| Hdcli.FormatNames | hdcli.py:258-263 | The department and supervisor formatters fail exactly when some entry's line fails, with the first failure. Otherwise the text splits back into each entry's line, when no line holds a newline. |
| Hdcli.ResetValueOf | hdcli.py:270 | For any message `a<br><br><b>p</b>z` in which no `<br><br><b>` follows the marker and `p` holds no `</b>`, the password shown is `p`. |
| Hdcli.ResetValue | hdcli.py:270 | The value shown never contains `</b>`, and a message with neither marker is shown whole. |
| Hdcli.ResetLine | hdcli.py:268-273 | A string `SuccessMessage` gives `user: Password reset to 'value'`, and any other `SuccessMessage` fails on `.split`. Without one, the line shows the `error` field, or "Unknown error occurred". |
| Hdcli.FormatReset | hdcli.py:265-274 | The reset formatter fails exactly when some entry's line fails, with the first failure. Otherwise the text splits back into each entry's line, when no line holds a newline. |
| Hdcli.ResetLineSuccess | hdcli.py:268-271 | A successful reset shows the password cut out of the message, under the same conditions on the message. |
| Hdcli.ResetLineError | hdcli.py:272-273 | A failed identity shows its error text. |
| Hdcli.ResetLineMissingMessage | hdcli.py:268-270 | A reset without a `SuccessMessage` stores `None`, and the formatter raises on `None.split`. |
| Hdcli.HandleOutput | hdcli.py:223-248 | Files are written exactly when an output flag is set. Nothing is printed exactly when an output flag is set and neither print flag is. A formatter failure is the only failure. |
| Hdcli.OutputChoice | hdcli.py:223-248 | With one flag per group, each flag writes its own file or prints its own form. A raw print next to a file prints nothing. |
| Hdcli.DictOutput | hdcli.py:223-248 | A dict's output never fails when its formatted text does not, and `--print_raw` alone prints `str(data)`. |
| Hdtui.FlagOfOne | hdtui.py:27-35 | A single identity keeps its answer, errors included, under `all`. Under a filter it keeps only a matching bool. |
| Hdtui.LoginStep | hdtui.py:96-105 | One assignment under the username: the backend's raw answer, or the error entry when it raised. |
| Hdtui.LoginRawVersusLabel | hdtui.py:96-105 | Both `login` commands use the same key and store the same error entry. Where an answer arrived, `hdcli.py` stores "Succeeded" or "Failed" by its truthiness and `hdtui.py` stores the answer itself. |
| Hdtui.AbroadErrorKept | hdtui.py:27-35 | Under `all`, a failed abroad lookup stays in the report as its error entry. |
| Hdtui.ComprehensionIsCollect | hdtui.py:122-123 | The comprehension selects, and fails, exactly like the loop of `hdcli.py`'s `handle_supervisor`. |
| Hdtui.Comprehension | hdtui.py:122-123 | The list keeps at most one name per item, and the comprehension succeeds exactly when every item and its `data` are dicts. |
| Hdtui.SupervisorList | hdtui.py:122-123 | With an `items` list, the result is what the loop of `hdcli.py` collects from the same items. |
| Hdtui.SupervisorListIsCollect | hdtui.py:122-123 | With an `items` key the comprehension gives the loop's list, or the loop's error. |
| Hdtui.SupervisorWrites | hdtui.py:118-125 | One assignment: under the input name when the identity fails, otherwise the record step under the alias. |
| Hdtui.SupervisorRecordWrites | hdtui.py:121-123 | One assignment, under the alias: the collected list, or the error entry of whichever step failed. |
| Hdtui.RecordsAgree | hdtui.py:121-123 | When the module has `items`, the comprehension and `hdcli.py`'s loop leave the same value under every key. |
| Hdtui.SupervisorAgrees | hdtui.py:115-125 | For a resolved identity whose module has `items`, `hdtui.py` and `hdcli.py` leave the same value under every key, because `hdcli.py`'s placeholder is overwritten. |
| Hdtui.ActiveNoNotFound | hdtui.py:56-57 | Every exception, even one whose text is `0`, stores an error entry. |
| MainScript.KeepNamesAsCredentials | main.py:104 | Filtering bare names keeps the same names, in the same order, that `load_credentials` keeps from them. |
| MainScript.KeepNames | main.py:104 | The filter never grows the list, and leaves it empty exactly when every name is blank. |
| MainScript.KeepNamesAppend | main.py:104 | The filter works name by name, so the order of the input is kept. |
| MainScript.LoadUsernames | main.py:93-104 | The command-line names come first, then the file's tokens, each normalised, with the blank ones dropped. The result equals the names `load_credentials` would keep from the same list. |
| MainScript.TopLevelLockout | main.py:72-73 | The module's own `activeDirectoryLockout` gives a bool. It is `True` exactly when the field is the string "true", and a non-object module fails. |
| MainScript.MainLockoutWrites | main.py:68-75 | One assignment, always under the input name, never the alias. |
| MainScript.ActiveAgreesOnBools | main.py:41-45 | On a bool status or an exception, `main.py` stores what the other scripts store. A falsy non-bool such as "" is stored raw, where the others store `False`. |
| MainScript.MainLockoutKeyed | main.py:67-75 | Each lockout loop body assigns at least once, and only under the name it was given. |
| MainScript.MainActiveKeyed | main.py:41-45 | Each active loop body assigns at least once, and only under the name it was given. |
| MainScript.AbroadKeyed | main.py:27-31 | Each abroad loop body assigns at least once, and only under the name it was given. |
| MainScript.LastpassKeyed | main.py:57-62 | Each lastpass loop body assigns at least once, and only under the name it was given. |
| MainScript.AllWritesNamed | main.py:26-31 | Every assignment of such a loop is to one of the input names. |
| MainScript.AllNamesWritten | main.py:26-31 | Every input name is assigned at least once. |
| MainScript.LastWriteSource | main.py:26-31 | A key's final value comes from an assignment to that key, and a key that is assigned has a final value. |
| MainScript.KeyedRunOk | main.py:26-31 | Such a loop never aborts, because every key is a string. |
| MainScript.OnlyNamesWritten | main.py:26-31 | Only input names are keys of the results. |
| MainScript.EveryNameWritten | main.py:26-31 | Every input name is a key of the results. |
| MainScript.KeyedReport | main.py:26-36 | A `main.py` status report never fails. Under `all` its keys are exactly the input names, and under a filter they are still input names. |
| MainScript.LockedKeepsTrue | main.py:76-79 | Under `locked` a value stays exactly when it is `True`. |
| MainScript.LockedReport | main.py:65-80 | When no other credential has the same name, `lockout -f locked` lists that name exactly when its lockout answer is `True`. |
| MainScript.OnlyWriteOf | main.py:67-75 | When no other credential has the same name and every loop body assigns once, the name's result is its own loop body's assignment. |

## Left out

- HTTP traffic is not modelled. Every endpoint is an oracle field of `Client.Backend` returning a `Result`. This covers `get_module`, `get_modules`, `check_module_auth`, `get_name_by_id`, `get_vault_module`, `search_user`, and the fetches inside `get_user_data` and `get_last_password_change`.
- The functions the scripts call but `hdtools/client.py` does not define are also oracles, with no logic invented for them: `get_user_status`, `get_abroad_status`, `check_login`, `reset_password`, `set_user_description`, `get_identity`, `format_identity`.
- `client.setup_session` and `config.init_logging` are called by every `main()` but defined in neither `hdtools/client.py` nor `hdtools/config.py`. So each shipped `main()` raises `AttributeError` right after `parse_args` and never reaches a handler. The handlers are modelled as if called directly with the parsed arguments.
- File reads are not modelled; the file's content is a parameter. `os.path.exists` is an `Option`.
- `shlex.split` in `main.py` is not modelled; its token list is a parameter of `MainScript.LoadUsernames`.
- `json.dump` and `json.dumps` are recorded only as a JSON sink in the output choice. Their text is not modelled.
- `print`, `input()`, the interactive loops of `hdtools/cli.py`, `KeyboardInterrupt`/`EOFError`, `argparse`, logging, `sys.exit` and the double cookie check are process plumbing. They are left out.
- `hdtools/tui.py` and `util/get_hdtools_cookie.py` are user-interface and browser code, and are not part of this model.
- `handle_search` and `format_search` of `hdcli.py` are not modelled. So are `handle_search` of `hdtui.py` and `main.py`. They call the search oracle and print its answer. `format_search` appends only after its inner loop, so it keeps the last result per user. An empty result list repeats the previous user's line, and fails only when no earlier user produced one.
- `hdtools/cli.py:94` refers to an undefined `command`. It is modelled only as the failure text of an unknown command.
- `handle_department` and `handle_reset` of `hdtui.py`, and `handle_department`, `handle_login` and `handle_reset` of `main.py`, are `pass`, and so are not modelled.
- Writes made before a formatter raises are not modelled. When a formatter fails, the output of `handle_output` is that failure, and earlier file writes are not recorded.
- Floating-point JSON numbers are left out. `lower()` and `isdigit()` are modelled on ASCII only; `strip()` drops the characters Python counts as whitespace.
- Shell.PromptIdentityChoice: the answers typed at the prompt are a finite list. When none of them is accepted the model returns nothing, where the source would keep asking.
- Batch.LockoutWrites: an answer from `items[0]` whose `data` is not a dict is modelled through `Json.Get`'s failure text.
- Json.EscapeChar: `str.isprintable` is exact up to U+00FF. Above it only U+2028 and U+2029 are treated as non-printable, because the Unicode character database is not part of this model.
