# dion-extensions: settings store, scaffolding helpers and UI builders

This project models three parts of the dion-extensions TypeScript repository and proves
properties about them.

- **The settings store** (`settings.dfy`, module `Settings`).
  - A `SettingStore` session wraps the persisted map from setting key to `{val, ui}`. Its
    `getOrDefine` reconciles one entry with what the extension declares, and records the
    key as touched. The session is a class with a `map` field and a `seq` field, and the
    method updates them in place.
  - The reconciliation decision is the function `Resolve`. The method's postcondition ties
    the new state to that function.
  - Also modelled: `toSettingValue`, the UI controls and their `getDefinition`, `get`,
    `tryGet`, `toMap`, and the load-time `ExtensionSetting` handle (`setUI`, `register`,
    `get`).
- **The command-line helpers of the extension scaffolder** (`create.dfy`, module `Create`).
  - `toSlug`, `toKeywords`, `parseArgs` and `askOr`.
  - `parseArgs` is a loop over the tokens. It becomes a `while` loop proved against the
    function `ParseFrom`.
- **The JavaScript string primitives** these helpers rely on (`js_strings.dfy`, module
  `JsStrings`): `split`, `trim`, `toLowerCase` and `startsWith`.
- **The custom-UI builders** (`ui.dfy`, module `Ui`): `Text`, `Timestamp`, `Image`, `Link`,
  `Column`, `Row`, `EntryCard` and `If`.
- **`Option` and `Result`** (`wrappers.dfy`). They stand for `undefined` and for thrown
  errors.

Three points where the store's code does less than its own names and comments suggest; the
model follows the code:

- Type drift is detected by comparing `typeof` of the stored `val` with `typeof` of the
  declared default. The persisted `type` tag is not compared. The model keeps the
  JavaScript runtime type (`TypeOf`) apart from the tag (`Tag`).
- `getOrDefine` is typed to return a value, but it throws when a default is not a string,
  number or boolean and the entry must be (re)built, because `toSettingValue` throws
  (packages/lib/src/settings.ts:36). The key has already been pushed to `touched` by then. `GetOrDefine` returns a `Result`, and
  `InvalidDefaultBreaksExport` shows the consequence.
- The `touched` list exists "to prevent zombie settings" (packages/lib/src/settings.ts:41),
  and `toMap` builds the touched-only map, but it returns the whole map (see Findings).

## Model

| member | source | states |
|---|---|---|
| Settings.ToSettingValue | packages/lib/src/settings.ts:14-37 | succeeds exactly for strings, numbers and booleans; the record's value and default are both the input, and its tag matches the input's type; anything else is InvalidType |
| Settings.TypeOf | packages/lib/src/settings.ts:56-64 | `typeof` is "undefined" exactly for a missing value, and one of string, number or boolean exactly for the values a setting may hold |
| Settings.GetDefinition | packages/lib/src/settings.ts:169-249 | a control's persisted form determines the control (`ControlOf` reads it back), so `getDefinition` loses nothing |
| Settings.Definition | packages/lib/src/settings.ts:60 | `ui?.getDefinition() ?? null` is null exactly when there is no control, and otherwise reads back to the control |
| Settings.DefinitionRoundTrip | packages/lib/src/settings.ts:169-249 | every persisted form is the definition of the control read back from it |
| Settings.DefinitionInjective | packages/lib/src/settings.ts:73-81 | comparing definitions (the JSON comparison) is the same as comparing controls, absent ones included |
| Settings.Resolve | packages/lib/src/settings.ts:54-95 | one declaration against a stored entry: fails (InvalidType) exactly when the stored value is not kept and the default is not a primitive; the returned value is the stored one and has the default's type; the UI always becomes the declared one; a kept value keeps its record; a rebuilt entry is well formed and holds the default; an entry that already matches is returned unchanged |
| Settings.BothAbsentIsEqual | packages/lib/src/settings.ts:73-81 | the "both absent" exception of the UI check never changes its outcome |
| Settings.TypeDriftResets | packages/lib/src/settings.ts:64-72 | a stored value of another runtime type is replaced by a fresh record of the default, whatever the UI |
| Settings.ResolveIdempotent | packages/lib/src/settings.ts:46-96 | declaring the same setting twice: the second declaration returns the same value and changes nothing |
| Settings.ResolveWellFormed | packages/lib/src/settings.ts:54-95 | a well-formed or missing entry stays well formed (tag, value and default agree) |
| Settings.Touch | packages/lib/src/settings.ts:51-53 | the touched list only grows, by at most the declared key, which it then contains; it stays free of duplicates |
| Settings.FirstIndex | packages/lib/src/settings.ts:51-53 | the position of a key's first declaration |
| Settings.TouchedOrder | packages/lib/src/settings.ts:51-53 | after any sequence of declarations the touched list holds each declared key exactly once, in order of first declaration |
| Settings.TouchedExample | packages/lib/src/settings.ts:51-53 | declaring "b", "a", "b" touches "b" then "a" |
| Settings.Restrict | packages/lib/src/settings.ts:111-118 | the entries of the map whose keys are in a key list, with their values |
| Settings.RestrictIsWhole | packages/lib/src/settings.ts:110-120 | the whole map equals the touched view exactly when no stored key lies outside the touched list |
| Settings.SettingStore.constructor | packages/lib/src/settings.ts:42-45 | a session starts over the given map with nothing touched |
| Settings.SettingStore.GetOrDefine | packages/lib/src/settings.ts:46-96 | records the key as touched (once), sets the key's entry to the one `Resolve` chooses and returns its value, or fails with InvalidType leaving the map alone; no other key changes; afterwards `get` of the key returns the result |
| Settings.SettingStore.Get | packages/lib/src/settings.ts:98-104 | the stored value for a key with an entry, NotFound for any other key |
| Settings.SettingStore.TryGet | packages/lib/src/settings.ts:106-108 | agrees with `get` where that succeeds, and is undefined elsewhere |
| Settings.SettingStore.TouchedView | packages/lib/src/settings.ts:41 | the stored entries of exactly the touched keys |
| Settings.SettingStore.CollectTouched | packages/lib/src/settings.ts:111-118 | the loop of `toMap` fails exactly when a touched key has no entry (naming it), and otherwise builds the touched view |
| Settings.SettingStore.ToMap | packages/lib/src/settings.ts:110-120 | as written: fails on a touched key without an entry, otherwise returns the whole stored map |
| Settings.SettingStore.ToMapFiltered | packages/lib/src/settings.ts:110-118 | as intended: returns the entries of exactly the touched keys |
| Settings.ExportKeepsZombies | packages/lib/src/settings.ts:110-120 | a session over keys x, y, z that declares only x and y exports z as written, and only x and y once filtered |
| Settings.InvalidDefaultBreaksExport | packages/lib/src/settings.ts:51-62 | a missing key declared with a non-primitive default fails with InvalidType, and the export after it fails with NotFound for that key |
| Settings.ExtensionSetting.constructor | packages/lib/src/settings.ts:129-133 | the handle holds the id, default and setting type, with no control |
| Settings.ExtensionSetting.SetUI | packages/lib/src/settings.ts:135-138 | attaches the control and returns the same handle |
| Settings.ExtensionSetting.Register | packages/lib/src/settings.ts:140-148 | the registration request names the handle's id and holds a well-formed fresh record of the default, the control's definition and the setting type; it fails for a non-primitive default |
| Settings.ExtensionSetting.Get | packages/lib/src/settings.ts:150-158 | the host's stored value on success, the declared default on any failure |
| JsStrings.Split | packages/create/src/index.ts:36 | one piece more than there are separators |
| JsStrings.StartsWith | packages/create/src/index.ts:81 | `s.startsWith(prefix)` holds exactly when `prefix` is no longer than `s` and agrees with it character by character |
| JsStrings.SplitStep | packages/create/src/index.ts:36 | a separator in front opens a new empty first piece; any other character joins the first piece |
| JsStrings.SplitOmitsSeparator | packages/create/src/index.ts:36 | no piece contains the separator |
| JsStrings.JoinStep | packages/create/src/index.ts:36 | joining undoes one splitting step |
| JsStrings.JoinSplit | packages/create/src/index.ts:36 | splitting loses nothing: joining the pieces gives the input back |
| JsStrings.StepAppend | packages/create/src/index.ts:36 | a splitting step only touches the first piece |
| JsStrings.SplitConcat | packages/create/src/index.ts:36 | a separator splits a string into the pieces of its two sides |
| JsStrings.SplitJoin | packages/create/src/index.ts:36 | pieces without separators survive a join followed by a split |
| JsStrings.SplitWithout | packages/create/src/index.ts:36 | a string without the separator is one piece |
| JsStrings.SkipWhiteSpace | packages/create/src/index.ts:37 | the first index from a start point that holds no white space, with only white space before it |
| JsStrings.SkipWhiteSpaceBack | packages/create/src/index.ts:37 | the end index once trailing white space is dropped, with only white space after it |
| JsStrings.TrimStart | packages/create/src/index.ts:37 | a suffix of the input whose dropped prefix is all white space and whose first character is not |
| JsStrings.TrimEnd | packages/create/src/index.ts:37 | a prefix of the input whose dropped suffix is all white space and whose last character is not |
| JsStrings.Trim | packages/create/src/index.ts:37 | no white space at either end, no longer than the input, empty exactly for an all-white-space input |
| JsStrings.TrimKeepsOut | packages/create/src/index.ts:37 | trimming adds no character |
| JsStrings.TrimIdempotent | packages/create/src/index.ts:37 | trimming twice is trimming once |
| JsStrings.LowerChar | packages/create/src/index.ts:27 | `A`..`Z` become `a`..`z`, and a character with nothing to lower-case is kept |
| JsStrings.ToLowerCase | packages/create/src/index.ts:27 | no ASCII upper-case letter remains |
| JsStrings.ToLowerCaseAppend | packages/create/src/index.ts:27 | lower-casing a concatenation lower-cases each part |
| JsStrings.ToLowerCaseAscii | packages/create/src/index.ts:27 | on ASCII text the length is kept, each capital becomes its small letter in place, and every other character stays |
| JsStrings.ToLowerCaseFixed | packages/create/src/index.ts:27 | a string with nothing to lower-case is unchanged |
| Create.SkipRun | packages/create/src/index.ts:28 | drops the maximal run of characters outside `[a-z0-9-_]` at the front: what it drops is disallowed, and what it keeps starts with a slug character |
| Create.StripLeadingDashes | packages/create/src/index.ts:29 | drops the maximal run of dashes at the front: what it drops is dashes, and what it keeps starts with no dash |
| Create.StripTrailingDashes | packages/create/src/index.ts:29 | drops the maximal run of dashes at the end: what it drops is dashes, and what it keeps ends with no dash |
| Create.SkipRunIsSuffix | packages/create/src/index.ts:28 | what the run skip keeps is a suffix of its input |
| Create.StripLeadingIsSuffix | packages/create/src/index.ts:29 | what the leading strip keeps is a suffix of its input |
| Create.StripTrailingIsPrefix | packages/create/src/index.ts:29 | what the trailing strip keeps is a prefix of its input |
| Create.ReplaceRuns | packages/create/src/index.ts:28 | the replacement is no longer than its input and holds only `[a-z0-9-_]` |
| Create.RunReplacement | packages/create/src/index.ts:28 | the regular expression's reading: each maximal run of disallowed characters becomes one dash |
| Create.ReplaceRunsSkipsRun | packages/create/src/index.ts:28 | inside a run, the scan emits nothing until the run ends |
| Create.ReplaceRunsIsRunReplacement | packages/create/src/index.ts:28 | the character scan equals the regular expression's reading, one dash per maximal run |
| Create.ReplaceRunsKeepsWords | packages/create/src/index.ts:28 | the replacement keeps every letter, digit and underscore, in order, and adds none |
| Create.ReplaceRunsKeepsSlugPrefix | packages/create/src/index.ts:28 | a prefix of slug characters passes through unchanged |
| Create.ToSlug | packages/create/src/index.ts:24-32 | a slug is 1 to 64 characters of `[a-z0-9-_]` and does not start with a dash; it is "extension" when the lower-cased name has no letter, digit or underscore; otherwise it keeps a non-empty prefix of those word characters in order, and all of them when the lower-cased name is at most 64 characters |
| Create.CutSlug | packages/create/src/index.ts:29-30 | the trim, cut and fallback steps give 1 to 64 slug characters with no leading dash; an empty dash-stripped text gives "extension", and any other keeps min(its length, 64) characters |
| Create.CutSlugKeepsPrefix | packages/create/src/index.ts:30 | `.slice(0, 64)` keeps the beginning: a slug other than the fallback is a prefix of the dash-stripped text |
| Create.CutSlugKeepsWords | packages/create/src/index.ts:29-31 | after the replacement: no word character gives "extension"; otherwise a non-empty prefix of the word characters survives, and all of them when the text is at most 64 characters |
| Create.ShortSlugKeepsWords | packages/create/src/index.ts:29-30 | text within 64 characters is not cut, so every word character survives |
| Create.ToSlugExample | packages/create/src/index.ts:24-32 | "My Ext" gives "my-ext" |
| Create.WordCharsAppend | packages/create/src/index.ts:24-32 | the word characters of a concatenation are those of its two halves |
| Create.WordCharsStripLeading | packages/create/src/index.ts:29 | stripping leading dashes keeps every letter, digit and underscore |
| Create.WordCharsStripTrailing | packages/create/src/index.ts:29 | stripping trailing dashes keeps every letter, digit and underscore |
| Create.TrimDashesKeepsWords | packages/create/src/index.ts:29 | stripping dashes at both ends keeps every letter, digit and underscore |
| Create.ToSlugCanEndWithDash | packages/create/src/index.ts:29-30 | 63 letters, a space and a letter give a 64-character slug ending in a dash |
| Create.ToSlugTrimmed | packages/create/src/index.ts:24-32 | corrected slug: as above, and also no trailing dash |
| Create.CutSlugTrimmed | packages/create/src/index.ts:29-30 | corrected trim and cut: no dash at either end |
| Create.StripCutCommute | packages/create/src/index.ts:29-30 | on text without a leading dash, cutting and then stripping trailing dashes gives the written steps' result with its trailing dashes stripped |
| Create.ToSlugTrimmedStripsTrailingDashes | packages/create/src/index.ts:29-30 | the correction only removes the trailing dashes the cut leaves on the written slug |
| Create.StripTrailingOfPrefix | packages/create/src/index.ts:29-30 | cutting inside the trailing dashes does not change what stripping them leaves |
| Create.TrimAll | packages/create/src/index.ts:37 | one trimmed piece per piece, in place |
| Create.TrimAllAppend | packages/create/src/index.ts:37 | trimming keeps the pieces' order |
| Create.NonEmpty | packages/create/src/index.ts:38 | keeps exactly the non-empty pieces, adding none |
| Create.NonEmptyAppend | packages/create/src/index.ts:38 | filtering keeps the pieces' order |
| Create.ToKeywords | packages/create/src/index.ts:34-39 | at most one keyword more than there are commas; every keyword is non-empty with no white space at its ends |
| Create.KeywordsHaveNoComma | packages/create/src/index.ts:34-39 | no keyword holds a comma |
| Create.KeywordsConcat | packages/create/src/index.ts:34-39 | keywords keep input order across a comma |
| Create.KeywordsOfPiece | packages/create/src/index.ts:34-39 | a comma-free input gives its trimmed text as the one keyword, or none when blank |
| Create.WithField | packages/create/src/index.ts:78-107 | setting one option field changes that field only |
| Create.ClassifyFlag | packages/create/src/index.ts:78-110 | the flag checks: `--flag` selects its field, `--flag=value` selects its field with the inline value, a token without a leading dash is positional, and an ignored dash token matches no flag; never `-y` |
| Create.ClassifyToken | packages/create/src/index.ts:76-110 | a token is the yes flag exactly when it is `-y` or `--yes`, positional exactly when it does not start with a dash, and a field flag only when it is that field's flag or starts with it and `=` |
| Create.ClassifyFlagFinds | packages/create/src/index.ts:78-107 | the chain of flag checks finds a field whose flag matches when no other field's flag does |
| Create.FlagTokens | packages/create/src/index.ts:78-107 | each field's `--flag` token selects that field with the next token as value, and `--flag=value` selects it with the inline value |
| Create.WithName | packages/create/src/index.ts:108-110 | a missing or empty name becomes the token; a non-empty name stays and nothing else changes |
| Create.Advance | packages/create/src/index.ts:79-80 | a `--flag` token also consumes the next token (or ends the walk when it is the last); every other token moves on by one |
| Create.Apply | packages/create/src/index.ts:76-110 | one token's effect: `yes` is set exactly by `-y` or `--yes`, a field changes exactly when the token assigns it (to the assigned value), and the name changes only for a positional token |
| Create.ParseFrom | packages/create/src/index.ts:72-111 | options the walk has set stay set: `yes`, the name and every field are never unset |
| Create.Heads | packages/create/src/index.ts:72-111 | the positions the loop examines all lie in the argument list |
| Create.ParseArgs | packages/create/src/index.ts:70-114 | the loop computes `ParseFrom` over all the tokens from the initial options |
| Create.ParseYes | packages/create/src/index.ts:76-77 | `yes` is set exactly when an examined token is `-y` or `--yes` |
| Create.ParseUnassigned | packages/create/src/index.ts:78-107 | a field no examined token sets keeps its value; a trailing `--flag` sets nothing |
| Create.ParseLastWins | packages/create/src/index.ts:78-107 | with repeated flags the last examined one decides the value |
| Create.ParseKeepsName | packages/create/src/index.ts:108-110 | a non-empty name is never replaced by a later positional |
| Create.InlineValueUpToEquals | packages/create/src/index.ts:81-82 | `--flag=value` keeps only the text up to the next `=` |
| Create.InlineValue | packages/create/src/index.ts:82 | `token.split("=", 2)[1] ?? ""` holds no `=`, and is empty for a token without one |
| Create.FlagSwallowsDashToken | packages/create/src/index.ts:83-85 | `--url -y` sets the URL to "-y" and leaves `yes` false |
| Create.PromptAnswer | packages/create/src/index.ts:18-19 | a blank answer gives the default; any other answer gives its trimmed text, which is non-empty with no white space at its ends |
| Create.AskOr | packages/create/src/index.ts:116-125 | an explicit option wins; otherwise the default in non-interactive mode and the prompt's answer in interactive mode (the trimmed typed text unless it is blank); never empty when the default is not |
| Create.BlankAnswerTakesDefault | packages/create/src/index.ts:116-125 | a blank answer takes the default in either mode |
| Ui.TypeNameIdentifiesKind | packages/lib/src/ui.ts:5-61 | two nodes have the same `type` tag exactly when the same builder built them |
| Ui.Text | packages/lib/src/ui.ts:5-10 | a "Text" node holding the text |
| Ui.Timestamp | packages/lib/src/ui.ts:12-21 | a "TimeStamp" node holding the timestamp, with the given display or "Relative" by default |
| Ui.TimestampDefaultsToRelative | packages/lib/src/ui.ts:14 | leaving the display out means "Relative", not "Absolute" |
| Ui.Image | packages/lib/src/ui.ts:26-32 | an "Image" node holding the URL and the optional header |
| Ui.Link | packages/lib/src/ui.ts:34-40 | a "Link" node holding the URL and the optional label |
| Ui.EntryCard | packages/lib/src/ui.ts:49-54 | an "EntryCard" node holding the entry |
| Ui.Defined | packages/lib/src/ui.ts:45 | the kept children are exactly the defined arguments, no more of them than arguments, all of them when all are defined |
| Ui.DefinedAppend | packages/lib/src/ui.ts:42-47 | filtering keeps argument order |
| Ui.DefinedAllPresent | packages/lib/src/ui.ts:42-47 | with every argument defined, the children are the arguments in their places |
| Ui.DefinedSkipsUndefined | packages/lib/src/ui.ts:45 | an undefined argument leaves the children as they were |
| Ui.Column | packages/lib/src/ui.ts:42-47 | a "Column" node whose children are the defined arguments, in order and each once |
| Ui.Row | packages/lib/src/ui.ts:56-61 | a "Row" node whose children are the defined arguments, in order and each once |
| Ui.If | packages/lib/src/ui.ts:63-74 | the input when the condition holds; otherwise an empty list for a list and undefined for a node |
| Ui.Arguments | packages/lib/src/ui.ts:42 | a list is spread into one argument per node, and a single node is one argument |
| Ui.IfInContainer | packages/lib/src/ui.ts:63-74 | inside a column or a row, `If` contributes the defined nodes in place when true and nothing when false |

## Left out

- Host I/O: `registerSetting` and `getSetting` are calls into the host. `register` is modelled by the request it sends (`Register`), and `get` takes the host's answer as a parameter.
- Inherited property names: the stored settings are a plain JavaScript object, so keys such as `toString`, `constructor` or `__proto__` reach the object's prototype. `tryGet("toString")` and `get("constructor")` then throw a TypeError, and `getOrDefine("__proto__", …)` replaces the prototype instead of adding an entry. The model's `map` has no inherited keys: `TryGet` gives undefined and `Get` gives NotFound for such keys, and `GetOrDefine` adds an entry.
- Aliasing: the `SettingStore` constructor keeps the caller's object, so `getOrDefine` changes the caller's map and `toMap` returns that same object. The model's `settings` field is a value: the caller's map is not updated in place, and what `ToMap` returns does not change with later declarations.
- Logging: the `console.log` and `logerr` output is not modelled.
- Numbers are JavaScript floating point; the model uses integers, since the store only compares them and copies them.
- `typeof` answers for functions, symbols and bigints are not modelled; every non-primitive value is one `JsObject`.
- JSON key order: the UI check compares `JSON.stringify` strings. The model compares the descriptors structurally. The order of a dropdown's options still matters.
- The TypeScript generics that tie a control to a value kind (`UI<string>` for a path selection, and so on) only type-check and are not modelled.
- JsStrings.ToLowerCase: lower-cases ASCII letters, KELVIN SIGN and LATIN CAPITAL LETTER I WITH DOT ABOVE. It keeps every other character, because the lower case of any other non-ASCII character is non-ASCII and `toSlug` turns it into a dash anyway. It does not model full Unicode case mapping.
- Strings are sequences of Unicode scalar values, not UTF-16 code units.
- The prompt reads standard input: what the user types is a parameter of `AskOr`.
- The scaffolder's `main`, the file-system writes, Handlebars rendering, `uuid` and the template loader are not part of this model.
- The asserts package, the build, bundling and publishing scripts, and `packages/lib/src/main.ts` are not part of this model.

## Findings

| source | as written | input that shows it | evidently intended | confidence | as-written member | corrected member |
|---|---|---|---|---|---|---|
| packages/lib/src/settings.ts:110-120 | `toMap` builds the touched-only map and then returns `this.settings`, the whole map | a stored map with keys x, y, z where only x and y are declared: the export still holds z | return only the touched entries, so that undeclared ("zombie") settings are dropped | not executed | Settings.ExportKeepsZombies | Settings.SettingStore.ToMapFiltered |
| packages/create/src/index.ts:24-32 | `toSlug` strips dashes at both ends before cutting to 64 characters, so the cut can end on a dash | 63 × "a" followed by " b" gives 63 × "a" followed by "-" | strip trailing dashes after the cut too, so a slug never ends with a dash | not executed | Create.ToSlugCanEndWithDash | Create.ToSlugTrimmed |
