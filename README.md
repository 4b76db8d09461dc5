# Extension-SQLQuery in Dafny

A model of the parts of the Extension-SQLQuery browser extension (`index.js`)
whose behaviour can be stated exactly. The extension forwards SQL text to a
PostgreSQL plugin endpoint and renders the rows it gets back. The modelled
parts are:

- **Response check** (`queryDatabase`, and the same lines in
  `getAzureBlobUrl`). A non-OK status throws "Failed to get query". Otherwise
  a falsy body, or one whose `typeof` is not `"object"`, throws
  "No result set". Otherwise the decoded body is returned unchanged. The
  transport is given as its `ok` flag and its decoded JSON body.
- **Argument defaulting.** The lineage depth is `recursive_depth ?? '1'`.
  `args.args || []` is also computed as `params` (`index.js:213`, `415`), but
  `queryDatabase("shannon", query)` is then called without it, so the value
  has no effect on anything the program does.
- **Lineage Markdown formatter** (the `get-sql-definitions` callback). Each
  row `{query_name, query_text}` becomes
  `"###" + name + "\n\n```sql\n" + body + "\n\n```\n\n"`. The body is the
  text with every non-overlapping `"\n\n"` replaced by `"\n"`, cut before the
  first `"INSERT INTO"`, then trimmed. The blocks are joined with `"\n"`.
- **Settings load-and-merge** (the `jQuery` ready handler). With nothing
  stored, the defaults object itself, not a copy, becomes the settings. Then
  every default key whose stored value is `undefined` is filled in place.
  The settings-panel handlers each assign one string field.

Files, one module each:

- `js_values.dfy` (`JsValues`): JSON values, truthiness, `typeof`, `??`, `||`.
- `transport.dfy` (`Transport`): the response check.
- `arguments.dfy` (`Arguments`): the argument defaulting.
- `strings.dfy` (`Strings`): explicit recursive definitions of
  `replace(/pat/g, rep)`, `split(m)[0]`, `trim()` and `join(sep)`, with
  their specifications.
- `markdown.dfy` (`Markdown`): the row formatter.
- `settings.dfy` (`Settings`): a `JsObject` class over a mutable property
  map, and `ExtensionSettings.LoadSettings`, a loop over the default keys.

Points worth noting about the code; where it differs from its own
descriptions and schemas, the model follows the code:

- `index.js:444` appends `"\n\n```\n\n"` after the trimmed body, so every
  block has a blank line before the closing fence.
  `Markdown.InsertStatementDroppedBlock` states this form.
- The `findCandidateTableNames` description (`index.js:270`) says an empty
  search term gives an empty result and credits this to
  `websearch_to_tsquery`. The code itself makes no such check
  (`index.js:44-56`), so it is not modelled.
- The depth is documented as a number of levels with default 1: the tool
  schema declares it a string whose description gives that default
  (`index.js:228-231`), and the slash-command argument is typed as a number
  (`index.js:434-435`) but declares `defaultValue: '1'`, itself a string
  (`index.js:436`). The code defaults it to the string `'1'`
  (`index.js:244`, `442`) and passes any non-nullish value through
  unchanged, whatever its type. If the host fills in the declared default
  for an omitted slash-command argument, the `??` at `index.js:442` never
  sees `undefined` there; either way the depth is `'1'`. The host's argument
  parsing is not part of this model, so `Arguments.RecursiveDepth` covers
  both an absent and a present argument.
- The tool schema advertises `args` as "the arguments for parameterized SQL
  queries" (`index.js:196-199`). The code computes `params` from it and never
  passes it on (`index.js:213-214`, `415-416`), so query arguments are
  silently ignored.

## Model

| member | source | states |
|---|---|---|
| `JsValues.Truthy` | index.js:37 | definition, no contract: JavaScript truthiness of a JSON value (null, false, 0 and "" are falsy); its consequences are stated by `JsValues.Or`, `Transport.CheckResponse` and `Transport.NullAndEmptyCollections` |
| `JsValues.TypeOf` | index.js:37 | `typeof` is `"object"` exactly for null, arrays and objects, and `"undefined"` exactly for `undefined` |
| `JsValues.Coalesce` | index.js:244 | `v ?? d` is `d` when `v` is null or undefined; otherwise it is `v` itself |
| `JsValues.Or` | index.js:213 | the logical-or default `v or d` is `d` for every falsy value (undefined, null, false, 0, "") and `v` itself for every truthy one |
| `JsValues.CoalesceDiffersFromOr` | index.js:442 | `??` and logical or disagree exactly on values that are falsy but not nullish and differ from the fallback |
| `Transport.CheckResponse` | index.js:32-41 | non-OK status gives FailedToGetQuery whatever the body; with OK status, anything but an array or object gives NoResultSet; arrays and objects are returned unchanged |
| `Transport.StatusCheckedFirst` | index.js:32-34 | a non-OK response fails, and fails identically, for any two bodies |
| `Transport.SuccessIsUnchangedBody` | index.js:36-41 | the check succeeds iff the status is OK and the body is an array or object, and then yields exactly the body |
| `Transport.NullAndEmptyCollections` | index.js:145-150 | `null` passes `typeof` but is rejected as falsy; an empty array or empty object is accepted (the same check in `getAzureBlobUrl`) |
| `Arguments.RecursiveDepth` | index.js:244 | the depth is `'1'` iff the argument is null, undefined or `'1'` itself; any other argument is passed through unchanged |
| `Arguments.QueryParams` | index.js:415 | the unused `params` value is `[]` iff the argument is falsy or already `[]`; a truthy argument is passed through |
| `Arguments.ExplicitZeroDepthKept` | index.js:442 | an explicit depth of `0`, `'0'` or `''` is kept, not replaced by `'1'` |
| `Strings.ReplaceAll` | index.js:444 | definition, no contract: `replace(/pat/g, rep)` for a literal pattern and a replacement without `$`, scanning left to right; its properties are stated by `Strings.ReplaceAllWithoutPattern` and `Strings.CollapseLength` |
| `Strings.CollapseNewlines` | index.js:444 | definition, no contract: `replace(/\n\n/g, '\n')`; fixed by `Strings.CollapseRun`, `Strings.CollapseCons` and `Strings.CollapseAfterPrefix`, with `Strings.CollapseLength` and `Strings.CollapseKeepsText` |
| `Strings.ReplaceAllWithoutPattern` | index.js:444 | the left-to-right scan finds no match iff the pattern does not occur, and then the text is returned unchanged |
| `Strings.CollapseLength` | index.js:444 | each `"\n\n"` replacement shortens the text by exactly one character |
| `Strings.CollapseRun` | index.js:444 | a maximal run of k newlines becomes ceil(k/2) newlines, and the text after it is collapsed independently |
| `Strings.ThreeNewlinesBecomeTwo` | index.js:444 | `"\n\n\n"` becomes `"\n\n"`, not `"\n"` |
| `Strings.CollapseKeepsText` | index.js:444 | collapsing removes only newlines: the other characters survive in order |
| `Strings.CollapseNoNewlines` | index.js:444 | text without newlines is unchanged by collapsing |
| `Strings.CollapseAfterPrefix` | index.js:444 | a newline-free prefix is kept as it is, and collapsing continues after it unaffected |
| `Strings.PrefixBefore` | index.js:444 | `split(m)[0]` is a prefix of the text that no occurrence of `m` starts inside; it is the whole text iff `m` does not occur, and otherwise `m` starts right after it |
| `Strings.PrefixBeforeHasNoMarker` | index.js:444 | the kept prefix never contains the marker |
| `Strings.PrefixBeforeUnique` | index.js:444 | any prefix meeting that specification is the one `split(m)[0]` returns |
| `Strings.PrefixBeforeIgnoresRest` | index.js:444 | once the text contains the marker, anything appended after it does not change the kept prefix: only the first marker matters |
| `Strings.Trim` | index.js:444 | `trim()` yields text that neither starts nor ends with JavaScript whitespace |
| `Strings.TrimIsSlice` | index.js:444 | the trimmed text is a slice of the input with only whitespace before and after it |
| `Strings.TrimUnique` | index.js:444 | any trimmed slice with only whitespace around it is the result of `trim()` |
| `Strings.TrimIdempotent` | index.js:444 | trimming a trimmed text leaves it unchanged; trimming twice equals trimming once |
| `Strings.TrimKeepsAbsence` | index.js:444 | trimming cannot introduce a marker |
| `Strings.Join` | index.js:445 | definition, no contract: `join(sep)`; its layout is stated by `Strings.JoinLayout` and `Strings.JoinSnoc` |
| `Strings.JoinLayout` | index.js:445 | `join(sep)` places part i at its offset, one separator between neighbours, none at the ends, and nothing else; no parts join to `""` |
| `Strings.JoinSnoc` | index.js:445 | joining one more part appends the separator and that part |
| `Markdown.Body` | index.js:444 | the shown body never contains `"INSERT INTO"`, has no leading or trailing whitespace, and is the trimmed collapsed text when there is no marker |
| `Markdown.BodySpec` | index.js:444 | the body is fixed by the specification: the trimmed slice of the collapsed text up to the first marker |
| `Markdown.Block` | index.js:444 | definition, no contract: `"###" + name + "\n\n```sql\n" + body + "\n\n```\n\n"` for one row; stated through `Markdown.Body`, `Markdown.FormatRowsLayout` and `Markdown.InsertStatementDroppedBlock` |
| `Markdown.Blocks` | index.js:444 | `map` gives one block per row, in row order |
| `Markdown.FormatRows` | index.js:445 | an empty row list renders as `""` |
| `Markdown.FormatRowsLayout` | index.js:444-445 | the document is the blocks in row order, each at its offset, separated by single newlines, with nothing else |
| `Markdown.FormatRowsSnoc` | index.js:444-445 | one row renders as its block alone; adding a row appends `"\n"` and its block |
| `Markdown.CollapseTwoBlankLines` | index.js:444 | `a\n\nb\n\nx`, with x not starting with a newline, collapses to `a\nb\n` followed by x collapsed |
| `Markdown.InsertStatementDropped` | index.js:444 | for text shaped like `"a\n\nb\n\nINSERT INTO x"`, with any x, the body is `"a\nb"` |
| `Markdown.InsertStatementDroppedBlock` | index.js:444 | the block for that text is `"###" + name + "\n\n```sql\n" + "a\nb" + "\n\n```\n\n"` |
| `Settings.Get` | index.js:292 | definition, no contract: reading a property, with a missing key reading as `undefined`; used by `Settings.Merge` and `Settings.JsObject.GetProp` |
| `Settings.JsObject.GetProp` | index.js:292 | reading `obj[key]` gives the stored value, or `undefined` for a missing key |
| `Settings.JsObject.SetProp` | index.js:293 | writing `obj[key] = v` replaces that one property, adding it if missing, and changes nothing else |
| `Settings.Merge` | index.js:291-295 | after the merge, default keys that read as undefined hold the default; keys already defined and keys outside the defaults keep their values |
| `Settings.MergeDefinesDefaults` | index.js:291-295 | every default key with a defined default reads as defined after the merge |
| `Settings.MergeIdempotent` | index.js:287-295 | loading twice gives the same settings as loading once |
| `Settings.MergeKeysSelf` | index.js:288-295 | merging the defaults into themselves changes nothing, so the loop is a no-op on the shared object |
| `Settings.LoadedSettingsDefined` | index.js:9-15 | with the shipped defaults (five empty strings), every field reads as defined after any load |
| `Settings.ExtensionSettings.LoadSettings` | index.js:287-295 | with nothing stored the settings become the defaults object itself with its values unchanged; otherwise the same stored object holds the merge; the defaults' values never change |
| `Settings.ExtensionSettings.EditField` | index.js:330-353 | a settings-panel edit assigns one string field of the settings object and nothing else |
| `Settings.FreshInstallEditReachesDefaults` | index.js:288 | after a fresh install, an edit to `host` is visible through the defaults object, because the two are one object |
| `Settings.LoadKeepsStoredValues` | index.js:287-295 | loading stored settings leaves every default field defined and every already-defined stored value unchanged |

## Left out

- `fetch`, the endpoint URLs and the request bodies (`index.js:22-31`, `132-140`) are network I/O. So is `response.json()`, including its failure on a body that is not JSON. The model starts from the `ok` flag and the decoded body.
- The SQL text built by `findCandidateTableNames`, `logSillyTavernConversation`, `getCreateTableAsDefinitions` and `putTableIntoBlobStorage` (`index.js:44-130`) is plain string interpolation. The lineage traversal, its filters, `LIMIT 10` and the `< depth` bound run inside PostgreSQL. The depth value from `Arguments.RecursiveDepth` is interpolated verbatim, so it is not modelled further.
- Tool and slash-command registration (`index.js:153-284`, `355-474`) are calls into the host, so they are left out. This includes the `if (!args) throw` guards, `formatMessage`, `JSON.stringify` of results, and reading `blob_url` from the result.
- The HTML injection, the jQuery event wiring and `saveSettingsDebounced` (`index.js:297-353`) are UI and persistence. `EditField` models only the assignment each handler makes.
- Arguments.QueryParams: the `params` value is modelled, but nothing uses it. `queryDatabase` never receives it (`index.js:214`, `416`), so the model has no parameterized queries either.
- Strings.ReplaceAll: inserts the replacement as written; JavaScript's expansion of `$$`, `$&`, `` $` ``, `$'` and `$n` in a replacement string is not modelled, because the only replacement at `index.js:444` is `"\n"`.
- Console logging has no semantics. `async`/`await` is left out because each operation is a single request and response.
- Markdown.FormatRows: rows are taken as already-decoded pairs of strings. Cases where JavaScript would throw a TypeError are not modelled: `results.map` on a non-array object, or a `null` or non-string `query_text`. Nor is the coercion of a non-string `query_name` such as `null`, which would concatenate as `"null"`.
- Settings.ExtensionSettings.LoadSettings: a stored `sqlquery` that is `null` or a primitive is not modelled; `null` stands for `undefined` in the model. In JavaScript a stored `null` throws a TypeError on the read `extension_settings.sqlquery[key]` (`index.js:292`). A primitive survives the read, since every key reads as `undefined`, but the write at `index.js:293` throws because the module is strict code. The model also visits the default keys in an arbitrary order rather than insertion order; the result does not depend on the order.
- JSON numbers are modelled as reals. NaN cannot occur in decoded JSON. Strings are sequences of Unicode scalar values, not UTF-16 code units.
