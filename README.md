# asimov.js logger and pages path setter, in Dafny

This project models two parts of the asimov.js framework.

- **The logger** (`lib/logger/Logger.js`). It keeps an ordered buffer of log entries. It also
  keeps two fields about the previous line: `lastNamespace` and `lastWasInfo`.
  - `log` appends an entry, and `logClear` and `header` are built on it.
  - `info` formats a namespaced line into a 16-column namespace field. `wait` is built on `info`.
  - `update` fills an entry's `%time%` token.
  - `remove` drops an entry.
  - `flush` renders the whole buffer as one screen of text.

  The object is the class `Logging.Logger`, with fields `buffer`, `lastNamespace` and
  `lastWasInfo`. The text layout is pure functions and lemmas in `LogFormat`. The JavaScript
  string operations involved are in `Text`: `indexOf`, first-occurrence `replace`, padding and
  `toUpperCase`.
- **The pages path setter** (`modules/asimov-pages/lib/init/methods.js`). `registerPathSetter`
  makes sure `config.paths[type]` exists and registers a setter named `type + 'Path'`. That
  setter appends one path to that category's list. The module entry registers the `pages`
  setter and then calls `next`. This is the class `PagesInit.Asimov`. The calls made to the
  framework (`register`, `logPending`, `next`) are recorded in order in its `calls` field.

`lib/watcher/Watcher.js`, the incremental-rebuild watcher, is not part of this model.

Conventions of the model:
- A log entry (a LogBuffer) is the value `Entry(id, message)`.
- The colour decorations of the `colors` library are uninterpreted functions in a `Style`
  record: `.bold`, `.inverse`, and the logger's colour `[self.color]`.
- The time text that `getTime` would produce is passed in as the `time` parameter.
- Each new entry is a new object. Its identity is its id, which the logger draws from the
  counter `nextId`. `Logger.Valid()` keeps the ids in the buffer distinct. `update` and
  `remove` find their target by this id, as the source finds it by `id` and by object identity.
- JavaScript `undefined` is `None`.
- A thrown `Error` is `Err(message)`.

## Model

| member | source | states |
|---|---|---|
| `Text.IndexOf` | lib/logger/Logger.js:155 | the result is the first index where the pattern occurs, or -1 exactly when it occurs nowhere |
| `Text.ReplaceFirst` | lib/logger/Logger.js:188 | only the first occurrence of the pattern is replaced; with no occurrence the string is unchanged |
| `Text.Spaces` | lib/logger/Logger.js:218-219 | `new Array(n + 1).join(' ')` is exactly n characters, all spaces |
| `Text.UpperChar` | lib/logger/Logger.js:215 | lower-case ASCII letters map to their upper-case letter; every other character is kept |
| `Text.ToUpper` | lib/logger/Logger.js:215 | upper-casing keeps the length |
| `LogFormat.Normalized` | lib/logger/Logger.js:187-192 | the printed namespace is a prefix of the namespace without its first "Collection", at most 16 characters long, and all of it when it fits |
| `LogFormat.Column` | lib/logger/Logger.js:190-199 | when the stripped namespace fits, the caller's prefix is replaced by spaces that fill the column to exactly 16 with the namespace; when it is too long, the caller's prefix is kept |
| `LogFormat.ColumnAsWritten` | lib/logger/Logger.js:222 | as the code is written, a too-long namespace with no prefix argument yields the text "undefined" |
| `LogFormat.UndefinedPrefixShown` | lib/logger/Logger.js:222 | a concrete 28-character namespace given without a prefix shows "undefined" as written, and nothing when corrected |
| `LogFormat.Stripped` | lib/logger/Logger.js:188 | only the first "Collection" is removed: a namespace without it is unchanged, otherwise exactly that occurrence is cut out |
| `LogFormat.IsFreshLine` | lib/logger/Logger.js:205-209 | for a non-empty namespace, a fresh line starts exactly when the last namespace is unset or different |
| `LogFormat.InfoLine` | lib/logger/Logger.js:213-226 | every info line ends with a space, the message and, when the time is shown, a space and the time |
| `LogFormat.RepeatedNamespaceLine` | lib/logger/Logger.js:217-226 | a repeated namespace that fits is blanked: the line is 16 spaces, one space, the message, then the time if shown |
| `LogFormat.RepeatedLongNamespaceLine` | lib/logger/Logger.js:189-222 | a repeated namespace too long for the column is blanked after the prefix: the line is the prefix, 16 spaces, one space, the message, then the time if shown |
| `LogFormat.FreshNamespaceLine` | lib/logger/Logger.js:213-222 | a new namespace gives the whole line: a newline, the column, the decorated upper-cased namespace, a space, the message, then the time if shown |
| `LogFormat.Line` | lib/logger/Logger.js:97 | each flushed line ends in a newline; a message without the time token is written as it is |
| `LogFormat.Rendered` | lib/logger/Logger.js:94-98 | the flushed text is empty exactly for an empty buffer, otherwise ends in a newline, and has at least one character per entry |
| `LogFormat.Screen` | lib/logger/Logger.js:100 | the screen is the clear command and a newline, followed by the coloured flushed text |
| `LogFormat.RenderedConcat` | lib/logger/Logger.js:96-98 | the flushed text of a buffer is the texts of its parts in order |
| `LogFormat.RenderedSnoc` | lib/logger/Logger.js:96-98 | appending an entry appends exactly its line to the flushed text |
| `LogFormat.Stamped` | lib/logger/Logger.js:153-161 | an entry with another id, or without the token, is untouched; for a matching id the message has its first token replaced; the `indexOf` guard changes nothing |
| `LogFormat.Updated` | lib/logger/Logger.js:151-163 | update keeps the buffer's length, order and ids, leaves entries of other ids or without the token untouched, and replaces only the first token of matching entries |
| `LogFormat.Without` | lib/logger/Logger.js:171 | no remaining entry is the removed object and the buffer does not grow |
| `LogFormat.WithoutSubset` | lib/logger/Logger.js:171 | every remaining entry was in the buffer |
| `LogFormat.WithoutCounts` | lib/logger/Logger.js:171 | every entry with the removed identity is dropped and every other entry keeps its number of occurrences |
| `LogFormat.WithoutConcat` | lib/logger/Logger.js:171 | removal distributes over concatenation, so the remaining entries keep their relative order |
| `LogFormat.WithoutAbsent` | lib/logger/Logger.js:171 | removing an object that is not in the buffer leaves the buffer as it is |
| `LogFormat.WithoutOne` | lib/logger/Logger.js:171 | with distinct ids, removing the entry at position i drops exactly that entry and keeps the others in order |
| `LogFormat.WithoutDistinct` | lib/logger/Logger.js:171 | removal keeps the remaining ids distinct |
| `LogFormat.RemoveAfterUpdate` | lib/logger/Logger.js:151-171 | an entry updated in place is still found by `remove`: removing after updating drops the same entries as removing first, and leaves the rest as updated |
| `Logging.PadSpaces` | lib/logger/Logger.js:194-198 | the padding loop builds exactly n spaces |
| `Logging.Logger.constructor` | lib/logger/Logger.js:40 | a new logger has an empty buffer, no last namespace and `lastWasInfo` false |
| `Logging.Logger.Log` | lib/logger/Logger.js:57-76 | exactly one new entry, with a fresh identity, is appended at the end; earlier entries and both state fields are unchanged |
| `Logging.Logger.LogClear` | lib/logger/Logger.js:84-89 | the entry appended is the clear command, a newline, then the message |
| `Logging.Logger.Header` | lib/logger/Logger.js:108-118 | appends the bold "# " heading, with a leading newline when the previous line was an info line, plus a newline; `lastWasInfo` becomes false |
| `Logging.Logger.Info` | lib/logger/Logger.js:184-232 | throws, changing nothing, exactly when the normalised namespace or the message is empty; otherwise appends and returns the formatted line, sets `lastNamespace` to the normalised namespace (not upper-cased) and `lastWasInfo` to true |
| `Logging.Logger.Wait` | lib/logger/Logger.js:126-144 | throws, changing nothing, on an empty namespace or message or when `info` throws; otherwise appends the ">"-prefixed info line without time, stamped in place by `addTime` unless `showTime` is false, and returns that same entry |
| `Logging.Logger.Flush` | lib/logger/Logger.js:91-101 | the output is the clear command, a newline, then the coloured lines of all entries in order, each with its first time token removed and a newline appended |
| `Logging.Logger.Update` | lib/logger/Logger.js:146-166 | the buffer becomes `Updated` of the old buffer for the target's id; the state fields are unchanged; the flushed screen is returned |
| `Logging.Logger.Remove` | lib/logger/Logger.js:168-174 | the buffer becomes the old buffer without the target object (found by its identity); the ids stay distinct; the state fields are unchanged; the flushed screen is returned |
| `PagesInit.SetterName` | modules/asimov-pages/lib/init/methods.js:3 | the setter name is the category followed by "Path" |
| `PagesInit.AddingPathMessage` | modules/asimov-pages/lib/init/methods.js:9 | the pending message is "Adding path for ", the category, " @ ", then the path |
| `PagesInit.WithList` | modules/asimov-pages/lib/init/methods.js:5-6 | the map and the category's list are created only when absent; an existing list and every other category are kept as they are |
| `PagesInit.WithListIdempotent` | modules/asimov-pages/lib/init/methods.js:5-6 | initialising a category twice is the same as once |
| `PagesInit.Appended` | modules/asimov-pages/lib/init/methods.js:10 | exactly the given path is appended to that category's list; the keys and every other category's list are unchanged |
| `PagesInit.Asimov.constructor` | modules/asimov-pages/lib/init/methods.js:5 | starts from the given `config.paths`, with no setters and no calls |
| `PagesInit.Asimov.RegisterPathSetter` | modules/asimov-pages/lib/init/methods.js:1-12 | initialises the paths as `WithList`, registers the setter for the category under `category + "Path"`, and records one `register` call |
| `PagesInit.Asimov.CallSetter` | modules/asimov-pages/lib/init/methods.js:8-11 | logs the pending message, then appends the path to the setter's category, other categories unchanged |
| `PagesInit.Asimov.Init` | modules/asimov-pages/lib/init/methods.js:14-21 | registers the "pages" setter under "pagesPath", then calls `next` exactly once |

## Left out

- Console output and terminal control are not modelled. This covers `console.log`, `clear`, the `LEGACY_RENDER` switch and the colouring of the echoed message in `log`. `Flush` returns the text it would print.
- `getTime` and `startTimer` read the wall clock and divide by 1000 in floating point. They are not modelled; the time text is a parameter.
- `flush` is wrapped in `_.debounce` (timer scheduling). This is not modelled: `Update` and `Remove` flush at once and return the screen.
- `json` and its `censor` replacer are not modelled. They depend on `JSON.stringify`'s traversal.
- LogBuffer is not part of this model. The model gives each new entry the next value of a counter as its identity, and `log` is taken to store the message unchanged. The effect of its `addTime` on the message is the function parameter `addTime` of `Wait`; any other state `addTime` keeps (a start time) is not modelled.
- The prototype-level `buffer: []` is shared between instances until `remove` reassigns it. The model covers one logger instance.
- The colour functions are uninterpreted, so no property depends on the escape codes they add.
- Logging.Logger.Remove: object identity is modelled by the entry id. In JavaScript `update` also changes the caller's own object, because it is the same object. In the model the caller's `Entry` value keeps its old message, but `Update` and `Remove` only use its id, so they behave as in the source.
- Logging.Logger.Info: `showTime` is a boolean; `true` stands for every value other than `false`, including `undefined`.
- Logging.Logger.Wait: `showTime` is a boolean here as well; `true` stands for every value other than `false`, including `undefined`.
- Logging.Logger.Update: the caller's `Entry` value is not changed in place, as the JavaScript object would be; the buffer entry with the target's id is updated, and the caller's value keeps its old message.
- Logging.Logger.Wait: the returned `Entry` is a value, not the object kept in the buffer; later updates of the buffer entry are not visible through it, and only its id is used by `Update` and `Remove`.
- LogFormat.Normalized: lengths are counted in characters, not UTF-16 code units, for the 16-character test and the cut to 16 characters.
- LogFormat.Column: the padding is counted in characters, not UTF-16 code units.
- Logging.Logger.Info: the arguments are strings. JavaScript would throw from `replace` on a non-string namespace.
- Logging.Logger.Info: uses the corrected column. An absent prefix is empty text, not "undefined" (see Findings).
- Text.ReplaceFirst: the replacement is inserted literally. JavaScript's `$&`-style replacement patterns are not modelled; the time texts never contain `$`.
- Text.UpperChar: only the ASCII letters a-z are mapped. JavaScript also upper-cases other letters, such as 'é' to 'É'.
- Text.ToUpper: only ASCII letters are upper-cased, so the length is kept. JavaScript can change the length, as with 'ß' to "SS".
- `asimov.register` and `asimov.logPending` are framework calls. The model only records that they happened, with their arguments, in `calls`. What they do is not modelled, for instance registering the same name twice.

## Findings

| source | as written | input that shows it | evidently intended | confidence | as-written member | corrected member |
|---|---|---|---|---|---|---|
| lib/logger/Logger.js:222 | `prefix + namespace`, where `prefix` keeps the caller's argument whenever the stripped namespace is longer than 16 characters | `info('asimov-pages-static-renderer', 'msg')` with no prefix argument: the line starts `"\nundefined"` before the namespace | no prefix text when the caller gives none | medium, not executed | `LogFormat.ColumnAsWritten` (`LogFormat.UndefinedPrefixShown`) | `LogFormat.Column` |
