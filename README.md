# Slash-command palette of the rich-text editor

This project models the one piece of bespoke logic in the editor's
`RichTextEditor.tsx`: the menu that opens when the user types `/`. It has three parts.

- **Catalog and filter** (`suggestion.items`). There is a fixed, ordered list of six commands: Heading 1, Heading 2, Bullet List, Numbered List, Bold and Italic. It is narrowed by a case-insensitive prefix match of the typed query against each title. Module `SlashCommands` holds it, with the string helpers in `AsciiText` and subsequence facts in `Subsequences`.
- **The command list** (`CommandsList`). This is a class with the current `items` and the highlighted `selectedIndex`.
  - ArrowUp and ArrowDown move the index with wrap-around.
  - Enter and a click commit an item. Committing does nothing when the index is out of range.
  - Hovering sets the index.
  - New items from the filter replace `items` and leave the index alone. The index can therefore point past the end of a narrower list (module `CommandsListModel`).
- **Key routing**. The list's document listener intercepts ArrowUp, ArrowDown and Enter. The suggestion hook's `onKeyDown` returns true for Escape only.

A committed command becomes the chain it asks the document engine for: focus, delete the trigger range, apply the format (`Run`). Module `Scenarios` states example runs: "head", "b"/"bo", "/bold" + Enter, ArrowDown twice + Enter, Escape, and a stale index after narrowing.

The index is not reset or clamped when the query changes: it lives in `useState` (line 53), and `updateProps` (line 191) never touches it. The model does the same: `UpdateItems` changes only `items`. `Enter` commits nothing while the index is stale, and the next ArrowUp or ArrowDown brings the index back into range.

JavaScript's `%` truncates toward zero and Dafny's is Euclidean. Both operands are never negative here (`selectedIndex >= 0`, `|items| > 0`), so the two agree.

## Model

| member | source | states |
|---|---|---|
| SlashCommands.Catalog | day-6/electron-app/src/components/RichTextEditor.tsx:115-161 | the catalog has six entries, no two share a title, and the first two set headings 1 and 2 |
| SlashCommands.MatchesIsPrefix | day-6/electron-app/src/components/RichTextEditor.tsx:162-163 | a command matches a query exactly when its lower-cased title is the lower-cased query followed by some rest |
| SlashCommands.Items | day-6/electron-app/src/components/RichTextEditor.tsx:114-165 | the result is an order-preserving subsequence of the six-entry catalog, and a command is in it exactly when it is in the catalog and its lower-cased title starts with the lower-cased query |
| SlashCommands.Filter | day-6/electron-app/src/components/RichTextEditor.tsx:162-164 | `.filter` keeps an order-preserving subsequence holding exactly the commands that match the query, in both directions |
| SlashCommands.FilterAppend | day-6/electron-app/src/components/RichTextEditor.tsx:162-164 | filtering a concatenation equals concatenating the filtered parts |
| SlashCommands.ItemsDistinct | day-6/electron-app/src/components/RichTextEditor.tsx:115-164 | the filter never duplicates a command |
| SlashCommands.FilterEmptyQuery | day-6/electron-app/src/components/RichTextEditor.tsx:162-164 | an empty query keeps every command in its order |
| SlashCommands.ItemsEmptyQuery | day-6/electron-app/src/components/RichTextEditor.tsx:114-165 | the empty query returns the whole catalog in catalog order |
| SlashCommands.FilterCaseInsensitive | day-6/electron-app/src/components/RichTextEditor.tsx:163 | two queries that differ only in ASCII letter case filter any command list identically |
| SlashCommands.ItemsCaseInsensitive | day-6/electron-app/src/components/RichTextEditor.tsx:163 | ASCII case variants of a query give the same items |
| SlashCommands.MatchesPrefix | day-6/electron-app/src/components/RichTextEditor.tsx:163 | a command matching a query also matches every prefix of that query |
| SlashCommands.FilterNarrows | day-6/electron-app/src/components/RichTextEditor.tsx:162-164 | extending the query yields a subsequence of the earlier result |
| SlashCommands.ItemsNarrow | day-6/electron-app/src/components/RichTextEditor.tsx:163 | if `q1` is a prefix of `q2`, `items(q2)` is a subsequence of `items(q1)` |
| SlashCommands.Run | day-6/electron-app/src/components/RichTextEditor.tsx:118-160 | every command's chain starts by focusing the editor, deletes exactly the given range, before the one format step, which applies that command's own action |
| AsciiText.Lower | day-6/electron-app/src/components/RichTextEditor.tsx:163 | `toLowerCase` keeps the length, lowers each character in place and leaves no upper-case ASCII letter |
| AsciiText.StartsWithIsPrefix | day-6/electron-app/src/components/RichTextEditor.tsx:163 | `startsWith(prefix)` holds exactly when the string is `prefix` followed by some rest |
| AsciiText.CaseVariantIffSameLower | day-6/electron-app/src/components/RichTextEditor.tsx:163 | two strings lower-case to the same string exactly when they are ASCII case variants of each other |
| AsciiText.LowerKeepsPrefix | day-6/electron-app/src/components/RichTextEditor.tsx:163 | `toLowerCase` keeps the `startsWith` relation |
| CommandsListModel.Next | day-6/electron-app/src/components/RichTextEditor.tsx:76 | the index after ArrowDown lies in `[0, n)` for any index, stale ones included |
| CommandsListModel.Prev | day-6/electron-app/src/components/RichTextEditor.tsx:72 | the index after ArrowUp lies in `[0, n)` for any index, stale ones included |
| CommandsListModel.NextPrevInverse | day-6/electron-app/src/components/RichTextEditor.tsx:72-76 | from an in-range index, ArrowDown then ArrowUp, or ArrowUp then ArrowDown, returns to it |
| CommandsListModel.NextTimesShift | day-6/electron-app/src/components/RichTextEditor.tsx:76 | ArrowDown `k` times from an in-range index `i` lands on `(i + k) mod n` |
| CommandsListModel.PrevTimesShift | day-6/electron-app/src/components/RichTextEditor.tsx:72 | ArrowUp `k` times from an in-range index `i` lands on `(i - k) mod n` |
| CommandsListModel.NavigationCycles | day-6/electron-app/src/components/RichTextEditor.tsx:72-76 | ArrowDown `n` times, or ArrowUp `n` times, over `n` items is the identity |
| CommandsListModel.ItemAt | day-6/electron-app/src/components/RichTextEditor.tsx:58-59 | `items[index]` yields an item exactly when `0 <= index < |items|`, and then it is that item |
| CommandsListModel.CommandsList.constructor | day-6/electron-app/src/components/RichTextEditor.tsx:52-53 | a new list shows the given items with index 0 |
| CommandsListModel.CommandsList.UpdateItems | day-6/electron-app/src/components/RichTextEditor.tsx:191 | new items replace the old ones and the index is left unchanged |
| CommandsListModel.CommandsList.SelectItem | day-6/electron-app/src/components/RichTextEditor.tsx:56-64 | the item at `index` is committed exactly when the index is in range; otherwise nothing happens |
| CommandsListModel.CommandsList.ArrowUp | day-6/electron-app/src/components/RichTextEditor.tsx:71-74 | the index becomes `(i + n - 1) mod n` and lands on an item; the items are unchanged |
| CommandsListModel.CommandsList.ArrowDown | day-6/electron-app/src/components/RichTextEditor.tsx:75-78 | the index becomes `(i + 1) mod n` and lands on an item; the items are unchanged |
| CommandsListModel.CommandsList.Enter | day-6/electron-app/src/components/RichTextEditor.tsx:79-82 | Enter commits the item at the current index, and commits something exactly when the index is in range |
| CommandsListModel.CommandsList.Click | day-6/electron-app/src/components/RichTextEditor.tsx:98 | clicking a button commits that button's item |
| CommandsListModel.CommandsList.Hover | day-6/electron-app/src/components/RichTextEditor.tsx:99 | hovering item `k` sets the index to `k` |
| CommandsListModel.CommandsList.KeyDown | day-6/electron-app/src/components/RichTextEditor.tsx:67-85 | exactly ArrowUp, ArrowDown and Enter are intercepted. Only the arrows move the index. Enter alone commits, the item at the index before the key. Any other key changes nothing |
| CommandsListModel.KeyPress | day-6/electron-app/src/components/RichTextEditor.tsx:198-205 | for one key press, the hook consumes exactly Escape and the list intercepts exactly its three keys. ArrowUp and ArrowDown move the index as `Prev` and `Next` say, Enter alone commits the item at the index before the key, and any other key leaves the index as it was |
| Scenarios.HeadQuery | day-6/electron-app/src/components/RichTextEditor.tsx:162-164 | "head", "HEAD" and "Head" each give exactly [Heading 1, Heading 2] |
| Scenarios.NarrowingQuery | day-6/electron-app/src/components/RichTextEditor.tsx:163 | "b" gives [Bullet List, Bold] and "bo" gives [Bold] |
| Scenarios.QueryBold | day-6/electron-app/src/components/RichTextEditor.tsx:150-164 | "bold" gives [Bold] only |
| Scenarios.ArrowDownTwiceThenEnter | day-6/electron-app/src/components/RichTextEditor.tsx:71-81 | on the full list, ArrowDown twice and Enter commits Bullet List |
| Scenarios.SlashBoldThenEnter | day-6/electron-app/src/components/RichTextEditor.tsx:150-155 | "/bold" then Enter focuses the editor, deletes the five-character trigger range and toggles bold |
| Scenarios.EscapeCommitsNothing | day-6/electron-app/src/components/RichTextEditor.tsx:198-202 | Escape is consumed by the hook and commits no command |
| Scenarios.StaleIndexAfterNarrowing | day-6/electron-app/src/components/RichTextEditor.tsx:53-99 | hovering Italic and then typing "b" leaves a stale index. Enter then commits nothing, and ArrowDown wraps the index to 0 |

## Left out

- AsciiText.Lower: folds only the ASCII letters 'A'..'Z'. JavaScript's `toLowerCase` also folds non-ASCII letters, so the filter's case-insensitivity is proved for ASCII queries and titles only.
- CommandsListModel.CommandsList.ArrowUp: requires a non-empty list. On an empty list the source computes `% 0`, which yields NaN in JavaScript; `ArrowDown`, `KeyDown` and `KeyPress` carry the same requirement for the arrow keys.
- CommandsListModel.CommandsList.Hover: requires the index of a rendered button, since a button exists only for each current item.
- The document engine (tiptap/ProseMirror) is a foreign library. `Run` records only the chain of requests (focus, delete range, format), not what they do to the document.
- The toolbar buttons (`MenuBar`) call the engine's toggles directly, with no logic of their own.
- Trigger detection, the query text and the caret-exit rule are computed inside `@tiptap/suggestion`, which is not part of this model. The query arrives as a parameter.
- The popup lifecycle is not modelled, because it is UI plumbing:
  - tippy.js positioning;
  - `ReactRenderer`;
  - `onStart`, `onUpdate` and `onExit`;
  - the `popup.destroy()` call made on Escape.
- `e.preventDefault()` is modelled as the `intercepted` result. The list's listener returning `undefined` for other keys is modelled as `false`.
- Re-registering the document listener on every render is not modelled. Each registration sees the current `items` and `selectedIndex`, and the model reads the current fields in the same way.
- The order in which the browser delivers one event to the editor's handler and to the document listener is not modelled. `KeyPress` treats the two handlers as independent, since they never touch the same state. The hook returns false for ArrowUp, ArrowDown and Enter (line 204), so the editor's own key handling still receives them; the document listener (line 86) runs after it, and `intercepted` records only that listener's `preventDefault` (line 70).
- The other files in the repository are not part of this model, each for the reason given:
  - the Electron window bootstrap: process lifecycle and content loading;
  - the page composition: UI only;
  - the TCP sentiment client and server: sockets, plus a float threshold over an external library's score;
  - the econometrics script: floating-point formulas and plotting;
  - the consistent-hashing wrapper over MD5;
  - the FastAPI/PostgreSQL example: a web framework and an ORM.
