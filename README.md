# Universal Prompt Library side panel: a Dafny model

This project models the core of the side panel of a browser extension that keeps a
library of prompts (sidepanel.js). The library is a tree. Folders hold `children` and
an `isOpen` flag. Prompts hold a text with placeholders `{{name}}` or `{{name|default}}`.

The model covers these parts:

- **Injection.** Injecting a prompt collects its distinct placeholder names, each with the
  default from its first occurrence. The user is then asked for a value for each variable in
  turn. The answer can be a typed value, the default, or a cancel.
- **Substitution.** Every accepted value replaces every placeholder for its name in the text.
- **History.** Every accepted value goes to the front of that variable's history. The history
  holds distinct values, at most five of them. One entry can be removed again by clicking a
  history chip's cross.
- **Tree editing.** The tree can be reorganised by drag and drop. It can be edited by retitling
  a node, adding a new item at the root, or deleting a node together with its subtree.
- **Filter.** The search box hides every prompt whose title and content do not contain the
  filter text, ignoring case.

State appears in the model where the program keeps it. Class `SidePanel.Library` holds the
tree `treeData` and the history map `variableHistory` as fields. Its methods replace those
fields as moveNode, deleteNode, saveItem, saveToHistory, the chip delete and handleInject
do.

The recursive tree walks are pure functions on a `Node` datatype:
- `Lookup.Find` is findNode;
- `Lookup.FindParent` is findParent;
- `Removal.Detach` is the `remove` closure;
- `Placement.Place` is the before/after splice;
- `Edits.Edit` is the in-place update of the node findNode returns.

The tree is described through its pre-order flattening `Forest.Flat`. This is the sequence
of (node without children, depth) entries. Pre-order and depth together fix a forest, so
"everything else keeps its order" becomes an equation between two flattenings. The equation
has one block cut out, spliced in or replaced.

The placeholder scan follows the regular expression `/{{(.*?)}}/g` exactly. That includes
its lazy match and the fact that `.` does not match line terminators. `trim` strips the
ECMAScript white-space and line-terminator code points. The wizard's user is a sequence of
responses:
- `Confirm(text)` is the insert button or Ctrl+Enter;
- `Dismiss` is cancel or Escape;
- `DeleteChip(i)` is a chip's cross.

`Injection.Run` is the specification of handleInject's loop. `SidePanel.Library.Inject` is
proved against it.

## Model

| member | source | states |
|---|---|---|
| Text.Trim | sidepanel.js:227 | `trim` keeps exactly the middle of the string: what it removes at either end is white space, and the result starts and ends with no white space |
| Text.TrimIdempotent | sidepanel.js:227 | trimming a trimmed value again changes nothing |
| Text.TrimAvoids | sidepanel.js:227 | `trim` never introduces a character: a bar absent from the raw text is absent from the trimmed name and default |
| Text.TrimPadded | sidepanel.js:227 | one space on either side of a trimmed non-empty string is removed again by `trim` |
| Placeholders.CloseLen | sidepanel.js:219 | the lazy `(.*?)}}` stops at the first `}}` with no line terminator before it; no match only when every `}}` is preceded by a line terminator |
| Placeholders.Scan | sidepanel.js:219-220 | every capture of `matchAll` is raw text: no line terminator, no `}}` inside, no trailing `}` |
| Placeholders.ScanPlaceholder | sidepanel.js:219-220 | `{{r}}` at the front of the text yields the capture `r`, followed by the captures of the rest |
| Placeholders.ScanSkipsPlainText | sidepanel.js:219-220 | text with no `{` contributes no capture |
| Placeholders.CloseLenAfterRaw | sidepanel.js:219 | after raw text `r`, the closing `}}` is found right at the end of `r` |
| Placeholders.SplitRaw | sidepanel.js:227 | the name and default obtained by splitting at the bar and trimming are trimmed and contain no bar |
| Placeholders.SplitRawNameOnly | sidepanel.js:227-230 | a capture without a bar declares its trimmed text with the default `""` |
| Placeholders.SplitRawWithDefault | sidepanel.js:227-230 | a capture of a name `n`, a bar and a default `d` declares the trimmed `n` with the trimmed `d`; anything from a second bar on is dropped |
| Placeholders.CollectVariables | sidepanel.js:218-232 | the loop result holds each name of the captures once, in order of first appearance; each name carries the default of its first occurrence, and no other names appear |
| Placeholders.DeclaredNamesDistinct | sidepanel.js:223-232 | two positions of a declaration list never carry the same name |
| Placeholders.CollectNew | sidepanel.js:229-230 | a capture with an unseen name is appended with its own default |
| Placeholders.CollectKnown | sidepanel.js:229 | a capture with a name already seen leaves the list, and its first default, as they were |
| Wizard.Submit | sidepanel.js:397-407 | a non-blank input is accepted trimmed; a blank input gives the default; a blank input with an empty default is rejected, and only in that case |
| Wizard.SubmitAccepted | sidepanel.js:397-406 | an accepted value is never empty and is already trimmed |
| Wizard.SubmitPrefilled | sidepanel.js:361-406 | submitting the textarea as prefilled with a non-empty default accepts that default |
| History.Without | sidepanel.js:270 | the filter removes every copy of the value and keeps every other value with its multiplicity |
| History.WithoutAbsent | sidepanel.js:270 | filtering out a value that is not there changes nothing |
| History.WithoutDistinct | sidepanel.js:270 | filtering keeps a duplicate-free list duplicate-free |
| History.Promoted | sidepanel.js:266-275 | the value comes first and appears exactly once; its length is one plus the other values, cut to 5; the other values follow in their old order |
| History.PromotedDistinct | sidepanel.js:266-275 | a duplicate-free list stays duplicate-free |
| History.PromotedIdempotent | sidepanel.js:266-275 | recording the same value twice is recording it once |
| History.PromotedPresent | sidepanel.js:266-275 | re-recording a value already in a well-formed list keeps the same length and the same set of values |
| History.Record | sidepanel.js:265-276 | only the entry for `name` changes, and it becomes the promoted list (an absent entry counts as empty); the key set gains `name` |
| History.RecordNewestFirst | sidepanel.js:270-271 | after recording, the value heads its list and occurs once |
| History.RecordWellFormed | sidepanel.js:265-276 | recording keeps every list duplicate-free and within capacity 5 |
| History.RemoveAt | sidepanel.js:342 | `splice(i, 1)` drops exactly index `i` and shifts the rest down; an index past the end changes nothing |
| History.RemoveAtInverse | sidepanel.js:342 | putting the removed value back at `i` restores the list |
| History.RemoveAtDistinct | sidepanel.js:342 | in a duplicate-free list, the removed value is gone and no duplicate appears |
| History.DropEntry | sidepanel.js:342 | the chip delete changes only the list of `name`, by `RemoveAt`, and keeps every key |
| History.DropEntryWellFormed | sidepanel.js:342 | the chip delete keeps the history well formed |
| Substitution.MatchLen | sidepanel.js:245 | a match of the replacement pattern starts with `{{name` and is at least as long as `{{name}}` |
| Substitution.MatchLenSpelled | sidepanel.js:245 | every match is exactly `{{name}}`, or `{{name`, a bar, a default the scan can capture and `}}`; with MatchLenOfSpelling the matches are exactly these spellings |
| Substitution.MatchLenOfSpelling | sidepanel.js:245 | `{{name}}`, and `{{name` followed by a bar, a default the scan can capture and `}}`, are matched in full |
| Substitution.SubstituteWithoutOccurrence | sidepanel.js:245-246 | text that does not contain `{{name` is returned unchanged |
| Substitution.SubstitutePlainText | sidepanel.js:245-246 | text with no `{` is returned unchanged |
| Substitution.SubstituteSpelling | sidepanel.js:245-246 | a placeholder for the name at the front becomes the value, and replacement continues after it |
| Substitution.StartsNoMatchNone | sidepanel.js:245 | when the front of a text rules out `{{name` followed by a bar or `}}`, no match starts there, whatever follows |
| Substitution.PlainInert | sidepanel.js:245 | no match for any name can start inside text with no `{` |
| Substitution.OtherSpellingInert | sidepanel.js:245 | no match for `name` can start inside a placeholder for another name, with or without a default |
| Substitution.SubstituteAfterInert | sidepanel.js:245-246 | text in which no match can start is copied unchanged, and replacement continues after it |
| Substitution.SubstituteKeepsOtherPlaceholder | sidepanel.js:245-246 | a placeholder for another variable is kept as written while the name is replaced in the rest |
| Substitution.SpacedPlaceholderKept | sidepanel.js:245-246 | the replacement pattern for `name` does not match `{{ name }}`, so it stays in the text |
| Substitution.SpacedPlaceholderDeclared | sidepanel.js:218-232 | `{{ name }}` declares the variable `name` with the default `""`, since the captured name is trimmed |
| Substitution.SubstituteRender | sidepanel.js:245-246 | in a text made of placeholders for the name, with or without a default, and plain pieces in which no match for the name can start (they may hold other variables' placeholders), every placeholder is replaced by the value and every plain piece is kept |
| Substitution.SubstituteAllPlainText | sidepanel.js:234-247 | text with no `{` survives every substitution of the loop unchanged |
| Substitution.SubstituteFirstOfTwo | sidepanel.js:234-247 | substituting the first of two different variables replaces its placeholder and leaves the second variable's placeholder for the next round |
| Injection.Step | sidepanel.js:237-246 | one response: only a cancel halts; a confirm yields exactly what `Submit` makes of the input and the default, and a rejected one keeps the history; a chip delete yields no value and the history `DropEntry` gives; without a value the variable and text stay; an accepted value is recorded, substituted, and the wizard moves to the next variable |
| Injection.Run | sidepanel.js:234-248 | never more values than variables, all non-empty; completed exactly when every variable has a value |
| Injection.RunText | sidepanel.js:234-247 | the text is the original with the accepted values substituted, in order, for the first names |
| Injection.RunWellFormed | sidepanel.js:234-248 | a well-formed history stays well formed through the whole wizard |
| Injection.RunOthersUnchanged | sidepanel.js:234-248 | the history of a name that is not a variable of the prompt is untouched |
| Injection.RunNewestFirst | sidepanel.js:242 | for distinct variable names, each accepted value heads its variable's history after the run |
| Injection.RunAppend | sidepanel.js:234-248 | answering in two stretches is answering once with both |
| Injection.DismissCancels | sidepanel.js:239 | a cancel stops the wizard: no further value, no further substitution, and the state at the cancel is final |
| Lookup.LevelIndex | sidepanel.js:191 | `findIndex`: the first index carrying the id, or the length when there is none |
| Lookup.Find | sidepanel.js:464-473 | a found node carries the id |
| Lookup.FindFlat | sidepanel.js:464-473 | findNode finds nothing exactly when the id is not in the flattening; otherwise the result is the node at the first pre-order occurrence, with its whole subtree |
| Lookup.FindNone | sidepanel.js:464-473 | findNode returns null exactly when no node of the tree has the id |
| Lookup.FindParent | sidepanel.js:202-211 | a found parent is a folder with a direct child carrying the id |
| Lookup.FindParentNone | sidepanel.js:202-211 | findParent returns null exactly when every node with the id is a root |
| Lookup.FindParentBlock | sidepanel.js:202-211 | the parent found is a node of the tree, with its whole subtree |
| Removal.Detach | sidepanel.js:165-177 | `remove` takes out nothing and changes nothing, or takes out a node carrying the id |
| Removal.DetachFlat | sidepanel.js:165-177 | `remove` finds nothing exactly when the id is absent; otherwise it cuts one whole block out of the flattening and keeps every other entry in order |
| Placement.SpliceAt | sidepanel.js:191-194 | the node is inserted among the siblings at the target's index (before) or at index + 1 (after) |
| Placement.PlaceIn | sidepanel.js:188-196 | the insertion keeps each node's own fields and kind |
| Placement.PlacedIffPresent | sidepanel.js:188-192 | a parent is found, or the target is a root, exactly when the target is in the tree |
| Placement.PlaceMissing | sidepanel.js:191-192 | with the target absent, nothing is inserted |
| Placement.PlaceFlat | sidepanel.js:187-196 | the new block appears in the flattening right in front of the target's entry (before) or right after the target's last descendant (after), at the target's depth; every other entry keeps its order |
| Edits.Apply | sidepanel.js:181-186 | a retitle sets the title; a retitled prompt gets the given content or keeps its own; a retitled folder keeps its `isOpen` and children; an adoption appends the child to a folder and opens it; the id and kind never change |
| Edits.EditMissing | sidepanel.js:430-431 | when findNode finds nothing, the tree is unchanged |
| Edits.EditUnchanged | sidepanel.js:430-434 | a change that leaves the found node as it was leaves the tree as it was |
| Edits.EditFlat | sidepanel.js:430-434 | the update replaces exactly the block of the first pre-order match by the block of the changed node; everything else is unchanged |
| Edits.RetitleBlock | sidepanel.js:432-433 | a retitle changes only the node's own entry, not its subtree |
| Edits.AdoptBlock | sidepanel.js:184-185 | an adoption opens the folder and places the child's block after the folder's old descendants, one level deeper |
| Edits.NewItem | sidepanel.js:436-443 | a new item has the given id and title, no children, and is a folder exactly when the type is a folder |
| Edits.SaveEditMissing | sidepanel.js:429-431 | editing an id that no node carries changes nothing |
| Edits.SaveEditFlat | sidepanel.js:429-434 | an edit changes only the entry of the first match: its title, and for a prompt its content |
| Edits.SaveNewFlat | sidepanel.js:435-444 | a new item adds exactly one root entry, at the end |
| Moves.DetachIffPresent | sidepanel.js:165-179 | a node is removed exactly when the source id is in the tree |
| Moves.MoveMissingSource | sidepanel.js:179 | a missing source leaves the tree unchanged |
| Moves.MoveLost | sidepanel.js:181-196 | a removed node that finds no target (or, inside, no folder) stays removed: the move is a delete |
| Moves.MoveIntoOwnSubtree | sidepanel.js:165-196 | dropping a node on or into its own subtree deletes it |
| Moves.MoveOntoItself | sidepanel.js:165-196 | dropping a node on itself deletes it |
| Moves.MoveBesideFlat | sidepanel.js:165-196 | a before/after move cuts the source's block out and splices it in front of the target or after the target's subtree, at the target's depth, keeping all other entries in order |
| Moves.MoveInsideFlat | sidepanel.js:165-186 | an inside move cuts the source's block out and replaces the target folder's block by that of the opened folder with the source appended |
| Moves.MovedIds | sidepanel.js:162-200 | a placed move splices the source's ids back into the remaining ids at one index |
| Moves.MoveKeepsIds | sidepanel.js:162-200 | a placed move keeps the multiset of ids, and unique ids stay unique: the subtree appears exactly once |
| Moves.DeleteIds | sidepanel.js:450-458 | a delete removes exactly the ids of the removed subtree; with unique ids the deleted id is gone |
| Filter.HiddenIff | sidepanel.js:20-23 | only prompts are hidden; a prompt is hidden exactly when a non-empty filter occurs in neither its lower-cased title nor its lower-cased content |
| Filter.MatchesEmpty | sidepanel.js:20-21 | every node matches the empty filter |
| Filter.HiddenIgnoresCase | sidepanel.js:20-23 | a filter hides exactly what its lower-cased form hides |
| Filter.ShownIn | sidepanel.js:59-67 | filtering a node keeps its own fields |
| Filter.Visible | sidepanel.js:19-23 | no drawn entry is a hidden prompt |
| Filter.ShownFlat | sidepanel.js:19-87 | what is drawn is the flattening without the hidden prompts, every other entry keeping its place and depth |
| Filter.ShownAll | sidepanel.js:19-23 | with an empty filter the whole tree is drawn |
| Filter.ShownIdempotent | sidepanel.js:19-87 | filtering the drawn tree again hides nothing more |
| SidePanel.Library.constructor | sidepanel.js:475-480 | loadData: the stored tree and history, or an empty tree and an empty history |
| SidePanel.Library.MoveNode | sidepanel.js:162-200 | the tree becomes the specified move; a missing source changes nothing; an unplaced source is deleted; a placed one keeps the ids and their uniqueness |
| SidePanel.Library.DeleteNode | sidepanel.js:450-462 | after confirmation, the node and its subtree are removed and its id is gone; without it, nothing changes |
| SidePanel.Library.SaveItem | sidepanel.js:428-448 | the tree becomes the specified save: an edit of the found node, or a new root item |
| SidePanel.Library.SaveToHistory | sidepanel.js:265-276 | the history becomes `Record` of the old one and stays well formed; the tree is untouched |
| SidePanel.Library.DeleteHistoryEntry | sidepanel.js:336-348 | the history becomes `DropEntry` of the old one and stays well formed |
| SidePanel.Library.Respond | sidepanel.js:237-246 | one modal response leaves the state `Injection.Step` describes |
| SidePanel.Library.Inject | sidepanel.js:215-251 | the variables are `CollectVariables` of the content; history, values and status are those of `Injection.Run`; the text is injected only when every variable got a value |
| SidePanel.ResumeStep | sidepanel.js:234-248 | one more response of the loop either ends the run with a cancel or resumes it from the step's new state |

## Left out

- Rendering and the DOM are not modelled: the node elements, the `open` class, icons and the buttons' wiring. The filter is modelled as the tree it draws.
- The folder header click that toggles `isOpen` (lines 71-77) is not modelled, because it is an event handler on rendered elements.
- Drag events, the drop geometry that chooses before, inside or after, and the guard against dropping on the dragged node are not modelled. The position is a parameter.
- saveData, the reads in loadData, the history write after the wizard (line 251) and the chip delete's history write (line 345) are not modelled, because they are chrome.storage I/O. The stored values are constructor parameters.
- chrome.tabs, the message to the content script and the clipboard are not modelled. The text to inject is the result of `Inject`.
- content.js is not part of this model.
- Import, export and the duplicate operation are not part of this model.
- The wizard has no back step, as in the source.
- `Date.now().toString()` is replaced by the parameter `freshId` of `SaveItem`.
- Variable names are matched literally in the replacement pattern. Regular-expression metacharacters in a name, and `$` patterns in a value, are not modelled.
- `toLowerCase` is modelled for ASCII letters only.
- The source mutates node objects that findNode returns. The model updates the value at the first pre-order match, which is the same node object.
- An edit of a folder through a prompt-type modal would set `content` on the folder object. The model ignores that content, so the filter never searches a folder's content.
- Filling the input from a history chip is modelled as part of the text given to `Confirm`. Markup parsing of the prefilled textarea is not modelled.
- The chip delete's `parseInt` of the index is modelled as a natural number.
- Moves.MoveInsideFlat: states the new flattening through the replaced target block. Together with Edits.AdoptBlock this gives the block's entries; the lemma does not write them out itself.
- Lookup.FindParentBlock: does not say which child of the parent carries the id. That is stated separately by Lookup.FindParent.
- History.Record: treats every variable name as an ordinary key of a map that starts empty. In the source, `variableHistory` is a plain object (line 6), so names inherited from `Object.prototype` behave differently. For `constructor`, `__proto__` or `hasOwnProperty`, the lookup at line 293 finds an inherited value that is not an empty list. The `map` at line 307, run from line 391, then throws, so the modal is left half drawn and handleInject rejects. For `toString` or `valueOf`, the modal works, but the `filter` at line 270 throws on the confirmed value, so nothing is substituted or injected. SidePanel.Library.Inject and Injection.Run inherit this difference.
- Substitution.SubstituteRender: asks that no match for the name can start inside a plain piece, which is sufficient but not necessary; for example, a piece ending in `{` before a placeholder is excluded although the replacement handles it.
