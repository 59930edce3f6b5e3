# File explorer tree — a Dafny model

This project models the lazy-loading folder/file tree explorer of a browser
file-management client (`src/components/FileExplorer.jsx`). The explorer shows
a forest of folders fetched from a remote API, fetches a folder's children the
first time it is expanded, keeps one selected item, and creates and deletes
folders and files.

The model has five modules:

- `Common` (common.dfy): `Option` stands for a JavaScript value that may be
  null or undefined. `Reply` is the outcome of one awaited request: it
  succeeds with a body or it fails.
- `NodeIds` (ids.dfy): the node id scheme. A folder node's id is
  `folder-<backend id>`. The component reads ids back with
  `split('-')[0]` / `split('-')[1]` and tests them with `startsWith('folder-')`.
  `Split` follows JavaScript's `String.prototype.split` for a one-character
  separator.
- `TreeStore` (tree.dfy): the tree `Node` (`itemId`, `title` for the
  source's `label`, `isFolder`, `children`). `FindLabel` models
  `findLabelById` and `Remove` models `removeItemById`. Beside them are
  reference definitions: `Flatten` is the pre-order of all nodes, `FirstLabel`
  a linear search, `Outline` the pre-order with each node's depth, and
  `Outside` the same outline with the removed subtrees skipped.
- `OpenDispatch` (dispatch.dfy): opening a file picks a download mode from the
  lower-cased text after the name's last dot.
- `FileExplorer` (explorer.dfy): the class `Explorer` holds the component's
  state: `treeData`, `expandedItems`, `loadedFolders`, `loadingItems`,
  `selectedItem` and `newFolderName`. Each event handler is a method. A
  network request is an input `Reply` that decides which state update runs.
  `loadSubfolders` is split at its `await` into `StartLoadSubfolders` and
  `FinishLoadSubfolders`, so the loading mark is visible while the request is
  in flight. Three client methods play short sessions through the handlers:
  `RefetchWhileLoading`, `CreateUnderSelectedFolder` and
  `DeleteSelectedFolder`.

Behaviour of the code a reader may not expect:

- Expanding a folder has no check against `loadingItems`. Expand, collapse and
  expand again before the response arrives, and a second fetch starts. The
  first response then removes the loading mark while the second request is
  still in flight (`RefetchWhileLoading`).
- A file whose name has no dot takes its whole name as its extension. A file
  named just `pdf` is therefore downloaded as a PDF, not through the "other"
  branch (`DotlessPdfNameIsBlob`).
- Deleting a file does not clear the selection, even when the deleted file is
  the selected item. Deleting a folder does not clear `loadedFolders` or
  `expandedItems`.
- `removeItemById` returns only the new forest. It does not report whether
  anything was removed.
- `findLabelById` skips a label found in a subtree when that label is empty
  (falsy), but returns an empty label matched at the top level
  (`FindLabelSkipsEmptyNestedLabel`). It is guaranteed to return the first
  match in pre-order when every matching label is non-empty
  (`FindLabelFirstInPreorder`).
- A backend id that contains `-` breaks the id round trip
  (`FolderIdRoundTrip` states both directions). Non-negative integer ids
  never contain `-` (`NumericFolderIdRoundTrip`). A negative number renders
  with a leading `-` and is not covered.

## Model

| member | source | states |
|---|---|---|
| `NodeIds.Split` | src/components/FileExplorer.jsx:131-132 | `split('-')` yields at least one part, and no part contains the separator |
| `NodeIds.Part` | src/components/FileExplorer.jsx:155 | `split('-')[k]` holds no `-`; index 0 is always defined; index 1 is defined exactly when the id holds a `-` |
| `NodeIds.SplitHasSecondPart` | src/components/FileExplorer.jsx:155 | the id splits into two or more parts exactly when it holds a `-` |
| `NodeIds.FolderId` | src/components/FileExplorer.jsx:117 | `folder-${id}` starts with `folder-` and the backend id text follows it unchanged |
| `NodeIds.JoinedParts` | src/components/FileExplorer.jsx:155 | for a `-`-free head, `head-tail` reads back the head as part 0, and the tail as part 1 exactly when the tail has no `-` |
| `NodeIds.DecimalString` | src/components/FileExplorer.jsx:117 | a non-negative integer backend id renders as a non-empty string of decimal digits whose value is the number, with no leading zero |
| `NodeIds.NumericFolderIdsDistinct` | src/components/FileExplorer.jsx:117 | distinct non-negative integer backend ids give distinct folder node ids |
| `NodeIds.FolderIdRoundTrip` | src/components/FileExplorer.jsx:131-132 | the kind of `folder-<b>` always reads back as `folder`; the backend id reads back as `b` exactly when `b` has no `-` |
| `NodeIds.NumericFolderIdRoundTrip` | src/components/FileExplorer.jsx:116-117 | for a numeric backend id, both parts of the folder id read back exactly |
| `NodeIds.FolderIdInjective` | src/components/FileExplorer.jsx:162-167 | distinct backend ids give distinct folder node ids |
| `NodeIds.KindTestsAgree` | src/components/FileExplorer.jsx:154 | `split('-')[0] === 'folder'` holds exactly when the id starts with `folder-` or is the bare text `folder` |
| `NodeIds.FolderPrefixedHasBackendPart` | src/components/FileExplorer.jsx:154-155 | an id starting with `folder-` has kind `folder` and a defined second part |
| `TreeStore.FolderNode` | src/components/FileExplorer.jsx:162-167 | the node built for a backend folder is a childless folder labelled with its name, of kind `folder`, whose backend part reads back as the id when it has no `-` |
| `TreeStore.Roots` | src/components/FileExplorer.jsx:116-121 | one node per backend folder, in order, each with id `folder-<id>`, the folder's name, the folder flag and no children |
| `TreeStore.FindLabel` | src/components/FileExplorer.jsx:59-68 | a returned label belongs to some node carrying the id, at any depth; with no such node the result is null |
| `TreeStore.Remove` | src/components/FileExplorer.jsx:70-80 | the result has at most as many roots, and no node with the id is reachable at any depth |
| `TreeStore.FindLabelFirstInPreorder` | src/components/FileExplorer.jsx:59-68 | when all matching nodes have non-empty labels, the result is the label of the first match in pre-order, or null |
| `TreeStore.FindLabelSkipsEmptyNestedLabel` | src/components/FileExplorer.jsx:62-65 | when the search of a non-matching node's children returns null or an empty label, it is passed over and the search continues with that node's later siblings |
| `TreeStore.FindLabelAppendedRoot` | src/components/FileExplorer.jsx:59-68 | a node appended to the roots, whose id no existing node carries, is found with its label |
| `TreeStore.RemoveAbsent` | src/components/FileExplorer.jsx:70-80 | removing an id no node carries returns the forest unchanged |
| `TreeStore.RemoveIdempotent` | src/components/FileExplorer.jsx:70-80 | removing the same id twice is the same as removing it once |
| `TreeStore.FindLabelAfterRemove` | src/components/FileExplorer.jsx:70-80 | after removal the label lookup for the id returns null |
| `TreeStore.RemovePreorder` | src/components/FileExplorer.jsx:70-80 | the depth-annotated pre-order of the result is exactly the nodes outside the removed subtrees, each keeping its id, label, folder flag and nesting depth |
| `TreeStore.RemoveKeepsOrder` | src/components/FileExplorer.jsx:70-80 | the survivors keep their relative pre-order and their depths (a subsequence of the original outline) |
| `TreeStore.OutlineInjective` | src/components/FileExplorer.jsx:70-80 | the depth-annotated pre-order determines the forest, so comparing outlines compares trees |
| `TreeStore.RemoveCharacterised` | src/components/FileExplorer.jsx:70-80 | any forest whose outline is the outline outside the removed subtrees is the result of the removal |
| `TreeStore.RootsFindable` | src/components/FileExplorer.jsx:113-122 | with distinct backend ids, every loaded root folder's name is found under `folder-<id>` |
| `OpenDispatch.Lower` | src/components/FileExplorer.jsx:28 | `toLowerCase()` keeps the length, turns each ASCII capital into its own lower-case letter, and changes nothing else |
| `OpenDispatch.LastPart` | src/components/FileExplorer.jsx:28 | `split('.').pop()` holds no dot, and is the whole name when the name has none |
| `OpenDispatch.Extension` | src/components/FileExplorer.jsx:28 | the extension holds no dot and no upper-case ASCII letter |
| `OpenDispatch.ModeOf` | src/components/FileExplorer.jsx:28-40 | the PDF branch is taken exactly when the name ends in `.pdf` or is `pdf` (any case); the text branch exactly when it ends in `.txt` or is `txt`; otherwise the default request |
| `OpenDispatch.LastPartIsSuffix` | src/components/FileExplorer.jsx:28 | `split('.').pop()` is the dot-free suffix that is either the whole name or preceded by a dot |
| `OpenDispatch.ExtensionAfterLastDot` | src/components/FileExplorer.jsx:28 | only the text after the last dot decides the extension, lower-cased |
| `OpenDispatch.ExtensionWithoutDot` | src/components/FileExplorer.jsx:28 | a name without a dot is its own (lower-cased) extension |
| `OpenDispatch.ExtensionIs` | src/components/FileExplorer.jsx:28-33 | the extension equals a given dot-free text exactly when the name ends in a dot and that text in any letter case, or is that text alone |
| `OpenDispatch.ModeIgnoresCase` | src/components/FileExplorer.jsx:28-40 | extension and download mode do not depend on letter case |
| `OpenDispatch.DotlessPdfNameIsBlob` | src/components/FileExplorer.jsx:28-32 | a dotless name `pdf` takes the PDF branch |
| `FileExplorer.Trim` | src/components/FileExplorer.jsx:148 | `trim()` returns the slice between a white-space prefix and a white-space suffix (the JavaScript white-space and line-terminator set), and a non-empty result starts and ends with other characters |
| `FileExplorer.BlankIsTrimmedEmpty` | src/components/FileExplorer.jsx:148 | `!name.trim()` holds exactly when every character is white space |
| `FileExplorer.IsFolderSelection` | src/components/FileExplorer.jsx:154 | `selectedItem && selectedItem.startsWith('folder-')` (also the guard at line 182), with `startsWith` modelled by `NodeIds.StartsWith`: a selection passing it has kind `folder` and a defined backend part |
| `FileExplorer.ParentOf` | src/components/FileExplorer.jsx:153-156 | the create parent is defined exactly when the selection starts with `folder-` |
| `FileExplorer.ParentOfFolderId` | src/components/FileExplorer.jsx:153-156 | selecting `folder-<b>` makes `b` the create parent exactly when `b` has no `-` |
| `FileExplorer.NeedsLoad` | src/components/FileExplorer.jsx:85-89 | the ids fetched are no more than the new list, each in it, not previously expanded and not loaded |
| `FileExplorer.NeedsLoadExactly` | src/components/FileExplorer.jsx:82-90 | an expand event fetches an id exactly when it is in the new list, was not expanded before and is not loaded |
| `FileExplorer.NeedsLoadInOrder` | src/components/FileExplorer.jsx:85-89 | the fetches start in the order of the new expanded list |
| `FileExplorer.AppendedFolderFindable` | src/components/FileExplorer.jsx:168-172 | a created folder appended as the last root is found with its name under `folder-<id>`, unless that id was already in the tree |
| `FileExplorer.Explorer.constructor` | src/components/FileExplorer.jsx:14-19 | the initial state: empty tree, lists and sets, no selection, empty name |
| `FileExplorer.Explorer.LoadRootFolders` | src/components/FileExplorer.jsx:113-126 | on success the forest is one childless folder node per backend folder, in order, each findable by its id; on failure nothing changes |
| `FileExplorer.Explorer.HandleExpandedItemsChange` | src/components/FileExplorer.jsx:82-90 | the expanded list becomes the new one; exactly the ids `NeedsLoad` selects are marked loading; tree and loaded set untouched |
| `FileExplorer.Explorer.StartLoadSubfolders` | src/components/FileExplorer.jsx:92-94 | the id is marked loading before the request; the backend id requested is `split('-')[1]` |
| `FileExplorer.Explorer.FinishLoadSubfolders` | src/components/FileExplorer.jsx:95-110 | success merges the listing (missing arrays as empty) and marks the id loaded; failure leaves tree and loaded set; the loading mark is always removed |
| `FileExplorer.Explorer.HandleSelectedItemChange` | src/components/FileExplorer.jsx:128-137 | the selection becomes the id; only a truthy id of kind `folder` notifies, with its backend id; `folder-<b>` notifies `b` |
| `FileExplorer.Explorer.HandleTreeClick` | src/components/FileExplorer.jsx:139-145 | a click outside every item clears the selection and reports null; a click on an item changes nothing |
| `FileExplorer.Explorer.SetNewFolderName` | src/components/FileExplorer.jsx:214 | the new-folder text is replaced, nothing else changes |
| `FileExplorer.Explorer.HandleCreateFolder` | src/components/FileExplorer.jsx:147-179 | a blank name sends nothing; otherwise the request carries the name and the selected folder's backend id; success merges under a truthy parent or appends a findable root, and clears the name |
| `FileExplorer.Explorer.HandleDeleteSelectedFolder` | src/components/FileExplorer.jsx:181-194 | refused unless a `folder-` item is selected; success removes that subtree so no node with its id remains, and clears the selection |
| `FileExplorer.Explorer.HandleFileDelete` | src/components/FileExplorer.jsx:46-57 | the request carries the looked-up label and `split('-')[1]`; success removes the node at any depth; the selection is kept |
| `FileExplorer.Explorer.HandleFileOpen` | src/components/FileExplorer.jsx:25-44 | no request when the label lookup is null; otherwise the download uses the label and the mode of its extension; the viewer is called only on success |

## Left out

- `addSubItemsToTree` (src/components/TreeUtils) is not part of this model.
  It is the constant `Explorer.addSubItems`, supplied when the explorer is
  built. The model only passes its result through: no merge semantics and no
  no-op on a missing parent are assumed.
- HTTP requests, `axios` and `API_BASE_URL` are not modelled. Each request is
  a `Reply` input, and the handler returns what it would send. Responses
  arriving in a different order are modelled only for subfolder loads (start
  and finish are separate calls). The other handlers run in one step.
- React handlers read state captured at the last render. The model reads the
  current fields, so a stale closure is not modelled.
- `response.data.text()` decoding and the content handed to the viewer are not
  modelled. `HandleFileOpen` reports the download mode and whether the viewer
  is called, not the content.
- `alert`, `console.error`, rendering, MUI components and the initial
  `useEffect` are not modelled. A session calls `LoadRootFolders` itself.
- The DOM test `closest('[role="treeitem"]')` is the boolean input
  `onTreeItem`.
- `OpenDispatch.Lower`: lower-cases only ASCII letters `A`–`Z`, while
  `toLowerCase()` maps every Unicode letter.
- `NodeIds.DecimalString`: renders only non-negative integers, and writes
  every one in plain digits. It models `${n}` only for integers below 10^21
  that a double holds exactly: from 10^21 up JavaScript uses exponent form
  (`1e+21`), and integers above 2^53 are rounded. A backend id of another type
  is taken as its text.
- `src/App.js` (login, modal and storage flags), `src/components/ResizablePanel.jsx`
  (mouse-driven width) and `src/components/FileViewer.js` (blob URLs and
  rendering) are not part of this model.
