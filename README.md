# Ring customizer: editing history and upload handling

A Dafny model of the core of a web-based ring designer. It has two parts.

The browser editor is the `RingCustomizer` class in `app/static/js/app.js`:

- The canvas's object list, kept in paint order.
- The selected object.
- The bounded linear undo/redo history of scene snapshots, with its cursor `historyIndex`.
- The operations that change the scene and commit to the history: adding a built-in gemstone, deleting the selection, and duplicating it.

The Flask server is `app/main.py`:

- The upload file-type check `allowed_file`.
- The stored name and URL of an uploaded design element.
- The stripping of a `data:image` prefix from an exported picture.

Modules:

- `Wrappers`: `Option` and `Result`.
- `History`: the undo buffer as values.
  - It is a `Buffer` of snapshots with a cursor.
  - `Commit`, `Undo` and `Redo` are defined on it.
  - The snapshot type is a type parameter, so the buffer never looks inside a snapshot.
  - The lemmas about the buffer live here: eviction at 50 entries, the redo branch being dropped, and undo/redo inverting each other.
- `Scene`: the design elements.
  - The built-in gemstone table, and gems placed at the canvas centre.
  - Removal of one object.
  - The clone made by duplication.
- `Customizer`: the class `RingCustomizer`.
  - Its fields are `objects`, `selected`, `history` and `historyIndex`.
  - Its methods change those fields in place, as the JavaScript does.
  - Each method's contract ties the new history fields to `History.Commit`, `History.Undo` or `History.Redo` of the old ones.
  - Each contract also states the new object list and selection.
  - `UndoRedoSession` is a client of the class. It adds a built-in gem to a fresh editor, undoes back to the blank canvas and redoes the gem.
- `Uploads`: the string handling of `app/main.py`.
  - Python's `rfind`, `os.path.splitext` with POSIX path rules, and `str.split` with its inverse `Join`.
  - The upload and export replies with their error cases.

The export handler keeps `image_data.split(',')[1]`. That is the text between the first and the second comma, not everything after the first comma. When there is no comma at all, the indexing fails and the handler's `except` clause answers 500 with Python's message "list index out of range". The model follows the code on both points.

## Model

| member | source | states |
|---|---|---|
| History.Empty | app/static/js/app.js:7-8 | the buffer before any commit has no entries and cursor -1, and satisfies the buffer invariant |
| History.CommitToEmpty | app/static/js/app.js:546-556 | the first commit to the empty buffer leaves exactly that snapshot with the cursor at 0, as the editor has after `setupCanvas` |
| History.Commit | app/static/js/app.js:542-557 | a commit keeps the invariant that the cursor lies in [-1, entries - 1] with at most 50 entries; the new length is the old cursor plus two, capped at 50; the cursor is at the newest entry, which is the snapshot just saved; the entries before it are the old entries up to the old cursor, of which the oldest is dropped when the cap is hit |
| History.Undo | app/static/js/app.js:559-564 | undo keeps the invariant and never changes the entries |
| History.Redo | app/static/js/app.js:566-571 | redo keeps the invariant and never changes the entries |
| History.UndoMovesOneStep | app/static/js/app.js:559-564 | at cursor 0 or below, undo changes nothing; otherwise the cursor moves back by exactly one |
| History.RedoMovesOneStep | app/static/js/app.js:566-571 | at the newest entry, redo changes nothing; otherwise the cursor moves forward by exactly one |
| History.RedoUndoesUndo | app/static/js/app.js:559-571 | a successful undo followed by redo restores the original buffer and cursor |
| History.UndoUndoesRedo | app/static/js/app.js:559-571 | a successful redo followed by undo restores the original buffer and cursor |
| History.RedoAfterCommitIsNoop | app/static/js/app.js:546-571 | right after a commit, redo changes nothing: the redo branch was discarded |
| History.CommitEvictsOldest | app/static/js/app.js:549-556 | with 50 entries and the cursor at the newest one, a commit drops the oldest entry, keeps the others in order, appends the snapshot, and leaves the cursor on it |
| History.CommitBelowBound | app/static/js/app.js:546-551 | below the bound, a commit keeps the entries up to the cursor, appends the snapshot and advances the cursor by one |
| History.CommitAll | app/static/js/app.js:542-557 | after any run of commits the invariant holds and the cursor is on the last snapshot committed |
| History.CommitAllKeepsRecent | app/static/js/app.js:542-557 | a run of commits leaves exactly the last 50 of the entries up to the cursor followed by the new snapshots |
| History.ManyCommitsSaturate | app/static/js/app.js:553-556 | after 50 or more commits the buffer is exactly the last 50 snapshots, with the cursor at index 49 |
| Scene.BuiltinGem | app/static/js/app.js:145-209 | the gem table has an entry exactly for diamond, ruby, amethyst, emerald, sapphire and topaz, and every entry is a geometric shape with a bounding box |
| Scene.NewElement | app/static/js/app.js:141-277 | `addElement` creates an element exactly for the six built-in gem names; it is centred at (400, 300), carries the given name and type tag, and has the table's shape |
| Scene.BuiltinGemsFitGemstoneBox | app/static/js/app.js:145-209 | every built-in gem's geometry has the stated bounding box: diamond 30 by 50, ruby and amethyst 40 by 40, emerald 30 by 30, sapphire 40 by 30, topaz 32 by 44 |
| Scene.RemoveAt | app/static/js/app.js:519 | removing index `i` shortens the scene by one, keeps the objects before `i`, shifts the ones after it down by one, and removes exactly that object from the multiset |
| Scene.Duplicate | app/static/js/app.js:528-533 | the clone is moved 20 right and 20 down, named `(name or "Copy") + " Copy"`, and equal to the original in every other field |
| Scene.CopyNameEndsInCopy | app/static/js/app.js:532 | a copy's name ends in " Copy" and starts with the original name when it has one; an unnamed object's copy is "Copy Copy" |
| Customizer.RingCustomizer.constructor | app/static/js/app.js:3-40 | a new editor has an empty scene, no selection, and a history of exactly one snapshot, the blank canvas, with `historyIndex == 0` |
| Customizer.RingCustomizer.SaveState | app/static/js/app.js:542-557 | the history fields become `History.Commit` of the old ones with a snapshot of the current objects; the cursor is at the end, on that snapshot; the objects and the selection are untouched |
| Customizer.RingCustomizer.Select | app/static/js/app.js:373-381 | a selection event makes the object at the given index the selected one |
| Customizer.RingCustomizer.Deselect | app/static/js/app.js:383-391 | a selection-cleared event leaves nothing selected |
| Customizer.RingCustomizer.LoadState | app/static/js/app.js:573-580 | restoring a snapshot replaces the objects with the snapshot's and clears the selection |
| Customizer.RingCustomizer.Undo | app/static/js/app.js:559-564 | the history fields become `History.Undo` of the old ones; on a step back the objects are those of the snapshot now under the cursor and nothing is selected; otherwise nothing changes |
| Customizer.RingCustomizer.Redo | app/static/js/app.js:566-571 | the history fields become `History.Redo` of the old ones; on a step forward the objects are those of the snapshot now under the cursor and nothing is selected; otherwise nothing changes |
| Customizer.RingCustomizer.DeleteSelected | app/static/js/app.js:517-524 | with no selection nothing changes; otherwise exactly the selected object is removed, the rest keep their order, the selection is cleared and one commit is made |
| Customizer.RingCustomizer.DuplicateSelected | app/static/js/app.js:526-538 | with no selection nothing changes; otherwise one clone of the selected object is appended on top and selected, the other objects are unchanged, and one commit is made |
| Customizer.RingCustomizer.AddElement | app/static/js/app.js:141-277 | for a built-in gem, its element is appended on top and selected, and one commit is made; for any other source the state is unchanged |
| Uploads.LastIndexOf | app/main.py:21 | `rfind` gives the index of an occurrence with none after it, or nothing when the character does not occur |
| Uploads.Lower | app/main.py:21 | lower-casing keeps the length, maps each upper-case ASCII letter to its lower-case form, keeps every other character, and leaves no upper-case letter |
| Uploads.LowerIdempotent | app/main.py:21 | lower-casing twice is lower-casing once |
| Uploads.AllowedFile | app/main.py:20-21 | an accepted filename contains a '.' |
| Uploads.AllowedFileLooksAtLastExtension | app/main.py:21 | for `stem + "." + ext` with no '.' in `ext`, acceptance depends on `ext` lower-cased alone, whatever the stem holds |
| Uploads.AllowedFileIff | app/main.py:18-21 | a filename is accepted exactly when it splits at a '.' into a stem and a dot-free extension whose lower-cased form is png, jpg, jpeg or gif |
| Uploads.AcceptsLastExtensionInAnyCase | app/main.py:21 | "a.tar.PNG" is accepted |
| Uploads.RejectsHiddenExtension | app/main.py:21 | "x.png.exe" is rejected |
| Uploads.RejectsTrailingDot | app/main.py:18-21 | "file." has the empty extension and is rejected |
| Uploads.SplitExt | app/main.py:137 | the root and the extension concatenate to the path; the extension is empty or a '.' followed by text free of '.' and '/' |
| Uploads.SplitExtAtLastDot | app/main.py:137 | for a root, a '.' and text free of '.' and '/', the extension is found exactly when the root's last path component holds a non-'.' character, and is then the '.' with that text; otherwise there is no extension |
| Uploads.SplitExtOfPhoto | app/main.py:137 | "photo.png" splits into "photo" and ".png" |
| Uploads.SplitExtOfHiddenFile | app/main.py:137 | ".bashrc" has no extension |
| Uploads.StoredFilename | app/main.py:137-138 | the stored name is one character longer than the sanitised name plus the timestamp; it starts with the root, '_' and the timestamp, and ends with the extension, which is empty or starts with '.' |
| Uploads.StoredFilenameOfRing | app/main.py:137-138 | an upload named "ring.PNG" is stored as "ring_", the timestamp, then ".PNG" |
| Uploads.StoredFilenameKeepsExtension | app/main.py:137-138 | splitting the stored name again gives the upload's extension, with the leading dot, and the upload's root followed by `_` and the timestamp |
| Uploads.NoExtensionStaysNone | app/main.py:137-138 | appending text free of '.' and '/' to a path without an extension gives a path without one |
| Uploads.ExtensionAfterSuffix | app/main.py:137-138 | inserting `_` and plain text before an extension makes that text part of the root and leaves the extension in place |
| Uploads.UploadElement | app/main.py:123-152 | a missing file answers "No file provided", an empty name "No file selected", and a disallowed name "Invalid file type"; it succeeds exactly for allowed names; the stored name is the sanitised root, `_`, the timestamp and the extension; the URL is "/static/images/elements/" followed by that name |
| Uploads.Split | app/main.py:88 | a split always has at least one field |
| Uploads.SplitJoin | app/main.py:88 | joining the fields of a split with the separator gives back the text |
| Uploads.SplitFieldsLackSep | app/main.py:88 | no field of a split contains the separator |
| Uploads.SplitHasSecondField | app/main.py:88 | a split has a field at index 1 exactly when the separator occurs |
| Uploads.SplitAfterField | app/main.py:88 | a separator-free field followed by the separator splits off as the first field |
| Uploads.SplitWhole | app/main.py:88 | text without the separator splits into itself alone |
| Uploads.StripDataUrlPrefix | app/main.py:81-88 | missing or empty image data answers "No image data provided" with status 400; data without the `data:image` prefix passes through unchanged; prefixed data fails with status 500 exactly when it has no ','; otherwise the kept text holds no ',' |
| Uploads.StripDataUrlKeepsPayload | app/main.py:87-88 | for `header,payload`, optionally followed by a ','-led tail, with a `data:image` header, the kept text is exactly `payload` |

## Left out

- The Fabric.js canvas itself: rendering, `renderAll`, zoom and the viewport. These are library calls over floating point.
- DOM wiring is not modelled: event listeners, the keyboard shortcuts, the text modal and the layer and properties panels.
  - Selection events are modelled only as `Select` and `Deselect`.
  - The `object:modified` event is modelled only as a direct call to `SaveState`.
- Serialisation: `canvas.toJSON` and `loadFromJSON` belong to the library. A snapshot is modelled as the object list it records, so restoring a snapshot gives back exactly the saved objects.
  - Two things the library might do differently are not captured. `addElement` overwrites each object's `type` property, which the library also uses to rebuild objects. The library's `clone` may not copy the custom `name` property.
- AddElement: an image or SVG source is loaded asynchronously, placed at the centre and scaled to 60 or 80 pixels by a floating-point ratio. This is not modelled; for any source other than the six built-in gems the model leaves the state unchanged.
- Adding text (`addText`), saving and loading designs, and every `fetch` call of the editor are not modelled.
- Positions are whole pixels, and the origin and locking options of the created objects are not recorded.
- On the server, the model leaves out the Flask routes' request parsing, file writes, `uuid`, `datetime.now`, `base64.b64decode` and the export file name. It also leaves out `download_file`, `save_design` and `load_design`.
  - The timestamp is a parameter, and so is werkzeug's `secure_filename`, a function from name to name.
  - A request body that is not JSON is not modelled. Neither is an `image_data` value that is not a string.
- `Lower` lower-cases ASCII letters only. Python's `str.lower` also maps non-ASCII letters, and the model does not cover those.
- The source holds no bezel code, so there is none in the model.
