# empinken tag/class synchronisation, in Dafny

This project models the tag logic of the JupyterLab extension `jupyterlab-empinken`
(`jupyterlab_empinken/src/index.ts`). The extension lets an author mark notebook cells as
*activity*, *solution*, *learner* or *tutor* cells. It does so through a toolbar button per kind,
which stores a tag `prefix + kind` in the cell's `tags` metadata. The extension then styles
tagged cells through a CSS marker class `tag + "-node"` on the cell's node.

The model is functional. A cell is its tag list (absent or a `seq<string>`) and its class set.
The settings are plain values: the tag prefix, the kinds whose button is enabled, and the kinds
whose render flag is set. The modules are:

- `Optional`: an optional value, for a missing metadata entry or an unset variable.
- `Strings`: JavaScript `startsWith` and `replace(p, '')`. `replace` removes the first occurrence.
- `Arrays`: JavaScript `indexOf` and `splice(i, 1)` on sequences.
- `Config`: the four kinds with their labels and toolbar positions, `KindOf`
  (`tag_types.includes`), the settings, and the names derived from a kind: tag name, marker class
  and colour variable.
- `Notebook`: a cell, with a missing tag list read as empty.
- `TagToggle`: `toggleTagButtonAction`, the action behind a button.
- `Reconcile`: `check_tags`, the scan run on every "fully rendered" notification. Its result is
  `Done` or `Aborted`; `Aborted` carries the position of the tag that threw and the classes
  already added.
- `Buttons`: the creation and disposal loops of `ButtonExtension.createNew`, and what a click does.

Behaviour worth knowing, where the code does something other than its tooltips, comments and
button names suggest; the model follows the code:

- **An unrecognised prefixed tag throws.** `check_tags` reads `tagButtonSpec[typ]['render']` for
  logging (line 283) before it checks `tag_types.includes(typ)` (line 284). A prefixed tag whose
  rest names no kind therefore throws, and the scan stops with the classes added so far.
  - `tagButtonSpec` is a JavaScript array, so the read only throws when `tagButtonSpec[typ]` is
    undefined.
  - Rests such as `length`, `push` or `constructor` name array members and do not throw.
  - The engine-dependent set of such names is the parameter `members` of `Reconcile.Throws`.
- **A double toggle restores the tag list exactly only in two cases:** the tag was absent, or it
  occurred once as the last element (`TagToggle.ToggleTwiceRestoresList`). A tag that occurs once
  elsewhere moves to the end of the list; with a duplicated tag, two copies are deleted
  (`TagToggle.ToggleTwiceDuplicate`).
- **With a duplicated tag, one toggle leaves the tag but removes the marker.** Tag and marker then
  disagree (`TagToggle.ToggleAgreement`).
- **The scan only adds classes.** A stale marker is never removed.
- **A toggle adds the marker whatever the kind's render flag.** Line 164 adds `tag + "-node"` for every
  kind, and `TagToggle.Toggle` takes no render set. Right after a toggle of a kind that is not
  renderable, a cell carries a marker the scan would never have added.
- **For a tag that occurs at most once, a double toggle restores the class set only when marker and
  tag agreed before** (`TagToggle.ToggleTwiceRestoresState`). For an absent tag, a stale marker is
  removed (`TagToggle.ToggleTwiceAbsent`). For a tag that occurs once, a missing marker is added
  (`TagToggle.ToggleTwiceOnce`). With a duplicated tag both toggles remove the marker, so the class
  set comes back exactly when the marker was absent (`TagToggle.ToggleTwiceDuplicateClasses`).

## Model

| member | source | states |
|---|---|---|
| Config.TagNameInjective | jupyterlab_empinken/src/index.ts:141 | two kinds share a tag name `prefix + kind` iff they are the same kind |
| Config.MarkerInjective | jupyterlab_empinken/src/index.ts:156 | two tags share a marker class `tag + "-node"` iff they are equal, so removing one tag's marker never removes another's |
| Config.ColorVariableInjective | jupyterlab_empinken/src/index.ts:351-356 | each kind's `--prefix+kind-bg-color` variable is distinct, so no colour setting overwrites another kind's |
| Config.KindOf | jupyterlab_empinken/src/index.ts:245 | a recognised identifier is the name of the kind returned |
| Strings.IndexOfFrom | jupyterlab_empinken/src/index.ts:280 | the result is the first occurrence at or after the start position, or -1 exactly when there is none |
| Strings.RemoveFirst | jupyterlab_empinken/src/index.ts:280 | `replace(p, '')` leaves a string without `p` unchanged, shortens it by `|p|` otherwise, and on a string starting with `p` drops that prefix |
| Strings.RemovePrefixRoundTrip | jupyterlab_empinken/src/index.ts:279-280 | on a tag starting with the prefix, the prefix followed by the remainder gives the tag back |
| Arrays.IndexOf | jupyterlab_empinken/src/index.ts:150 | `indexOf` is -1 iff the element is absent; otherwise it is the position of the first occurrence |
| Arrays.Splice | jupyterlab_empinken/src/index.ts:150-153 | `splice(i, 1)` deletes exactly the element at `i`, keeps the others in order, and removes one copy from the multiset |
| TagToggle.Toggle | jupyterlab_empinken/src/index.ts:100-170 | the result always has a tag list; an absent tag is appended with its marker added; a present tag loses exactly its first occurrence, other elements keep their order, and its marker goes; the multiset of tags changes by exactly that tag; no other class changes |
| TagToggle.ToggleLeavesOtherTags | jupyterlab_empinken/src/index.ts:141-165 | every string other than the toggled tag occurs as often as before |
| TagToggle.ToggleLeavesOtherKinds | jupyterlab_empinken/src/index.ts:141-165 | toggling one kind leaves every other kind's tag count and marker as they were |
| TagToggle.ToggleMissingTags | jupyterlab_empinken/src/index.ts:112-118 | a cell without a tag list ends with exactly `[prefix + kind]` and the marker added |
| TagToggle.ToggleCounts | jupyterlab_empinken/src/index.ts:146-165 | one toggle removes one occurrence of a present tag or creates the only one, and leaves the marker exactly when the tag was absent |
| TagToggle.ToggleAgreement | jupyterlab_empinken/src/index.ts:146-165 | after a toggle, tag membership and marker presence agree when the tag occurred at most once; with a duplicate the tag stays and the marker goes |
| TagToggle.ToggleTwiceAbsent | jupyterlab_empinken/src/index.ts:146-164 | two toggles of an absent tag give back the list unchanged and leave the marker removed |
| TagToggle.ToggleTwiceOnce | jupyterlab_empinken/src/index.ts:146-164 | two toggles of a tag occurring once delete its first occurrence and re-append it at the end; the multiset is restored and the marker is present |
| TagToggle.ToggleTwiceDuplicate | jupyterlab_empinken/src/index.ts:146-156 | with a duplicated tag, two toggles delete two occurrences |
| TagToggle.ToggleTwiceDuplicateClasses | jupyterlab_empinken/src/index.ts:146-156 | with a duplicated tag, both toggles remove the marker, so the class set ends as before minus the marker, and comes back exactly iff the marker was absent |
| TagToggle.ToggleTwiceRestoresList | jupyterlab_empinken/src/index.ts:146-164 | two toggles give back exactly the original list iff the tag was absent or occurred once as the last element |
| TagToggle.ToggleTwiceRestoresState | jupyterlab_empinken/src/index.ts:146-164 | on a cell whose marker agrees with its tag, and with at most one occurrence, two toggles restore tag membership and the class set exactly |
| Reconcile.ScanTags | jupyterlab_empinken/src/index.ts:276-290 | the inner loop finishes iff no tag throws, adding exactly the markers of the renderable prefixed tags; otherwise it stops at a throwing tag, with every tag before it clean and exactly their markers added |
| Reconcile.CheckTags | jupyterlab_empinken/src/index.ts:264-293 | tag lists are untouched and classes only grow; the scan succeeds iff no cell holds a throwing tag, and then every cell is reconciled; on a throw, the cells before are reconciled, the cell that threw has the markers of the tags before the throwing tag, and later cells are untouched |
| Reconcile.RendersIff | jupyterlab_empinken/src/index.ts:279-284 | a tag is classed iff it is the tag name of a renderable kind |
| Reconcile.MarksOnlyRenderable | jupyterlab_empinken/src/index.ts:279-288 | every marker a scan adds belongs to a tag in the list that carries the prefix and names a renderable kind |
| Reconcile.MarksEveryRenderable | jupyterlab_empinken/src/index.ts:279-288 | every renderable kind's tag in the list gets its marker |
| Reconcile.CheckTagsMarkers | jupyterlab_empinken/src/index.ts:273-288 | after a successful scan a cell holds a class iff it held it before or it is the marker of a renderable kind whose tag the cell carries |
| Reconcile.CheckTagsAddsOnlyMarks | jupyterlab_empinken/src/index.ts:273-288 | whether the scan succeeds or throws, each class it adds is the marker of a renderable kind's tag of that cell; tags without the prefix never produce a class |
| Reconcile.CheckTagsIdempotent | jupyterlab_empinken/src/index.ts:273-288 | a second scan over the result of the first gives the same outcome: nothing is added after a success, and a throw recurs at the same tag |
| Reconcile.AbortPositionUnique | jupyterlab_empinken/src/index.ts:273-284 | two scans over cells with the same tag lists succeed together, or throw at the same cell and tag |
| Reconcile.CheckTagsStopsAt | jupyterlab_empinken/src/index.ts:273-284 | the scan throws exactly at the first throwing tag of the first cell that is not clean |
| Reconcile.CheckTagsFailsOnUnknownKind | jupyterlab_empinken/src/index.ts:280-284 | with no array member names in play, the scan succeeds iff no cell holds a prefixed tag whose rest names no kind |
| Reconcile.UnknownTagThrows | jupyterlab_empinken/src/index.ts:280-284 | a prefixed tag whose rest is neither a kind nor an array member name throws |
| Reconcile.KindTagNeverThrows | jupyterlab_empinken/src/index.ts:280-284 | a kind's tag never throws, whatever its render flag |
| Reconcile.ArrayMemberTagIgnored | jupyterlab_empinken/src/index.ts:253-259 | a prefixed tag whose rest is an array member name but no kind neither throws nor produces a class |
| Reconcile.UnknownKindAborts | jupyterlab_empinken/src/index.ts:273-290 | a renderable tag followed by an unknown prefixed tag stops the scan at the second tag; the first tag's marker stays, and the next cell is untouched |
| Reconcile.ScenarioRenderOne | jupyterlab_empinken/src/index.ts:273-288 | with only activity renderable, the tags activity, solution and an unprefixed tag give exactly the activity marker |
| Reconcile.TagNameRemainder | jupyterlab_empinken/src/index.ts:279-280 | a kind's tag name starts with the prefix, and stripping the prefix recovers the kind |
| Buttons.InstallFrom | jupyterlab_empinken/src/index.ts:175-188 | every created button is the button of an enabled kind that was visited |
| Buttons.InstallFromCounts | jupyterlab_empinken/src/index.ts:175-188 | a kind gets one button per visit if its button is enabled, and none otherwise |
| Buttons.InstallFromOrdered | jupyterlab_empinken/src/index.ts:87-90 | keys visited in increasing toolbar position give buttons inserted in increasing toolbar position |
| Buttons.InstallOnePerEnabledKind | jupyterlab_empinken/src/index.ts:175-188 | a panel gets exactly one button per enabled kind, in toolbar order, each with its own kind's item name |
| Buttons.Disposed | jupyterlab_empinken/src/index.ts:190-197 | disposal only visits enabled kinds among the keys |
| Buttons.DisposeMatchesInstall | jupyterlab_empinken/src/index.ts:175-197 | disposal visits exactly the kinds whose buttons were created, in the same order |
| Buttons.Click | jupyterlab_empinken/src/index.ts:182 | the corrected click removes an occurrence of the button's own tag iff it was present, and adds its only occurrence otherwise |
| Buttons.ClickTogglesOwnKind | jupyterlab_empinken/src/index.ts:179-187 | a created button's tooltip names its own kind's tag, and its corrected click leaves every other kind's tag and marker alone |
| Buttons.LoopVarAfter | jupyterlab_empinken/src/index.ts:94-95 | a for-in loop over a declared variable leaves it holding the last key visited, and untouched when there are no keys |
| Buttons.CapturedKind | jupyterlab_empinken/src/index.ts:94-98 | after the settings loop (line 95) and the creation loop (line 175) both assign the one `typ`, a handler reads the last key, or nothing when there are no keys |
| Buttons.ClickAsWritten | jupyterlab_empinken/src/index.ts:175-182 | as written, a click on any button toggles the tutor tag |
| Buttons.ActivityClickTogglesTutor | jupyterlab_empinken/src/index.ts:175-187 | as written, the activity button on an untagged cell stores the tutor tag even when only activity is enabled; the corrected click stores the activity tag |
| Buttons.ClickAsWrittenMissesOwnKind | jupyterlab_empinken/src/index.ts:175-182 | as written, a non-tutor button never changes its own kind's tag, while the corrected click always does |

## Left out

- Settings loading (`setup_settings`, `settingRegistry.load`, `settings.changed`, lines 46-59, 217-230 and 343-364) is asynchronous plumbing. The prefix and the enabled and render flags are parameters.
- The toolbar and widget API is host-framework behaviour and is not modelled. This covers `ToolbarButton`, `insertItem`, `DisposableDelegate` and the `modelChanged`/`fullyRendered` wiring. A button is a record of what it is created with; disposal is the list of kinds it visits.
- The crash when no cell is active (line 111) is not modelled; the active cell is an explicit argument.
- The crash when settings are not loaded yet (lines 79 and 250) is not modelled either; the settings are an explicit argument.
- Writing the colour variables to the document root (line 355) is a DOM side effect. Only the variable's name is modelled.
- `console.log` output is left out.
- For a cell that already has a tag list, the toggle edits the array it got from `metadata.get` in place (lines 152 and 161), so no metadata change notification fires. That is why an open property inspector does not update (lines 130-138). The model returns a new cell value and has no notifications.
- Toolbar position collisions with other toolbar items are left out; the host resolves them.
- DOM `classList` errors on class names with whitespace are not modelled; class lists are plain sets.
- Metadata `tags` values that are not string arrays are not modelled.
- Which names a JavaScript array answers (`length`, `push`, ...) depends on the engine, so it is the parameter `members`.
- Reconcile.UnknownKindAborts: states where the scan stops, the kept marker and the untouched next cell for a two-cell notebook, not the full outcome value, because the full equality is too costly to prove.

## Findings

| source | as written | input that shows it | evidently intended | confidence | as-written member | corrected member |
|---|---|---|---|---|---|---|
| jupyterlab_empinken/src/index.ts:175-187 | every `onClick` handler calls `toggleTagButtonAction(typ)` on the one `typ` declared at line 94 and reused by the creation loop, which holds `tutor` once the loop ends | enabled = {activity}; click the activity button on a cell without tags: the cell gets `[prefix + "tutor"]` | each button toggles its own kind's tag, as its tooltip says | high, not executed | Buttons.ClickAsWritten, Buttons.ActivityClickTogglesTutor, Buttons.ClickAsWrittenMissesOwnKind | Buttons.Click, Buttons.ClickTogglesOwnKind |
