# Document scanner window: the stage-gating state machine

This project is a Dafny model of the `DocumentScannerGUI` window of the document
scanner. The window turns a photographed page into text in four button-driven steps:

1. **Load Image** picks a picture.
2. **Scan Document** runs the perspective-correction script `scan.py` on it. The script is
   expected to leave `output/<basename>`.
3. **Extract Text** runs the EasyOCR recogniser on that corrected image.
4. **Save Results** writes the recognised text to a file.

The window's behaviour comes down to a few fields and three enable flags:

- the loaded image's path
- the remembered basename
- the scanned image's path
- the text box
- the `scan_btn`, `extract_btn` and `save_btn` flags

The model holds these fields in an immutable `Session` record. Each button handler is a
pure function of the session and of the outcomes of the external calls that handler makes:

- the path the file dialog returned, which may be empty
- whether starting the subprocess raised
- the set of files that exist afterwards
- the recogniser's detections, or the fact that it raised
- whether writing the file raised

The modules follow the structure of the program:

- `Wrappers`: `Option`, which stands for Python's `None` or a value.
- `Paths`: `str.rfind`, `os.path.basename` and the two-argument `os.path.join`, all with `/`.
  It also fixes the output directory `output`.
- `Lines`: `"\n".join(...)`, as used on the recogniser's texts. Its inverse, Python's
  `text.split("\n")`, is defined next to it.
- `Scanner`: the session record, one transition per handler (`LoadImage`, `ScanDocument`,
  `ExtractText`, `SaveResults`), the gating of clicks by the enable flags, and the state
  invariant.
- `Traces`: runs over arbitrary sequences of button presses. It holds the invariant and
  monotonicity lemmas, plus the concrete runs that show reload and empty-result behaviour.

The handlers can only be reached through their buttons. A click on a disabled button is
therefore modelled as doing nothing. The load button is always enabled.

The model follows the code, including these behaviours a reader might not expect:

- Reloading does not reset the pipeline. A new load keeps the old scanned path, the old text
  and the extract and save flags. The next extraction therefore reads the previous
  document's corrected image (`Traces.ReloadKeepsPreviousScan`).
- A scan whose subprocess ran but left no file still overwrites the scanned path
  (`Traces.MissingOutputStillSetsPath`). The extract flag is not turned on; every field except
  the scanned path keeps its value.
- The save flag is set by any successful recognition, even one with no detections. So "save
  enabled" does not imply that there is text, and saving then writes nothing
  (`Traces.EmptyResultEnablesUselessSave`).
- A corrector that crashes or exits with an error is not reported as a failure. `process.wait()`
  returns its exit status and the code ignores it. The scan then goes on as if it had run: the
  scanned path is overwritten, and extraction is enabled if a file of that name already exists in
  `output`, left there by an earlier run.
- Saving changes no field of the window.
- Loading does not check that the file is a readable image. Any non-empty dialog result is
  accepted.

## Model

| member | source | states |
|---|---|---|
| `Paths.RFind` | gui.py:170 | the index returned is -1 or an occurrence of the character, and no occurrence lies after it (the last-separator search behind `os.path.basename`) |
| `Paths.Basename` | gui.py:170 | the basename is a suffix of the path without any `/`, and it is the whole path or is preceded by a `/` |
| `Paths.BasenameOfName` | gui.py:170 | a name without separators is its own basename |
| `Paths.BasenameIdempotent` | gui.py:170 | taking the basename twice is the same as taking it once |
| `Paths.BasenameUnderDirectory` | gui.py:170 | a separator-free name placed under any directory prefix is the basename of the result, so the directory never leaks into it |
| `Paths.BasenameIgnoresDirectory` | gui.py:170 | two images with the same file name in different directories have the same basename, so they share an output slot |
| `Paths.PathJoin` | gui.py:188 | joining a separator-free name under any directory gives a path whose basename is that name |
| `Paths.OutputPathOf` | gui.py:188 | the corrected image of `name` is expected at `output/name`, directly under the output directory, with basename `name` |
| `Lines.Join` | gui.py:220 | the recognised texts are joined in order with one line break between neighbours: no parts give the empty text, otherwise the text is as long as all parts together plus one character per neighbouring pair |
| `Lines.JoinPlacesParts` | gui.py:220 | for any parts, line breaks inside them included, part `k` appears verbatim at its offset (the earlier parts plus one line break each) and a line break comes just before every part but the first; with `Join`'s length this fixes every character of the joined text |
| `Lines.SplitJoin` | gui.py:220 | splitting the newline-joined text on line breaks gives back exactly the fragments, in order, when no fragment contains a line break |
| `Lines.JoinSplit` | gui.py:220 | joining the pieces of a split gives back the original text, so `Split` inverts the join |
| `Lines.JoinInjective` | gui.py:220 | distinct non-empty lists of line-free fragments never produce the same text |
| `Scanner.Texts` | gui.py:220 | the text box receives the second component of every detection, one per detection, in the order returned |
| `Scanner.Truthy` | gui.py:173 | Python's truth test on an optional path, as in `if self.original_image_path` and the first half of the guard at line 214: `None` and the empty string are false, any other path is true |
| `Scanner.Invariant` | gui.py:93-95 | the facts every reachable window keeps, starting from the three disabled buttons: `save_btn ⇒ extract_btn ⇒ scan_btn` (enabled at lines 167, 192 and 222 only), `scan_btn` exactly when an image is loaded, the basename of that image remembered (line 170), a scanned path always `output/<name>` (line 188), and text only once saving is enabled |
| `Scanner.Init` | gui.py:93-95 | the new window has all three action buttons disabled, both image paths unset (lines 25-26), no basename and an empty text box; this state satisfies the invariant |
| `Scanner.LoadImage` | gui.py:160-170 | a cancelled dialog changes nothing; a chosen path is recorded with its basename and enables scanning; the scanned path, the text and the extract/save flags are untouched |
| `Scanner.ScanDocument` | gui.py:172-197 | no loaded image: nothing happens; the subprocess cannot start: the error is reported and nothing changes; it ran: the scanned path becomes `output/<basename of the loaded image>` whether or not the file exists, extraction is enabled only if the file exists, and a missing file is reported; the path is `os.path.join('output', current_basename)` as written at line 188, and an unset `current_basename` is caught like any other error and changes nothing; no flag is ever cleared |
| `Scanner.ExtractText` | gui.py:213-224 | acts only when the scanned path is set and exists; if the recogniser raises, nothing changes and the error is reported; otherwise the text box holds the joined texts (empty for no detections) and saving is enabled; paths and the other flags are untouched |
| `Scanner.SaveResults` | gui.py:226-237 | writes if and only if the text is non-empty, a destination was chosen and the write does not raise, and then writes the text verbatim; it never changes the session; success and failure notices match those cases exactly |
| `Scanner.Enabled` | gui.py:87-95 | which button a press goes through and whether Qt delivers it: the load button is always enabled, the other three only while their flag is set |
| `Scanner.Click` | gui.py:87-90 | a click on a disabled button does nothing; no click turns a flag off; a file is written only by an enabled save, and it holds the current text |
| `Scanner.LoadKeepsInvariant` | gui.py:164-170 | loading keeps the flag chain, the link between the scan flag and the loaded path, and the basename of the loaded path |
| `Scanner.ScanKeepsInvariant` | gui.py:184-194 | scanning keeps the invariant; the new scanned path lies directly under the output directory |
| `Scanner.ExtractKeepsInvariant` | gui.py:213-222 | extraction through its enabled button keeps the invariant, so `save ⇒ extract` survives |
| `Scanner.ClickKeepsInvariant` | gui.py:87-95 | every button press keeps the invariant |
| `Traces.Run` | gui.py:87-90 | Qt delivers presses one at a time, each to the handler its button is wired to, and each handler runs to completion on the state the previous one left |
| `Traces.Writes` | gui.py:87-90 | the files a sequence of presses writes, in order; each press writes at most one file, so there are never more writes than presses |
| `Traces.RunKeepsInvariant` | gui.py:87-95 | any sequence of presses from a state satisfying the invariant ends in one that satisfies it |
| `Traces.RunFlagsGrow` | gui.py:160-237 | no sequence of presses turns an enable flag off |
| `Traces.RunAppend` | gui.py:87-90 | running two batches of presses is running their concatenation |
| `Traces.ReachableStates` | gui.py:93-95 | in every reachable state `save_btn ⇒ extract_btn ⇒ scan_btn`, `scan_btn ⇔` an image is loaded, extraction is enabled only with a scanned path under `output/`, and a non-empty text implies saving is enabled |
| `Traces.FlagsStayOn` | gui.py:160-237 | once a button is enabled it stays enabled, whatever is pressed afterwards |
| `Traces.WritesAreNonEmpty` | gui.py:227-234 | every file any run writes has a non-empty destination and non-empty contents |
| `Traces.ScanAfterLoad` | gui.py:164-194 | loading `p` and then scanning targets `output/<basename of p>`, independent of `p`'s directory; extraction becomes enabled exactly when that file exists or it already was |
| `Traces.ExtractFillsText` | gui.py:217-222 | an enabled extraction over an existing scan fills the text box with the joined texts and enables saving |
| `Traces.SaveWritesText` | gui.py:231-234 | an enabled save with non-empty text and a chosen destination writes that text verbatim and leaves the session unchanged |
| `Traces.ExtractRecoversFragments` | gui.py:220 | for line-free detections, the text an extraction leaves splits back into exactly the detections' texts, in order |
| `Traces.ExtractThenSave` | gui.py:217-234 | extracting and then saving writes exactly the extracted text, when it is non-empty |
| `Traces.TwoDetectionsText` | gui.py:220 | for any two detections the text is the first detection's text, one line break, then the second's |
| `Traces.ReloadKeepsPreviousScan` | gui.py:164-170 | after a completed document, loading another keeps the old scanned path, text and extract/save flags, so the scanned path's basename differs from the loaded image's |
| `Traces.EmptyResultEnablesUselessSave` | gui.py:220-234 | a recognition with no detections enables saving with an empty text, and saving then writes nothing |
| `Traces.MissingOutputStillSetsPath` | gui.py:188-194 | when the corrector leaves no file, the scanned path is still set to `output/<basename>` but extraction stays disabled |
| `Traces.UngatedExtractBreaksChain` | gui.py:87-90 | in a state with the extract button disabled, calling the extract handler directly would enable saving and break the invariant, so the button gating is what keeps `save ⇒ extract` |

## Left out

- Qt layout, styling and display are not modelled: `init_ui`, `create_display_section`, `create_text_section`, `update_image_display` and `resizeEvent` are presentation only.
- `scan.py` is not part of this model. Its run is reduced to "could not be started" or "ran", plus the set of files that exist afterwards. `SpawnRaised` stands for `Popen` raising. The exit status of `scan.py` is never read, so a corrector that crashes is a `Ran` outcome and only the existence check at line 190 can notice it, and it does not when an older file of that name is present.
- EasyOCR's model, its GPU use and the creation of the reader are not modelled. Boxes and confidences are carried as opaque data and then ignored.
- File-system and dialog I/O are parameters of the transitions, not effects: the file dialogs, `os.path.exists`, `open`/`write` and UTF-8 encoding. The creation of the `output` directory at start-up is not modelled.
- Message-box texts are reduced to the `Notice` tag.
- Only `/` is a path separator. Windows-style separators are not modelled.
- `Scanner.ExtractText`: the text box is taken to hold exactly the joined string. Qt's rich-text guess in `setText` and the normalisation done by `toPlainText` are not modelled.
- `Scanner.SaveResults`: a write that raises is modelled as writing nothing. A destination that `open` had already truncated, or partly written, before the error is not modelled.
- `hasattr(self, 'text_edit')` in `save_results` is always true once the window is built, so it is not modelled.
