/**
 * Sequences of button presses: what every reachable window state satisfies, the
 * monotonicity of the enable flags over whole runs, and concrete runs that show
 * the window's behaviour on reload and on an empty recognition result.
 */
module Traces {
  import opened Wrappers
  import opened Paths
  import opened Lines
  import opened Scanner

  /** The state after pressing the buttons of `events` in order, starting from `s`. */
  function Run(s: Session, events: seq<Event>): Session
    decreases |events|
  {
    if |events| == 0 then s else Run(Click(s, events[0]).next, events[1..])
  }

  /** Every file the presses of `events` write, in order. */
  function Writes(s: Session, events: seq<Event>): (r: seq<FileWrite>)
    ensures |r| <= |events|
    decreases |events|
  {
    if |events| == 0 then []
    else
      var step := Click(s, events[0]);
      (if step.written.Some? then [step.written.value] else []) + Writes(step.next, events[1..])
  }

  /** A run from a state satisfying the invariant ends in one that does too. */
  lemma {:induction false} RunKeepsInvariant(s: Session, events: seq<Event>)
    requires Invariant(s)
    ensures Invariant(Run(s, events))
    decreases |events|
  {
    if |events| > 0 {
      ClickKeepsInvariant(s, events[0]);
      RunKeepsInvariant(Click(s, events[0]).next, events[1..]);
    }
  }

  /** No run turns an enable flag off. */
  lemma {:induction false} RunFlagsGrow(s: Session, events: seq<Event>)
    ensures FlagsGrow(s, Run(s, events))
    decreases |events|
  {
    if |events| > 0 {
      RunFlagsGrow(Click(s, events[0]).next, events[1..]);
    }
  }

  /** Running two batches of presses is running their concatenation. */
  lemma {:induction false} RunAppend(s: Session, first: seq<Event>, second: seq<Event>)
    ensures Run(s, first + second) == Run(Run(s, first), second)
    decreases |first|
  {
    if |first| > 0 {
      assert (first + second)[0] == first[0];
      assert (first + second)[1..] == first[1..] + second;
      RunAppend(Click(s, first[0]).next, first[1..], second);
    } else {
      assert first + second == second;
    }
  }

  /**
   * In every state reachable from the freshly built window the flags form the
   * chain save => extract => scan, scan is enabled exactly when an image is
   * loaded, and extraction is enabled only with a scanned path under the
   * output directory.
   */
  lemma ReachableStates(events: seq<Event>)
    ensures var r := Run(Init(), events);
      && (r.saveEnabled ==> r.extractEnabled)
      && (r.extractEnabled ==> r.scanEnabled)
      && (r.scanEnabled <==> r.originalImagePath.Some?)
      && (r.extractEnabled ==> r.scannedImagePath.Some? && IsOutputPath(r.scannedImagePath.value))
      && (r.text != "" ==> r.saveEnabled)
  {
    RunKeepsInvariant(Init(), events);
  }

  /** Once a button is enabled, it stays enabled whatever is pressed afterwards. */
  lemma FlagsStayOn(earlier: seq<Event>, later: seq<Event>)
    ensures FlagsGrow(Run(Init(), earlier), Run(Init(), earlier + later))
  {
    RunAppend(Init(), earlier, later);
    RunFlagsGrow(Run(Init(), earlier), later);
  }

  /** Every write a run performs carries a non-empty text to a chosen, non-empty destination. */
  lemma {:induction false} WritesAreNonEmpty(s: Session, events: seq<Event>)
    ensures forall k :: 0 <= k < |Writes(s, events)| ==>
      Writes(s, events)[k].contents != "" && Writes(s, events)[k].path != ""
    decreases |events|
  {
    if |events| > 0 {
      var step := Click(s, events[0]);
      WritesAreNonEmpty(step.next, events[1..]);
    }
  }

  /**
   * Loading a path and then scanning always targets `output/` followed by the
   * path's basename, whatever directory the image came from; extraction becomes
   * enabled exactly when the corrector left that file (or it already was).
   */
  lemma ScanAfterLoad(s: Session, p: Path, existing: set<Path>)
    requires Invariant(s) && p != ""
    ensures
      var out := OutputDir + "/" + Basename(p);
      var t := Click(Click(s, LoadClicked(p)).next, ScanClicked(Ran(existing))).next;
      && t.scannedImagePath == Some(out)
      && Basename(out) == Basename(p)
      && (t.extractEnabled <==> s.extractEnabled || out in existing)
  {
  }

  /** An enabled extraction over an existing scan fills the text box with the joined texts and enables saving. */
  lemma ExtractFillsText(s: Session, existing: set<Path>, results: seq<Detection>)
    requires s.extractEnabled
    requires s.scannedImagePath.Some? && s.scannedImagePath.value != "" && s.scannedImagePath.value in existing
    ensures var t := Click(s, ExtractClicked(existing, OcrResults(results))).next;
      && t.text == Join(Texts(results))
      && t.saveEnabled
      && t.scannedImagePath == s.scannedImagePath
  {
  }

  /**
   * An enabled save with non-empty text and a chosen destination writes the
   * text box's contents there verbatim and changes nothing in the window.
   */
  lemma SaveWritesText(s: Session, dest: Path)
    requires s.saveEnabled && s.text != "" && dest != ""
    ensures Click(s, SaveClicked(dest, false)).written == Some(FileWrite(dest, s.text))
    ensures Click(s, SaveClicked(dest, false)).next == s
  {
  }

  /**
   * On line-free detections, the text an extraction leaves in the text box
   * splits back into exactly the detections' texts, in the recogniser's order.
   */
  lemma ExtractRecoversFragments(s: Session, existing: set<Path>, results: seq<Detection>)
    requires s.extractEnabled
    requires s.scannedImagePath.Some? && s.scannedImagePath.value != "" && s.scannedImagePath.value in existing
    requires |results| > 0 && SingleLines(Texts(results))
    ensures Split(Click(s, ExtractClicked(existing, OcrResults(results))).next.text) == Texts(results)
  {
    ExtractFillsText(s, existing, results);
    SplitJoin(Texts(results));
  }

  /**
   * Extracting and then saving to a chosen destination writes exactly the
   * extracted text, provided it is not empty.
   */
  lemma ExtractThenSave(s: Session, existing: set<Path>, results: seq<Detection>, dest: Path)
    requires s.extractEnabled
    requires s.scannedImagePath.Some? && s.scannedImagePath.value != "" && s.scannedImagePath.value in existing
    requires Join(Texts(results)) != "" && dest != ""
    ensures
      var t := Click(s, ExtractClicked(existing, OcrResults(results))).next;
      && t.text == Join(Texts(results))
      && Click(t, SaveClicked(dest, false)).written == Some(FileWrite(dest, Join(Texts(results))))
  {
  }

  /**
   * Two detections become the first detection's text, one line break, then the
   * second's: the recogniser's order is kept.
   */
  lemma TwoDetectionsText(d1: Detection, d2: Detection)
    ensures Join(Texts([d1, d2])) == d1.text + "\n" + d2.text
  {
  }

  /**
   * Reloading does not reset the pipeline: after a completed document, loading
   * another leaves the old scanned path, text and extract/save flags in place,
   * so the next extraction reads the previous document's corrected image.
   */
  lemma ReloadKeepsPreviousScan(dir1: Path, name1: string, dir2: Path, name2: string, d: Detection)
    requires '/' !in name1 && '/' !in name2 && name1 != name2
    ensures
      var out := OutputDir + "/" + name1;
      var s2 := Click(Click(Init(), LoadClicked(dir1 + "/" + name1)).next, ScanClicked(Ran({out}))).next;
      var s3 := Click(s2, ExtractClicked({out}, OcrResults([d]))).next;
      var s4 := Click(s3, LoadClicked(dir2 + "/" + name2)).next;
      && s4.originalImagePath == Some(dir2 + "/" + name2)
      && s4.scannedImagePath == Some(out)
      && s4.text == d.text
      && s4.extractEnabled && s4.saveEnabled
      && Basename(s4.scannedImagePath.value) != Basename(s4.originalImagePath.value)
  {
    var out := OutputDir + "/" + name1;
    BasenameIgnoresDirectory(dir1, dir1, name1);
    BasenameIgnoresDirectory(dir2, dir2, name2);
    OutputPathOf(name1);
    ScanAfterLoad(Init(), dir1 + "/" + name1, {out});
    var s2 := Click(Click(Init(), LoadClicked(dir1 + "/" + name1)).next, ScanClicked(Ran({out}))).next;
    ExtractFillsText(s2, {out}, [d]);
    assert Texts([d]) == [d.text];
  }

  /**
   * A recognition result with no detections enables saving, yet saving then
   * writes nothing, because the text box is empty.
   */
  lemma EmptyResultEnablesUselessSave(s: Session, existing: set<Path>, chosen: Path, writeRaises: bool)
    requires s.extractEnabled
    requires s.scannedImagePath.Some? && s.scannedImagePath.value != "" && s.scannedImagePath.value in existing
    ensures var t := Click(s, ExtractClicked(existing, OcrResults([]))).next;
      && t.saveEnabled
      && t.text == ""
      && Click(t, SaveClicked(chosen, writeRaises)).written == None
  {
  }

  /**
   * When the corrector leaves no file, the scan still records the output path
   * but extraction stays disabled.
   */
  lemma MissingOutputStillSetsPath(p: Path)
    requires p != ""
    ensures
      var t := Click(Click(Init(), LoadClicked(p)).next, ScanClicked(Ran({}))).next;
      && Invariant(t)
      && t.scannedImagePath == Some(OutputDir + "/" + Basename(p))
      && !t.extractEnabled
  {
    ScanAfterLoad(Init(), p, {});
    ClickKeepsInvariant(Init(), LoadClicked(p));
    ClickKeepsInvariant(Click(Init(), LoadClicked(p)).next, ScanClicked(Ran({})));
  }

  /**
   * The gating matters: in such a state, calling the extract handler directly
   * (not through its disabled button) would enable saving while extraction
   * stays disabled, breaking the chain of flags.
   */
  lemma UngatedExtractBreaksChain(s: Session, existing: set<Path>)
    requires Invariant(s) && !s.extractEnabled
    requires s.scannedImagePath.Some? && s.scannedImagePath.value in existing
    ensures
      var t := ExtractText(s, existing, OcrResults([])).next;
      && t.saveEnabled && !t.extractEnabled
      && !Invariant(t)
  {
  }
}
