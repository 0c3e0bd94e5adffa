/**
 * The stage-gating state machine of the document scanner window: the fields the
 * window keeps, one pure transition per button handler, and the click gating the
 * disabled buttons impose.
 *
 * Every effect the handlers have on the outside world is an explicit parameter:
 * the path a file dialog returned (possibly empty), whether starting the
 * correction subprocess raised, which files exist afterwards, what the text
 * recogniser returned or that it raised, and whether writing the text raised.
 */
module Scanner {
  import opened Wrappers
  import opened Paths
  import opened Lines

  /** The window's state: the two image paths, the remembered basename, the text box and the three enable flags. */
  datatype Session = Session(
    originalImagePath: Option<Path>,
    currentBasename: Option<string>,
    scannedImagePath: Option<Path>,
    text: string,
    scanEnabled: bool,
    extractEnabled: bool,
    saveEnabled: bool)

  /** Message boxes reduced to a tag; `Quiet` when the handler shows none. */
  datatype Notice =
    | Quiet
    | ScanFailed          // the subprocess could not be run
    | ScanOutputMissing   // it ran, but no corrected image is at the expected path
    | ExtractFailed       // the recogniser raised
    | SaveSucceeded
    | SaveFailed          // opening or writing the destination raised

  /** The text written to a destination chosen in the save dialog. */
  datatype FileWrite = FileWrite(path: Path, contents: string)

  /** What one handler leaves behind. */
  datatype Step = Step(next: Session, notice: Notice, written: Option<FileWrite>)

  /**
   * How the correction subprocess went: starting it raised, or it ran and left
   * these files behind. Its exit status is never read, so a corrector that
   * crashes or fails is a `Ran` outcome too.
   */
  datatype ScanOutcome = SpawnRaised | Ran(existing: set<Path>)

  /** One recogniser detection: a box, the recognised text and a confidence; only the text is used. */
  datatype Detection = Detection(box: seq<(int, int)>, text: string, confidence: real)

  /** What the recogniser did: raised, or returned detections in reading order. */
  datatype OcrOutcome = OcrRaised | OcrResults(results: seq<Detection>)

  /** A button press, carrying the outcome of every external call its handler makes. */
  datatype Event =
    | LoadClicked(chosen: Path)
    | ScanClicked(scan: ScanOutcome)
    | ExtractClicked(existing: set<Path>, ocr: OcrOutcome)
    | SaveClicked(chosen: Path, writeRaises: bool)

  /** Python truthiness of an optional path: present and non-empty. */
  predicate Truthy(p: Option<Path>)
  {
    p.Some? && p.value != ""
  }

  /** A handler that did nothing at all. */
  function Idle(s: Session): Step
  {
    Step(s, Quiet, None)
  }

  /** Flags may only go from off to on: `s` has no flag that `t` lacks. */
  predicate FlagsGrow(s: Session, t: Session)
  {
    && (s.scanEnabled ==> t.scanEnabled)
    && (s.extractEnabled ==> t.extractEnabled)
    && (s.saveEnabled ==> t.saveEnabled)
  }

  /**
   * What holds of every state the window can reach: the enable flags form the
   * chain save => extract => scan, the scan button is on exactly when an image
   * is loaded, the remembered basename belongs to the loaded image, a scanned
   * path is always a file directly under the output directory, and the text box
   * is filled only once saving has been enabled.
   */
  predicate Invariant(s: Session)
  {
    && (s.saveEnabled ==> s.extractEnabled)
    && (s.extractEnabled ==> s.scanEnabled)
    && (s.scanEnabled <==> s.originalImagePath.Some?)
    && (s.originalImagePath.Some? ==>
          s.originalImagePath.value != "" && s.currentBasename == Some(Basename(s.originalImagePath.value)))
    && (s.originalImagePath.None? ==> s.currentBasename.None?)
    && (s.extractEnabled ==> s.scannedImagePath.Some?)
    && (s.scannedImagePath.Some? ==> s.scanEnabled && IsOutputPath(s.scannedImagePath.value))
    && (s.text != "" ==> s.saveEnabled)
  }

  /** The window as constructed: nothing loaded, empty text, all three action buttons disabled. */
  function Init(): (r: Session)
    ensures r.originalImagePath == None && r.scannedImagePath == None && r.currentBasename == None
    ensures !r.scanEnabled && !r.extractEnabled && !r.saveEnabled
    ensures r.text == ""
    ensures Invariant(r)
  {
    Session(None, None, None, "", false, false, false)
  }

  /**
   * The load button. A cancelled dialog (empty path) changes nothing; otherwise
   * the new path and its basename are recorded and scanning is enabled. The scanned
   * path, the text and the extract and save flags are left as they were.
   */
  function LoadImage(s: Session, chosen: Path): (r: Step)
    ensures r.notice == Quiet && r.written == None
    ensures chosen == "" ==> r.next == s
    ensures chosen != "" ==>
      && r.next.originalImagePath == Some(chosen)
      && r.next.currentBasename == Some(Basename(chosen))
      && r.next.scanEnabled
    ensures r.next.scannedImagePath == s.scannedImagePath && r.next.text == s.text
    ensures r.next.extractEnabled == s.extractEnabled && r.next.saveEnabled == s.saveEnabled
    ensures FlagsGrow(s, r.next)
  {
    if chosen == "" then Idle(s)
    else
      Idle(s.(originalImagePath := Some(chosen), currentBasename := Some(Basename(chosen)), scanEnabled := true))
  }

  /**
   * The scan button. Without a loaded image nothing happens. If the subprocess
   * cannot be started the error is reported and nothing changes. Once it has
   * run, the scanned path is set to the output location of the current basename
   * before checking that a file is there; only if it is does extraction become
   * enabled, otherwise a missing-output warning is shown.
   */
  function ScanDocument(s: Session, outcome: ScanOutcome): (r: Step)
    ensures r.written == None
    ensures !Truthy(s.originalImagePath) ==> r == Idle(s)
    ensures outcome.SpawnRaised? ==> r.next == s
    ensures Truthy(s.originalImagePath) && outcome.SpawnRaised? ==> r.notice == ScanFailed
    ensures Truthy(s.originalImagePath) && outcome.Ran? && s.currentBasename == Some(Basename(s.originalImagePath.value)) ==>
      var p := OutputDir + "/" + Basename(s.originalImagePath.value);
      && r.next.scannedImagePath == Some(p)
      && Basename(p) == Basename(s.originalImagePath.value)
      && (r.next.extractEnabled <==> s.extractEnabled || p in outcome.existing)
      && (r.notice == ScanOutputMissing <==> p !in outcome.existing)
      && (r.notice == Quiet <==> p in outcome.existing)
    ensures Truthy(s.originalImagePath) && outcome.Ran? && s.currentBasename.Some? ==>
      var p := PathJoin(OutputDir, s.currentBasename.value);
      && r.next.scannedImagePath == Some(p)
      && (r.next.extractEnabled <==> s.extractEnabled || p in outcome.existing)
      && (r.notice == ScanOutputMissing <==> p !in outcome.existing)
    ensures Truthy(s.originalImagePath) && outcome.Ran? && s.currentBasename.None? ==>
      r.next == s && r.notice == ScanFailed
    ensures r.next.originalImagePath == s.originalImagePath && r.next.currentBasename == s.currentBasename
    ensures r.next.text == s.text && r.next.scanEnabled == s.scanEnabled && r.next.saveEnabled == s.saveEnabled
    ensures FlagsGrow(s, r.next)
  {
    if !Truthy(s.originalImagePath) then Idle(s)
    else match outcome
      case SpawnRaised => Step(s, ScanFailed, None)
      case Ran(existing) =>
        match s.currentBasename
        // Unset attribute: the join raises inside the same try block.
        case None => Step(s, ScanFailed, None)
        case Some(name) =>
          OutputPathOf(Basename(s.originalImagePath.value));
          NameUnderDirectory(OutputDir + "/", name);
          var p := PathJoin(OutputDir, name);
          var found := p in existing;
          Step(s.(scannedImagePath := Some(p), extractEnabled := s.extractEnabled || found),
               if found then Quiet else ScanOutputMissing, None)
  }

  /** The text of each detection, in the order the recogniser returned them. */
  function Texts(results: seq<Detection>): (r: seq<string>)
    ensures |r| == |results|
    ensures forall k :: 0 <= k < |results| ==> r[k] == results[k].text
  {
    if |results| == 0 then [] else [results[0].text] + Texts(results[1..])
  }

  /**
   * The extract button. It acts only when a scanned path is set and exists. If
   * the recogniser raises, the error is reported and nothing changes; otherwise
   * the text box holds the detections' texts joined by line breaks and saving
   * becomes enabled, even when there were no detections.
   */
  function ExtractText(s: Session, existing: set<Path>, ocr: OcrOutcome): (r: Step)
    ensures r.written == None
    ensures !(Truthy(s.scannedImagePath) && s.scannedImagePath.value in existing) ==> r == Idle(s)
    ensures ocr.OcrRaised? ==> r.next == s
    ensures ocr.OcrRaised? && Truthy(s.scannedImagePath) && s.scannedImagePath.value in existing ==>
      r.notice == ExtractFailed
    ensures ocr.OcrResults? && Truthy(s.scannedImagePath) && s.scannedImagePath.value in existing ==>
      && r.next.saveEnabled
      && r.notice == Quiet
      && r.next.text == Join(Texts(ocr.results))
      && (|ocr.results| == 0 ==> r.next.text == "")
    ensures r.next.text != s.text ==> ocr.OcrResults?
    ensures r.next.originalImagePath == s.originalImagePath && r.next.currentBasename == s.currentBasename
    ensures r.next.scannedImagePath == s.scannedImagePath
    ensures r.next.scanEnabled == s.scanEnabled && r.next.extractEnabled == s.extractEnabled
    ensures FlagsGrow(s, r.next)
  {
    if !(Truthy(s.scannedImagePath) && s.scannedImagePath.value in existing) then Idle(s)
    else match ocr
      case OcrRaised => Step(s, ExtractFailed, None)
      case OcrResults(results) =>
        Idle(s.(text := Join(Texts(results)), saveEnabled := true))
  }

  /**
   * The save button. It writes only when the text box is non-empty and the save
   * dialog returned a destination, and then writes the text verbatim. It never
   * changes a path, the text or a flag.
   */
  function SaveResults(s: Session, chosen: Path, writeRaises: bool): (r: Step)
    ensures r.next == s
    ensures r.written.Some? <==> s.text != "" && chosen != "" && !writeRaises
    ensures r.written.Some? ==> r.written.value == FileWrite(chosen, s.text)
    ensures r.notice == SaveSucceeded <==> r.written.Some?
    ensures r.notice == SaveFailed <==> s.text != "" && chosen != "" && writeRaises
  {
    if s.text == "" || chosen == "" then Idle(s)
    else if writeRaises then Step(s, SaveFailed, None)
    else Step(s, SaveSucceeded, Some(FileWrite(chosen, s.text)))
  }

  /** Whether the button an event presses is enabled; the load button always is. */
  predicate Enabled(s: Session, e: Event)
  {
    match e
    case LoadClicked(_) => true
    case ScanClicked(_) => s.scanEnabled
    case ExtractClicked(_, _) => s.extractEnabled
    case SaveClicked(_, _) => s.saveEnabled
  }

  /**
   * A button press: a disabled button delivers no click, an enabled one runs its
   * handler. No press turns a flag off, and only an enabled save writes a file.
   */
  function Click(s: Session, e: Event): (r: Step)
    ensures !Enabled(s, e) ==> r == Idle(s)
    ensures FlagsGrow(s, r.next)
    ensures r.written.Some? ==> e.SaveClicked? && s.saveEnabled && r.written.value == FileWrite(e.chosen, s.text)
  {
    if !Enabled(s, e) then Idle(s)
    else match e
      case LoadClicked(chosen) => LoadImage(s, chosen)
      case ScanClicked(outcome) => ScanDocument(s, outcome)
      case ExtractClicked(existing, ocr) => ExtractText(s, existing, ocr)
      case SaveClicked(chosen, writeRaises) => SaveResults(s, chosen, writeRaises)
  }

  /** Loading keeps the invariant. */
  lemma LoadKeepsInvariant(s: Session, chosen: Path)
    requires Invariant(s)
    ensures Invariant(LoadImage(s, chosen).next)
  {
  }

  /** Scanning keeps the invariant: the new scanned path lies directly under the output directory. */
  lemma ScanKeepsInvariant(s: Session, outcome: ScanOutcome)
    requires Invariant(s)
    ensures Invariant(ScanDocument(s, outcome).next)
  {
    if Truthy(s.originalImagePath) && outcome.Ran? {
      OutputPathOf(Basename(s.originalImagePath.value));
    }
  }

  /** Extraction through its enabled button keeps the invariant. */
  lemma ExtractKeepsInvariant(s: Session, existing: set<Path>, ocr: OcrOutcome)
    requires Invariant(s) && s.extractEnabled
    ensures Invariant(ExtractText(s, existing, ocr).next)
  {
  }

  /** Every press keeps the invariant. */
  lemma ClickKeepsInvariant(s: Session, e: Event)
    requires Invariant(s)
    ensures Invariant(Click(s, e).next)
  {
    if Enabled(s, e) {
      match e
      case LoadClicked(chosen) => LoadKeepsInvariant(s, chosen);
      case ScanClicked(outcome) => ScanKeepsInvariant(s, outcome);
      case ExtractClicked(existing, ocr) => ExtractKeepsInvariant(s, existing, ocr);
      case SaveClicked(chosen, writeRaises) =>
    }
  }
}
