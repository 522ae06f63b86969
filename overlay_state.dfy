/** The screen-reading overlay's state (`wrapper/src-tauri/src/overlay/state.rs`):
    the stage the overlay is at, with what it carries, held by a manager
    whose every setter replaces it whole. */
module Overlay {

  /** A Rust `i32`. */
  type Int32 = x: int | -0x8000_0000 <= x < 0x8000_0000

  /** `CaptureRegion`: a screen rectangle. */
  datatype CaptureRegion = CaptureRegion(x: Int32, y: Int32, width: Int32, height: Int32)

  /** `TextRegion`: a recognised piece of text, where it lies, and how sure
      the recognition was. */
  datatype TextRegion = TextRegion(text: string, x: Int32, y: Int32, width: Int32, height: Int32, confidence: real)

  /** `ExtractedText`: the whole text recognised in a capture. */
  datatype ExtractedText = ExtractedText(fullText: string, regions: seq<TextRegion>, overallConfidence: real)

  /** `OverlayState`. */
  datatype OverlayState =
    | Idle
    | Selecting(dragStartX: Int32, dragStartY: Int32)
    | Capturing(region: CaptureRegion)
    | Processing
    | Ready(text: ExtractedText, region: CaptureRegion)
    | Playing(text: ExtractedText, region: CaptureRegion, currentPhrase: nat, playbackTimeMs: real)
    | Paused(text: ExtractedText, region: CaptureRegion, pausePointMs: real)
    | Error(message: string)

  /** `OverlayState::default`. */
  function DefaultState(): (s: OverlayState)
    ensures s.Idle?
  {
    Idle
  }

  /** The "type" tag the state is serialised with: its variant's name. */
  function Tag(s: OverlayState): string {
    match s
    case Idle => "Idle"
    case Selecting(_, _) => "Selecting"
    case Capturing(_) => "Capturing"
    case Processing => "Processing"
    case Ready(_, _) => "Ready"
    case Playing(_, _, _, _) => "Playing"
    case Paused(_, _, _) => "Paused"
    case Error(_) => "Error"
  }

  /** The tag tells the variants apart: two states share a tag exactly when
      they are the same variant, and the variants without fields are
      determined by it. */
  lemma TagSpec(s: OverlayState, t: OverlayState)
    ensures Tag(s) == Tag(t) <==> Variant(s) == Variant(t)
    ensures Tag(s) == "Idle" ==> s == Idle
    ensures Tag(s) == "Processing" ==> s == Processing
  {
    TagLetters(s);
    TagLetters(t);
  }

  /** Which variant a state is, by its place in the declaration. */
  function Variant(s: OverlayState): nat {
    match s
    case Idle => 0
    case Selecting(_, _) => 1
    case Capturing(_) => 2
    case Processing => 3
    case Ready(_, _) => 4
    case Playing(_, _, _, _) => 5
    case Paused(_, _, _) => 6
    case Error(_) => 7
  }

  /** Each tag's first two letters and length single out its variant. */
  lemma TagLetters(s: OverlayState)
    ensures |Tag(s)| >= 4
    ensures (Tag(s)[0], Tag(s)[1], |Tag(s)|) ==
      match Variant(s)
      case 0 => ('I', 'd', 4)
      case 1 => ('S', 'e', 9)
      case 2 => ('C', 'a', 9)
      case 3 => ('P', 'r', 10)
      case 4 => ('R', 'e', 5)
      case 5 => ('P', 'l', 7)
      case 6 => ('P', 'a', 6)
      case _ => ('E', 'r', 5)
  {
  }

  /** `OverlayManager`: the one state it holds. */
  class OverlayManager {
    var state: OverlayState

    /** `OverlayManager::new`: Idle. */
    constructor ()
      ensures state == Idle
    {
      state := Idle;
    }

    /** `get_state`: a copy of the state. */
    method GetState() returns (s: OverlayState)
      ensures s == state
    {
      s := state;
    }

    /** `set_state`: any state replaces the current one. */
    method SetState(newState: OverlayState)
      modifies this
      ensures state == newState
    {
      state := newState;
    }

    /** `start_selection`: a drag begins at (x, y). */
    method StartSelection(x: Int32, y: Int32)
      modifies this
      ensures state == Selecting(x, y)
    {
      state := Selecting(x, y);
    }

    /** `set_capture_region`: the region is being captured. */
    method SetCaptureRegion(region: CaptureRegion)
      modifies this
      ensures state == Capturing(region)
    {
      state := Capturing(region);
    }

    /** `set_processing`: recognition is under way. */
    method SetProcessing()
      modifies this
      ensures state == Processing
    {
      state := Processing;
    }

    /** `set_ready`: the text was recognised in the region. */
    method SetReady(text: ExtractedText, region: CaptureRegion)
      modifies this
      ensures state == Ready(text, region)
    {
      state := Ready(text, region);
    }

    /** `set_playing`: the text is being read, at the given phrase and
        time. */
    method SetPlaying(text: ExtractedText, region: CaptureRegion, currentPhrase: nat, playbackTimeMs: real)
      modifies this
      ensures state == Playing(text, region, currentPhrase, playbackTimeMs)
    {
      state := Playing(text, region, currentPhrase, playbackTimeMs);
    }

    /** `set_paused`: reading stopped at the given time. */
    method SetPaused(text: ExtractedText, region: CaptureRegion, pausePointMs: real)
      modifies this
      ensures state == Paused(text, region, pausePointMs)
    {
      state := Paused(text, region, pausePointMs);
    }

    /** `set_error`. */
    method SetError(message: string)
      modifies this
      ensures state == Error(message)
    {
      state := Error(message);
    }

    /** `reset`: back to Idle from any state. */
    method Reset()
      modifies this
      ensures state == Idle
    {
      state := Idle;
    }
  }

  /** A round of the overlay: whatever was set last is what `get_state`
      returns, and a reset after it leaves the manager as a new one. */
  method Round(text: ExtractedText, region: CaptureRegion, x: Int32, y: Int32)
    returns (afterSelection: OverlayState, afterReady: OverlayState, afterReset: OverlayState)
    ensures afterSelection == Selecting(x, y)
    ensures afterReady == Ready(text, region)
    ensures afterReset == DefaultState()
  {
    var manager := new OverlayManager();
    manager.StartSelection(x, y);
    afterSelection := manager.GetState();
    manager.SetCaptureRegion(region);
    manager.SetProcessing();
    manager.SetReady(text, region);
    afterReady := manager.GetState();
    manager.SetPlaying(text, region, 0, 0.0);
    manager.SetPaused(text, region, 0.0);
    manager.Reset();
    afterReset := manager.GetState();
  }
}
