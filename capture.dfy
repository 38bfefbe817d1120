/**
 * Choosing the simulator window and the screen region to capture
 * (`screenshot`). Enumerating windows, focusing one, grabbing pixels and
 * saving the image are done by the windowing system outside this model: the
 * window list comes in as a value, and the result says which window would be
 * focused and which region would be captured.
 */
module Capture {
  import opened Wrappers

  /** The text a window title must contain for the window to be taken as the simulator's. */
  const SIMULATOR_TITLE: string := "CIQ Simulator"

  /** A top-level window: its title and its bounding rectangle in screen coordinates. */
  datatype Window = Window(title: string, left: int, top: int, right: int, bottom: int)

  /** A screen region as the capture call takes it: origin, then extent. */
  datatype Region = Region(left: int, top: int, width: int, height: int)

  datatype CaptureError = WindowNotFound

  /** One capture: the window focused, the region grabbed, and whether the first-time focus delay was taken. */
  datatype Shot = Shot(window: Window, region: Region, waitedForFocus: bool)

  // ---------------------------------------------------------------------------
  // Substring search, as Python's `sub in s` on strings.
  // ---------------------------------------------------------------------------

  /** `sub` occurs in `s` starting at index `i`. */
  predicate OccursAt(sub: string, s: string, i: int)
  {
    0 <= i && i + |sub| <= |s| && s[i..i + |sub|] == sub
  }

  /** Reference meaning of `sub in s`: `sub` occurs in `s` at some index. */
  ghost predicate IsSubstring(sub: string, s: string)
  {
    exists i :: OccursAt(sub, s, i)
  }

  /** Searches `s` for `sub`, trying each start index from the left. */
  function Contains(s: string, sub: string): (r: bool)
    ensures sub == [] ==> r
    ensures |s| < |sub| ==> !r
    ensures r && |sub| == |s| ==> s == sub
    decreases |s|
  {
    if |s| < |sub| then false
    else s[..|sub|] == sub || (0 < |s| && Contains(s[1..], sub))
  }

  /** A slice of the tail of `s` is the slice of `s` shifted by one. */
  lemma SliceOfTail(s: string, lo: int, hi: int)
    requires 0 <= lo <= hi < |s|
    ensures s[1..][lo..hi] == s[lo + 1..hi + 1]
  {
    assert |s[1..][lo..hi]| == hi - lo == |s[lo + 1..hi + 1]|;
    forall k | 0 <= k < hi - lo ensures s[1..][lo..hi][k] == s[lo + 1..hi + 1][k] {
      assert s[1..][lo..hi][k] == s[1..][lo + k] == s[lo + 1 + k];
    }
  }

  /** The search finds `sub` exactly when it occurs somewhere in `s`. */
  lemma {:induction false} ContainsCorrect(s: string, sub: string)
    ensures Contains(s, sub) <==> IsSubstring(sub, s)
    decreases |s|
  {
    if |s| < |sub| {
      assert forall i :: !OccursAt(sub, s, i);
    } else if s[..|sub|] == sub {
      assert OccursAt(sub, s, 0);
    } else if |s| == 0 {
      assert false;
    } else {
      ContainsCorrect(s[1..], sub);
      if IsSubstring(sub, s[1..]) {
        var j :| OccursAt(sub, s[1..], j);
        SliceOfTail(s, j, j + |sub|);
        assert OccursAt(sub, s, j + 1);
      }
      if IsSubstring(sub, s) {
        var i :| OccursAt(sub, s, i);
        assert i != 0;
        SliceOfTail(s, i - 1, i - 1 + |sub|);
        assert OccursAt(sub, s[1..], i - 1);
      }
    }
  }

  // ---------------------------------------------------------------------------
  // Window selection and the capture region.
  // ---------------------------------------------------------------------------

  /** The title marks the simulator's window. */
  ghost predicate IsSimulator(w: Window)
  {
    IsSubstring(SIMULATOR_TITLE, w.title)
  }

  /** The windows whose title contains the simulator title, in enumeration order. */
  function SimulatorWindows(windows: seq<Window>): (r: seq<Window>)
    ensures |r| <= |windows|
    ensures forall w :: w in r ==> w in windows && Contains(w.title, SIMULATOR_TITLE)
  {
    if windows == [] then []
    else (if Contains(windows[0].title, SIMULATOR_TITLE) then [windows[0]] else [])
         + SimulatorWindows(windows[1..])
  }

  /** The first simulator window, or WindowNotFound when there is none. */
  function FindSimulator(windows: seq<Window>): (r: Result<Window, CaptureError>)
    ensures windows == [] ==> r == Failure(WindowNotFound)
    ensures r.Success? ==> r.value in windows && Contains(r.value.title, SIMULATOR_TITLE)
  {
    var candidates := SimulatorWindows(windows);
    if |candidates| == 0 then Failure(WindowNotFound) else Success(candidates[0])
  }

  /**
   * The region handed to the capture call for `w`: it starts at the window's
   * top-left corner and ends exactly at its right and bottom edges.
   */
  function CaptureRegion(w: Window): (r: Region)
    ensures r.left == w.left && r.top == w.top
    ensures r.left + r.width == w.right && r.top + r.height == w.bottom
  {
    Region(w.left, w.top, w.right - w.left, w.bottom - w.top)
  }

  /**
   * One screenshot: focus the first simulator window, take the settling delay
   * if asked, and capture the window's region; fail when no simulator window
   * is open.
   */
  function Screenshot(windows: seq<Window>, waitForFocus: bool): (r: Result<Shot, CaptureError>)
    ensures windows == [] ==> r == Failure(WindowNotFound)
    ensures r.Success? ==> r.value.window in windows && Contains(r.value.window.title, SIMULATOR_TITLE)
    ensures r.Success? ==> r.value.region.left + r.value.region.width == r.value.window.right
    ensures r.Success? ==> r.value.region.top + r.value.region.height == r.value.window.bottom
    ensures r.Success? ==> r.value.waitedForFocus == waitForFocus
  {
    match FindSimulator(windows)
    case Failure(e) => Failure(e)
    case Success(w) => Success(Shot(w, CaptureRegion(w), waitForFocus))
  }

  /** Selection keeps exactly the simulator windows, in order. */
  lemma SimulatorWindowsCorrect(windows: seq<Window>)
    ensures forall w :: w in SimulatorWindows(windows) <==> w in windows && IsSimulator(w)
    ensures |SimulatorWindows(windows)| == 0 <==> forall i :: 0 <= i < |windows| ==> !IsSimulator(windows[i])
    ensures |SimulatorWindows(windows)| > 0 ==>
      exists k :: 0 <= k < |windows| && windows[k] == SimulatorWindows(windows)[0] && IsSimulator(windows[k])
        && forall j :: 0 <= j < k ==> !IsSimulator(windows[j])
  {
    SimulatorWindowsMembers(windows);
    if |SimulatorWindows(windows)| > 0 {
      SimulatorWindowsFirst(windows);
      assert SimulatorWindows(windows)[0] in SimulatorWindows(windows);
    }
  }

  /** The selected windows are exactly the simulator windows of the list. */
  lemma {:induction false} SimulatorWindowsMembers(windows: seq<Window>)
    ensures forall w :: w in SimulatorWindows(windows) <==> w in windows && IsSimulator(w)
  {
    if windows != [] {
      ContainsCorrect(windows[0].title, SIMULATOR_TITLE);
      SimulatorWindowsMembers(windows[1..]);
      assert windows == [windows[0]] + windows[1..];
    }
  }

  /** The first selected window is the first simulator window of the list. */
  lemma {:induction false} SimulatorWindowsFirst(windows: seq<Window>)
    requires |SimulatorWindows(windows)| > 0
    ensures exists k ::
      0 <= k < |windows| && windows[k] == SimulatorWindows(windows)[0] && IsSimulator(windows[k])
        && forall j :: 0 <= j < k ==> !IsSimulator(windows[j])
  {
    ContainsCorrect(windows[0].title, SIMULATOR_TITLE);
    if IsSimulator(windows[0]) {
      assert SimulatorWindows(windows)[0] == windows[0];
    } else {
      var rest := windows[1..];
      assert SimulatorWindows(windows) == SimulatorWindows(rest);
      SimulatorWindowsFirst(rest);
      var k :| 0 <= k < |rest| && rest[k] == SimulatorWindows(rest)[0] && IsSimulator(rest[k])
        && forall j :: 0 <= j < k ==> !IsSimulator(rest[j]);
      assert windows[k + 1] == rest[k];
      forall j | 0 <= j < k + 1 ensures !IsSimulator(windows[j]) {
        if j > 0 {
          assert windows[j] == rest[j - 1];
        }
      }
    }
  }

  /**
   * The screenshot fails exactly when no window title contains the simulator
   * title; otherwise it focuses the first such window in enumeration order,
   * captures that window's full rectangle, and waits for focus as asked.
   */
  lemma ScreenshotCorrect(windows: seq<Window>, waitForFocus: bool)
    ensures Screenshot(windows, waitForFocus).Failure?
        <==> forall i :: 0 <= i < |windows| ==> !IsSimulator(windows[i])
    ensures Screenshot(windows, waitForFocus).Success? ==>
      var shot := Screenshot(windows, waitForFocus).value;
      && (exists k :: 0 <= k < |windows| && windows[k] == shot.window && IsSimulator(windows[k])
            && forall j :: 0 <= j < k ==> !IsSimulator(windows[j]))
      && shot.region.left == shot.window.left && shot.region.top == shot.window.top
      && shot.region.left + shot.region.width == shot.window.right
      && shot.region.top + shot.region.height == shot.window.bottom
      && shot.waitedForFocus == waitForFocus
  {
    SimulatorWindowsCorrect(windows);
  }

  /** The selection never depends on windows after the first simulator window. */
  lemma ScreenshotIgnoresLaterWindows(windows: seq<Window>, later: seq<Window>, waitForFocus: bool)
    requires Screenshot(windows, waitForFocus).Success?
    ensures Screenshot(windows + later, waitForFocus) == Screenshot(windows, waitForFocus)
  {
    SimulatorWindowsAppend(windows, later);
  }

  /** Selection distributes over concatenation of window lists. */
  lemma {:induction false} SimulatorWindowsAppend(a: seq<Window>, b: seq<Window>)
    ensures SimulatorWindows(a + b) == SimulatorWindows(a) + SimulatorWindows(b)
  {
    if a == [] {
      assert a + b == b;
    } else {
      var head := if Contains(a[0].title, SIMULATOR_TITLE) then [a[0]] else [];
      assert (a + b)[0] == a[0];
      assert (a + b)[1..] == a[1..] + b;
      assert SimulatorWindows(a + b) == head + SimulatorWindows(a[1..] + b);
      SimulatorWindowsAppend(a[1..], b);
      assert SimulatorWindows(a) == head + SimulatorWindows(a[1..]);
    }
  }
}
