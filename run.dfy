/**
 * The per-device loop of the command-line entry point (`main`): read the
 * device list, then for each device in order build and load the application,
 * and screenshot the simulator into `screenshot-<device>.png` in the output
 * directory. Only the first screenshot waits for the window to take focus.
 *
 * The compiler's exit status and the windows open at each screenshot come
 * from outside processes and are parameters here, indexed by the loop
 * iteration. The first failure ends the run.
 */
module Run {
  import opened Wrappers
  import Manifest
  import Capture

  const SHOT_PREFIX: string := "screenshot-"
  const SHOT_SUFFIX: string := ".png"

  /** A file in a directory; joining the two into one path is left to the file system. */
  datatype FilePath = FilePath(dir: string, name: string)

  /** One completed iteration: the device built, the file written, and the capture taken. */
  datatype Step = Step(device: string, file: FilePath, shot: Capture.Shot)

  datatype RunError =
    | ManifestFailed(cause: Manifest.ManifestError)
    | BuildFailed(device: string, exitCode: int)
    | ScreenshotFailed(reason: Capture.CaptureError)

  /** The screenshot file name for `device`. */
  function ShotName(device: string): (r: string)
    ensures |r| == |SHOT_PREFIX| + |device| + |SHOT_SUFFIX|
    ensures r[..|SHOT_PREFIX|] == SHOT_PREFIX && r[|r| - |SHOT_SUFFIX|..] == SHOT_SUFFIX
    ensures r[|SHOT_PREFIX|..|r| - |SHOT_SUFFIX|] == device
  {
    SHOT_PREFIX + device + SHOT_SUFFIX
  }

  /** The output file for `device` in the directory `output`. */
  function OutputFile(output: string, device: string): (r: FilePath)
    ensures r.dir == output
    ensures DeviceOfShotName(r.name) == Some(device)
  {
    ShotNameRoundTrip(device);
    FilePath(output, ShotName(device))
  }

  /** Recovers the device from a screenshot file name, or None when the name is not one. */
  function DeviceOfShotName(name: string): Option<string>
  {
    if |name| >= |SHOT_PREFIX| + |SHOT_SUFFIX|
       && name[..|SHOT_PREFIX|] == SHOT_PREFIX
       && name[|name| - |SHOT_SUFFIX|..] == SHOT_SUFFIX
    then Some(name[|SHOT_PREFIX|..|name| - |SHOT_SUFFIX|])
    else None
  }

  /** Every device's file name gives back that device. */
  lemma ShotNameRoundTrip(device: string)
    ensures DeviceOfShotName(ShotName(device)) == Some(device)
  {
    var name := ShotName(device);
    assert name[..|SHOT_PREFIX|] == SHOT_PREFIX;
    assert name[|name| - |SHOT_SUFFIX|..] == SHOT_SUFFIX;
    assert name[|SHOT_PREFIX|..|name| - |SHOT_SUFFIX|] == device;
  }

  /** A name that gives back a device is that device's file name. */
  lemma DeviceOfShotNameSound(name: string)
    ensures DeviceOfShotName(name).Some? ==> ShotName(DeviceOfShotName(name).value) == name
  {
    if DeviceOfShotName(name).Some? {
      var device := DeviceOfShotName(name).value;
      assert name == name[..|SHOT_PREFIX|] + device + name[|name| - |SHOT_SUFFIX|..];
    }
  }

  /** Distinct devices get distinct files; a device listed twice has its screenshot overwritten. */
  lemma OutputFileInjective(output: string, a: string, b: string)
    ensures OutputFile(output, a) == OutputFile(output, b) <==> a == b
  {
    ShotNameRoundTrip(a);
    ShotNameRoundTrip(b);
  }

  /** Iteration `i` completed for `device` with the recorded step. */
  ghost predicate Completed(step: Step, i: nat, device: string, output: string,
                            buildExit: nat -> int, windowsAt: nat -> seq<Capture.Window>)
  {
    && step.device == device
    && step.file == OutputFile(output, device)
    && buildExit(i) == 0
    && Capture.Screenshot(windowsAt(i), i == 0) == Success(step.shot)
  }

  /** Iteration `i`, for `device`, ended the run with `error`. */
  ghost predicate FailedAt(error: RunError, i: nat, device: string,
                           buildExit: nat -> int, windowsAt: nat -> seq<Capture.Window>)
  {
    if buildExit(i) != 0 then error == BuildFailed(device, buildExit(i))
    else Capture.Screenshot(windowsAt(i), i == 0).Failure?
         && error == ScreenshotFailed(Capture.WindowNotFound)
  }

  /**
   * Runs the loop over the devices of `doc`. `buildExit(i)` is the compiler's
   * exit status at iteration `i`, and `windowsAt(i)` the windows open when
   * its screenshot is taken. Returns the completed steps, in device order,
   * and the error that ended the run early, if any.
   */
  method TakeScreenshots(doc: Manifest.Document, output: string,
                         buildExit: nat -> int, windowsAt: nat -> seq<Capture.Window>)
    returns (steps: seq<Step>, failure: Option<RunError>)
    ensures doc.FileMissing? ==> steps == [] && failure == Some(ManifestFailed(Manifest.ManifestNotFound))
    ensures doc.NotWellFormed? ==> steps == [] && failure == Some(ManifestFailed(Manifest.MalformedManifest))
    ensures doc.Parsed? ==>
      var devices := Manifest.GetDevices(doc.root);
      && |steps| <= |devices|
      && (failure.None? <==> |steps| == |devices|)
      && (forall i :: 0 <= i < |steps| ==> Completed(steps[i], i, devices[i], output, buildExit, windowsAt))
      && (failure.Some? ==> FailedAt(failure.value, |steps|, devices[|steps|], buildExit, windowsAt))
    ensures forall i :: 0 <= i < |steps| ==> steps[i].shot.waitedForFocus == (i == 0)
  {
    steps, failure := [], None;
    var read := Manifest.ReadDevices(doc);
    if read.Failure? {
      failure := Some(ManifestFailed(read.error));
      return;
    }
    var devices := read.value;
    var waitForFocus := true;
    var i := 0;
    while i < |devices|
      invariant 0 <= i <= |devices|
      invariant |steps| == i
      invariant waitForFocus <==> i == 0
      invariant forall k :: 0 <= k < i ==> Completed(steps[k], k, devices[k], output, buildExit, windowsAt)
      invariant forall k :: 0 <= k < i ==> steps[k].shot.waitedForFocus == (k == 0)
    {
      var device := devices[i];
      var exitCode := buildExit(i);
      if exitCode != 0 {
        failure := Some(BuildFailed(device, exitCode));
        return;
      }
      var file := OutputFile(output, device);
      var shot := Capture.Screenshot(windowsAt(i), waitForFocus);
      if shot.Failure? {
        failure := Some(ScreenshotFailed(shot.error));
        return;
      }
      Capture.ScreenshotCorrect(windowsAt(i), waitForFocus);
      steps := steps + [Step(device, file, shot.value)];
      waitForFocus := false;
      i := i + 1;
    }
  }
}
