# garmin-screenshot, modelled in Dafny

`garmin_screenshot` is a script that takes a screenshot of a Connect IQ
application in the Garmin SDK simulator for each device it supports. It starts the
simulator and waits. It then reads the device list from the application's
`manifest.xml`. Then, for each device in turn, it builds and loads the application,
finds the simulator window, and captures that window into
`screenshot-<device>.png`.

This project models the decision logic of that script and proves what it
computes:

- `manifest.dfy` (module `Manifest`) covers device discovery (`get_devices`).
  The input is the already-parsed manifest: a tree of elements with qualified
  tags (`{namespace}local`), attributes and children. Discovery lists the
  descendants of the root in document (preorder) order. It keeps the
  `iq:product` elements of the namespace `http://www.garmin.com/xml/connectiq`.
  It returns their `id` values in order and skips missing or empty ids. It does
  not sort and does not deduplicate.
- `capture.dfy` (module `Capture`) covers window selection in `screenshot`.
  From the list of open windows it keeps those whose title contains
  `CIQ Simulator`. It fails when there is none and otherwise takes the first
  one. The capture region is `(left, top, right - left, bottom - top)`.
- `run.dfy` (module `Run`) covers the device loop of `main`. It is a method
  with a `while` loop. The loop keeps a `waitForFocus` flag that is true only
  on the first iteration. It appends one step per device: the device, the file
  `screenshot-<device>.png` in the output directory, and the capture. The run
  stops at the first failure: an unreadable manifest, a non-zero compiler exit
  status, or no simulator window. The manifest is read after the simulator
  has been started and the output and build directories created, so a
  manifest failure leaves those behind; the model covers only the steps.
- `wrappers.dfy` (module `Wrappers`) holds the `Option` and `Result` types.

The external processes are parameters of the loop, indexed by iteration. These
are the compiler's exit status and the list of windows open at each
screenshot.

## Model

| member | source | states |
|---|---|---|
| `Manifest.GetDevices` | garmin_screenshot/garmin_screenshot.py:24-28 | every returned device is non-empty, and there are at most as many as elements below the root; membership, counts, emptiness and order are stated by `GetDevicesMembership`, `GetDevicesCount`, `GetDevicesEmpty` and `DocumentOrder` |
| `Manifest.Descendants` | garmin_screenshot/garmin_screenshot.py:24 | every element the `.//` walk lists lies strictly below the root; `DescendantsExact` adds the converse |
| `Manifest.Subtrees` | garmin_screenshot/garmin_screenshot.py:24 | every element listed for a list of trees is one of them or lies below one; `SubtreesExact` adds the converse and `SubtreesAppend` the order |
| `Manifest.Products` | garmin_screenshot/garmin_screenshot.py:24 | the selection keeps only `iq:product` elements and never lengthens the list; `ProductsAppend` shows it keeps their order |
| `Manifest.PresentIds` | garmin_screenshot/garmin_screenshot.py:26-27 | every kept id is non-empty and there are at most as many ids as products; `DevicesOfMembership` and `DevicesOfCount` say exactly which ids and how many |
| `Manifest.ProductsAppend` | garmin_screenshot/garmin_screenshot.py:24 | selecting products distributes over concatenation, so the selection keeps document order |
| `Manifest.PresentIdsAppend` | garmin_screenshot/garmin_screenshot.py:26-27 | keeping present ids distributes over concatenation, so the ids keep the order of their products |
| `Manifest.ReadDevices` | garmin_screenshot/garmin_screenshot.py:20-28 | a missing manifest and a malformed manifest fail with their own error; a parsed one yields the devices of its root |
| `Manifest.DescendantsExact` | garmin_screenshot/garmin_screenshot.py:24 | the preorder listing used by `.//` holds exactly the elements strictly below the root, so the root itself never contributes |
| `Manifest.SubtreesExact` | garmin_screenshot/garmin_screenshot.py:24 | the listing of a list of trees holds exactly those trees and the elements below them |
| `Manifest.DevicesOfMembership` | garmin_screenshot/garmin_screenshot.py:24-28 | an id comes out of the product selection and the id filter exactly when some listed element is an `iq:product` whose `id` is that non-empty string |
| `Manifest.GetDevicesMembership` | garmin_screenshot/garmin_screenshot.py:22-28 | every returned device is non-empty and is the `id` of an `iq:product` element below the root, and every such id is returned; other tags and other namespaces never contribute |
| `Manifest.DevicesOfCount` | garmin_screenshot/garmin_screenshot.py:26-28 | over any element list, each id appears as often as elements declare it, and the length equals the number of products with a non-empty id |
| `Manifest.GetDevicesCount` | garmin_screenshot/garmin_screenshot.py:26-28 | no deduplication and no dropping: each device appears as often as product descendants declare it, and the length equals the number of product descendants with a non-empty id |
| `Manifest.GetDevicesEmpty` | garmin_screenshot/garmin_screenshot.py:22-28 | the result is empty exactly when no element below the root is an `iq:product` with a non-empty id |
| `Manifest.DocumentOrder` | garmin_screenshot/garmin_screenshot.py:24-28 | a root without children yields nothing, whatever its own tag and id; appending a child appends that child's own id, then the ids below it, after the earlier ones |
| `Manifest.OwnDevice` | garmin_screenshot/garmin_screenshot.py:27 | an element contributes nothing unless it is a product with a non-empty id, and then contributes that id exactly once |
| `Manifest.DevicesOfAppend` | garmin_screenshot/garmin_screenshot.py:24-28 | selecting products and keeping present ids distributes over concatenation, so document order is kept |
| `Manifest.SubtreesAppend` | garmin_screenshot/garmin_screenshot.py:24 | the preorder listing puts a later sibling and its descendants after everything in earlier siblings |
| `Manifest.IqElementIsProduct` | garmin_screenshot/garmin_screenshot.py:22-24 | an element of the Connect IQ namespace matches `iq:product` exactly when its local name is `product` |
| `Manifest.TestManifestOrder` | tests/test_garmin_screenshot.py:11-28 | the test manifest lists the application, the products element, the five products and the three other sections, in that order |
| `Manifest.TestManifestDevices` | tests/test_garmin_screenshot.py:35-42 | on the test manifest, discovery returns exactly `approachs60, approachs62, epix2, fr255, venu2` |
| `Capture.Contains` | garmin_screenshot/garmin_screenshot.py:125 | the empty text is found in every title, a text longer than the title never is, and a text as long as the title is found only when it equals the title; `ContainsCorrect` gives the full meaning |
| `Capture.ContainsCorrect` | garmin_screenshot/garmin_screenshot.py:125 | the title search succeeds exactly when the text occurs at some position of the title |
| `Capture.SimulatorWindowsCorrect` | garmin_screenshot/garmin_screenshot.py:125 | the filter keeps exactly the windows whose title contains `CIQ Simulator`; it is empty exactly when no title does; its head is the first such window in enumeration order |
| `Capture.SimulatorWindows` | garmin_screenshot/garmin_screenshot.py:125 | the filter keeps only windows of the list whose title contains `CIQ Simulator`, and never lengthens the list |
| `Capture.SimulatorWindowsMembers` | garmin_screenshot/garmin_screenshot.py:125 | the filter keeps exactly the windows whose title contains `CIQ Simulator` |
| `Capture.SimulatorWindowsFirst` | garmin_screenshot/garmin_screenshot.py:125-129 | the head of the filter is the first window in enumeration order whose title contains `CIQ Simulator` |
| `Capture.FindSimulator` | garmin_screenshot/garmin_screenshot.py:125-129 | an empty window list fails with WindowNotFound; a found window is one of the list and its title contains `CIQ Simulator` |
| `Capture.Screenshot` | garmin_screenshot/garmin_screenshot.py:125-140 | an empty window list fails; a capture focuses a listed simulator window, its region ends at that window's right and bottom edges, and it waits for focus exactly when asked; `ScreenshotCorrect` gives the iff and the first-match choice |
| `Capture.CaptureRegion` | garmin_screenshot/garmin_screenshot.py:137-140 | the region starts at the window's left and top and ends exactly at its right and bottom edges, so the region and the window's rectangle determine each other |
| `Capture.ScreenshotCorrect` | garmin_screenshot/garmin_screenshot.py:125-140 | a screenshot fails exactly when no window title contains `CIQ Simulator`; otherwise it focuses the first matching window, captures its whole rectangle, and waits for focus exactly when asked |
| `Capture.ScreenshotIgnoresLaterWindows` | garmin_screenshot/garmin_screenshot.py:125-129 | once a simulator window is found, windows enumerated after it do not change the screenshot |
| `Run.ShotName` | garmin_screenshot/garmin_screenshot.py:206 | the name is `screenshot-`, then the device, then `.png`, and nothing else |
| `Run.OutputFile` | garmin_screenshot/garmin_screenshot.py:206 | the file lies in the output directory and its name gives back the device |
| `Run.ShotNameRoundTrip` | garmin_screenshot/garmin_screenshot.py:206 | the device can be read back from its screenshot file name |
| `Run.DeviceOfShotNameSound` | garmin_screenshot/garmin_screenshot.py:206 | a file name that gives back a device is exactly `screenshot-<device>.png` |
| `Run.OutputFileInjective` | garmin_screenshot/garmin_screenshot.py:206 | two devices share an output file exactly when they are the same device, so a device listed twice overwrites its own screenshot |
| `Run.TakeScreenshots` | garmin_screenshot/garmin_screenshot.py:194-209 | a manifest failure ends the run with no step; otherwise there is one completed step per device in discovery order, each with file `screenshot-<device>.png` in the output directory, a zero compiler status and the screenshot of that iteration's windows; only step 0 waits for focus; the run stops early exactly at the first device whose build fails or that finds no simulator window, and reports that error |

## Left out

- Parsing the XML text is left out. The input is the parsed tree, or one of the two read failures (file missing, not well-formed).
- Joining the output directory and the file name into one path is not modelled. A device id containing a path separator would name a file in a sub-directory.
- Starting the simulator (garmin_screenshot.py:191) happens before the manifest is read, so it is outside the modelled loop. It fails only when starting the simulator program itself raises, for example when the program is missing or not executable. Its exit-status check at :49 reads the status right after the process is spawned, when it is not yet known, so that check never raises.
- Loading with `monkeydo` is left out. It is started through the shell (:102-109), so starting it does not fail, and its exit-status check at :111 never raises for the same reason as :49. The model therefore has no load failure.
- Only the compiler's exit status is modelled for the build. Its arguments, the build directory and the captured output text in the error message are left out.
- All sleeps are left out: the wait after starting the simulator, the wait after each build, and the one-second focus delay. The focus delay appears only as the `waitedForFocus` flag of each capture.
- Capture.Screenshot: the region is computed from the window's rectangle as enumerated. The script reads the rectangle again after activating the window and after the optional focus delay, so a window that moves or resizes when focused would be captured at its new position; the model does not capture that.
- Enumerating windows, activating a window, grabbing the screen and saving the image are left out. They are done by the windowing system. The window list of each iteration is an input. An exception raised while activating the window (:130), grabbing the screen (:140) or saving the image (:142) would end the run; the model has no such failure.
- Command-line parsing, creating the output and build directories, removing the build directory at the end, and progress output are left out.
