# blinkt-k8s-controller: the resource registry and its render pass

The controller shows Kubernetes pods or nodes on a Blinkt strip of eight LEDs.
Every tracked resource has a name, a colour and a state. The state is `added`,
`updated`, `deleted` (`removed` in `main.go`) or `unchanged`. The resources are
kept in arrival order, and an entry's position in that list is its pixel.

Every event that changes the list is followed by one render pass. An update for an unknown name, an update with the same colour, and a delete for an unknown name render nothing. A render pass works as follows:

- A left-to-right index sweep looks at each entry.
  - New or recoloured entries are flashed and then set.
  - Deleted entries are flashed and spliced out of the list. The loop index then steps back, so the entry that moved into the freed slot is handled in the same sweep.
  - Unchanged entries are set again.
- The pixels past the last entry are switched off.
- One `Show` ends the pass.

The repository holds three versions of this engine, and each is modelled in its own module:

| file | module | what differs |
|---|---|---|
| `main.go` | `Daemon` | Flashes use one fixed colour per state. The unchanged branch writes its pixel without checking that it is on the strip. `updatePod` does not return when the pod is unknown. |
| `lib/lib.go` | `Lib` | Flashes use the entry's own colour. Every hardware call is guarded by `i < 8`. The mutators report whether they changed anything. |
| `controller/controller.go` | `Controller` | Each entry carries the time of its last add or update. An entry older than three resync periods is forced to deleted during the pass. `Update` on an unknown name adds it. |

Two more modules are shared:

- `Blinkt` holds the strip vocabulary: the pixel count, the states, and the strip calls as events.
- `Registry` holds the resource list of `main.go` and `lib/lib.go`, which declare the same struct. It provides the lookup and the pure description of what a pass leaves behind.

How the model is built:

- Each engine is a class with a `resourceList: seq<Resource>` field. A ghost `strip` field records every call made on the LED strip.
- Each render method is the source's own loop, with the splice and the step back of the index.
- Each render method is proved against two specification functions:
  - `Survivors`: the non-deleted entries, in order, all marked unchanged;
  - `RenderTrace`: the calls of one pass.
- The properties of a pass are lemmas about those two functions:
  - order-preserving filter;
  - where each entry is flashed and set;
  - only pixels 0 to 7 are touched;
  - switch-off of the free pixels;
  - one final `Show`;
  - idempotence of a second pass.

The controller's pass is shown to be the library's pass over the list with its stale entries forced to deleted, so the library's lemmas carry over to it.

Colours are opaque strings that are only compared. Brightness is an opaque `real`. Clock readings are integer parameters.

A second `Add` for a tracked name does not update the existing entry: all three sources append a second entry, and lookups keep finding the first (`Registry.DuplicateAddKeepsFirst`).

## Model

| member | source | states |
|---|---|---|
| Registry.Find | main.go:171-178 | Gives the index of the first entry with that name, and every earlier entry has another name. Gives None exactly when no entry has the name. |
| Registry.SurvivorsAt | main.go:180-209 | A pass keeps exactly the non-deleted entries. Entry j lands at position Rank(list, j), settled to unchanged. The kept length is the number of live entries. |
| Registry.RankKeepsOrder | main.go:199-204 | A surviving entry lands before every later entry, so the splice keeps relative order. |
| Registry.SurvivorsOfSettled | main.go:205-207 | A pass over a list that is all unchanged leaves it as it is. |
| Registry.SurvivorsIdempotent | lib/lib.go:181-200 | A second pass with no event in between leaves the list of the first. |
| Registry.AddAppends | main.go:216-226 | Adding to a rendered list and rendering gives the old list plus the new entry, unchanged, at the end. |
| Registry.RecolorInPlace | main.go:250-254 | Recolouring entry j of a rendered list and rendering changes only that entry's colour. Its name and place stay. |
| Registry.DeleteSplices | main.go:264-265 | Marking entry j of a rendered list removed and rendering splices out exactly that entry. Later entries move one place forward. |
| Registry.DuplicateAddKeepsFirst | lib/lib.go:99-103 | Adding a tracked name creates a second entry at the end, and a lookup still finds the older one. |
| Registry.InPlaceIsFilter | lib/lib.go:178-201 | The in-place sweep, which splices and steps the index back, keeps the entries before the index and filters the rest in order. |
| Lib.StepSets | lib/lib.go:181-200 | An entry's calls set pixel p exactly when the entry is not deleted, p is its loop index, p < 8, and the colour and brightness are the entry's and the pass's. |
| Lib.SweepOnStrip | lib/lib.go:185-198 | The sweep makes only Flash and Set calls, and only for pixels from its start index up to 7. |
| Lib.SetOnlySurvivors | lib/lib.go:185-199 | Every Set of the sweep is for a pixel below 8. It writes the colour of the survivor at that position, at the pass's brightness. |
| Lib.SetEverySurvivor | lib/lib.go:185-199 | Every survivor whose position is below 8 is set there, in its colour. |
| Lib.FlashAt | lib/lib.go:190-195 | A pending entry is flashed in its own colour at its rank among the survivors (cascading promotion): an entry behind deleted ones is flashed further forward in the same pass. |
| Lib.FlashOnlyPending | lib/lib.go:181-199 | Conversely, every flash of the sweep is for a pending entry, in its colour, at its rank. An unchanged entry is never flashed. |
| Lib.StepAgain | lib/lib.go:196-199 | A settled entry makes the calls it made when pending, minus the flash. |
| Lib.SweepAgain | lib/lib.go:179-201 | Sweeping the survivors makes the first sweep's calls with every flash removed, in the same order. |
| Lib.RenderWindow | lib/lib.go:185-205 | Every call of a pass is for a pixel 0..7, or is the Show. The last call is Show, and no other call is. |
| Lib.RenderOffFill | lib/lib.go:202-204 | Pixel p is switched off exactly when len(survivors) <= p < 8. |
| Lib.RenderIdempotent | lib/lib.go:181-199 | A second pass keeps the list, flashes nothing, and makes the first pass's Set, Off and Show calls in order. |
| Lib.InPlaceSweeps | lib/lib.go:178-201 | The in-place loop makes the calls of the sweep over what remains of the list: no entry is skipped and none is seen twice. |
| Lib.InPlaceRenders | lib/lib.go:177-205 | The in-place loop, then the switch-off loop, then Show, leaves the survivors and makes exactly the calls of RenderTrace. |
| Lib.ControllerObj.GetResource | lib/lib.go:168-175 | Gives the index of the first entry with that name, or None. |
| Lib.ControllerObj.UpdateBlinkt | lib/lib.go:177-206 | The list becomes the survivors of the old list. The strip receives exactly RenderTrace of the old list. |
| Lib.ControllerObj.Add | lib/lib.go:99-103 | Always true. Appends an added entry, even for a tracked name, and renders. From a rendered list, the result is the old list plus the new entry. |
| Lib.ControllerObj.Update | lib/lib.go:105-114 | True exactly when the name is tracked and the colour differs. False leaves the list and strip alone. True recolours the first match, renders, and leaves that entry unchanged in place. |
| Lib.ControllerObj.Delete | lib/lib.go:116-124 | True exactly when the name is tracked. False leaves the list and strip alone. True marks the first match deleted, renders, and splices out exactly that entry. |
| Daemon.FlashColor | main.go:40-42 | The flash colour is "00FF00" exactly for added and "FF0000" exactly for removed entries. Updated entries get "000B87". |
| Daemon.StepSets | main.go:184-208 | An entry's calls set pixel p exactly when it is not removed and p is its index. The index need not be below 8 when the entry is unchanged. |
| Daemon.SweepFlashesOnStrip | main.go:185-204 | The sweep makes only Flash and Set calls, from its start index on. Every flash is below pixel 8. |
| Daemon.FlashAt | main.go:185-204 | A pending entry is flashed in its state's colour at its rank among the survivors. |
| Daemon.FlashOnlyPending | main.go:184-208 | Conversely, every flash of the sweep is for a pending entry, in its state's colour, at its rank. An unchanged entry is never flashed. |
| Daemon.SetOnlySurvivors | main.go:184-208 | Every Set of the sweep writes the colour of the survivor at that position, at the pass's brightness. |
| Daemon.SetEverySurvivor | main.go:184-208 | Every survivor whose position is below 8 is set there, in its colour. |
| Daemon.UnchangedSetAt | main.go:205-207 | An unchanged entry is set at its rank even when the rank is 8 or more. |
| Daemon.NinthEntryPastStrip | main.go:205-207 | With more than eight rendered entries, a pass with no event pending writes pixel 8, which the strip does not have. |
| Daemon.RenderWindow | main.go:186-213 | Flashes and switch-offs stay below pixel 8. The pass ends with its one Show. |
| Daemon.RenderOffFill | main.go:210-212 | Pixel p is switched off exactly when len(survivors) <= p < 8. |
| Daemon.SettledSweepQuiet | main.go:205-207 | Sweeping an all-unchanged list flashes nothing. |
| Daemon.SecondPassQuiet | main.go:180-213 | A second pass keeps the list and flashes nothing. Unlike the library's pass, its Sets need not be the first pass's Sets (see Daemon.SecondPassSetsPastStrip). |
| Daemon.SweepAppend | main.go:182-209 | The sweep over two lists in a row is the sweep over the first, then the sweep over the second starting at the index the first one's survivors reach. |
| Daemon.PendingPastStripUnwritten | main.go:186-190 | With eight or more rendered entries ahead of it, a pending entry is not written by the pass: its branch is guarded. |
| Daemon.PendingPastStripWrittenNext | main.go:205-207 | The next pass writes that entry's pixel, past the strip, because the entry is now unchanged and that branch is not guarded. |
| Daemon.SecondPassSetsPastStrip | main.go:186-207 | A second pass with no event in between writes a pixel that the first pass did not write. |
| Daemon.InPlaceSweeps | main.go:182-209 | The in-place loop makes the calls of the sweep over what remains of the list. |
| Daemon.InPlaceRenders | main.go:180-213 | The in-place loop, then the switch-off loop, then Show, leaves the survivors and makes exactly the calls of RenderTrace. |
| Daemon.BlinktDaemon.GetResource | main.go:171-178 | Gives the index of the first entry with that name, or None. |
| Daemon.BlinktDaemon.UpdatePixels | main.go:180-214 | The list becomes the survivors of the old list. The strip receives exactly RenderTrace of the old list. |
| Daemon.BlinktDaemon.Add | main.go:216-226 | Appends an added entry, even for a tracked name, and renders. From a rendered list, the result is the old list plus the new entry. |
| Daemon.BlinktDaemon.UpdateNode | main.go:242-255 | An unknown name or an identical colour leaves the list and strip alone. Otherwise it recolours the first match, marks it updated and renders. From a rendered list, only that entry's colour changes. |
| Daemon.BlinktDaemon.UpdatePod | main.go:228-240 | Faults exactly when the name is unknown. A fault changes nothing. A known name behaves as in UpdateNode. |
| Daemon.UnknownPodUpdateFaults | main.go:228-235 | An update for a pod that is not tracked faults. |
| Daemon.BlinktDaemon.Remove | main.go:257-277 | An unknown name leaves the list and strip alone. A known name is marked removed and rendered. From a rendered list, exactly that entry is spliced out. |
| Controller.Expire | controller/controller.go:160-162 | The loop treats an entry as deleted exactly when it is deleted or its timestamp is before the cutoff. Name, colour and timestamp are kept, and an entry that is not stale is left exactly as it is. |
| Controller.Survivors | controller/controller.go:156-186 | After a pass every remaining entry is unchanged and none is stale. |
| Controller.SurvivorsUntimed | controller/controller.go:158-186 | Without timestamps, the pass keeps what the library's pass keeps of the list with stale entries forced to deleted. |
| Controller.FreshListRendersAsLib | controller/controller.go:156-191 | When nothing is stale, the pass is exactly the library's pass. |
| Controller.LiveEntrySurvives | controller/controller.go:160-173 | A non-deleted entry that is not stale survives the pass, settled, with its timestamp. |
| Controller.SurvivorsIdempotent | controller/controller.go:156-186 | A second pass with the same cutoff leaves the list of the first. |
| Controller.RenderIdempotent | controller/controller.go:156-191 | A second pass with the same cutoff makes the first pass's calls with the flashes removed. |
| Controller.RenderWindow | controller/controller.go:169-190 | Every call of a pass is for a pixel 0..7, or is the one final Show. |
| Controller.RenderOffFill | controller/controller.go:187-189 | Pixel p is switched off exactly when len(survivors) <= p < 8. |
| Controller.StaleEntryEvicted | controller/controller.go:160-180 | A stale entry, whatever its state, is flashed at its rank when that is on the strip, and no stale entry survives. |
| Controller.InPlaceIsFilter | controller/controller.go:158-186 | The in-place sweep with the time-to-live check keeps the entries before the index and filters the rest in order. |
| Controller.InPlaceSweeps | controller/controller.go:158-186 | The in-place loop makes the library sweep's calls over what remains, with stale entries forced to deleted. |
| Controller.InPlaceRenders | controller/controller.go:156-191 | The whole in-place pass leaves the survivors and makes exactly the calls of RenderTrace. |
| Controller.ControllerObj.GetResource | controller/controller.go:147-154 | Gives the index of the first entry with that name, or None. |
| Controller.ControllerObj.UpdateBlinkt | controller/controller.go:156-191 | The list becomes the survivors of the old list at cutoff now - 3 * resyncPeriod. The strip receives exactly that pass's RenderTrace. |
| Controller.ControllerObj.Add | controller/controller.go:82-85 | Appends an added entry stamped `now` and renders at a separate clock reading, `renderTime`. The new entry ends last and unchanged when renderTime - now <= 3 * resyncPeriod. Otherwise it is evicted in that same pass, and the list is what the pass leaves of the old list. |
| Controller.ControllerObj.Update | controller/controller.go:87-100 | An unknown name behaves exactly as Add. The same colour only refreshes the timestamp to `now` and renders nothing. A new colour marks the entry updated, stamped `now`, and renders at `renderTime`. The recoloured entry survives, unchanged, when renderTime - now <= 3 * resyncPeriod. |
| Controller.ControllerObj.Delete | controller/controller.go:102-109 | An unknown name changes nothing. A known name is marked deleted and rendered. |
| Blinkt.OffFillCovers | lib/lib.go:202-204 | The switch-off run from n covers exactly the pixels n..7. |
| Blinkt.OffCallsFill | main.go:210-212 | The switch-off loop appends Off(i) for every pixel from its start up to 7, in order. |

## Left out

- Kubernetes informers, watches, clientsets, signal handling, `Watch` and `Run`: these are I/O and goroutine plumbing. Events reach the model as direct calls to the handlers.
- Configuration: environment parsing, `NewController` and the daemon's setup. Brightness and the resync period are constructor parameters.
- The Blinkt hardware library: the flash timing (two repeats, 50 ms), `Close` and `Cleanup`. Each call on the strip is an abstract event.
  - A flash records its pixel and colour only.
  - `SetPixelHex` followed by `SetPixelBrightness` in `main.go` is one `Set` event.
  - `SetPixel(i, 0, 0, 0)` in `main.go` and `Set(i, blinkt.Off, 0)` in the library versions are both `Off(i)`.
- Colour derivation (`getPodColor`, `getNodeColor`, `RatioToColor`, the heapster CPU ratio): floating point and Kubernetes object types. Colours arrive as opaque strings.
- nodes/nodes.go, pods/pods.go, pods.go and helpers/helpers.go are not part of this model. They are main-function glue and client construction.
- Logging has no effect on state and is left out.
- Pointers into the slice are modelled as indices into the sequence. The engines never keep such a pointer across a splice.
- Controller.ControllerObj.UpdateBlinkt: the source reads the clock once per entry. The model uses one reading for the whole pass, so entries cannot cross the cutoff partway through a pass. The timestamp that `Add` and `Update` write is a separate reading, `now`, and the pass's reading is `renderTime`. Nothing requires `renderTime >= now`, so the contracts hold whatever order the readings come in.
- Controller.Cutoff: `time.Duration` is a 64-bit count of nanoseconds. The model's integers do not overflow when the resync period is multiplied by three.
- Daemon.BlinktDaemon.UpdatePod: in Go the nil dereference panics the daemon. The model reports it as `faulted` and leaves the state as it was, so what happens after the panic is not modelled.
- The Go states are integers, and the switch has no default branch. The model's four-valued state excludes any other value.

## Findings

| source | as written | input that shows it | evidently intended | confidence | as-written member | corrected member |
|---|---|---|---|---|---|---|
| main.go:228-235 | `updatePod` logs a missing pod but does not return, then reads `resource.color` through the nil pointer | an update event for a pod name the daemon does not track, for instance on a daemon with an empty list | return after the log, as `updateNode` and `removePod` do | high, not executed | Daemon.BlinktDaemon.UpdatePod (faults: Daemon.UnknownPodUpdateFaults) | Daemon.BlinktDaemon.UpdateNode |
| main.go:205-207 | the `unchanged` branch calls `SetPixelHex` and `SetPixelBrightness` without the `i < 8` guard of the other branches | nine tracked resources, all rendered, then adding a tenth resource or recolouring one of the first eight | guard the branch like the others, as lib/lib.go:197-199 does | medium, not executed | Daemon.NinthEntryPastStrip, Daemon.SecondPassSetsPastStrip | Lib.RenderWindow |
