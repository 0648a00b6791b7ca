# Patriot canvas bot — a Dafny model

Patriot is a bot for a shared 1000 × 1000 pixel canvas. It does four things:

- It keeps a local mirror of the canvas, `art.Image`. The mirror is patched by a realtime websocket stream of 3-byte edits.
- It compares the mirror against target patterns: a pattern image anchored at an offset, the Estonian flag with cows, and the Estonian flag drawn by rule.
- It fixes the first wrong pixel it finds, issuing at most one draw per pass of the dispatch loop. Each draw then runs on its own, so several can be outstanding at once. The draws are paced by a fixed-window cost ledger of 30 points per 10 seconds. Painting over white costs 2 points and painting over any other colour costs 5.
- An older stand-alone program, `patriot.go`, checks a flag once against a snapshot and drains a FIFO retry queue.

The model has one Dafny module per Go file:

| module | Go file | form |
|---|---|---|
| `Art` | `art/art.go` | functions: palette, `Pixel`, bounds check, `SameColor` |
| `Canvas` | (abstract `art.Image`) | class `Image` over a version and a colour map; the packed key `x OR (y << 16)` |
| `Realtime` | `realtime/realtime.go` | decoder functions; the frame loop as methods over `Image` |
| `Resource` | `art/resource/resource.go` | class `Resource`; the nested scan as a method |
| `EstCows` | `art/estcows/estcows.go` | scan method with fixed constants |
| `EstFlag` | `art/estflag/estflag.go` | stripe-rule scan method |
| `Painter` | `painter/painter.go` | class `CycleLedger`; class `Dispatcher` with the in-flight map |
| `Patriot` | `patriot.go` | class `WorkQueue`; `CheckFlag` |

How Go's integers and bit operators are modelled:

- Bytes are `int`s in [0, 256).
- On non-negative values, `v & (2^k - 1)` is `v % 2^k`, `v << k` is `v * 2^k` and `v >> k` is `v / 2^k`.
- `|` is `Canvas.BitOr`, an unbounded two's-complement OR. `OrDisjoint` shows it is plain addition when the bits do not overlap.
- Go's truncating `/` is `Art.Quot`, everywhere the source divides, including the stripe switches inside the scan loops.
- The scan order shared by every reconciler and by `checkFlag`, x outer and y inner, is the one predicate `Art.Before`.

The clock is a `now` parameter. Each sleeping loop of the source is modelled as one step. A draw that runs in a goroutine in the source is split into two steps: `Dispatcher.DispatchStep` issues it and `Dispatcher.Complete` finishes it.

`art.Image` is defined in a file that is not part of this model. `Canvas.Image` gives it only what the modelled callers rely on:

- `Version`;
- `At`, which reports `Canvas.Unknown` (-2) for a coordinate never observed;
- `UpdatePixel`, which sets one coordinate and adopts the update's version.

`art.Transparent` is represented by -1. It is a constant of package `art` defined outside the modelled files, and the modelled files do not define `Unknown` either, so both sentinel values are choices of this model. The model takes `Transparent`, `Unknown` and the 16 palette colours to be pairwise distinct. Pattern images are never written after loading, so they are held as `CanvasState` values rather than as `Image` objects.

The edit group `01 04 32` decodes to x = 1, y = (0x04 >> 2) | ((0x32 & 0xF) << 6) = 129, colour 3 (`realtime/realtime.go:88-90`); `Realtime.DecodeExample` proves it.

## Model

| member | source | states |
|---|---|---|
| Art.PaletteIsNibbles | art/art.go:26-43 | the palette has 16 distinct entries, the i-th is i, each fits 4 bits, and Transparent is not among them |
| Art.ParseImage | art/art.go:51-61 | a snapshot is accepted iff it decoded and its bounds are exactly Min (0,0), Max (1000,1000); a decode failure and any other rectangle give the two distinct errors |
| Art.SameColor | art/art.go:63-67 | true iff the two RGBA samples are equal in all four components; patriot.go's sameColor (patriot.go:209-213) is the same comparison and is modelled by this member |
| Art.SameColorIsEquivalence | art/art.go:63-67 | SameColor is reflexive, symmetric and transitive |
| Canvas.Image.constructor | art/resource/resource.go:38 | a fresh mirror has version 0 ("no data yet") and no observed pixels |
| Canvas.Patch | realtime/realtime.go:66 | after a patch, the coordinate has the new colour, the version is the update's, and every other coordinate keeps its colour |
| Canvas.Image.UpdatePixel | realtime/realtime.go:66 | the mirror's new state is the Patch of its old state |
| Canvas.Image.Version | painter/painter.go:60 | reports the version the mirror last adopted (0 until the first update) |
| Canvas.Image.At | painter/painter.go:88 | reports the colour last recorded at the coordinate, and Unknown for a coordinate never observed |
| Canvas.PackKey | painter/painter.go:87 | for 0 <= x < 65536 the key x OR (y << 16) equals x + 65536·y |
| Canvas.PackKeyInjective | painter/painter.go:87 | for 0 <= x < 65536 distinct coordinates have distinct keys |
| Realtime.DecodeEdit | realtime/realtime.go:83-93 | x = b0 + 256·(b1 mod 4), y = b1 div 4 + 64·(b2 mod 16), color = b2 div 16; x, y < 1024 and color < 16 |
| Realtime.EncodeEdit | realtime/realtime.go:83-93 | every edit in [0,1024)×[0,1024)×[0,16) has a 3-byte group that decodes to it |
| Realtime.EncodeDecode | realtime/realtime.go:83-93 | every 3-byte group is the encoding of its own decoding, so the decoder is a bijection onto the wire range |
| Realtime.DecodeExample | realtime/realtime.go:88-90 | the group 01 04 32 decodes to x = 1, y = 129, colour Black |
| Realtime.LittleEndianU32 | realtime/realtime.go:62 | the version is an unsigned 32-bit value whose k-th byte from the bottom is byte k of the input, for k = 0..3 |
| Realtime.LittleEndianRoundTrip | realtime/realtime.go:62 | decoding four bytes and re-encoding the value gives the same bytes, and every 32-bit value is the decoding of its own bytes, so the decoder is a bijection |
| Realtime.EditsFromShape | realtime/realtime.go:63-70 | from offset i, there are floor((n-i)/3) edits and the k-th is the decoding of bytes i+3k .. i+3k+3; a short tail adds none |
| Realtime.ClassifyFrame | realtime/realtime.go:53-73 | exactly "reload" and exactly "refresh" are commands (checked before length, so "refresh" is never decoded); any other frame under 7 bytes is dropped; a longer one carries LE-u32 version and floor((n-4)/3) >= 1 edits in offset order |
| Realtime.ApplyEditsEffect | realtime/realtime.go:63-70 | after a batch, an untouched coordinate keeps its colour, a touched one shows the last edit there, and a non-empty batch leaves the frame's version |
| Realtime.HandleMessage | realtime/realtime.go:53-73 | one frame's classification is returned and the mirror becomes the frame's edits applied in offset order; commands and short frames change nothing |
| Realtime.ReadLoop | realtime/realtime.go:47-74 | frames are applied in order up to the first command, which ends the loop and needs a resync; no earlier frame was a command |
| Resource.FirstWorkUnique | art/resource/resource.go:56-68 | the first correction in column-major order is unique, so the scan's result is determined by its inputs |
| Resource.ScanTarget | art/resource/resource.go:56-71 | None iff every box coordinate is ignored, transparent or matching; otherwise the first such mismatch in column-major order, in the box, not ignored, not transparent, with the target's colour, differing from the canvas |
| Resource.Resource.New | art/resource/resource.go:33-52 | the pattern is kept and the box is [x, x+w-1]×[y, y+h-1], so it spans w columns and h rows |
| Resource.Resource.GetWork | art/resource/resource.go:55-72 | None iff the pattern is satisfied; a returned pixel is the first column-major mismatch, in [x0,x1]×[y0,y1], not ignored, not transparent, equal to the target at (x-x0, y-y0), different from the canvas |
| EstCows.GetWork | art/estcows/estcows.go:41-58 | the same scan over [74,108]×[35,57]: None iff satisfied; a pixel is the first mismatch, not ignored, not transparent, equal to the cows pattern at (x-74, y-35), different from the canvas |
| EstFlag.StripeRows | art/estflag/estflag.go:35-51 | every row of the box has a stripe colour: 900-906 DarkBlue, 907-913 Black, 914-920 White |
| EstFlag.GetWork | art/estflag/estflag.go:26-55 | None iff every non-ignored pixel of [740,772]×[900,920] has its stripe colour; otherwise the first column-major mismatch, not ignored, carrying its stripe colour, which differs from the canvas |
| Painter.DrawCallCost | painter/painter.go:115-127 | 2 exactly when painting over White, 5 exactly otherwise; never more than 5 |
| Painter.CycleLedger.constructor | painter/painter.go:129-130 | the ledger globals start at cycleCost 0 and cycleStart 0, so the first admission opens a fresh window |
| Painter.CycleLedger.AddCycleCost | painter/painter.go:133-138 | cycleCost grows by exactly cost, cycleStart is unchanged and returned |
| Painter.CycleLedger.RemoveCycleCost | painter/painter.go:140-146 | cost is subtracted only when start is the current window; a refund for an older window changes nothing |
| Painter.AdmitStep | painter/painter.go:148-171 | an expired window (start + 10 <= now) is reset to (0, now) and admits; otherwise the ledger is unchanged and the move is admitted iff 30 - cycleCost >= 5; an admitted move always has room for a 5-point draw |
| Painter.CycleLedger.TryAdmit | painter/painter.go:148-171 | one iteration of sleepUntilNextMove updates the ledger and answers exactly as AdmitStep |
| Painter.Settle | painter/painter.go:92-96 | a failure other than 403 refunds the draw's charge; success and 403 keep it |
| Painter.LedgerInvBounds | painter/painter.go:116-119 | under the ledger invariant 0 <= cycleCost <= 30 |
| Painter.AdmitPreserves | painter/painter.go:153-166 | an admission step preserves the ledger invariant, because a new window starts after every window already charged |
| Painter.ChargePreserves | painter/painter.go:89 | charging at most 5 points right after an admission preserves the invariant and records the draw as in flight |
| Painter.SettlePreserves | painter/painter.go:92-96 | completing any in-flight draw, with any outcome, preserves the invariant |
| Painter.AddKey | painter/painter.go:87 | issuing a draw with a fresh key adds exactly that key to the in-flight keys, which stay distinct |
| Painter.RemoveKey | painter/painter.go:100-102 | completing a draw removes exactly its key from the in-flight keys, which stay distinct |
| Painter.FindWork | painter/painter.go:79-84 | patterns are asked in list order and the first pixel proposed wins; None iff no pattern has work; the pixel is never in flight |
| Painter.Dispatcher.constructor | painter/painter.go:56 | the dispatcher starts with an empty in-flight map and no draws outstanding |
| Painter.Dispatcher.WithinBudget | painter/painter.go:116-119 | between steps the window's cost is within [0, 30] |
| Painter.Dispatcher.DispatchStep | painter/painter.go:58-106 | NoData exactly when the canvas version is 0; a draw is always issued when the version is non-zero, the window admits and some pattern has work; Waiting iff admission fails; Idle only when no pattern has work; an issued draw is the first pattern's pixel, was not in flight, is put in flight under x OR (y << 16), costs DrawCallCost of the canvas colour and is charged to the admitted window; the invariant is kept |
| Painter.Dispatcher.Issue | painter/painter.go:86-88 | the pixel goes in flight under x OR (y << 16), the current window is charged the cost, the draw joins the outstanding ones with the window's start, and the invariant is kept |
| Painter.Dispatcher.Complete | painter/painter.go:90-103 | the ledger is settled by the 403 policy, the pixel's key leaves the in-flight map, and the draw leaves the outstanding set; the invariant is kept |
| Patriot.StripeRows | patriot.go:191-204 | rows 36-42 want Blue (13), 43-49 Black (3), 50-56 White (0), each with its RGBA64 reference colour |
| Patriot.CheckFlag | patriot.go:179-207 | the items appended are exactly the pixels of [75,107]×[36,56] whose colour is not their stripe's reference, each with its stripe's colour, in strict column-major order; the old queue is kept as a prefix |
| Patriot.OrderedUnique | patriot.go:187-188 | two strictly column-major sequences with the same items are equal, so CheckFlag's contract determines what it appends |
| Patriot.WorkQueue.constructor | patriot.go:101 | the queue starts empty |
| Patriot.WorkQueue.AddToQueue | patriot.go:125-129 | the item is appended at the tail and earlier items are unchanged |
| Patriot.WorkQueue.ExecuteStep | patriot.go:104-123 | an empty queue is left alone and nothing is drawn; otherwise the head is popped and drawn, and re-appended at the tail if the draw failed |
| Patriot.QueueStepFailure | patriot.go:112-118 | a failed draw rotates the queue: the multiset of items is unchanged and the old head is now last |
| Patriot.QueueStepSuccess | patriot.go:108-110 | a successful draw removes exactly the head and keeps the rest in order |

## Left out

- Websocket dial, reconnect and the `Shutdown` close handshake with its one-second timeout (`realtime/realtime.go`) are network I/O and concurrency. A read error is represented by the end of the frame sequence in `Realtime.ReadLoop`.
- Goroutines, mutexes, `time.Sleep`, `time.Now` and the 5-second settle delay are left out. Steps are modelled sequentially, and time is the `now` parameter.
- The shutdown flag checked by `Work` and the hot-spin sleep are left out, because they are process lifecycle.
- PNG decoding and file reads are I/O. This covers `png.Decode`, `ioutil.ReadFile`, the `init` of estcows, `ParseKeyframe` and `Dimensions`. The model receives their results as parameters: the decoded bounds, the pattern state, and w and h.
- `color.Color.RGBA()` is a library call. Colours are 4-tuples of the values it reports.
- The implementation of `art.Image` (keyframe parsing, palette classification, version warnings) is not part of this model. `Canvas.Image` is abstract.
- `CheckPixel` in resource.go, estcows.go and estflag.go is left out. Its body is an empty `if`, so it has no effect.
- `main`, `fetchAndCheck`, `drawPixel`, `fetchImage`, `getTestImage` and `parseImage` in `patriot.go` are I/O and process lifecycle. `parseImage` is the same bounds check as `Art.ParseImage`.
- `sp/sp.go` and `work/work.go` are the HTTP client and the driver loop. They are not part of this model.
- Logging is left out.
- Canvas.PackKey: Go's `x | (y << 16)` on a 64-bit int wraps for huge y. The model uses unbounded integers, and `PackKey`'s contract and the injectivity lemma assume 0 <= x < 65536.
- Painter.Dispatcher.DispatchStep: the endless `for` of `Work` is one step per call. Repeating the step is left to the caller.
- Patriot.WorkQueue.ExecuteStep: the result of `drawPixel` is the `drawFailed` parameter. The endless loop and its one-second sleep are one step per call.
