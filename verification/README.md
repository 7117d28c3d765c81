# BMX8bit: a verified model of its own algorithms

BMX8bit is a bare-metal emulator shell. This project models the parts of it in
which a fast, cached or concurrent form has to agree with a simple one, and
proves that it does. `dafny verify dfyconfig.toml` checks everything.

| Component | Files | What is proved |
|---|---|---|
| Software compositor with dirty rectangles and two scanout buffers | `Sampling`, `PixelFormat`, `Composition`, `DrawnPixel`, `FrameBufferLayer`, `DirtyRegion`, `Compositor` | Over any run, incremental composition equals a full redraw, on the surface and on every buffer handed to scanout. |
| Status-plane row cache | `PaletteSignature`, `StatusPlane` | The cache shows in the picture only after a palette change that it missed, and which changes of one or two colours it misses; exactly the rows that changed are flushed. |
| Bounded file cache over FatFs | `FatFile`, `PlainFile`, `FileCache` | Direct, cached and spilled descriptors all refine one byte array with a cursor; fsync and close make it durable. |
| Asynchronous network slots | `ByteQueue`, `ConnectionSlot`, `SlotVisit`, `AsyncNet` | In all interleavings byte streams are intact, sockets have one owner, live handles protect their slot, stopped slots are freed. |
| Cross-core hand-offs | `Core0Mailbox`, `SidWorker` | In all interleavings each request runs once and its caller gets its result; no lost wake-up; exclusive use of the shared record. |
| Keyboards | `Bits`, `KeyboardState`, `KeyTrace`, `KeyboardDispatch` | The aggregate is the union of the latest reports; over whole traces presses and releases pair up and suppression holds. |
| Mouse | `Bits`, `Mouse` | What emulator, menu and monitor are told over whole runs, including who must see a release first. |
| Device path policy and stage planner | `Strings`, `DeviceMatcher`, `DevicePolicy`, `DeviceProjection`, `DeviceMeaning`, `FatPath`, `StagePlan`, `PlanMeaning` | The overlap decision is exact, normalization keeps meaning, accepted layouts are board independent, plans are FAT-safe. |

Objects that the source updates in place are classes, pixel surfaces and rings
are arrays, and its loops are loops. The protocols that run on several cores or
between locks (`ConnectionSlot`, `AsyncNet`, `Core0Mailbox`, `SidWorker`) are state
machines over values: one step is one critical section, one atomic access, one
semaphore operation or one call to the network, and steps of different parties
interleave freely. Their states carry histories (bytes delivered, requests issued,
sockets closed) so that a property of whole runs can be read off a state.
The queues inside a connection slot are sequences that the steps append to and
take from as the methods of `ByteQueue` are proved to do.

## Where the code and its own promises differ

- `Core0Mailbox::RequestAndWait` says that the result has been consumed before the
  mailbox is idle again; in fact callers read the result after the idle store.
  The model follows the code. With a single requester this is safe, and
  `CoresTakeTurns` says why: core 0 touches the record only while a request is pending.
- `_lseek` returns an unsigned position through an `int`. A seek that succeeds reports its
  position if and only if that is at most INT_MAX, so always in a file of at most INT_MAX
  bytes (`PlainFile.PositionIsReported`); beyond it the caller sees a failure
  (`PlainFile.PositionIsMisreported` is such a seek).
- `SetTransparency` does not mark the layer dirty. What is known of the composition stays
  true if and only if there is no valid composition, the layer is hidden, its transparency
  does not really change, or it has been marked dirty since its snapshot was taken
  (`Compositor.SoftwareCompositor.SetTransparency`). Otherwise the screen can stay wrong:
  `Compositor.StaleAfterSetTransparency` is a present, a change of transparency and a
  second present after which the surface is not the full redraw. The program itself calls
  it only at src/kernel.cpp:785-795, during setup, when nothing has been composed.
- A single-star device pattern is matched by prefix and suffix separately. It means what
  its glob means if and only if no nonempty end of the prefix is the beginning of the
  suffix (`DeviceMatcher.StarIsGlobIff`); `ab*b` accepts the file `ab`.
- A mouse button that is down in a report to the emulator and still down when the menu
  takes over is shown to the menu as pressed if and only if, before those reports, another
  consumer had the mouse or the button was being suppressed
  (`Mouse.HeldButtonReachesMenuIff`, with a run in `Mouse.HeldFromMenuToMenu`).
- `_open` with `O_APPEND` and `O_TRUNC` together does not truncate; for a nonempty file
  opened for writing only it fails, because the file is then to be cached and cannot be read.
- The status plane shows the wrong colours exactly when a call converts only some rows and
  a row that it keeps did not show them before (`StatusPlane.StatusPlane.CopyStatusLayer`).
  It notices a palette change by a 32-bit signature. A change of one colour is always
  noticed (`PaletteSignature.SingleChangeIsNoticed`). A change of two colours goes unnoticed
  for exactly one choice of the second, whatever the palette, the places and the first
  (`PaletteSignature.TwoChangesCanCancel`); then the old colour stays on the screen
  (`StatusPlane.MissedPaletteChange`).
- `SetSrcRect` stores any rectangle. The unfiltered loop clamps to the framebuffer, but the
  filtering loop clamps to the rectangle itself: it reads only texels of the framebuffer,
  on every pixel of the destination, if and only if the rectangle does not begin to its
  left or above it (`Composition.FilteringStaysInsideIff`). `Composition.OneColumnOutside`
  reads column -1, which lies before the row.
- The projection knows no boards. Its scope check makes an accepted layout board independent
  on paths without an exact rule, and skips exact rules (tools/sd_layout.py:1791, 1795),
  leaving their paths to a second validator (tools/sd_layout.py:1787, 1939) that compares the
  modes of staged files. The scope check alone is enough on all paths if and only if each
  exact rule agrees, on its own path, with the board it was not written for
  (`DevicePolicy.BoardIndependentIff`, `DeviceProjection.ProjectionAnswersEachBoardIff`);
  `DevicePolicy.ExactRulesAreNotScoped` is an accepted pair that does not agree.

## Model

| member | source | states |
|---|---|---|
| Sampling.StepBounds | src/fbl_native_kms.cpp:2446-2447 | The 16.16 step is the exact ratio rounded down: `step*dst <= src*65536 < (step+1)*dst`, for all sizes. |
| Sampling.IndexInside | src/fbl_native_kms.cpp:1612-1622 | For every source and destination length and every pixel of the destination span, the sampled index lies inside the source span. |
| Sampling.IndexNeverOvershoots | src/fbl_native_kms.cpp:1612-1622 | The sampled index never lies past the exact position `i*src/dst`. |
| Sampling.IndexMonotone | src/fbl_native_kms.cpp:1612-1622 | A later destination pixel never samples an earlier source texel. |
| Sampling.IndexUnscaled | src/fbl_native_kms.cpp:2446-2447 | With equal lengths the step is 1.0 and sampling is a plain offset. |
| Sampling.AccumulatedClosedForm | src/fbl_native_kms.cpp:1617-1622 | Whatever the clip start, the coordinate that both draw loops accumulate equals the closed form for that pixel. |
| PixelFormat.LerpBetween | src/fbl_native_kms.cpp:670-672 | Interpolation with an 8-bit fraction stays between its end points. |
| PixelFormat.BilinearChannelBelow | src/fbl_native_kms.cpp:704-756 | A bilinear channel never exceeds a bound that its four inputs obey, so it cannot spill into its neighbour. |
| PixelFormat.Bilinear565Channels | src/fbl_native_kms.cpp:704-725 | The packed bilinear RGB565 result has exactly the three interpolated channels, each in its own field. |
| PixelFormat.Rgb565RoundTrip | src/fbl_native_kms.cpp:648-668 | Widening RGB565 to ARGB8888 and narrowing it again gives back the same 16 bits, for every colour. |
| PixelFormat.BlendBetween | src/fbl_native_kms.cpp:773-796 | An alpha-blended channel lies between the two colours for every alpha and equals them at its ends. |
| PixelFormat.WideningByField | src/fbl_native_kms.cpp:658-668 | Red, green and blue each go to their own byte, with their top bits repeated below them, and the result is opaque. |
| PixelFormat.NarrowingByField | src/fbl_native_kms.cpp:648-656 | The top bits of red, green and blue each go to their own field. |
| PixelFormat.LerpIsNearest | src/fbl_native_kms.cpp:670-672 | An interpolated channel is the weighted mean rounded to nearest. |
| PixelFormat.BilinearIsWeighted | src/fbl_native_kms.cpp:704-756 | A filtered channel is within one level of the mean of its four texels weighted by distance. |
| PixelFormat.BilinearOnGrid | src/fbl_native_kms.cpp:704-756 | On a row or a column of texels it is interpolated along it, and on a texel it is that texel's. |
| PixelFormat.BilinearArgbChannels | src/fbl_native_kms.cpp:727-756 | The packed bilinear ARGB result has exactly the four interpolated channels, each in its own byte. |
| PixelFormat.BlendIsNearest | src/fbl_native_kms.cpp:773-777 | A blended channel is the mean weighted by the alpha, rounded to nearest. |
| PixelFormat.BlendByChannel | src/fbl_native_kms.cpp:779-796 | Alpha 0 leaves the pixel, 255 replaces it, and otherwise each channel is blended with its own and the result is opaque. |
| PixelFormat.BlendNarrowed | src/fbl_native_kms.cpp:766-796 | Blending in 16 bits is blending the widened pixel, narrowed again. |
| Composition.ClampNeverFires | src/fbl_native_kms.cpp:1612-1622 | When the source rectangle lies in the layer, the clamp of the nearest sampler changes nothing. |
| Composition.UnscaledIsCopy | src/fbl_native_kms.cpp:1612-1639 | A layer drawn at its own size shows texel (src.x+i, src.y+j) at pixel (dst.x+i, dst.y+j). |
| Composition.FilteringStaysInsideIff | src/fbl_native_kms.cpp:1652-1674 | On every pixel of the destination both filtered columns lie in the framebuffer if and only if the source rectangle does not begin to the left of it; so for rows and its upper edge. |
| Composition.OneColumnOutside | src/fbl_native_kms.cpp:1666-1674 | A source rectangle that begins one column too early is filtered from column -1, and sampled without filtering from column 0. |
| Composition.ZOrderUnique | src/fbl_native_kms.cpp:813-826 | With distinct z there is only one listing of the showing layers in z-order, so "the" full redraw is well defined. |
| Composition.OnlyCoveringMatters | src/fbl_native_kms.cpp:2433-2458 | A pixel of the full redraw depends only on the layers whose destination covers it, in order. |
| Composition.CoveringPartOrdered | src/fbl_native_kms.cpp:2433-2458 | The part of a z-ordered list that covers a pixel is itself in z-order. |
| Composition.UntouchedPixelUnchanged | src/fbl_native_kms.cpp:2385-2429 | If, at a pixel, every slot shows the same content before and after, the two full redraws agree there: what the dirty rectangle may leave alone. |
| DrawnPixels.NothingDrawn | src/fbl_native_kms.cpp:2432-2446 | Outside its destination, or with nothing to draw, a layer leaves a pixel alone. |
| DrawnPixels.NearestTexelDrawn | src/fbl_native_kms.cpp:1605-1643 | Without filtering a pixel shows the texel at the scaled place: an RGB565 word as it is, an index through the opaque palette, or, transparent, through the ARGB palette and not at all at alpha 0, in the depth of the framebuffer. |
| DrawnPixels.UnscaledTexelDrawn | src/fbl_native_kms.cpp:1605-1643 | An unscaled layer shows its texels one for one in that sense. |
| DrawnPixels.FractionIsTopBits | src/fbl_native_kms.cpp:1655-1672 | The fraction is the top eight of the sixteen bits after the point. |
| DrawnPixels.MeanDrawn | src/fbl_native_kms.cpp:1645-1709 | With filtering a pixel shows the mean of the texel at the scaled place and its right and lower neighbours, none beyond the source rectangle, blended if the layer is transparent. |
| DrawnPixels.MeanAtTexel | src/fbl_native_kms.cpp:704-756 | At fractions 0 the mean is the first texel. |
| DrawnPixels.MeanAlongEdge | src/fbl_native_kms.cpp:704-756 | At fraction 0 of either direction the texels on the other side do not count. |
| DrawnPixels.HighestLayerShows | src/fbl_native_kms.cpp:2430-2458 | The picture shows the texel of the highest layer at a pixel, over the picture of the layers below it. |
| DrawnPixels.NothingShows | src/fbl_native_kms.cpp:2417-2431 | A pixel at which nothing shows is black. |
| DrawnPixels.ZOrderExists | src/fbl_native_kms.cpp:813-826 | Layers with distinct z have a z-order, so the full redraw is never vacuous. |
| FrameBufferLayers.EditIsNoticed | src/fbl_native_kms.cpp:1764-1769 | Every edit of a showing layer that can change its picture raises its content generation or changes its z, destination or visibility: the snapshot comparison cannot miss it. |
| FrameBufferLayers.EditTakesEffect | src/fbl_native_kms.cpp:2093-2301 | Each edit changes the parts of the layer that it names to the values it gives, and no others. |
| FrameBufferLayers.FrameBufferLayer.MarkDirty | src/fbl_native_kms.cpp:1764-1769 | Raises the content generation by one and changes nothing else (generation unbounded). |
| FrameBufferLayers.FrameBufferLayer.Allocate | src/fbl_native_kms.cpp:2093-2142 | New pixel memory with the given texels and full-size rectangles; z, visibility and palettes are kept, and the layer is marked dirty. |
| FrameBufferLayers.FrameBufferLayer.Free | src/fbl_native_kms.cpp:2172-2191 | The layer loses its memory and stops showing; its generation is not raised. |
| FrameBufferLayers.FrameBufferLayer.Show | src/fbl_native_kms.cpp:2193-2288 | Starts showing at the computed place and marks dirty, unless the layer was already showing. |
| FrameBufferLayers.FrameBufferLayer.Hide | src/fbl_native_kms.cpp:2290-2301 | Stops showing and changes nothing else; the generation is raised by the present that follows (`Apply`). |
| FrameBufferLayers.FrameBufferLayer.SetSrcRect | src/fbl_native_kms.cpp:2666-2672 | Stores any source rectangle and marks dirty; the layer can be drawn by either loop if and only if the rectangle does not begin before the framebuffer. |
| FrameBufferLayers.FrameBufferLayer.Apply | src/fbl_native_kms.cpp:2303-2331 | Each edit method leaves exactly the record that the edit function gives. |
| DirtyRegion.AddCovers | src/fbl_native_kms.cpp:110-131 | Adding a box covers everything the rectangle covered before and the part of the box on the screen. |
| DirtyRegion.AddIsLeast | src/fbl_native_kms.cpp:110-131 | It is the least such rectangle: any rectangle covering both contains it. |
| Compositor.NearestFrom | src/fbl_native_kms.cpp:1612-1639 | The texel that the accumulating, clamping loop reads at a pixel is the one the picture asks for at that pixel. |
| Compositor.FilteredFrom | src/fbl_native_kms.cpp:1645-1709 | The same for the four texels and two fractions of the filtering loop. |
| Compositor.SoftwareCompositor.DrawLayerNearest | src/fbl_native_kms.cpp:1605-1643 | Exactly the pixels of the given part change, each to the layer drawn over what was there; for any clip start. |
| Compositor.SoftwareCompositor.DrawLayerBilinear | src/fbl_native_kms.cpp:1645-1709 | The same with bilinear filtering. |
| Compositor.SoftwareCompositor.DrawLayer | src/fbl_native_kms.cpp:2432-2459 | Inside the dirty rectangle every pixel becomes the layer drawn over it; outside nothing changes. |
| Compositor.SoftwareCompositor.ComposeDirty | src/fbl_native_kms.cpp:2417-2459 | Inside the dirty rectangle the surface becomes the rendering of the list from scratch; outside nothing changes. |
| Compositor.SoftwareCompositor.SortLayers | src/fbl_native_kms.cpp:813-826 | The listing is a permutation of itself, lowest z first. |
| Compositor.SoftwareCompositor.ActiveLayers | src/fbl_native_kms.cpp:2355-2367 | The list drawn is the showing layers in z-order. |
| Compositor.SoftwareCompositor.ComputeDirty | src/fbl_native_kms.cpp:2385-2416 | In a sound composition, at every pixel outside the dirty rectangle each slot agrees with what was composed; an invalid one dirties the whole screen; nothing is dirty when nothing compared has changed. |
| Compositor.SoftwareCompositor.UpdateSurface | src/fbl_native_kms.cpp:2385-2475 | After clearing and redrawing only the dirty rectangle of a sound composition, the surface is the from-scratch rendering of all showing layers, the snapshots describe it, and each buffer agrees with it outside what it now owes. |
| Compositor.SoftwareCompositor.SettlePending | src/fbl_native_kms.cpp:2481-2498 | Copying the pending rectangle makes the back buffer equal to the surface everywhere, and nothing is owed to it any more. |
| Compositor.SoftwareCompositor.SoftwarePresent | src/fbl_native_kms.cpp:2385-2501 | From a sound composition, whether or not scanout succeeds, the surface and the buffer offered to scanout are the full redraw and the composition stays sound; and if nothing compared has changed the surface is left alone, sound or not. |
| Compositor.SoftwareCompositor.PresentLayerList | src/fbl_native_kms.cpp:2327-2513 | All four outcomes (fence failure, V3D, direct scanout, software) keep a sound composition sound; those that drew elsewhere invalidate it. |
| Compositor.SoftwareCompositor.CaptureRgb888 | src/fbl_native_kms.cpp:2522-2616 | A capture may leave anything on the surface, and invalidates the composition. |
| Compositor.SoftwareCompositor.ApplyEdit | src/fbl_native_kms.cpp:1764-1769 | Editing a registered layer keeps the invariant: what the snapshots claim about unchanged layers stays true. |
| Compositor.SoftwareCompositor.Run | src/fbl_native_kms.cpp:2327-2513 | Over any run of registrations, edits, moves, shows, hides, interpolation switches, captures and presents, a software present leaves the surface equal to the full redraw and hands an equal buffer to scanout, whether or not scanout takes it. |
| Compositor.SoftwareCompositor.HighestLayerOnScreen | src/fbl_native_kms.cpp:2327-2513 | Where the surface is the full redraw, it shows at each pixel the texel of the unscaled layer that is highest there, over what the layers below it show. |
| Compositor.SoftwareCompositor.SetTransparency | src/fbl_native_kms.cpp:2662-2664 | Changing the transparency unmarked keeps the invariant if and only if there is no valid composition, the layer is hidden, the value is the same, or the snapshot is of another layer or generation. |
| Compositor.StaleAfterSetTransparency | src/fbl_native_kms.cpp:2662-2664 | A run that shows it fail: present, change of transparency, present, and the surface is not the full redraw. |
| PaletteSignature.PaletteSignatureArgb | src/fbl_native_kms.cpp:336-343 | The loop computes the signature, in 32-bit arithmetic. |
| PaletteSignature.FirstSignatures | src/fbl_native_kms.cpp:336-343 | The signatures of no colour and of one zero colour. |
| PaletteSignature.SingleChangeIsNoticed | src/fbl_native_kms.cpp:336-343 | Changing one colour keeps the signature if and only if the colour is the same. |
| PaletteSignature.TwoChangesCanCancel | src/fbl_native_kms.cpp:336-343 | For any palette, two places and new colour in the first, exactly one colour in the second keeps the signature. |
| StatusPlane.StatusPlane.EnsureShadow | src/fbl_native_kms.cpp:345-380 | Keeps a snapshot of the right size; otherwise drops it, and starts a new one, not valid, exactly if there is memory for it. |
| StatusPlane.StatusPlane.ConvertRows | src/fbl_native_kms.cpp:382-400 | Exactly the given rows become the palette applied to the window. |
| StatusPlane.StatusPlane.CopyChanged | src/fbl_native_kms.cpp:444-469 | Afterwards the snapshot holds the window; a row lies in a flushed range if and only if it differed from the snapshot, and shows the window if and only if it differed or showed it before. |
| StatusPlane.StatusPlane.CopyStatusLayer | src/fbl_native_kms.cpp:402-476 | Each row of the buffer equals the palette applied to the current row if and only if all rows were converted or the kept rows showed that already; they do when nobody else wrote the plane and equal signatures mean equal palettes. The flushed rows are all, or exactly those that differ from the snapshot. The snapshot afterwards is usable for this window and signature exactly if it had this size or there was memory, and then holds the window. |
| StatusPlane.StatusPlane.Run | src/fbl_native_kms.cpp:402-476 | Over any run of calls without a signature collision or another writer, every call leaves the buffer showing its window through its palette, whatever the windows, forced calls and memory shortages. |
| StatusPlane.StatusPlane.ShowsByte | src/fbl_native_kms.cpp:382-400 | A window is shown when each pixel has the colour of the byte at its row and column of the source, counted with the pitch. |
| StatusPlane.MissedPaletteChange | src/fbl_native_kms.cpp:336-343 | Whatever the palette, the shown index below 255 and its new colour: two calls, with the signatures of the palettes they are given, after which the pixel still has the old colour. |
| StatusPlane.FlushRange | src/fbl_native_kms.cpp:448-468 | Closing the open range flushes exactly its rows. |
| FatFile.SpliceTwice | src/new_io.cpp:654-672 | Writing in two pieces is writing once. |
| FatFile.SpliceAt | src/new_io.cpp:986-1045 | Byte by byte what a write leaves: the data inside its range, the old bytes elsewhere. |
| FatFile.ReadExact | src/new_io.cpp:634-652 | Reads exactly the bytes asked for and terminates, however short each transfer is. |
| FatFile.WriteExact | src/new_io.cpp:654-672 | Writes exactly the given bytes and terminates, however short each transfer is. |
| PlainFile.PositionIsReported | src/new_io.cpp:1290-1334 | The position returned by a successful lseek is the new cursor if and only if the target is at most INT_MAX, hence always in a file of at most INT_MAX bytes; otherwise it is negative. |
| PlainFile.PositionIsMisreported | src/new_io.cpp:1290-1334 | A seek to the end of a two-gigabyte file that takes place and returns a negative number. |
| PlainFile.SeeksLead | src/new_io.cpp:1290-1334 | Every place from start to end is reached by its distance from the start, the cursor and the end; every other offset, and an unknown origin, is refused with EINVAL and changes nothing. |
| PlainFile.WriteReplaces | src/new_io.cpp:968-1045 | A write replaces the bytes from the cursor on, or appends at the end if opened so, keeps all others, and leaves the cursor behind what it took. |
| PlainFile.WriteTooLargeIff | src/new_io.cpp:968-1045 | A write is refused with EFBIG exactly if it would end behind 32 bits. |
| PlainFile.ReadsContinue | src/new_io.cpp:915-966 | Two reads in a row hand over one stretch of the file from the cursor on. |
| PlainFile.RefusalsKeep | src/new_io.cpp:915-1045 | A refused call changes nothing, but a refused appending write leaves the cursor at the end. |
| PlainFile.ReadBack | src/new_io.cpp:915-1045 | On the plain file, what a write stored is what a read at that place returns: a nonempty beginning of it, all of it if reads are never short. |
| PlainFile.FullTransfersAreDetermined | src/new_io.cpp:915-1045 | On a device that cuts no transfer short, the reply to a call is a function of the file and the call. |
| FileCache.CircleFile.EnsureFileCapacity | src/new_io.cpp:568-601 | Refuses exactly what exceeds 512 KiB; otherwise doubling ends, reaches the capacity required and keeps the old bytes. |
| FileCache.CircleFile.CacheFile | src/new_io.cpp:676-713 | Turns a direct file into a cached one with the same bytes and position; fails exactly for a large file or short memory, and then moves nothing. |
| FileCache.CircleFile.FlushCachedFile | src/new_io.cpp:715-734 | The card holds the logical bytes; a cache not written since its last flush is not rewritten. |
| FileCache.CircleFile.SpillCache | src/new_io.cpp:736-750 | Cached becomes direct with the same bytes and position: no earlier write is lost. |
| FileCache.CircleFile.Open | src/new_io.cpp:752-868 | The descriptor starts as the plain file, and is cached in exactly the cases of the source; it is refused exactly for a size beyond 32 bits or a nonempty file that is to be cached but is open for writing only. |
| FileCache.CircleFile.Read | src/new_io.cpp:915-966 | Reply, bytes and position are those of the plain file, in every form of the descriptor. |
| FileCache.CircleFile.Write | src/new_io.cpp:968-1045 | The same for write: append at the end, refusal beyond 32 bits, spilling in the middle; a write to a cache is never short. |
| FileCache.CircleFile.Lseek | src/new_io.cpp:1290-1334 | The same for lseek: a seek past the end or before the start is refused and changes nothing, even when the seek caches the file; it caches the file exactly if it succeeds on a read-only file that is small enough and is empty or finds memory. |
| FileCache.CircleFile.Fsync | src/new_io.cpp:1272-1288 | After success the card durably holds the logical bytes, and an unmodified cache is not rewritten. |
| FileCache.CircleFile.Close | src/new_io.cpp:870-913 | After success the card durably holds the logical bytes of the descriptor. |
| FileCache.CircleFile.Run | src/new_io.cpp:915-1045 | For any run of read, write, lseek and fsync the replies, final bytes and position are those of one plain byte array with a cursor, whatever form the descriptor takes and whenever that changes. |
| ByteQueues.RingAppend | src/async_network.cpp:40-54 | Storing behind the queued bytes of a ring appends to them and disturbs none. |
| ByteQueues.RingAdvance | src/async_network.cpp:56-70 | Advancing the head of a ring drops exactly its oldest byte. |
| ByteQueues.LongestBeginnings | src/async_network.cpp:40-75 | What a push takes is the longest beginning for which there is room, and what a pop takes the longest of at most the length asked for. |
| ByteQueues.ByteQueue.Push | src/async_network.cpp:40-54 | Appends as many of the bytes as fit, and says how many. |
| ByteQueues.ByteQueue.Pop | src/async_network.cpp:56-70 | Returns the oldest bytes, as many as asked for or queued; returned and remaining bytes together are the old contents. |
| ByteQueues.ByteQueue.Peek | src/async_network.cpp:72-86 | Returns the oldest bytes and leaves the queue alone. |
| ByteQueues.ByteQueue.Drop | src/async_network.cpp:88-102 | Removes the oldest bytes, at most so many. |
| ConnectionSlots.VisitEnds | src/async_network.cpp:319-538 | Whatever the network answers, each step of a visit leaves fewer steps to go. |
| ConnectionSlots.SendKeepsStreams | src/async_network.cpp:446-451 | Bytes taken by the socket stay queued until the separate drop; meanwhile sent bytes plus the rest of the queue are what sends accepted. |
| ConnectionSlots.PushKeepsStreams | src/async_network.cpp:485-523 | Because of the room checked before the socket is read, the push stores everything and no byte is dropped. |
| ConnectionSlots.WorkKeepsInv | src/async_network.cpp:319-607 | Every step of a visit keeps the state of its slot consistent, both byte streams intact, and a stopped slot on its way out. |
| ConnectionSlots.AcceptKeepsInv | src/async_network.cpp:768-797 | A send may push between any two steps of the worker, also between peek and drop. |
| ConnectionSlots.ReceiveKeepsInv | src/async_network.cpp:799-814 | So may a receive pop, also between the room check and the push. |
| ConnectionSlots.StartKeepsInv | src/async_network.cpp:686-714 | Starting on a vacant slot keeps its invariant wherever the worker stands. |
| ConnectionSlots.StopKeepsInv | src/async_network.cpp:720-738 | So does stopping a slot in use. |
| ConnectionSlots.WorkConservesSockets | src/async_network.cpp:351-417 | A step neither loses, copies nor closes a socket that is still held. |
| SlotVisits.VisitOfConnected | src/async_network.cpp:431-573 | A whole visit to a connected slot: it offers the oldest 256 queued bytes at most and forgets those taken; with room for 1600 more it polls, receives and queues; a failure closes the socket in error, a close by the other side ends it. |
| SlotVisits.VisitOfConnecting | src/async_network.cpp:351-417 | A whole visit to a slot that waits: connected with the socket opened, ended in error, or, if stopped meanwhile, closed again. |
| SlotVisits.VisitOfStarted | src/async_network.cpp:351-417 | A connection just started is connected, with empty queues, by the next visit that opens a socket. |
| SlotVisits.VisitOfStopped | src/async_network.cpp:319-349 | A visit to a stopped slot closes its socket, and the next one frees it with empty queues. |
| SlotVisits.VisitOfVacant | src/async_network.cpp:322-325 | A visit to a vacant slot does nothing. |
| AsyncNet.InitialInv | src/async_network.cpp:145-151 | The initial state satisfies the invariant of the whole system. |
| AsyncNet.NextKeepsInv | src/async_network.cpp:310-607 | Every step of the worker or of a client, in any order, keeps the invariant of the whole system. |
| AsyncNet.BytesAreKept | src/async_network.cpp:485-523 | In every interleaving, per connection: bytes received, queued and in flight are exactly the bytes delivered; `rxDroppedBytes` is 0; bytes sent are a prefix of the bytes accepted, the rest being queued. |
| AsyncNet.StepExtendsStreams | src/async_network.cpp:686-714 | As long as a slot keeps its generation its four streams are only extended. |
| AsyncNet.CallMovesBytes | src/async_network.cpp:768-813 | A send appends to the queue the longest beginning of its bytes that fits, a receive hands over the oldest bytes, and neither touches anything else. |
| AsyncNet.StepGains | src/async_network.cpp:40-75 | Each event adds to a connection's four streams just the bytes that it names: those sent as far as they fit, those received, those the network delivered, those it took. |
| AsyncNet.ConnectionIsAPipe | src/async_network.cpp:431-538 | Over every run of a connection, with the streams read off the events: what the socket took and what is queued make up what the sends had accepted, and what was received and is queued makes up what the socket delivered. |
| AsyncNet.LiveHandleProtects | src/async_network.cpp:666-672 | While a handle is live no step frees its slot, gives it to another connection or cuts its streams short, and no other live handle names it. |
| AsyncNet.SocketsHaveOneOwner | src/async_network.cpp:540-607 | In every interleaving a socket is in one slot, in the hands of the worker or closed; none is closed twice or leaked; a vacant slot holds none; sockets in use are open; the lingering-socket branch of FreeSlot never closes anything. |
| AsyncNet.StoppedSlotIsFreed | src/async_network.cpp:720-738 | After a stop, whatever else happens, the connection is gone no later than the end of the second pass that begins after it. |
| AsyncNet.PassEnds | src/async_network.cpp:312-316 | Every pass ends: each step uses up part of a bounded number. |
| AsyncNet.WorkerIsNotStuck | src/async_network.cpp:312-316 | In every reachable state the worker can begin a pass or take a step of one. |
| AsyncNet.StoppedSlotIsFreedInTime | src/async_network.cpp:720-738 | After a stop, in every run in which the worker takes as many turns as are left in its pass and two more passes of 112 hold, the connection is gone from its slot at the end. |
| Core0Mailbox.NextKeepsInv | src/core0_mailbox.h:26-57 | Every step of either core keeps the invariant of mailbox, record and logs. |
| Core0Mailbox.EachRequestRunsOnce | src/kernel.cpp:2021-2047 | In every interleaving, with the native commit at any moment, the operations issued are executed once each and in order, core 0 doing a first part of them and core 1 the rest, and each call returns the result of its own operation. |
| Core0Mailbox.CoresTakeTurns | src/kernel.cpp:2029-2047 | In every interleaving, with the native commit at any moment, the two cores never run an operation at once, core 1 does not touch the request record while core 0 uses it, an answered sleeper has its event register set or core 0's signal to come, and both assertions on the mailbox state hold. |
| Core0Mailbox.StateCycles | src/core0_mailbox.h:33-56 | The mailbox word only goes idle, pending, completed, idle. |
| Core0Mailbox.DispatchDecidesCore | src/kernel.cpp:2039-2163 | In every run an operation issued before the commit is executed on core 0 and one issued after it on core 1. |
| Core0Mailbox.IssueIsPublished | src/core0_mailbox.h:26-34 | In every run that holds three steps of core 1 an operation issued before the commit becomes pending. |
| Core0Mailbox.PendingIsServed | src/kernel.cpp:2039-2163 | In every run that holds as many steps of core 0 as its stage needs, six at most, a pending request is completed, whatever else happens in between. |
| Core0Mailbox.AnsweredIsNotStuck | src/core0_mailbox.h:36-38 | A requester whose answer is there can step, if need be after the one signal that core 0 still owes. |
| Core0Mailbox.AnsweredReturns | src/core0_mailbox.h:36-42 | In every run that holds as many steps of core 1 as its stage needs, five at most, an answered call returns. |
| SidWorker.NextKeepsInv | src/sidworker.cpp:182-284 | Every step of producer or worker keeps the invariant. |
| SidWorker.EachJobRunsOnce | src/sidworker.cpp:188-208 | In every interleaving each accepted job is calculated once, on exactly the submitted arguments, and its wait returns that result and `delta_t`. |
| SidWorker.RecordIsExclusive | src/sidworker.cpp:229-280 | Not busy means both semaphores zero and no job running; the producer writes or reads the job record only then or while the worker sleeps; busy means exactly one uncollected job. |
| SidWorker.AcceptedIffCollected | src/sidworker.cpp:225-231 | A submit past its checks is accepted if and only if every earlier job has been collected; a refused one changes nothing. |
| SidWorker.WaitIsNotStuck | src/sidworker.cpp:257-280 | While a wait for an accepted job is under way, the producer or the worker can step. |
| SidWorker.WaitIsAnswered | src/sidworker.cpp:188-208 | In every run that holds as many steps of the worker as its stage needs, six at most, the awaited result is announced. |
| SidWorker.WaitReturns | src/sidworker.cpp:257-280 | In every run that holds five steps of the producer a wait for an accepted job returns with its result; with no job outstanding it returns at once. |
| SidWorker.SubmitIsDecided | src/sidworker.cpp:221-243 | In every run that holds two steps of the producer a submit is accepted if its arguments are right, the worker is ready and no job is outstanding, and refused if an argument is wrong or a job is outstanding. |
| SidWorker.SubmitReturns | src/sidworker.cpp:221-243 | In every run that holds eleven steps of the producer a submit returns, and nothing but itself holds it up. |
| KeyboardState.KeyFollowsReport | src/usb_keyboard_state.cpp:26-38 | The owner byte of a key keeps naming exactly the devices whose latest report holds it. |
| KeyboardState.ModifierFollowsReport | src/usb_keyboard_state.cpp:40-52 | The same for modifiers. |
| Bits.BitWeight | src/usb_keyboard_state.cpp:40-52 | Bit i has weight two to the i. |
| KeyboardState.ReportCountsIff | src/usb_keyboard_state.cpp:12-26 | A report replaces its device's, and no other, exactly if the device is one of four and no key is an error code. |
| KeyboardState.USBKeyboardState.ApplyReport | src/usb_keyboard_state.cpp:12-55 | Keeps the latest report of each device that was no error, ignores out-of-range devices, and returns true exactly when the union over the devices changed. |
| KeyboardState.USBKeyboardState.RemoveDevice | src/usb_keyboard_state.cpp:57-60 | Everything one device held is forgotten; true exactly when the union changed. |
| KeyboardState.USBKeyboardState.Modifiers | src/usb_keyboard_state.cpp:62-70 | The modifiers some device holds. |
| KeyboardState.USBKeyboardState.IsPressed | src/usb_keyboard_state.cpp:72-74 | True exactly when some device's latest report holds the key. |
| KeyTrace.GoodAlternates | src/kernel.cpp:3121-3167 | In a good trace neighbouring events of a key alternate, and a release carries the modifiers of its press. |
| KeyTrace.GoodStartsWithPress | src/kernel.cpp:3121-3167 | In a good trace the first event of a key is a press. |
| KeyTrace.PressCarriesMask | src/kernel.cpp:3121-3163 | In a good trace a key is pressed with the mask of exactly the modifiers the emulator has been told are pressed. |
| KeyboardDispatch.ModifierTable | src/kernel.cpp:2887-2910 | The code and the part of the mask of each modifier bit. |
| KeyboardDispatch.ReportsFollow | src/kernel.cpp:2912-2978 | Of one more event only its own device's report changes: to the one given if that counts, to no key on a removal. |
| KeyTrace.HeldAtMonitorEndIsSilent | src/kernel.cpp:2944-2956 | In a good trace a key or modifier held when the raw monitor ended is not pressed until some report has it released. |
| KeyTrace.BlockedIff | src/kernel.cpp:2944-2956 | A key or modifier is suppressed exactly if it was down when the monitor last ended and in every aggregate since. |
| KeyboardDispatch.Dispatcher.DispatchUSBKeyboardState | src/kernel.cpp:3025-3168 | What the emulator sees becomes exactly what the devices hold and is not suppressed, by key events only. |
| KeyboardDispatch.Dispatcher.ReleaseDispatchedUSBKeyboardState | src/kernel.cpp:2980-3023 | Everything the emulator saw pressed is released, each key with the modifiers of its press. |
| KeyboardDispatch.Dispatcher.EndRawKeyboardMonitor | src/kernel.cpp:2944-2956 | Exactly what the devices hold at that moment is suppressed. |
| KeyboardDispatch.Dispatcher.KeyStatusHandlerRaw | src/kernel.cpp:2912-2942 | Under the monitor the emulator sees nothing pressed; otherwise exactly the union of the latest reports, less what is suppressed. |
| KeyboardDispatch.Dispatcher.RemoveUSBKeyboardDevice | src/kernel.cpp:2958-2978 | The same when a keyboard is unplugged. |
| KeyboardDispatch.Dispatcher.Run | src/kernel.cpp:2912-3168 | Over every run of reports and removals the trace is good for every key and modifier, and what the emulator sees is as just said. |
| Mouse.PressNeedsRelease | src/mouse_input.cpp:97-108 | In a good trace, once the monitor or menu has had the mouse, a press reaches the emulator only after a report, while the emulator had it, with that button up. |
| Mouse.MustReleaseIff | src/mouse_input.cpp:97-108 | A release is due exactly if another consumer has had the mouse and every report to the emulator since has shown the button down. |
| Mouse.ViewIsLastTold | src/mouse_input.cpp:24-39 | The emulator sees a button as it was last told of it, and up before that. |
| Mouse.MouseStatus.ForwardButtons | src/mouse_input.cpp:24-39 | The emulator is told of exactly the buttons that changed. |
| Mouse.MouseStatus.Update | src/mouse_input.cpp:43-134 | The monitor gets the report whole, the menu the movement and the report without the buttons that wait for release, and the emulator the movement, the buttons that changed and one wheel step per unit, up for positive ones, at most 127; its view becomes exactly the buttons down and due no release. |
| Mouse.Run | src/mouse_input.cpp:43-134 | Over every run the emulator's view equals `previous_buttons`, is all up while another consumer has the mouse, and the trace is good. |
| Mouse.HeldButtonReachesMenuIff | src/mouse_input.cpp:67-118 | From any state, after a report to the emulator and one to the menu that both have the button down, the menu is shown it as pressed if and only if before them another consumer had the mouse or the button was being suppressed. |
| Mouse.HeldFromMenuToMenu | src/mouse_input.cpp:67-108 | A button held from one menu visit to the next, and never reported up, is shown to the menu as pressed again. |
| Mouse.MenuReportShows | src/mouse_input.cpp:67-95 | From any state, the menu is shown a button as pressed if and only if it is down, was not held over from the monitor, was not seen down by the emulator, and does not still wait for its release. |
| Mouse.EmulatorReportShows | src/mouse_input.cpp:97-118 | From any state, the emulator sees a button down if and only if it is down, no other consumer had the mouse, and it does not still wait for its release. |
| Strings.BasenameOfJoin | tools/sd_layout.py:1679-1698 | The basename of "root/name" is "name". |
| Strings.LessAtDifference | tools/sd_layout.py:1710-1716 | Texts are ordered by their first difference, and a beginning comes first. |
| DeviceMatcher.KeyOrder | tools/sd_layout.py:1710-1716 | Matcher keys are totally ordered. |
| DeviceMatcher.SpecificKindsFirst | tools/sd_layout.py:1701-1707 | An exact path comes before a name, a name before a beginning and end, those before an end alone, and that before a root, whatever the texts. |
| DeviceMatcher.TextsDecideWithinKind | tools/sd_layout.py:1673-1677 | Within a kind the root decides, then the name or beginning, then the end. |
| DeviceMatcher.CommonPathAccepted | tools/sd_layout.py:1719-1773 | For every overlapping pair there is a path that both accept, and this is it. |
| DeviceMatcher.OverlapIsExact | tools/sd_layout.py:1719-1773 | The overlap decision is true if and only if some path is matched by both, over unbounded texts. |
| DeviceMatcher.OverlapIsSymmetric | tools/sd_layout.py:1756-1773 | The overlap decision is symmetric. |
| DeviceMatcher.StarIsGlobIff | tools/sd_layout.py:1625-1640 | A star pattern means what its glob means, on every path, if and only if no nonempty end of its prefix is the beginning of its suffix. |
| DeviceMatcher.StarIsNotGlob | tools/sd_layout.py:1679-1698 | The difference is real: `ab*b` accepts `ab`. |
| DevicePolicy.LookupFindsWinner | tools/sd_layout.py:1893-1905 | On a sorted list, lookup returns the mode of the first accepting matcher, and nothing exactly when none accepts. |
| DevicePolicy.NormalizationPreservesMeaning | tools/sd_layout.py:1846-1868 | For every set of matchers and every path, lookup after dropping the redundant exact rules gives the same mode or the same rejection. |
| DevicePolicy.NormalizationIsMinimal | tools/sd_layout.py:1846-1862 | No exact rule that is kept could be left out without another answer for its path. |
| DevicePolicy.BoardIndependence | tools/sd_layout.py:1776-1813 | In a scoped matcher list, on a path without an exact rule, the first match over all boards and the first match of a board have the same mode. |
| DevicePolicy.RejectionIsReal | tools/sd_layout.py:1776-1813 | A rejected pair, taken alone, gives some board another mode on some path than its own rules would. |
| DevicePolicy.BoardIndependentIff | tools/sd_layout.py:1776-1813 | For a scoped matcher list: on every path and for every board the two first matches have the same mode if and only if each exact rule agrees, on its own path, with the first match of the board it was not written for. |
| DevicePolicy.ExactRulesAreNotScoped | tools/sd_layout.py:1776-1813 | An accepted pair that does not agree. |
| DeviceProjection.CollectMatchers | tools/sd_layout.py:1824-1845 | The table holds every declared matcher once with the union of its boards; refusal is exactly an unrepresentable pattern or one pattern with two modes. |
| DeviceProjection.ValidateScopes | tools/sd_layout.py:1776-1813 | Accepts exactly the scoped tables. |
| DeviceProjection.IsRedundant | tools/sd_layout.py:1846-1862 | True exactly when the first of the other rules accepting the exact path has the same mode. |
| DeviceProjection.DeviceProjectionDocument | tools/sd_layout.py:1816-1882 | A document is produced exactly for the acceptable layouts; it is sorted, holds no exact rule that could be left out, and gives every path the mode of the first declared matcher accepting it or rejects it. |
| DeviceMeaning.RuleMeaning | tools/sd_layout.py:1625-1698 | The matchers of a rule accept exactly the paths it is written for: its exact target, the names its pattern matches, or those under its root; they exist exactly if each pattern has one star at most and no slash or question mark. |
| DeviceMeaning.DeclaredMeaning | tools/sd_layout.py:1824-1845 | Every rule but those for directories and kernels declares its matchers, for its boards. |
| DeviceMeaning.DocumentMeaning | tools/sd_layout.py:1816-1905 | The document rejects a path exactly if no rule accepts it; otherwise it answers with the mode of a rule that does, and no declared matcher of a more specific kind accepts the path. |
| DeviceMeaning.EndingOverridesTree | tools/sd_layout.py:1846-1851 | A rule that replaces all files with an ending overrides the one that keeps the tree they lie in. |
| DeviceProjection.ProjectionIsBoardIndependent | tools/sd_layout.py:1776-1882 | For every accepted layout, board and path without an exact rule: if some matcher of the board accepts the path, the board-agnostic document answers with the mode of the first of the board's own matchers. |
| DeviceProjection.ProjectionAnswersEachBoardIff | tools/sd_layout.py:1776-1882 | The document of an accepted layout gives every board, on every path that its own matchers accept, the mode of the first of them, if and only if each exact matcher agrees, on its own path, with the board it was not declared for. |
| FatPath.AncestorsAreAbove | tools/sd_layout.py:987-991 | The ancestors collected for a path are exactly its proper prefixes that end at a slash. |
| FatPath.AddParents | tools/sd_layout.py:987-991 | Walking up from a path adds exactly its ancestors. |
| FatPath.CaseLaw | tools/sd_layout.py:888-901 | Two names fold to the same exactly if they differ at most in the case of letters A to Z. |
| FatPath.SafePathIff | tools/sd_layout.py:109-136 | A path is safe exactly if it has 1 to 240 printable characters that FAT allows and each text between slashes is a safe component. |
| FatPath.SafeComponentIff | tools/sd_layout.py:127-136 | A component is safe exactly if it is not empty, a dot or two dots, has no space at an end nor a dot at its own, is short enough, and is no device name, in any case of letters and with any extension. |
| FatPath.ComponentsAreSegments | tools/sd_layout.py:127 | The components are the texts between slashes. |
| StagePlan.Planner.AddTarget | tools/sd_layout.py:888-901 | A file is added unless some planned target equals its own ignoring case. |
| StagePlan.Planner.AddMember | tools/sd_layout.py:955-986 | One member of a source tree contributes exactly what its kind and patterns say, or stops the plan. |
| StagePlan.Planner.AddEntry | tools/sd_layout.py:921-986 | One rule contributes exactly its draft, or stops the plan. |
| StagePlan.Planner.CheckDirectories | tools/sd_layout.py:994-1004 | Accepts exactly when all directories are safe, distinct ignoring case, and no file's name. |
| StagePlan.NoFileAboveAnother | tools/sd_layout.py:987-1004 | In a safe plan no file is an ancestor of another, even up to case. |
| StagePlan.PlanStage | tools/sd_layout.py:904-1012 | A plan is returned if and only if the rules' targets are safe, the rules can be carried out and FAT can hold the result; it then is that result, with safe paths, targets and directories distinct ignoring case, and every ancestor of every file among the directories. |
| StagePlan.CheckTargets | tools/sd_layout.py:363-367 | The check at loading passes exactly the rules whose targets are safe FAT paths. |
| StagePlan.LayoutSafe | tools/sd_layout.py:904-986 | Rules with safe targets that can be carried out plan only files with safe FAT paths. |
| PlanMeaning.LayoutMeaning | tools/sd_layout.py:904-986 | The rules can be carried out exactly if each finds what it needs, or may do without, and its tree holds no links, special files or files with unsafe targets. |
| PlanMeaning.PlanHolds | tools/sd_layout.py:904-1012 | A plan puts exactly the sources at the targets that its rules say, file by file and member by member, and its directories are exactly those its rules name and those above its files. |

## Left out

- Compositor.SoftwareCompositor.Run: presents that find showing layers with equal z are passed over, because the sort is not stable and ties have no defined order.
- Compositor.SoftwareCompositor.ActiveLayers: requires pairwise distinct z among the showing layers, for the same reason.
- Compositor.SoftwareCompositor.UpdateSurface: requires it too.
- Compositor.SoftwareCompositor.SoftwarePresent: requires it too.
- Compositor.SoftwareCompositor.PresentLayerList: requires it too; and a V3D frame that draws into a back buffer and then fails to present is not modelled (a successful one may leave any picture in that buffer).
- Compositor.SoftwareCompositor.SetTransparency: is not an event of a run, since it can break the invariant.
- Compositor.SoftwareCompositor.CaptureRgb888: what a capture draws and the bytes it returns are arbitrary.
- FrameBufferLayers.FrameBufferLayer.MarkDirty: the 32-bit generation that skips zero is an unbounded counter, so a wrap between two presents is not modelled; nor is the invalidation of the scaled hardware buffers.
- FrameBufferLayers.FrameBufferLayer.Allocate: the assertion that the layer is not allocated, and the reuse of pixel memory kept by an earlier release; registration in the layer table is an event of its own.
- FrameBufferLayers.FrameBufferLayer.Free: a layer that was never allocated is cleared as well, where the source does nothing.
- FrameBufferLayers.FrameBufferLayer.Show: the placement arithmetic (stretch, alignment, padding) is an input; show, hide and an interpolation switch are an edit, and the present each of them makes is a separate event.
- FrameBufferLayers.EditIsNoticed: source rectangles that begin before the framebuffer are not edits of a run; `SetSrcRect` stores them, but what filtering then reads is not the layer's.
- Compositor: `int` overflow of rectangle coordinates, vertical sync and the capture layer pointer.
- StatusPlane.StatusPlane.EnsureShadow: the snapshot is a matrix rather than a flat block of memory.
- FileCache: I/O errors in the middle of an operation, the descriptor table, descriptors 0 to 2 and null pointers, statistics and logging.
- FileCache.CircleFile.Lseek: memory may be short here, as in the source; elsewhere allocations succeed.
- FatFile.ReadExact: FatFs calls succeed and make progress, so the error and zero-count returns are not modelled.
- FatFile.WriteExact: the same.
- FatFile.Fil: FatFs is its bytes, its pointer and what the card holds after the last sync.
- ConnectionSlots, AsyncNet, Core0Mailbox, SidWorker: modelled on values, one step per lock, atomic access or call, so that other parties can step in between; update in place and aliasing inside a step are not captured, except for the rings of `ByteQueue`.
- AsyncNet: a handle is used by no call that overlaps its own stop, generations do not wrap, there is one worker and it is available; error codes, target names, log counters and `txDroppedBytes` are not modelled.
- AsyncNet: the search of start for a vacant slot is one event that names a vacant slot.
- Core0Mailbox: the bodies of the operations are opaque, with an arbitrary result; calls that core 0 makes for itself are not operations of the protocol.
- Core0Mailbox, SidWorker: atomics, events and semaphores are sequentially consistent steps; weak memory orders are not modelled.
- SidWorker: one producer; diagnostics counters; the calculation itself is arbitrary.
- KeyboardDispatch: a null context or key pointer; the menu is closed throughout. With the menu open a press and its release may be translated differently if shift changes in between, and pairing is not claimed.
- Mouse: a button word is eight bits wide; bits above the three buttons are never looked at.
- DeviceProjection.DeviceProjectionDocument: the directory and kernel lists of the document.
- DeviceProjection: the second validator, which compares the modes of staged files with the document.
- DeviceProjection: parsing of layouts, and the wording and order of refusals; there are two boards.
- StagePlan.Planner.AddMember: the outcome of each glob is a flag of the member.
- StagePlan.Planner.AddEntry: the safety of a file rule's own target is not checked here but before planning (`CheckTargets`), as in the source.
- StagePlan.PlanStage: source trees are given as data; hashes, sizes, provenance and the sorted presentation of the plan; the early file-and-directory test inside the loop is subsumed by the final one.
- FatPath: case is folded for ASCII letters only; a path with any other character is refused anyway.
- DispmanX, EGL, V3D, HVS, GPIO and USB drivers, `src/fbl.cpp`, directory iteration, the remote interface, tree assembly and the edit commands: hardware, or code that would only add easy members.
