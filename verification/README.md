# Verified model of the radeonhd acceleration back end

The driver translates drawing requests of the X server into work for two
families of Radeon GPUs, R5xx and R6xx. This project models that translation,
together with a small abstract GPU, and proves what the translation keeps.

The abstract GPU has these parts:

- images of 32-bit pixels and a textured draw, which is only defined when no
  pixel drawn is a texel read (`Raster`, and the class in `OverlapCopy`);
- video memory as rows of bytes, scratch buffers shared with the CPU, and a
  queue of row copies that may run at any moment up to the next wait
  (`Memory`);
- a parser for the command stream that gives a list of register writes and
  other packets, or nothing if the stream is not whole packets
  (`CommandWords`), and one for the packets that carry scan lines
  (`ScanlineCp`);
- two engines that share one stream, of which only one may draw at a time
  (`EngineMode`).

| file | what it models |
|---|---|
| Arith, Wrappers | division facts, row spans, an option type |
| Raster | images, draws, walks over pixels |
| OverlapCopy | the decomposition of an overlapping copy on R6xx |
| SurfaceCopy | raster operations, plane masks and the whole copy entry point on R6xx |
| DirectedCopy | the copy of R5xx, which walks in a programmed direction |
| TiledComposite | repeating sources drawn as tiles |
| RenderOp | Render operators as swizzles, one multiply and two blend factors |
| Memory, Transfer, Download | uploads and downloads through two halves of a buffer on R6xx |
| HostUpload, BlitDownload | uploads and downloads on R5xx |
| RegisterFields, Resources | registers made of bit fields: vertex buffers, textures, samplers, targets |
| Card | what the card has after a stream: the last value of each register |
| CommandWords, CommandStream | the R6xx command stream and its emitters |
| VertexBatch | vertex batching on R6xx, and the source arithmetic of video clip boxes |
| ScanlineCp, ScanlineMmio | XAA scan lines through packets and through registers |
| EngineMode, SyncMarkers | the 2D/3D interlock and the wait markers |
| AtomRecords | record walkers over video BIOS tables |

Conventions. A method of a class follows the branches and the loops of the
function it models; its contract ties the new state to a function of the old
one. Bitwise masks that round or select are written as arithmetic
(`(x + 255) & ~255` as a division and a product), 32-bit wrap-around is written
out where it decides something (packet headers, the size of a cache flush), and
fields packed into a word with `|` are products and a sum, and are proved not
to meet (`RegisterFields`). `Span(rows, pitch)` is `rows * pitch`, counted by
pointer steps. Calls into code that is not modelled are reduced to what the
callers rely on: taking a buffer gives one of the given size that nothing
queued refers to, waiting for idle drains the queue, and asking for n words
makes room for n words that fit the buffer.

Where the code and its own comments disagree, the model follows the code. The
comment at `src/r600_exa.c:741-744` says that the choice between a
horizontal and a vertical reduction minimises the number of copies;
`StrategyCost` gives the exact case in which it takes one more.

Properties that do not hold of the code as it stands are stated with the exact
condition under which they do:

- `OverlapCopy.FrameExactIff`: when a copy touches nothing beside its
  destination (the left/right loops do not shorten their last chunk);
- `SurfaceCopy.CopyFaithfulIff`: when the whole entry point does what CopyArea
  of the X protocol asks, plane by plane. The hardware masks whole color
  channels; `SurfaceCopy.CutChannelIsNotCopyArea` gives a plane mask for which
  even a copy between rectangles far apart goes wrong;
- `Transfer.PassesEndIff`: when the transfer loops end;
- `CommandWords.RunDecodesIff`, `CommandWords.UnpackPackIff` and
  `CommandStream.CoherCoversIff`: which register runs, index lists and surface
  sizes an encoder can express;
- `RenderOp.RightIffNotBoth`: which requests the blend setup renders right;
- `DirectedCopy.DirectedCopyIff`: which directions are right for a copy;
- `EngineMode.InterlockIff`: from which states every run is safe, those where the
  3D state is still to be set up included;
- `ScanlineCp.AllGivenIff`: when the lines of a rectangle reach the card. A line
  that does not fit a buffer is not refused: the one packet that is opened holds
  no line, and no call opens another.

## Model

| member | source | states |
|---|---|---|
| Raster.DrawnCompose | src/r600_exa.c:791-840 | two draws make one when the second neither redraws nor reads what the first drew |
| Raster.AnyOrderDraws | src/r600_exa.c:722-850 | a blit that reads none of the pixels it draws gives one result for every order of its pixels |
| OverlapCopy.OverlapTestComplete | src/r600_exa.c:710-720 | for rectangles of one size the corner test finds every pair that shares a cell, and beyond those only pairs that touch |
| OverlapCopy.ChunksAndExcess | src/r600_exa.c:794-811 | how many chunks cover a width, and that the last one ends flush exactly when the chunk divides it |
| OverlapCopy.CopyEngine.Blit | src/r600_exa.c:842-848 | one blit, allowed only when its reads avoid its writes, draws its rectangle at once |
| OverlapCopy.CopyEngine.CopyRightToLeft | src/r600_exa.c:794-801 | the right-to-left loop draws the destination and the excess left of it from the image before the loop, and counts its blits |
| OverlapCopy.CopyEngine.CopyLeftToRight | src/r600_exa.c:804-812 | the same from left to right |
| OverlapCopy.CopyEngine.CopyTopToBottom | src/r600_exa.c:817-826 | the top-to-bottom loop draws exactly the destination, its last chunk shortened |
| OverlapCopy.CopyEngine.CopyBottomToTop | src/r600_exa.c:829-838 | the same from the bottom up |
| OverlapCopy.CopyEngine.CopyStraight | src/r600_exa.c:791-840 | the four straight directions |
| OverlapCopy.CopyEngine.PeelRows | src/r600_exa.c:747-766 | the strip peeled off a diagonal copy is drawn, and the rest keeps the offset |
| OverlapCopy.CopyEngine.PeelColumns | src/r600_exa.c:768-787 | the same for columns |
| OverlapCopy.CopyEngine.CopyReducedToHorizontal | src/r600_exa.c:746-766 | a diagonal copy reduced to a horizontal one draws the destination and the excess from the original image |
| OverlapCopy.CopyEngine.CopyReducedToVertical | src/r600_exa.c:767-788 | a diagonal copy reduced to a vertical one draws exactly the destination from the original image |
| OverlapCopy.CopyEngine.OverlapCopy | src/r600_exa.c:722-850 | in all eight directions the blits together are one simultaneous draw of destination and excess from the original image, with the number of blits |
| OverlapCopy.DestinationIsMemmove | src/r600_exa.c:722-850 | every destination pixel becomes rop(original source pixel, original destination pixel) |
| OverlapCopy.OverrunInSource | src/r600_exa.c:794-812 | what is drawn beside the destination is less than a chunk wide and lies inside the source rectangle |
| OverlapCopy.FrameExactIff | src/r600_exa.c:791-840 | nothing outside the destination changes, for every image and rop, if and only if the request is exact |
| OverlapCopy.StrategyCost | src/r600_exa.c:741-789 | the choice takes at most one blit more than the better reduction, and exactly when it takes one more |
| SurfaceCopy.RopTableCorrect | src/r600_exa.c:44-78 | each entry of the table computes the X raster function of its index, whatever the pattern |
| SurfaceCopy.IdempotentIff | src/r600_exa.c:862-863 | the functions for which a copy onto itself asks for no change, for every plane mask |
| SurfaceCopy.ChannelOnIff | src/r600_exa.c:473-481 | a color channel is written exactly if the plane mask has one of its planes |
| SurfaceCopy.DriverRounds | src/r600_exa.c:473-484 | what is programmed is the X function with the plane mask rounded out to whole bytes, and for masks of whole bytes exactly what was asked for |
| SurfaceCopy.RoundedIsLeast | src/r600_exa.c:473-481 | that is the least mask of whole bytes that holds the planes |
| SurfaceCopy.SameRopIff | src/r600_exa.c:473-484 | the operation programmed is the one asked for, bit by bit, exactly if the plane mask is made of whole bytes or the function changes nothing |
| SurfaceCopy.TwiceIsOnceIff | src/r600_exa.c:866-884 | the rops for which applying the operation over a spare surface and again over the destination is applying it once |
| SurfaceCopy.TwiceIsAskedIff | src/r600_exa.c:866-884 | for which functions and plane masks the operation applied over a spare surface and again over the destination is what was asked for |
| SurfaceCopy.KeepsDestinationIff | src/r600_exa.c:473-484 | the rops and plane masks that change no pixel |
| SurfaceCopy.CopySession.Copy | src/r600_exa.c:862-893 | the outcome of each branch of the entry point on one surface |
| SurfaceCopy.ThroughSparePixel | src/r600_exa.c:873-884 | the pixel the two blits through the spare surface leave |
| SurfaceCopy.CopyFaithfulIff | src/r600_exa.c:862-893 | over every image and content of the spare surface the request leaves what CopyArea with the function and the plane mask of the graphics context asks for, if and only if a condition on the request holds |
| SurfaceCopy.RequestCopyArea | src/r600_exa.c:852-893 | one request from end to end, function and plane mask included: the image is the one CopyArea asks for wherever the condition holds |
| SurfaceCopy.CutChannelIsNotCopyArea | src/r600_exa.c:473-484 | a plain copy of one plane between rectangles that do not touch is not CopyArea |
| SurfaceCopy.PathsAgree | src/r600_exa.c:866-888 | the path through the spare surface and the direct one leave the same destination, and the same image where the direct one is exact |
| DirectedCopy.CopyUnit.Copy | src/r5xx_exa.c:288-310 | whatever the direction, the blit covers the destination and reads at the displacement asked for |
| DirectedCopy.RowsSpec | src/r5xx_exa.c:295-308 | the walk visits exactly the cells of the rectangle, in the order of the directions |
| DirectedCopy.SuitableIsCopyArea | src/r5xx_exa.c:288-310 | a walk in a suitable direction is the simultaneous copy |
| DirectedCopy.UnsuitableIsNotCopyArea | src/r5xx_exa.c:288-310 | for any overlapping walk in another direction there is an image on which it is not |
| DirectedCopy.DirectedCopyIff | src/r5xx_exa.c:288-310 | a walk is the simultaneous copy for every image and rop if and only if the directions suit the displacement or the rectangles share no cell |
| DirectedCopy.CopyRectangle | src/r5xx_exa.c:273-310 | with the directions the server asks for every copy, overlapping or not, is the simultaneous one |
| TiledComposite.PotTestIff | src/radeon_exa_render.c:342-354 | w & (w - 1) is zero exactly for the powers of two |
| TiledComposite.PotDividesInfinity | src/radeon_exa_render.c:393-417 | a size up to 65536 that passes the test divides 65536 |
| TiledComposite.AxisDrawsRight | src/radeon_exa_render.c:1179-1187 | on one axis a coordinate inside a tile is sampled at the request coordinate modulo the picture size |
| TiledComposite.AcceptedIffDrawable | src/radeon_exa_render.c:1062-1110 | exactly the requests whose pictures are small enough, and whose repeating pictures have sizes of powers of two or are untransformed sources, are accepted |
| TiledComposite.GridDrawsRight | src/radeon_exa_render.c:2197-2257 | every pixel of a tile on the grid samples source and mask where the request asks, a repeating mask modulo its size and another at its clamped coordinate |
| TiledComposite.Compositor.SetupSourceTile | src/radeon_exa_render.c:386-423 | the refusal, the axes that are tiled, and the tile sizes, for every pair of flags |
| TiledComposite.Compositor.SetupTexture | src/radeon_exa_render.c:1176-1187 | the wrap or clamp choice of each axis and unit |
| TiledComposite.Compositor.Prepare | src/radeon_exa_render.c:1344-1364 | an accepted request is set up with the tile sizes and the addressing its source and mask need, and the hardware never wraps a size it cannot wrap |
| TiledComposite.Compositor.CompositeRow | src/radeon_exa_render.c:2229-2252 | a row of tiles covers its rows once each, on the grid |
| TiledComposite.Compositor.Composite | src/radeon_exa_render.c:2197-2257 | the tiles cover every destination pixel exactly once, and each samples source and mask, repeating or not, at the texel asked for |
| TiledComposite.RequestComposite | src/radeon_exa_render.c:1308-2257 | the same for an accepted request from end to end |
| RenderOp.R600SwizzlesRight | src/r600_exa.c:1150-1243 | the swizzles chosen on R6xx give the masked source's factors, channel by channel |
| RenderOp.R300SwizzlesRight | src/radeon_exa_render.c:1461-1523 | the same for the operand selects on R300 |
| RenderOp.ShaderRight | src/radeon_exa_render.c:1655-1735 | source times mask is the masked source, or its alpha where the blend weighs by it |
| RenderOp.BlendFactorsRight | src/r600_exa.c:997-1027 | the two blend factors are the weights of the rendering model, a missing destination alpha read as 1 |
| RenderOp.PixelAlwaysRight | src/radeon_exa_render.c:295-325 | every request that does not need source value and source alpha at once is rendered by the composite equation |
| RenderOp.NeedsBothIsWrong | src/radeon_exa_render.c:1282-1293 | every other request has a pixel that is rendered wrong |
| RenderOp.RightIffNotBoth | src/radeon_exa_render.c:173-325 | exactly which supported requests are rendered right, for all values between 0 and 1 |
| RenderOp.AcceptedIffRightAndMore | src/r600_exa.c:1358-1369 | the component alpha test lets no wrong request through, and what right requests it refuses |
| RenderOp.AcceptedIff | src/r600_exa.c:1320-1380 | every operator of the protocol is accepted on the eight formats, onto six of them, but with component alpha only if the operator does not weigh by source alpha or does not add the source |
| RenderOp.AcceptedIsRight | src/radeon_exa_render.c:1225-1305 | every accepted request is rendered as (source IN mask) OP destination, on both families |
| Memory.DrainedAfterWrite | src/r600_exa.c:1801-1811 | a CPU write to bytes no queued copy touches could as well come after the queue has run |
| Memory.DrainedKeeps | src/r600_exa.c:1906-1913 | bytes no queued copy touches keep their value while the queue runs |
| Memory.DrainedGrown | src/r600_exa.c:1780-1784 | a buffer of its own does not change what the queue does |
| Memory.Engine.MayRun | src/r600_exa.c:1795-1821 | running any part of the queue at any moment does not change what it leads to |
| Memory.Engine.Take | src/r600_exa.c:1780-1784 | a buffer is taken that no queued copy touches, and what the queue leads to stays |
| Memory.Engine.CpuWrite | src/r600_exa.c:1806-1811 | a CPU copy into the buffer is allowed only where no queued copy reads or writes |
| Memory.Engine.CpuRead | src/r600_exa.c:1908-1913 | a CPU copy out of the buffer is allowed only there, and reads what the GPU will have left |
| Transfer.DrainedUploadBatch | src/r600_exa.c:1813-1819 | a blit from a half that holds source rows lays those rows on the screen |
| Transfer.FillHalf | src/r600_exa.c:1786-1793 | filling a half while the GPU runs puts each row in its slot and touches nothing else |
| Transfer.RefillOther | src/r600_exa.c:1801-1812 | after the wait the other half is filled while this one keeps its rows |
| Transfer.EarlyRefillShows | src/r600_exa.c:1804-1811 | without the wait a rewritten slot reaches the screen, exactly when its bytes differ |
| Transfer.UploadPass | src/r600_exa.c:1795-1821 | one pass keeps the invariant and moves as many rows as fit |
| Transfer.CopyToVram | src/r600_exa.c:1759-1824 | under any schedule, once the queue has drained the rectangle holds the source rows and the rest what was drawn before, buffers of earlier uploads still being read; when it refuses |
| Transfer.UploadedByte | src/r600_exa.c:1785-1821 | an uploaded screen byte by byte: inside the rectangle the byte of the source, elsewhere the old one |
| Transfer.UploadAll | src/r600_exa.c:1759-1824 | uploads in a row, with no wait between them, leave the screen as if each had been laid over the one before |
| Transfer.PassesEndIff | src/r600_exa.c:1795-1799 | the loop ends exactly when there is no row or a row fits the space of a pass |
| Transfer.PassRowsMost | src/r600_exa.c:1797-1799 | a pass moves all rows left or as many as fit |
| Download.DrainedDownloadBatch | src/r600_exa.c:1880-1886 | a blit from the screen fills the slots of one half and leaves the other and the screen alone |
| Download.CatchOther | src/r600_exa.c:1895-1904 | a blit into the other half leaves the rows of this half |
| Download.DownloadPass | src/r600_exa.c:1888-1914 | one pass queues the next rows, waits, and copies out rows of completed blits only |
| Download.CopyOut | src/r600_exa.c:1908-1913 | the rows of a half go to the destination, one every pitch bytes, and nothing between them changes |
| Download.DownloadFromScreen | src/r600_exa.c:1845-1920 | under any schedule each destination row is the screen row as everything queued before leaves it; when it refuses |
| Download.PastedByte | src/r600_exa.c:1908-1913 | a downloaded image byte by byte: byte k of row j is that of the screen |
| Download.PastedElsewhere | src/r600_exa.c:1908-1913 | and bytes in none of the rows are as they were |
| Download.UploadThenDownload | src/r600_exa.c:1759-1920 | a download of an uploaded rectangle brings the source rows back |
| Download.RoundTrip | src/r600_exa.c:1759-1920 | an upload followed at once by a download of its rectangle, under any schedule: the rows come back |
| HostUpload.PayloadRow | src/r5xx_exa.c:464-475 | each row of a packet's payload begins with its source row |
| HostUpload.ContiguousPayload | src/r5xx_exa.c:461-463 | the one-copy path moves the bytes of the row loop |
| HostUpload.HostBlitter.CopyRows | src/r5xx_exa.c:460-475 | both paths give the same payload |
| HostUpload.PacketFits | src/r5xx_exa.c:444-458 | the packet fits the command buffer and its counts, clip and pixel width match its payload |
| HostUpload.HostBlitter.SendRows | src/r5xx_exa.c:440-483 | the packets draw every source row once, and the rows left decrease |
| HostUpload.HostBlitter.UploadToScreen | src/r5xx_exa.c:400-488 | the packets together draw exactly the source rows on any screen; when it refuses |
| BlitDownload.ContiguousRows | src/r5xx_exa.c:661-664 | the one-copy path out of the buffer moves what the row loop moves |
| BlitDownload.DownloadManual | src/r5xx_exa.c:523-544 | a small download reads the screen after the wait |
| BlitDownload.OnePass | src/r5xx_exa.c:649-677 | a pass moves its rows once, by either path |
| BlitDownload.DownloadFromScreen | src/r5xx_exa.c:605-685 | each destination row is the screen row as everything queued before leaves it; when it refuses and when it takes the small path |
| CommandWords.RegionRoundTrip | src/r600_state.h:206-238 | the opcode chosen for a register names the region the register lies in |
| CommandWords.RegionChosenIff | src/r600_state.h:206-238 | a register gets the packet of a region exactly if it lies in that region |
| CommandWords.HeaderCountIff | src/r600_state.h:198-201 | the count field gives the packet's length exactly for 1 to 0x4000 words |
| CommandWords.OrBits | src/rhd_cs.h:97-99 | or-ing two numbers sets the bits set in either |
| CommandWords.DecodeAppend | src/r600_state.h:186-249 | streams of whole packets decode one after the other |
| CommandWords.RunDecodes | src/r600_state.h:205-242 | PACK0 and the values after it decode to those register writes, in every region and in the plain form |
| CommandWords.FewerEffects | src/r600_state.h:186-249 | a stream does fewer things than it has words |
| CommandWords.RunDecodesIff | src/r600_state.h:205-242 | PACK0 and its values mean the intended writes exactly for aligned runs that fit the count and stay in the region they start in |
| CommandWords.UnpackPackIff | src/r6xx_accel.c:1098-1108 | 16-bit index pairs unpack to the list, odd lengths included, exactly if every index fits |
| CommandStream.DrawnIndicesIff | src/r6xx_accel.c:1084-1108 | an immediate draw draws the list it was given, unless an index does not fit the short form |
| CommandStream.CoherCoversIff | src/r6xx_accel.c:362-366 | the flush size covers the surface, except for the sizes where the rounding wraps, and never by a whole unit too much |
| CommandStream.VlineRangeIsVisiblePart | src/r6xx_accel.c:121-137 | the lines waited for are exactly those of the range that are on the screen, and there is no wait only without a live controller or without two such lines |
| CommandStream.VlineWaitReads | src/r6xx_accel.c:138-156 | the range register of that controller gets both ends, and its own status register is polled |
| RegisterFields.PackedReads | src/r6xx_accel.c:491-531 | a word of fields that lie apart has 32 bits, and every field is read as it was put in |
| Resources.VtxResource.Read | src/r6xx_accel.c:457-480 | the words of a vertex resource hold its address, its last byte, its stride, its format and its kind, each at its place |
| Resources.TexResource.ReadAddresses | src/r6xx_accel.c:538-539 | both addresses are read back without their low byte |
| Resources.TexResource.ReadSize | src/r6xx_accel.c:488-504 | kind, format and size, sizes less one and the pitch in units of eight that hold a row |
| Resources.TexResource.ReadFormat | src/r6xx_accel.c:506-522 | every field of the texel format and the channel selects, at its place |
| Resources.TexResource.ReadLevels | src/r6xx_accel.c:524-541 | the levels, the layers and the kind of the resource |
| Resources.TexSampler.Read | src/r6xx_accel.c:548-589 | those of a sampler hold every field at its place |
| Resources.ColorInfo.Read | src/r6xx_accel.c:309-332 | the info word of a color target holds every field at its place |
| Resources.SqConfig.Read | src/r6xx_accel.c:256-298 | the six words of the shader engine's shares hold every share at its place |
| CommandStream.TargetSizeReads | src/r6xx_accel.c:334-336 | pitch and slice of a target are read back, and the slice holds every row |
| CommandStream.TargetReads | src/r6xx_accel.c:334-356 | what the card then has in the seven registers of that target, and that no other register has changed |
| CommandStream.SamplersReset | src/r6xx_accel.c:186-197 | what the card then has in the three registers of every sampler |
| CommandStream.DrawReads | src/r6xx_accel.c:1084-1120 | the primitive type, the index type and the number of instances the card has when it meets the draw |
| Card.RegAfterRun | src/r600_state.h:205-249 | a run sets its registers to its values and no other |
| CommandStream.IndirectBuffer.E32 | src/r600_state.h:186-190 | one word is appended |
| CommandStream.IndirectBuffer.Pack0 | src/r600_state.h:205-242 | the words that open a run are appended |
| CommandStream.IndirectBuffer.SetRun | src/r600_state.h:205-249 | after a run the buffer is still whole packets, and they do the run's writes after what they did before |
| CommandStream.IndirectBuffer.Wait3DIdleClean | src/r6xx_accel.c:96-106 | the cache flush event and the wait |
| CommandStream.IndirectBuffer.Wait3DIdle | src/r6xx_accel.c:108-112 | the wait |
| CommandStream.IndirectBuffer.WaitVlineRange | src/r6xx_accel.c:117-157 | no packet unless part of the range is on the screen of a live controller; else the range and the poll |
| CommandStream.IndirectBuffer.ResetCb | src/r6xx_accel.c:159-167 | eight color registers cleared |
| CommandStream.IndirectBuffer.ResetTdSamplers | src/r6xx_accel.c:169-184 | both border color blocks cleared between waits |
| CommandStream.IndirectBuffer.ResetSamplerConst | src/r6xx_accel.c:186-197 | all 54 samplers reset, one packet each |
| CommandStream.IndirectBuffer.ResetDx9AluConsts | src/r6xx_accel.c:199-209 | the whole constant region cleared by one packet |
| CommandStream.IndirectBuffer.ResetBoolLoopConst | src/r6xx_accel.c:211-225 | the bool and the loop constants cleared |
| CommandStream.IndirectBuffer.Start3D | src/r6xx_accel.c:227-243 | the packets that start 3D work, one only before RV770 |
| CommandStream.IndirectBuffer.SqSetup | src/r6xx_accel.c:250-300 | six registers in a row with the words of the shares |
| CommandStream.IndirectBuffer.SetRenderTarget | src/r6xx_accel.c:303-357 | the seven registers of a color target, with the packet only some chips get |
| CommandStream.IndirectBuffer.CpSetSurfaceSync | src/r6xx_accel.c:359-373 | the surface flush |
| CommandStream.IndirectBuffer.SetAluConsts | src/r6xx_accel.c:434-443 | a run of shader constants |
| CommandStream.IndirectBuffer.SetBoolConsts | src/r6xx_accel.c:445-452 | one bool constant |
| CommandStream.IndirectBuffer.SetTexResource | src/r6xx_accel.c:484-541 | the resource of a texture, inside the region |
| CommandStream.IndirectBuffer.SetVtxResource | src/r6xx_accel.c:454-481 | the resource of a vertex buffer, inside the region |
| CommandStream.IndirectBuffer.SetTexSampler | src/r6xx_accel.c:545-590 | three words of a sampler, inside the region |
| CommandStream.IndirectBuffer.DrawAuto | src/r6xx_accel.c:1111-1121 | the packets of an automatic draw, and the settings the card has when it meets it |
| CommandStream.IndirectBuffer.DrawImmd | src/r6xx_accel.c:1076-1109 | the packets of an immediate draw, for every list a buffer has room for; the count matches the words of the list |
| CommandStream.IndirectBuffer.FlushIndirect | src/r6xx_accel.c:64-86 | at most 15 no-ops pad the buffer to 64 bytes, what it does is unchanged, and it is submitted |
| CommandStream.IndirectBuffer.Discard | src/r6xx_accel.c:88-94 | an emptied buffer is submitted |
| VertexBatch.PiecesAppend | src/r600_exa.c:597-632 | rectangles stored after whole rectangles are drawn after them |
| VertexBatch.VertexCount | src/r600_exa.c:572-582 | the divisions of the draw setup give back the number of vertices |
| VertexBatch.SolidIsRectangle | src/r600_exa.c:275-286 | the three vertices of a solid are its rectangle |
| VertexBatch.Batcher.Append | src/r600_exa.c:604-632 | a call adds its rectangle to all that was asked for, flushing a full buffer first; the lower half of the buffer is not touched |
| VertexBatch.Batcher.Store | src/r600_exa.c:271-286 | the vertices go behind those stored, in the upper half |
| VertexBatch.Batcher.Done | src/r600_exa.c:291-351 | what is stored is drawn, or an empty buffer discarded; all calls are then drawn |
| VertexBatch.Batcher.MakeDraw | src/r600_exa.c:545-582 | vertex count and resource size are those of the vertices stored |
| VertexBatch.Run | src/r600_exa.c:1615-1749 | for any run of vertex lists and any buffer size the GPU draws them once each and in order |
| VertexBatch.CallReadsBack | src/r600_exa.c:1644-1663 | the vertices of a solid, copy or masked composite call are read as its rectangles |
| VertexBatch.RunCalls | src/r600_exa.c:1615-1749 | for any run of calls between Prepare and Done and any buffer size, what the GPU reads from all the buffers drawn is the rectangles of the calls, in order |
| VertexBatch.CopyIsRectangles | src/r600_exa.c:614-629 | the three vertices of a copy are its destination and its source rectangle |
| VertexBatch.MaskedIsRectangles | src/r600_exa.c:1644-1663 | those of a masked composite are the destination and, scaled by the texture sizes, the source and mask rectangles |
| VertexBatch.ClipBoxSource | src/r600_textured_videofuncs.c:522-533 | the source span of a clip box stays in the picture and meets the next one's start or leaves one pixel |
| VertexBatch.SourceAtIs | src/r600_textured_videofuncs.c:522-533 | a box starts at the last source column that is not past the exact place |
| ScanlineMmio.Scanlines.Subsequent | src/r5xx_xaa.c:547-586 | each word of a line goes to the register of its place: groups of eight from the first on, the rest up to the eighth, or in the last line up to the register that ends the image, written once |
| ScanlineMmio.Image | src/r5xx_xaa.c:547-586 | over a whole image of any size each line is written so, one after the other; all words go out in order, and the register that ends the image exactly once, as the final write |
| ScanlineCp.CommandBuffer.Grab | src/rhd_cs.c:387-404 | after asking for room there is room, and the stream is unchanged |
| ScanlineCp.WidthsAgree | src/r5xx_xaa.c:744-752 | the width in the packet and the words counted for a line agree, for mono and for image data |
| ScanlineCp.PacketReads | src/r5xx_xaa.c:663-682 | a packet as the driver writes it is read as its lines, each for its row |
| ScanlineCp.LinesPerPacketIff | src/r5xx_xaa.c:751-752 | a packet gets a line exactly if one is left and fits the buffer with the header, and never more than fit |
| ScanlineCp.LinesPerPacketMost | src/r5xx_xaa.c:751-752 | a packet holds all lines or as many as fit |
| ScanlineCp.AllGivenIff | src/r5xx_xaa.c:811-817 | after a call for each line all lines are in full packets, exactly if a line fits a buffer; otherwise no call ever opens another packet |
| ScanlineCp.EmptyPacketReads | src/r5xx_xaa.c:663-682 | the packet that is opened for lines that do not fit draws nothing |
| ScanlineCp.Scanlines.Packet | src/r5xx_xaa.c:662-689 | a packet is opened: header, room for its lines, rows counted off |
| ScanlineCp.Scanlines.Fill | src/r5xx_xaa.c:684-685 | the line at the hook lands in its own slot |
| ScanlineCp.Scanlines.SubsequentScanline | src/r5xx_xaa.c:790-818 | the hook moves to the next slot, a full packet is followed by the next one, a wrong buffer number changes nothing |
| ScanlineCp.Scanlines.SetupRectangle | src/r5xx_xaa.c:751-754 | the lines of the first packet, and its opening |
| ScanlineCp.DrawImage | src/r5xx_xaa.c:790-818 | h calls give whole packets in which line k is for row y + k, every line once, each with the clip, colors and control of the setup |
| ScanlineCp.WidthFitsIff | src/r5xx_xaa.c:750-752 | for which widths a line fits a buffer |
| ScanlineCp.DrawMono | src/r5xx_xaa.c:729-755 | a mono rectangle of any width that fits: line k is read for row y + k, and exactly the columns from x + skipleft to x + w are drawn from it, in the foreground color where its bit is set and in the background color elsewhere, under the given control and target |
| ScanlineCp.DrawPixels | src/r5xx_xaa.c:851-891 | a rectangle of pixels of 8, 16 or 32 bits: those columns of row y + k are drawn with the pixels of line k |
| EngineMode.Interlock.EngineWaitIdle3D | src/r5xx_accel.c:522-536 | the wait it emits and the mode it sets |
| EngineMode.Interlock.EngineWaitIdle2D | src/r5xx_accel.c:541-556 | the wait it emits and the mode it sets |
| EngineMode.Interlock.EngineWaitIdleFull | src/r5xx_accel.c:503-517 | the full wait |
| EngineMode.EventKeeps | src/r5xx_accel.c:522-556 | every event keeps the invariant that 2D drawing in flight means mode idle-3D, or 3D state still to be set up, and 3D drawing mode idle-2D; it emits only safe commands |
| EngineMode.FrameKeeps | src/radeon_textured_videofuncs.c:245-805 | a video frame is safe whatever is in flight, and leaves nothing in flight |
| EngineMode.Interlock.NeedState | src/radeon_3d.c:221-258 | setting up the 3D state makes both engines wait |
| EngineMode.RunKeeps | src/r5xx_accel.c:503-556 | so does every legal run |
| EngineMode.InterlockIff | src/r5xx_accel.c:498-556 | every legal run is safe exactly if what the driver remembers at its start tells the truth about what is in flight |
| EngineMode.RunDraws | src/r5xx_exa.c:167-320 | from any state the stream of a run, its waits taken out, is the drawing asked for, in order |
| EngineMode.Session | src/r5xx_accel.c:503-556 | the stream the driver emits over any legal run from its first state is safe, and draws what was asked for |
| SyncMarkers.Markers.MarkSync | src/r5xx_exa.c:105-113 | a marker stands for all work issued before it |
| SyncMarkers.Markers.Sync | src/r5xx_exa.c:118-133 | after it the work before the marker is done, and a marker waited for last costs no wait |
| SyncMarkers.Markers.AfterDownload | src/r5xx_exa.c:679-681 | the marker a download sets is true |
| SyncMarkers.Session | src/r5xx_exa.c:105-133 | over any run the engine has been idle between the taking of a marker and the end of every wait for it, and the GPU is then done with at least the work that went out before that marker, however far it gets by itself |
| AtomRecords.Offset | src/atombios_rev.h:107-112 | where record i starts |
| AtomRecords.Count | src/atombios_rev.h:113-121 | counting ends for all sizes, zero included, with the number one walk gives |
| AtomRecords.RecordsInOrder | src/atombios_rev.h:107-136 | the records counted follow each other without overlap, below the limit |
| AtomRecords.CountVramModules | src/atombios_rev.h:113-121 | in bytes of the table: the memory modules lie one behind the other from byte 20, all below the adjustment table, and there is no other up to one without a size |
| AtomRecords.CountVoltageObjects | src/atombios_rev.h:128-136 | in bytes of the table: the same for the voltage objects from byte 4 |

## Left out

- CopyEngine.Blit: images have 32-bit pixels; 8 and 16 bits a pixel, and the refusal of 24, are not modelled.
- CopySession.Copy: the branch for two different surfaces only appends a rectangle, which VertexBatch models.
- CopyToVram: the queue before an upload holds no unfinished download, since every download waits before it returns; rows wider than half a buffer, on which the loop does not end (PassesEndIff), and 24 bits a pixel are left out.
- DownloadFromScreen: the GPU runs whole rows of a blit; a blit stopped inside a row, rows wider than the space of a pass, on which the loop does not end (PassesEndIff), and 24 bits a pixel are not modelled.
- HostBlitter.UploadToScreen: the source must have the bytes the row copies read, up to three past the end of a row, as the code reads them; rows wider than the command buffer, on which the loop does not end (PassesEndIff), are left out.
- AcceptedIffRightAndMore: the size, filter and repeat tests can only refuse more requests, and are not modelled.
- TexResource.ReadFormat: values that do not fit their field spill into the next one in the code; the settings must fit.
- WaitVlineRange: the parameters say whether a controller has a mode and how many lines; the mode itself is not modelled.
- Append: the commands a flush appends to the lower half of the buffer are those of CommandStream; that they fit is not modelled.
- MaskedIsRectangles: coordinates are real numbers; the rounding of floats and transformed corners are not modelled.
- Subsequent: making room for the register writes and the flush after every 32 lines do not change what is written and are not modelled.
- DrawMono: columns are signed 16-bit numbers, and the rectangle with its padding must lie in their range; a buffer has room for a header.
- Grab: the buffer is present; the register path's polling of the engine's FIFO is not modelled.
- Session: a driver without 3D support emits no waits and has no 3D drawing; a reset of the engine and a change of the direct rendering client are not modelled; waits of the CPU for an idle GPU are not counted, so the stream is safe without them.
- The unmasked branch of R600Composite has no test for a full buffer; batching is modelled for solid, copy and masked calls.
- The manual upload of R5xx is the row loop of the manual download in the other direction, and is left out.
- The alignment checks of texture and target setup, and the size limits of the destination, are refusals without effect and are left out.
- Filters, borders of pictures that do not repeat, transforms, and the routing of a8 destinations on R300 are not modelled.
- R100 and R200 compositing, and the code for big-endian hosts, are not modelled.
- Straight-line register setup (the default 3D state, the solid and copy preparation) is left out: it is a long list of the runs CommandStream models.
- Shader programs are left out: compositing needs only that they multiply source by mask.
- Mode setting, soft reset, DRM calls and registration with the X server are left out: they are input and output.
- Register addresses and bits are given only where a proof needs them.
- Overflow of 32-bit coordinates and markers is not modelled.
