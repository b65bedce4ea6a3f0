# Lab 5 graphics pipeline and player: model and proofs

A Dafny 4.11 model of the C code that draws on the VGA frame buffer and plays the song in Lab 5:
bitmap conversion (`gimp_bmp.c`), image blits (`draw_gimps.c`), alpha-blended text
(`simple_text.c`, with `vid_set_pixel` of `simple_graphics.c`), the double-buffered frame reader with
its DMA copy (`vip_fr.c`), and the two tasks of the audio player (`hello_ucosii.c`).

Memory is `array<bv8>`, little-endian; a pointer is an array and an offset. In-place loops are methods
with the loops of the C code, each proved equal to a specification function of the old memory. What
the code promises is then proved about those functions, for all inputs and all runs: in terms of the
addresses, bytes and numbers of the C code, so that the results do not rest on how a specification
function is written.

| file | content |
|---|---|
| `Bytes.dfy` | bytes, words, stores, memcpy and memset |
| `Raster.dfy` | cells of a grid in memory and the row-major scan that all pixel loops share |
| `PixelFormats.dfy`, `PixelFormatTheorems.dfy` | the six strided conversions, and what they do alone and in sequence |
| `ImageLoader.dfy` | `load_gimp_bmp`, with `short` dimensions and a 32-bit allocation size |
| `Blits.dfy`, `BlitTheorems.dfy` | the row-wise, plain and keyed blit, and how they relate |
| `Channels.dfy` | channel split and merge, alpha blending |
| `Glyphs.dfy` | one character |
| `Strings.dfy`, `StringTheorems.dfy`, `StringGeometry.dfy` | the characters of a string in order, the picture they leave, where their boxes lie |
| `StringLayout.dfy` | which character is drawn where and in which colour, and what its pixels show |
| `StringPrinter.dfy` | the string loop, and text as a drawing step of the frame reader |
| `Dma.dfy` | the descriptor chain |
| `FrameReader.dfy` | the frame reader as a state machine, and its runs |
| `Display.dfy` | images end to end |
| `Player.dfy` | both tasks as an interleaved transition system, one step per flag access |

Modelling choices:

- An `int` or `long` is a mathematical integer except where the code narrows it: bitmap dimensions
  pass through `short`, and the allocation size is computed modulo 2^32. Images fit the 28-bit address
  space of the CPU, which is what makes that size exact.
- `malloc` returns memory of arbitrary content. Its failure is a parameter.
- The colour variable of the glyph loop is not initialised, and the merge sets only its low bytes. Its
  first value is an arbitrary word, and results are stated about the bytes a depth defines.
- A string is its characters before the terminator. The font holds '!' to '~', with an alpha byte for
  every pixel of a box.
- A descriptor means what the variables passed for it are called: destination, source, length. The
  driver itself is not part of this model.
- The player's flags are read and written in separate steps, and either task may move at any time. That
  allows more runs than the priorities of the two tasks do.

Where a promise does not hold of the code, the exact condition under which it does is proved:

- `load_gimp_bmp` fixes all allocated bytes exactly when nothing is allocated, or the depth pair is
  supported and both dimensions fit a `short` (`LoadFixedByImageIff`).
- The keyed blit selects from the plain one exactly when the visible window is no wider than a frame
  line or at most one line high (`SelectionIffNoOverlap`).
- The boxes of every string are disjoint exactly when no glyph of some width is taller than '|'
  (`BoxesApartIff`).
- Erasing the draw frame is invisible exactly when the two frames share no byte; `main` passes the same
  base twice (`EraseHiddenIffDisjoint`, `MainSharesOneFrame`).
- Erasing to a colour shows that colour exactly when its four bytes are equal, because `memset` uses the
  low byte only (`EraseShowsColorIffGray`).

## Model

| member | source | states |
|---|---|---|
| PixelFormats.CopyPixMap32To32 | Lab5/New/software/lab5/graphic_lib/gimp_bmp.c:96-125 | the destination is the old one with exactly the active pixels replaced by their source words; no access leaves either buffer |
| PixelFormats.CopyPixMap32To24 | Lab5/New/software/lab5/graphic_lib/gimp_bmp.c:128-163 | the same, each pixel becoming its first three bytes |
| PixelFormats.CopyPixMap32To16 | Lab5/New/software/lab5/graphic_lib/gimp_bmp.c:166-203 | the same, each pixel packed 5:6:5 with its lowest byte on top |
| PixelFormats.CopyPixMap24To32 | Lab5/New/software/lab5/graphic_lib/gimp_bmp.c:206-243 | the same, each pixel becoming its bytes reversed and 0xff |
| PixelFormats.CopyPixMap24To24 | Lab5/New/software/lab5/graphic_lib/gimp_bmp.c:246-281 | the same, each pixel copied |
| PixelFormats.CopyPixMap24To16 | Lab5/New/software/lab5/graphic_lib/gimp_bmp.c:283-319 | the same, each pixel packed 5:6:5 from its three bytes |
| PixelFormats.AccessInBounds | Lab5/New/software/lab5/graphic_lib/gimp_bmp.c:112-124 | if the last active pixel lies in both buffers, so does every pixel the loops touch |
| PixelFormatTheorems.PixelConverted | Lab5/New/software/lab5/graphic_lib/gimp_bmp.c:96-319 | for all six kernels and all line widths, destination pixel (r, c) is the conversion of source pixel (r, c) |
| PixelFormatTheorems.PaddingKept | Lab5/New/software/lab5/graphic_lib/gimp_bmp.c:96-319 | every destination byte in row padding or past the active area keeps its value |
| PixelFormatTheorems.ConvertedBytes | Lab5/New/software/lab5/graphic_lib/gimp_bmp.c:96-319 | in bytes, for each kernel: the pixel at units * (r * line + c) of the destination has copied, reversed (with 0xff behind) or 5:6:5 packed bytes of the source pixel at units * (r * line + c) |
| PixelFormatTheorems.OtherBytesKept | Lab5/New/software/lab5/graphic_lib/gimp_bmp.c:96-319 | a byte at none of those addresses keeps its value |
| PixelFormatTheorems.ConversionsCommute | Lab5/New/software/lab5/graphic_lib/gimp_bmp.c:128-203 | for every image, all line widths and any buffer contents, 32 to 24 to 16 bits leaves the same destination as 32 to 16 |
| PixelFormatTheorems.ThereAndBackReverses | Lab5/New/software/lab5/graphic_lib/gimp_bmp.c:206-243 | 24 to 32 to 24 bits reverses the bytes of every pixel |
| PixelFormatTheorems.ThereAndBackTwiceRestores | Lab5/New/software/lab5/graphic_lib/gimp_bmp.c:128-163 | doing that pair of conversions twice on a packed image restores it byte for byte |
| ImageLoader.LoadGimpBmp | Lab5/New/software/lab5/graphic_lib/gimp_bmp.c:5-94 | return code, narrowed dimensions, allocation size, and the bitmap data as a function of the image and the fresh memory, for every pair of depths |
| ImageLoader.AllocationExact | Lab5/New/software/lab5/graphic_lib/gimp_bmp.c:11-19 | for an image in the address space and a supported pair, the 32-bit size is the number of bytes needed |
| ImageLoader.AllocationWraps | Lab5/New/software/lab5/graphic_lib/gimp_bmp.c:11-19 | for every depth the size is width * height * (bits / 8) modulo 2^32 as a signed number |
| ImageLoader.Narrowing | Lab5/New/software/lab5/graphic_lib/gimp_bmp.c:11-17 | a narrowed number is the congruent one of the type's range, and bits / 8 truncates towards zero |
| ImageLoader.LoadedPixels | Lab5/New/software/lab5/graphic_lib/gimp_bmp.c:21-90 | for each of the six supported pairs, the bytes of every pixel of the loaded bitmap in terms of the bytes of the image dump |
| ImageLoader.LoadInBounds | Lab5/New/software/lab5/graphic_lib/gimp_bmp.c:14-90 | the selected conversion stays inside image and bitmap for all dimensions, also those a `short` changes |
| ImageLoader.LoadFixedByImageIff | Lab5/New/software/lab5/graphic_lib/gimp_bmp.c:5-94 | every allocated byte gets a value the image alone determines if and only if nothing is allocated, or the pair is supported and both dimensions fit a `short` |
| Blits.AsVidCopyImageToBuffer | Lab5/New/software/lab5/graphic_lib/draw_gimps.c:14-30 | copying line by line leaves the frame as drawing all pixels one by one with all four bytes does |
| Blits.AsVidCopyImageToBuffer2 | Lab5/New/software/lab5/graphic_lib/draw_gimps.c:32-65 | the frame is overlaid with the colours of the visible pixels, clip limits inclusive, later pixels over earlier ones |
| Blits.AsVidCopyImageToBuffer3 | Lab5/New/software/lab5/graphic_lib/draw_gimps.c:68-105 | the same without pixels of the key colour; the source pointer moves past them all the same |
| Blits.ReadColor | Lab5/New/software/lab5/graphic_lib/draw_gimps.c:47-55 | reading four bytes yields the colour of the pixel they are and moves the pointer by four |
| BlitTheorems.LayerExact | Lab5/New/software/lab5/graphic_lib/draw_gimps.c:32-105 | without overlapping lines each drawn pixel is found at its own frame word, and nothing else is written |
| BlitTheorems.LayerTop | Lab5/New/software/lab5/graphic_lib/draw_gimps.c:32-105 | for every clip window and offset, overlapping lines included: exactly the words of drawn pixels are written, and where several share a word the last one shows |
| BlitTheorems.BlitPixel | Lab5/New/software/lab5/graphic_lib/draw_gimps.c:14-105 | in bytes: image pixel (px, py) with px <= w_fit and py <= h_fit, not of the key colour, puts blue, green, red and 0 (row-wise: its own fourth byte) at dest + 4 * ((py + y) * W + (px + x)) |
| BlitTheorems.BlitElsewhere | Lab5/New/software/lab5/graphic_lib/draw_gimps.c:14-105 | for every clip window and offset, a byte in the word of no such pixel is kept |
| BlitTheorems.IndexInjective | Lab5/New/software/lab5/graphic_lib/draw_gimps.c:58 | visible pixels of a window no wider than the frame, or one line high, have different frame words |
| BlitTheorems.BlitIdempotent | Lab5/New/software/lab5/graphic_lib/draw_gimps.c:32-105 | repeating a blit changes nothing, for every image, window, offset and key |
| BlitTheorems.KeyBeyondColors | Lab5/New/software/lab5/graphic_lib/draw_gimps.c:91-97 | with a key outside 0..0xffffff the keyed blit is the plain one, for every image, window and offset |
| BlitTheorems.RowBlitAgreesWithPixelBlit | Lab5/New/software/lab5/graphic_lib/draw_gimps.c:14-65 | row-wise and per-pixel blit at (0, 0) agree on the low 24 bits inside the image and both keep the old frame elsewhere |
| BlitTheorems.KeyedBlitSelects | Lab5/New/software/lab5/graphic_lib/draw_gimps.c:68-105 | in memory, each word after the keyed blit is the plain blit's word where that differs from the key and the old word otherwise |
| BlitTheorems.OverlapBreaksSelection | Lab5/New/software/lab5/graphic_lib/draw_gimps.c:93-97 | an image and a key for which that fails whenever visible lines overlap |
| BlitTheorems.SelectionIffNoOverlap | Lab5/New/software/lab5/graphic_lib/draw_gimps.c:68-105 | the selection holds for all images and keys if and only if visible lines do not overlap |
| Display.LoadAndBlitShowsImage | Lab5/New/software/lab5/graphic_lib/draw_gimps.c:191-231 | end to end for RGB and RGBA images that fit the frame: the word at base + 4 * ((y+_y)*W+(x+_x)) holds blue, green, red and 0 of the pixel where that is not the key, and its old bytes otherwise; every other byte of memory is kept |
| Display.DispImageFromGimp | Lab5/New/software/lab5/graphic_lib/draw_gimps.c:191-231 | the code that allocates, loads and blits does that at the given offset to frame 0 if DisplayFrame is 0 and to frame 1 otherwise, and returns 1 |
| Display.LoadedColor | Lab5/New/software/lab5/graphic_lib/gimp_bmp.c:69-90 | loading to 32 bits keeps the colour of every pixel: R, G, B for three bytes, byte 2, 1, 0 for four |
| Channels.SeperateColorChannels | Lab5/New/software/lab5/graphic_lib/simple_text.c:81-110 | the out-pointers receive the channels of the colour, and 0 is returned for an unknown depth |
| Channels.MergeColorChannels | Lab5/New/software/lab5/graphic_lib/simple_text.c:125-152 | the low bytes of the colour variable are replaced, its other bytes stay |
| Channels.SplitFields | Lab5/New/software/lab5/graphic_lib/simple_text.c:81-110 | red, green and blue are bits 11-15, 5-10 and 0-4 of the colour at depth 16, bits 16-23, 8-15 and 0-7 at the others |
| Channels.MergeAfterSplit | Lab5/New/software/lab5/graphic_lib/simple_text.c:81-152 | merging a split colour restores all bytes of the depth: 16 bits, or the low 24 |
| Channels.SplitAfterMerge | Lab5/New/software/lab5/graphic_lib/simple_text.c:81-152 | splitting merged channels restores them when they are in range |
| Channels.SplitAfterMerge16 | Lab5/New/software/lab5/graphic_lib/simple_text.c:125-139 | of channels that are out of range depth 16 keeps the low bits |
| Channels.SplitConverted | Lab5/New/software/lab5/graphic_lib/gimp_bmp.c:306-313 | splitting a pixel of the 24-to-16 conversion gives R>>3, G>>2 and B>>3 |
| Channels.WeightedSum | Lab5/New/software/lab5/graphic_lib/simple_text.c:236-238 | the code's weighted sum trades one part of background for foreground at each step of alpha |
| Channels.MixIsConvex | Lab5/New/software/lab5/graphic_lib/simple_text.c:236-238 | a blend lies between its channels, less than one below the exact value, and equals them at alpha 0, at 255 and when they agree |
| Channels.MixMonotone | Lab5/New/software/lab5/graphic_lib/simple_text.c:236-238 | more alpha moves the blend towards the foreground |
| Channels.ClipNeverFires | Lab5/New/software/lab5/graphic_lib/simple_text.c:241-254 | for channels within the limit of the depth the clip branches are never taken |
| Channels.BlendInRange | Lab5/New/software/lab5/graphic_lib/simple_text.c:219-261 | blending stays in the range of the depth, and a colour blended with itself is itself |
| Channels.BlendIsBlended | Lab5/New/software/lab5/graphic_lib/simple_text.c:236-254 | for all channels, each result is alpha parts foreground and 255 - alpha parts background, rounded down, or the limit 31, 63 or 255 if that is exceeded |
| Channels.BlendExact | Lab5/New/software/lab5/graphic_lib/simple_text.c:236-254 | for channels in range each result is that mix; alpha 255 gives the foreground and 0 the background |
| Channels.MixedInNumbers | Lab5/New/software/lab5/graphic_lib/simple_text.c:236-238 | the mix in numbers: 255 * r <= fore * alpha + back * (255 - alpha) < 255 * (r + 1) |
| Glyphs.ReadFromFrame | Lab5/New/software/lab5/graphic_lib/simple_text.c:167-208 | returns the channels at draw frame + vert * (width * n) + horiz * n, n = 4, 3 or 2 bytes; zeros and 0 at an unknown depth |
| Glyphs.AlphaBlending | Lab5/New/software/lab5/graphic_lib/simple_text.c:219-261 | each channel becomes the mix of the given one, weighted by alpha, with the pixel below for a clear background and with the background colour otherwise; unknown depths leave the channels |
| Glyphs.VidSetPixel | Lab5/New/software/lab5/graphic_lib/simple_graphics.c:299-325 | stores the n low bytes of the colour at draw frame + vert * (width * n) + horiz * n, n = 4, 3 or 2, and nothing else |
| Glyphs.VidPrintCharAlpha | Lab5/New/software/lab5/graphic_lib/simple_text.c:273-308 | the draw frame is the old one with the box of the character inked, each pixel blended over the frame as it was before the call |
| Glyphs.AlphaIndex | Lab5/New/software/lab5/graphic_lib/simple_text.c:283-303 | the linearly walked alpha pointer is at row * width + column and stays inside the map |
| Glyphs.StampedPixel | Lab5/New/software/lab5/graphic_lib/simple_text.c:288-305 | a pixel in the box reads back as the blended channels, any other pixel as before |
| Glyphs.PixelInBytes | Lab5/New/software/lab5/graphic_lib/simple_text.c:167-208 | the channels of a canvas pixel are the bytes at base + py * (width * n) + px * n |
| Glyphs.CharacterPixel | Lab5/New/software/lab5/graphic_lib/simple_text.c:273-308 | pixel (row, col) of a printed character shows the mix of its colour and what is behind it by alpha byte row * width + col of font[character - 33]; at alpha 255 its colour, at alpha 0 what is behind it |
| Glyphs.StampedElsewhere | Lab5/New/software/lab5/graphic_lib/simple_text.c:288-305 | no byte outside the box changes |
| StringPrinter.VidPrintStringAlpha | Lab5/New/software/lab5/graphic_lib/simple_text.c:18-63 | the draw frame is the old one with the characters of the string's layout drawn in order, and, if a pixel of the depth is no larger than a pixel of the frame, the frame reader has made a drawing step: no byte outside the draw frame has changed |
| Strings.LayoutConcat | Lab5/New/software/lab5/graphic_lib/simple_text.c:27-61 | the layout of a concatenation is the first layout and then the second from where the pen is |
| Strings.StampedConcat | Lab5/New/software/lab5/graphic_lib/simple_text.c:27-61 | drawing a list of characters is drawing its parts one after the other |
| StringLayout.PenIsAtPlace | Lab5/New/software/lab5/graphic_lib/simple_text.c:27-61 | before position i the pen is the widths since the last newline to the right of the start, and one height of font['\|' - 33] down per newline |
| StringLayout.LayoutExact | Lab5/New/software/lab5/graphic_lib/simple_text.c:27-61 | exactly what is drawn: each font character at its place in the text colour, '-' in the background colour for a blank and twice for a tab unless the background is clear, and nothing else |
| StringLayout.CharacterShown | Lab5/New/software/lab5/graphic_lib/simple_text.c:18-63 | after printing, pixel (row, col) of the box of character i shows the mix of the text colour and what was behind it by alpha byte row * width + col (no glyph taller than '\|') |
| StringLayout.BlankShown | Lab5/New/software/lab5/graphic_lib/simple_text.c:35-53 | on an opaque background the boxes of blanks and tabs are solid background |
| StringLayout.OtherPixelsKept | Lab5/New/software/lab5/graphic_lib/simple_text.c:18-63 | a pixel in no box of a drawn character keeps its channels |
| StringTheorems.StampedAllPixel | Lab5/New/software/lab5/graphic_lib/simple_text.c:18-63 | every frame pixel is its old channels blended through the characters that cover it, in order; clear and opaque backgrounds |
| StringTheorems.StampedAllElsewhere | Lab5/New/software/lab5/graphic_lib/simple_text.c:18-63 | no byte of memory outside the boxes of the string changes |
| StringTheorems.OpaqueStringIndependent | Lab5/New/software/lab5/graphic_lib/simple_text.c:18-63 | on an opaque background the pixels of the boxes do not depend on the old frame, and all others are kept |
| StringTheorems.PrintTwiceIsOnce | Lab5/New/software/lab5/graphic_lib/simple_text.c:18-63 | printing a string twice on an opaque background shows what printing it once shows, overlapping boxes included |
| StringTheorems.BlankIsSolid | Lab5/New/software/lab5/graphic_lib/simple_text.c:36-43 | a blank on an opaque background is a solid rectangle of that colour |
| StringTheorems.MultiLineIsLineByLine | Lab5/New/software/lab5/graphic_lib/simple_text.c:27-34 | printing a multi-line string is printing each line on its own, line k at the left margin and k heights of '\|' down |
| StringTheorems.LinesJoined | Lab5/New/software/lab5/graphic_lib/simple_text.c:27-34 | those lines joined by newlines are the string, and none of them holds a newline |
| StringGeometry.VidStringPixelLengthAlpha | Lab5/New/software/lab5/graphic_lib/simple_text.c:318-337 | the returned length is the distance the pen travels for that string |
| StringGeometry.PenTravel | Lab5/New/software/lab5/graphic_lib/simple_text.c:27-61 | for characters of the font and blanks, the pen of the string loop moves by the predicted length from any start |
| StringLayout.LengthIsTravel | Lab5/New/software/lab5/graphic_lib/simple_text.c:318-337 | the length is the sum of bounds_width of font[c - 33], a blank counting as font[12] |
| StringGeometry.LengthAdditive | Lab5/New/software/lab5/graphic_lib/simple_text.c:318-337 | the length of a concatenation is the sum of the lengths |
| StringGeometry.LineTiles | Lab5/New/software/lab5/graphic_lib/simple_text.c:35-60 | on an opaque background the boxes of a line stand side by side from the start to the pen |
| StringGeometry.TilesOnce | Lab5/New/software/lab5/graphic_lib/simple_text.c:35-60 | so each column between start and pen is in exactly one box |
| StringGeometry.BoxesApartIff | Lab5/New/software/lab5/graphic_lib/simple_text.c:29-34 | the boxes of every string are disjoint if and only if no glyph of some width is taller than '\|' |
| StringGeometry.TallGlyphOverlaps | Lab5/New/software/lab5/graphic_lib/simple_text.c:29-34 | a taller glyph printed on two lines overlaps itself |
| StringGeometry.PixelOfCharacter | Lab5/New/software/lab5/graphic_lib/simple_text.c:288-305 | with disjoint boxes a pixel shows the one character it belongs to, over what was there before |
| Dma.BuildChain | Lab5/New/software/lab5/vip_fr.c:162-178 | the loop fills the array of (nSize + 32767) / 32768 descriptors with the blocks of the copy, in order and linked |
| Dma.BlocksIsCeiling | Lab5/New/software/lab5/vip_fr.c:162 | the descriptor count is the least number of 32 KB blocks that covers nSize bytes |
| Dma.ChainPartitions | Lab5/New/software/lab5/vip_fr.c:165-178 | blocks of 1 to 32768 bytes partition [0, nSize) in order; following the links visits each descriptor once and ends at the only null link |
| Dma.ChainRefinesMemcpy | Lab5/New/software/lab5/vip_fr.c:146-185 | executing the chain on disjoint regions leaves the same memory as one memcpy: byte dest + i is the old byte src + i, all others are kept |
| Dma.DoSyncTransfer | Lab5/New/software/lab5/vip_fr.c:180-181 | a transfer that follows the links has the effect of the chain |
| Dma.MyMemcpy | Lab5/New/software/lab5/vip_fr.c:146-185 | the whole function is a memcpy when the device is found and changes nothing when it is not |
| FrameReader.VipFrameReader.constructor | Lab5/New/software/lab5/vip_fr.c:21-65 | frame 0 is shown and selected, 32 bits and four bytes per pixel |
| FrameReader.VipFrameReader.GetDrawFrame | Lab5/New/software/lab5/vip_fr.c:71-75 | returns the base of frame 1 if DisplayFrame is 0 and of frame 0 otherwise |
| FrameReader.VipFrameReader.ActiveDrawFrame | Lab5/New/software/lab5/vip_fr.c:76-80 | a swap step: the other frame is shown and selected, memory is unchanged |
| FrameReader.VipFrameReader.EraseScreen | Lab5/New/software/lab5/vip_fr.c:82-84 | an erase step: the draw frame is filled with the low byte of the colour |
| FrameReader.VipFrameReader.ReserveBackground | Lab5/New/software/lab5/vip_fr.c:122-141 | a reserve step: the draw frame becomes a copy of the displayed one |
| FrameReader.VipFrameReader.ReserveBackgroundByDma | Lab5/New/software/lab5/vip_fr.c:122-141 | the same step through the descriptor chain |
| FrameReader.StepInBytes | Lab5/New/software/lab5/vip_fr.c:71-141 | byte by byte: with frame 0 displayed erasing fills frame 1 with the low byte of the colour and reserving copies frame 0 to frame 1, with frame 1 displayed the other way round; a swap changes only number and register |
| FrameReader.PictureChangesOnlyAtSwap | Lab5/New/software/lab5/vip_fr.c:71-84 | with disjoint frames only a swap changes the displayed picture, and it exchanges the two pictures |
| FrameReader.DrawFrameHidden | Lab5/New/software/lab5/vip_fr.c:71-75 | the draw frame never shares a byte with the displayed frame |
| FrameReader.RunCountsSwaps | Lab5/New/software/lab5/vip_fr.c:76-80 | over every run DisplayFrame is the number of swaps modulo 2 and the select register equals it |
| FrameReader.ScreenShowsLastSwap | Lab5/New/software/lab5/vip_fr.c:71-141 | over every run the screen shows what was in the draw frame at the last swap |
| FrameReader.ReserveThenSwap | Lab5/New/software/lab5/vip_fr.c:122-141 | copying the background and swapping shows the identical picture |
| FrameReader.EraseHiddenIffDisjoint | Lab5/New/software/lab5/vip_fr.c:82-84 | erasing is invisible for all memories and colours if and only if the frames share no byte |
| FrameReader.MainSharesOneFrame | Lab5/New/software/lab5/hello_ucosii.c:398-399 | as `main` sets it up erasing is visible; with the second frame behind the first it would not be |
| FrameReader.EraseShowsColorIffGray | Lab5/New/software/lab5/vip_fr.c:82-84 | an erased frame shows the colour if and only if its four bytes are equal |
| StringPrinter.PrintingIsDrawing | Lab5/New/software/lab5/graphic_lib/simple_text.c:18-63 | printing text is a drawing step of the frame reader, so it reaches the screen only with a swap |
| Player.Player.MoveTask1 | Lab5/New/software/lab5/hello_ucosii.c:172-189 | a set play flag read sends and logs chunk counter mod size and moves the counter on by 1000 or back to 0; a set stop flag read resets the counter; any other read only moves on to the next flag |
| Player.Player.MoveTask2 | Lab5/New/software/lab5/hello_ucosii.c:310-357 | waiting, the pressed button is taken up; then play, pause and stop are written one per move, each true for its own mode only |
| Player.CounterStep | Lab5/New/software/lab5/hello_ucosii.c:177-182 | the closed form 1000 * (n mod (ceil(size/1000)+1)) of the counter follows the code |
| Player.CounterCycle | Lab5/New/software/lab5/hello_ucosii.c:177-182 | the counter is a multiple of 1000 below size + 1000 and is zero again after exactly ceil(size/1000)+1 chunks |
| Player.CycleCovers | Lab5/New/software/lab5/hello_ucosii.c:176 | every sample of the song is in a chunk of each cycle |
| Player.RunCounter | Lab5/New/software/lab5/hello_ucosii.c:170-187 | over every schedule the counter is the one given by the number of chunks since the last reset |
| Player.RunKeepsInvariant | Lab5/New/software/lab5/hello_ucosii.c:168-191 | over every interleaving of flag reads and writes the flags are those of the old and new request, and all events so far are justified |
| Player.EveryEventRequested | Lab5/New/software/lab5/hello_ucosii.c:174-187 | each chunk sent belongs to the play request settled last or being written, with the start its number fixes, and each reset to such a stop request |
| Player.DecodeSeesOldOrNew | Lab5/New/software/lab5/hello_ucosii.c:174-186 | a flag found set is that of the old or the new request |
| Player.DecodeExactWhenSettled | Lab5/New/software/lab5/hello_ucosii.c:174-186 | read in one go, the flags decode to the old mode, the new mode or none, and to the settled mode when nothing is being written |
| Player.PausesKeepChunkStarts | Lab5/New/software/lab5/hello_ucosii.c:174-184 | without a reset the chunk starts of every schedule are the first values of one fixed sequence, wherever pauses fall |
| Player.EveryReadActs | Lab5/New/software/lab5/hello_ucosii.c:174-187 | over every schedule each set play flag read sends one chunk, each set stop flag read resets once, and the requests are the buttons that found task2 waiting |
| Player.PlaysOn | Lab5/New/software/lab5/hello_ucosii.c:174-182 | left alone with the play flag set, n moves of task1 send the next n chunks of the cycle and leave the counter at 1000 * ((m + n) mod (ceil(size/1000)+1)) |
| Player.SongPlayedThrough | Lab5/New/software/lab5/hello_ucosii.c:174-182 | a song played from its beginning sends every sample within ceil(size/1000)+1 moves, one chunk each; the counter is back at zero then and not before |
| Player.SettledRequestObeyed | Lab5/New/software/lab5/hello_ucosii.c:174-187 | under a settled stop three moves of task1 reset once, under a settled pause it sends and resets nothing, under a settled play it is at the play flag within two moves |

## Left out

- Sample contents of a chunk: `send_audio_fifo` stands on the line of a comment (`hello_ucosii.c:155`), so only where chunks start is stated.
- The frequency buttons: clamping to 100..88000 is straight-line code.
- Buttons, hit rectangles, the drawn face and the selector calls of `hello_ucosii.c`: fixed UI constants.
- `printf` calls, the debug read in `draw_gimps.c:26`, and the constant return values of the blits.
- `DispIMAGE` and `DispIMAGE_fit`: the same composition as `DispIMAGE_from_gimp` with the other two blits.
- Allocation failure inside the `DispIMAGE` functions, which do not test for it.
- Register writes other than the frame select, cache flushes, interrupts and PIO access: device effects.
- The DMA driver and a copy of zero bytes, for which no descriptor would be built.
- Overlapping regions in memcpy and in the DMA copy, on which C sets no demand.
- Tabs and newlines in `vid_string_pixel_length_alpha`, which has no case for them.
- Overflow of pen positions and string lengths beyond 32 bits; drawing is stated inside the frame.
- The scheduler of uC/OS-II: every interleaving is allowed.
- Boxes, lines, circles and triangles of `simple_graphics.c`.
