# Scanner backends of sane-backends: lines, options and runs

Dafny models of how nine parts of the sane-backends drivers turn what a scanner sends into the stream that
`sane_read` promises, and of three option and run state machines beside them.

The readers all have the same shape. The scanner sends rows, planes, half lines, blocks or chunks; the frontend
asks for any number of bytes at a time; in between are buffers, leftover counters and rewrites in place. Each reader
is a class with the driver's buffers and counters. The scanner is a sequence (or function) of the data it will
send, the frontend an arbitrary sequence of requests, and what is proved is that the bytes handed out are a pure
function of the scanner's data: a prefix of it after any requests, all of it at the end of file.
What that function is, is stated once more without it, byte by byte of what the scanner sent (`Shows`, `Sent`, `Copied`,
and the lemmas whose names end in `Law` or `Shows`).

| module | models |
|---|---|
| ArtecLines, ArtecReader | Artec: the colour-line delay FIFO, row accounting, staging buffer |
| CanonLineart, CanonFb1200, CanonFb620 | Canon: lineart bit tables and the loop they replaced, the two-pass 1200 dpi merge through a temporary file, the planar reader |
| EPlusReader, EPlusLines, EPlusShading | Artec E+ 48U: 64-byte block reader and alignment, mirrored and interpolated lines, shading calibration |
| Constraints | what the library does to a value before a driver sees it: ranges, number lists, names |
| AppleActivity, AppleOptions, AppleArea | Apple: which options are active, what setting one does, scan-area quantisation and clamp |
| Nibbles | Abaton and Apple: in-place expansion of two pixels a byte |
| BhSections, BhReadList, BhOptions | Bell+Howell: sections, read list and batch, paper, geometry and compression |
| As6e | AS6E: carry-over between chunks and requests |
| AgfaFocus | AGFA Focus: batched line reader, big-endian numbers |
| Streams, RowMath | lines as a stream, memcpy; arithmetic of whole rows |

Bytes are integers below 256 or, where bits matter, 8-bit vectors. Products of line counts and line lengths are
written as `Span(rows, bytes)`. Sizes are unbounded integers except where the width matters: the shading sums wrap
at 2^32 and the numbers of the AGFA commands pass through a 32-bit int.

Where the source does not do what it should, the model follows it and says exactly when:

- Apple: the halftone file's flag gets out of order exactly when the download pattern is chosen in place of another
  one, and back exactly with the next mode or other pattern (`FileOrder`). So it depends on the order of two settings
  (`FileDependsOnHistory`), and a full recomputation would change it (`Recompute`).
- Apple: the pixels of a line fill its scanner bytes if and only if eight times the bytes is a multiple of the bits per
  pixel and the dots left over from what was cut off are fewer than a pixel - or none at all, when an area without room
  has come out with fewer than no bytes, because the division rounds towards zero (`CalcParameters`, `PixelsLeft`). That
  is always so but in the two colour modes; there four bytes at 100 dpi make one pixel (`ColourLine`), and at 300 dpi -9
  dots make -2 pixels (`NoRoom`). Dots can be left over only in the colour modes at 75, 150 and 300 dpi, where a scanner
  byte is not a whole number of dots (`WholeBytes`, `NoSurplus`).
- Abaton and Apple: with 16 greys an odd request is never filled, so the loop only ends with the scan, an abort or a
  failure. Any other request is filled when the scanner offers enough (`SaneRead`).
- Bell+Howell: when a page is at its end and the next one cannot be fed, a repeated start goes on to the second frame of
  a page that was never fed, exactly when a page has more than one frame (`EmptyFeeder`).
- Bell+Howell: compression hidden for lack of hardware comes back with a mode change (`HiddenCompressionReturns`);
  `BhOptions.Active` with `BhOptions.Run` says exactly when it is offered.
- Bell+Howell: a number out of range in a section option makes every later one that names a section fail, as long as no
  call of the library puts another error into errno, which is never cleared (`StaleErrno`); `SetupSections` says exactly
  which options are read.
- Artec E+ 48U: at 1200 dpi on the enhanced model every second shading entry is not the sample of its sensor; a table
  holds a sensor's own sample for all data exactly where the bytes of the sensor start (`OwnSample`, `PixelPlace`), and
  `EntryOf` is the mixture elsewhere (`Calculate`).
- AGFA Focus: the last batch is not cut to the lines that are still wanted. The frontend gets exactly the announced lines
  if and only if a batch ends there (`Process`, `ExactWhen`, `AllAvailable`); `TooManyLines` is a scan with more.

## Model

| member | source | states |
|---|---|---|
| `ArtecLines.PlanarPixelSources` | backend/artec.c:879-1028 | pixel p of picture line k is red of device line k, green of line k + offset, blue of line k + 2 * offset, mirrored on a reversed scanner; planar device lines |
| `ArtecLines.InterleavedPixelSources` | backend/artec.c:879-1028 | the same for device lines that come pixel by pixel, with the byte order a reversed scanner sends |
| `ArtecLines.RealignedAtOffsetZero` | backend/artec.c:926-928 | without an offset the realigned line is the device line itself |
| `ArtecLines.PlanarToPixelsAt` | backend/artec.c:863-868 | triple p of a reordered line holds sample p of each plane |
| `ArtecLines.MirroredAt` | backend/artec.c:788-795 | pixel p of a reversed line is pixel w - 1 - p with its three bytes in their order |
| `ArtecLines.LineRgbToByteRgb` | backend/artec.c:852-872 | the buffer becomes, in place, the pixel order of its planes |
| `ArtecLines.ReverseLine` | backend/artec.c:775-796 | the buffer becomes, in place, its own mirror image pixel by pixel (RGB branch) |
| `ArtecLines.CopyColumn` | backend/artec.c:959-968 | one byte of every pixel is taken over and no other byte changes |
| `ArtecLines.DelayLine.Allocate` | backend/artec.c:898-935 | a FIFO of 2 * offset distinct rows, holding nothing yet |
| `ArtecLines.DelayLine.TurnPointers` | backend/artec.c:972-978 | every pointer moves one place down, the first one to the end, and the pointers stay the same rows, each once |
| `ArtecLines.DelayLine.Insert` | backend/artec.c:971-981 | the FIFO holds the last 2 * offset lines again, and the pointers are still a permutation of the allocated rows |
| `ArtecLines.DelayLine.Delay` | backend/artec.c:937-1024 | one line in; nothing out for the first 2 * offset lines, and then the oldest red and the middle green with the newest blue |
| `ArtecLines.DelayLine.Step` | backend/artec.c:928-1027 | the same, related to the pure realignment of all lines put in so far, with and without an offset |
| `ArtecLines.DelayLine.BufferLineOffset` | backend/artec.c:879-1028 | line n in gives realigned line n - 2 * offset out in the caller's buffer, or nothing; an empty request changes nothing |
| `ArtecLines.DelayLine.Free` | backend/artec.c:1030-1048 | the delay line is as before its first use |
| `ArtecReader.RealignedPrefix` | backend/artec.c:879-1028 | what has come out so far does not depend on lines that come later |
| `ArtecReader.PlanRead` | backend/artec.c:3506-3550 | a READ asks for a positive number of rows, no more than are ready, than the caller has room for, or than the picture lacks, so the guard against reading too far never fires |
| `ArtecReader.Scanner.PassRow` | backend/artec.c:3577-3609 | row n goes through the delay line, the reordering and the mirror and comes out as picture line n - 2 * offset |
| `ArtecReader.Scanner.PassBlock` | backend/artec.c:3577-3610 | the rows of one READ extend the caller's bytes by the picture lines they complete, and the row count by their number |
| `ArtecReader.Scanner.ReadOnce` | backend/artec.c:3507-3646 | one turn of the loop consumes a positive number of rows and stays inside the row budget of the call |
| `ArtecReader.Scanner.ReadRows` | backend/artec.c:3504-3646 | the loop ends with as many picture lines as fit or are left, having swallowed the rows that emit nothing |
| `ArtecReader.Scanner.RowCounts` | backend/artec.c:3494-3496 | the three row counts are exact quotients |
| `ArtecReader.Scanner.ArtecSaneRead` | backend/artec.c:3457-3662 | a call hands out exactly the picture lines that fit its buffer or are left, or tells the end or the cancellation |
| `ArtecReader.Scanner.Refill` | backend/artec.c:3682-3697 | the empty staging buffer receives the next lines of the picture |
| `ArtecReader.Scanner.TakeOut` | backend/artec.c:3703-3716 | bytes handed over plus bytes moved down stay the part of the picture that is out |
| `ArtecReader.Scanner.SaneRead` | backend/artec.c:3664-3719 | any request gets the next bytes of the picture and is filled or empties the buffer; the end of file comes exactly when the frontend has all of them |
| `ArtecReader.Scanner.Complete` | backend/artec.c:3480-3489 | nothing is left to read exactly when every picture line is out |
| `ArtecReader.StreamShows` | backend/artec.c:879-1028 | whatever part of the picture is out, byte c of pixel p of line k is the one of plane c of device line k + c * offset, for both layouts, mirrored or not |
| `ArtecReader.ScanPicture` | backend/artec.c:3457-3719 | over a whole scan and any requests: a prefix of the picture no longer than what was asked for, all of it by the end of file, when it is 3 * width bytes a line and exactly lines + 2 * offset rows are consumed; each byte is the one the scanner has seen at its place |
| `CanonLineart.SpreadFour` | backend/canon-sane.c:16-30 | the inner loop spreads four bits of a byte to every second place |
| `CanonLineart.Tables.constructor` | backend/canon-sane.c:13-50 | all 256 entries of the four tables hold the spread bits |
| `CanonLineart.Tables.Lookup` | backend/canon-sane.c:2069-2072 | two table look-ups give the sixteen merged pixels of two bytes |
| `CanonLineart.Tables.MergeInto` | backend/canon-sane.c:2064-2104 | a whole line is merged, and the buffer beyond it is left alone |
| `CanonLineart.MergeFour` | backend/canon-sane.c:2074-2086 | the disabled loop computes the same half byte as the tables |
| `CanonLineart.MergeByBits` | backend/canon-sane.c:2073-2102 | the disabled bit loop computes the same two bytes as the tables, for all bytes |
| `CanonLineart.MergedPixels` | backend/canon-sane.c:2064-2104 | pixel 2k of a merged line is pixel k of the secondary scan, pixel 2k + 1 pixel k of the primary one, for lines of any length |
| `CanonLineart.Recover` | backend/canon-sane.c:2064-2104 | both scans can be recovered from the merged line |
| `CanonFb1200.MergeColorAt` | backend/canon-sane.c:2043-2055 | colour pixel 2k is secondary pixel k, and 2k + 1 primary pixel k, sample by sample |
| `CanonFb1200.MergeGrayAt` | backend/canon-sane.c:2056-2063 | the same for grey |
| `CanonFb1200.MergeColor` | backend/canon-sane.c:2043-2055 | the colour loop computes the merged line |
| `CanonFb1200.MergeGray` | backend/canon-sane.c:2056-2063 | the grey loop computes the merged line |
| `CanonFb1200.TempFile.WriteAll` | backend/canon-sane.c:1966-1981 | short writes or not, the whole line ends up at the end of the file |
| `CanonFb1200.TempFile.ReadAll` | backend/canon-sane.c:2014-2039 | short reads or not, the next n bytes of the file, or the premature end exactly when there are fewer |
| `CanonFb1200.PhaseTest` | backend/canon-sane.c:1963-1964 | the test on the remaining bytes tells exactly whether the primary scan is still coming in |
| `CanonFb1200.Reader.ReadHalf` | backend/canon-sane.c:1946-1959 | a half line is read whole; the clamp to what is left never shortens it |
| `CanonFb1200.Reader.Store` | backend/canon-sane.c:1961-2003 | a primary line is stored, and the file is rewound exactly after the last of them |
| `CanonFb1200.Reader.FetchPair` | backend/canon-sane.c:2004-2040 | the next secondary line from the scanner and its primary line from the file, which never ends too soon |
| `CanonFb1200.Reader.MergeNext` | backend/canon-sane.c:2004-2108 | secondary line k is merged with primary line k |
| `CanonFb1200.Reader.Read` | backend/canon-sane.c:1928-2121 | for any request: the next bytes of the merged picture; nothing while lines are stored; the end of file exactly at the end |
| `CanonFb1200.StreamShows` | backend/canon-sane.c:2041-2104 | whatever part of the picture is out, pixel x of line k is pixel x / 2 of the secondary line if x is even and of the primary one if it is odd: samples in colour and grey, bits in line art |
| `CanonFb1200.ScanPicture` | backend/canon-sane.c:1891-2122 | for any request sequence the bytes handed out are a prefix of the merged picture no longer than what was asked for, and all of it by the end of file, when exactly 2 * lines half lines have been read; every pixel is that of its pass |
| `CanonFb620.Reader.Sort` | backend/canon-sane.c:1854-1866 | three planes become pixels |
| `CanonFb620.Reader.NextLine` | backend/canon-sane.c:1834-1872 | the next line is read whole, so the clamp never fires and the count of what is left never goes below zero |
| `CanonFb620.Reader.TakeOut` | backend/canon-sane.c:1821-1832 | bytes handed over continue those before them, up to the request or the end of the buffer |
| `CanonFb620.Reader.Serve` | backend/canon-sane.c:1821-1882 | a request is filled from the buffer and the next line, or empties the buffer |
| `CanonFb620.Reader.Read` | backend/canon-sane.c:1784-1886 | any request gets the next bytes of the picture and is filled or empties the buffer; the end of file exactly when all are delivered; the reset flag says whether it was reached |
| `CanonFb620.StreamShows` | backend/canon-sane.c:1854-1866 | byte c of pixel p of line k is byte p of plane c of device line k |
| `CanonFb620.ScanPicture` | backend/canon-sane.c:1784-1886 | however requests are sliced the output is the start of the interleaved device lines in order, no longer than what was asked for, and all of them by the end of file |
| `EPlusReader.AlignLine` | backend/artec_eplus48u.c:1274-1305 | the fewest pixels that fill whole 64-byte blocks are found, the line is widened by less than that, and both tests for unaligned lines are dead |
| `EPlusReader.BlockFits` | backend/artec_eplus48u.c:1820-1825 | rounding a block up never leaves the buffer or the padded stream, and only a last block is rounded |
| `EPlusReader.Round64Law` | backend/artec_eplus48u.c:1739 | the least multiple of 64 that is not below |
| `EPlusReader.Device.SetReadBufferSize` | backend/artec_eplus48u.c:1726-1748 | a positive buffer size is rounded up to whole blocks; a size of nothing or an active read is refused |
| `EPlusReader.Device.ReadPrepare` | backend/artec_eplus48u.c:1750-1775 | a read starts with nothing delivered, or is refused unchanged |
| `EPlusReader.Device.Refill` | backend/artec_eplus48u.c:1818-1836 | a block comes whole from the device; nothing is lost between blocks |
| `EPlusReader.Device.Transfer` | backend/artec_eplus48u.c:1838-1849 | bytes leave the buffer in order |
| `EPlusReader.Device.Read` | backend/artec_eplus48u.c:1799-1858 | delivered bytes with those in the buffer are the first announced bytes of the device; a read gets what it asked for or what is left, and the end of file when that is nothing |
| `EPlusReader.Unpack` | backend/artec_eplus48u.c:1956-1974 | 8-bit samples are spread over 16 bits, 16-bit ones put together low byte first |
| `EPlusReader.LineReader.ReadLine` | backend/artec_eplus48u.c:1977-2092 | line k comes whole as long as there is one, as the unpacked planes of its own bytes |
| `EPlusReader.LineSent` | backend/artec_eplus48u.c:1956-2092 | sample p of channel c of line k is 257 times its byte, or two bytes low one first, at the place where its plane is sent: blue, green, red |
| `EPlusReader.ReadPicture` | backend/artec_eplus48u.c:2239-2256 | exactly scanYs full lines come out before the end of file, wherever the block boundaries fall, each sample made of the bytes that were sent for it |
| `EPlusLines.PutColumns` | backend/artec_eplus48u.c:516-528 | the columns of the planes are laid down from right to left, each pixel in its own place |
| `EPlusLines.PutMean` | backend/artec_eplus48u.c:533-543 | a made-up sample is the floor mean of its neighbours and no other byte changes; its clamps never apply |
| `EPlusLines.FillGaps` | backend/artec_eplus48u.c:529-569 | every gap between two columns becomes their average and the columns stay |
| `EPlusLines.PixelCopied` | backend/artec_eplus48u.c:497-676 | what the bytes of a pixel are, in terms of the samples: the mirrored one, or half the sum of two, as one byte or low byte first |
| `EPlusLines.CopyScanLine` | backend/artec_eplus48u.c:497-676 | the line is mirrored; at 1200 dpi on the plain model sample 2p is input sample xs - 1 - p and sample 2p + 1 the floor average of its neighbours, for one or three channels of 8 or 16 bits |
| `EPlusLines.UnpackedAndCopied` | backend/artec_eplus48u.c:1956-1964 | 8-bit unpacking followed by this copy returns the original bytes, mirrored; at 1200 dpi on the plain model in every second pixel, with the floor means of the neighbours between them |
| `EPlusShading.SumBound` | backend/artec_eplus48u.c:336-348 | the sums stay below 65535 times the lines, far from the wrap-around |
| `EPlusShading.Calibration.Init` | backend/artec_eplus48u.c:322-334 | all sums are zero |
| `EPlusShading.StrideLaw` | backend/artec_eplus48u.c:2651-2675 | stride times resolution is 600 times six, but for 1200 dpi on the plain model |
| `EPlusShading.MeanLaw` | backend/artec_eplus48u.c:368-379 | a mean times the number of lines is the sum of the samples, but for less than one a line |
| `EPlusShading.SteadySensor` | backend/artec_eplus48u.c:336-379 | a sensor that shows the same in every line has that as its mean |
| `EPlusShading.Calibration.Add` | backend/artec_eplus48u.c:336-348 | each sum grows by its sample modulo 2^32 |
| `EPlusShading.Calibration.Finish` | backend/artec_eplus48u.c:368-379 | the buffer holds the means low byte first, red before green before blue |
| `EPlusShading.Calibration.Field` | backend/artec_eplus48u.c:3308-3322 | the buffer of a field holds the floor means of its 70 (or 140) lines, without wrap-around |
| `EPlusShading.EntryBytes` | backend/artec_eplus48u.c:2677-2698 | the two bytes of each channel at a place of the buffer, at a sensor or in the middle of one, are the sample or the exact mixture of two of them |
| `EPlusShading.OwnSample` | backend/artec_eplus48u.c:2669-2673 | whatever the samples are, an entry is its sensor's own sample if and only if its bytes start at the sensor |
| `EPlusShading.PixelPlace` | backend/artec_eplus48u.c:2651-2675 | every pixel starts at a sensor, except every second one at 1200 dpi on the enhanced model |
| `EPlusShading.Calibration.Entry` | backend/artec_eplus48u.c:2677-2698 | one table entry is exactly what the buffers hold at its place, in one or three channels; nothing else changes |
| `EPlusShading.Calibration.Calculate` | backend/artec_eplus48u.c:2643-2701 | entry c of each table is what the buffers hold at byte (start + c) * stride, for every resolution and model |
| `EPlusShading.Calibration.Calibrate` | backend/artec_eplus48u.c:3305-3347 | accumulate, average, serialise, decode is exact: the tables are made of the floor means of the sensors over all lines of their field, at every resolution |
| `Constraints.RangedInside` | sanei/sanei_constrain_value.c:175-233 | a number brought into a range lies in it, on a step or at its end, and no more than half a step from where clamping leads |
| `Constraints.RangedLaw` | sanei/sanei_constrain_value.c:193-232 | a number on a step of the range stays, one outside becomes its end |
| `Constraints.ConstrainWord` | sanei/sanei_constrain_value.c:193-232 | one number comes into its range; any change is said to be inexact |
| `Constraints.ConstrainRange` | sanei/sanei_constrain_value.c:177-234 | all values of an array option come into the range in place; without quantisation inexact exactly when one changed |
| `Constraints.Nearest` | sanei/sanei_constrain_value.c:238-248 | the number of the list that is nearest to the one asked for |
| `Constraints.NearestMember` | sanei/sanei_constrain_value.c:236-249 | a number of the list stays as it is |
| `Constraints.ConstrainList` | sanei/sanei_constrain_value.c:236-255 | the loop finds the first nearest number of the list; inexact exactly when it is another one |
| `Constraints.LowerLaw` | sanei/sanei_constrain_value.c:268 | names are compared without regard to capital letters |
| `Constraints.MatchName` | sanei/sanei_constrain_value.c:257-290 | the first name equal but for case, or else the only one the value is the start of, or none |
| `AppleActivity.InitiallyPrepared` | backend/apple.c:1275-1850 | the flags set by init_options are what mode_update relies on |
| `AppleActivity.ThresholdLaw` | backend/apple.c:1146-1215 | exactly one threshold in line art and two colours and none elsewhere; the adjusted one for line art on the AppleScanner with background adjustment |
| `AppleActivity.LevelLaw` | backend/apple.c:1193-1240 | brightness and contrast in the four modes of more levels, unless the ColorOneScanner has reference voltages; these there, with their limits when on |
| `AppleActivity.ModeLaw` | backend/apple.c:1058-1189 | pattern, sensor, colour correction and gamma by mode, model and switch |
| `AppleActivity.GammaLaw` | backend/apple.c:1058-1136 | with custom gamma all three vectors in colour, in grey those of the sensor |
| `AppleActivity.ModelLaw` | backend/apple.c:1475-1760 | the options of single models, and those that are always active |
| `AppleActivity.AutoBackgroundKeeps` | backend/apple.c:2250-2264 | switching two flags puts all of them in order for the new value |
| `AppleActivity.VoltRefKeeps` | backend/apple.c:2265-2283 | switching four flags does, for the voltage reference |
| `AppleActivity.CctKeeps` | backend/apple.c:2293-2307 | switching two flags does, for the colour correction |
| `AppleActivity.GammaKeeps` | backend/apple.c:2309-2323 | the gamma options suffice when the gamma switch or the sensor changes |
| `AppleActivity.AllUpdated` | backend/apple.c:1139-1271 | the parts of mode_update together put every flag in order, from almost any flags before |
| `AppleOptions.NextStores` | backend/apple.c:2166-2337 | setting an option stores its value, brought into its range or onto its list, and leaves the value of every other option |
| `AppleOptions.OfferLaw` | backend/apple.c:1320-1362 | which modes, patterns and names are accepted on which model |
| `AppleOptions.LimitsLaw` | backend/apple.c:197-207 | levels come between 1 and 255, table entries between 0 and 255 |
| `AppleOptions.ResolutionLaw` | backend/apple.c:175-178 | the nearest of five resolutions, the lower one half-way |
| `AppleOptions.ReplyLaw` | backend/apple.c:2172-2337 | which requests announce what, and which are unsupported |
| `AppleOptions.AfterSound` | backend/apple.c:2036-2342 | after any requests the mode and the pattern are on offer and the halftone file is active only if it should be |
| `AppleOptions.FileOrder` | backend/apple.c:2235-2248 | per request: the halftone file's flag gets out of order exactly by choosing the download pattern when another one was chosen, and back in order exactly by choosing a mode or another pattern |
| `AppleOptions.Scanner.constructor` | backend/apple.c:1275-1853 | the initial options are in order |
| `AppleOptions.Scanner.GammaUpdate` | backend/apple.c:1058-1136 | the gamma options get the flags the model and the values call for, whatever they were; no other flag changes |
| `AppleOptions.Scanner.ModeOptions` | backend/apple.c:1146-1189 | the same for the options that depend on the mode alone |
| `AppleOptions.Scanner.LevelOptions` | backend/apple.c:1193-1240 | the same for thresholds, brightness, contrast and the voltage reference |
| `AppleOptions.Scanner.ModeUpdate` | backend/apple.c:1139-1271 | all flags are in order afterwards from almost any flags before; the halftone file is active exactly in halftone mode with the download pattern |
| `AppleOptions.Scanner.SetAutoBackground` | backend/apple.c:2250-2264 | two flags suffice to keep all of them in order |
| `AppleOptions.Scanner.SetVoltRef` | backend/apple.c:2265-2283 | four flags suffice |
| `AppleOptions.Scanner.SetCustomCct` | backend/apple.c:2293-2307 | two flags suffice |
| `AppleOptions.Scanner.SetGamma` | backend/apple.c:2309-2323 | the gamma options suffice when the gamma switch or the sensor changes |
| `AppleOptions.Scanner.SetPattern` | backend/apple.c:2235-2248 | download is refused but stored and leaves the file's flag; any other pattern makes the file inactive |
| `AppleOptions.Scanner.SetMode` | backend/apple.c:2326-2337 | the new mode is stored and everything recomputed |
| `AppleOptions.Scanner.SetValue` | backend/apple.c:2074-2341 | a request is refused without effect, or its value is brought into range and stored and everything else is as it should be; what has to be reloaded is announced, always with an activity that changes |
| `AppleOptions.Scanner.Choose` | backend/apple.c:2235-2337 | the pattern, the sensor and the mode are stored, the flags put in order and the changes announced |
| `AppleOptions.Scanner.Switch` | backend/apple.c:2250-2315 | the four switches are stored with all flags in order |
| `AppleOptions.Scanner.SetPlain` | backend/apple.c:2175-2230 | the options without side effects store the value brought into range; the resolution recalculates the area |
| `AppleOptions.Scanner.Store` | backend/apple.c:2172-2339 | every case leads to the state it should, announces what has to be reloaded, and keeps the flags in order; the buttons change nothing |
| `AppleOptions.Scanner.Recompute` | backend/apple.c:1139-1271 | a full mode_update after any run changes no flag but that of the halftone file, and that one exactly when it is out of order |
| `AppleOptions.Run` | backend/apple.c:2036-2342 | any run of requests ends in the state its accepted requests lead to one by one, with every flag but the halftone file's a function of model and values |
| `AppleOptions.FileDependsOnHistory` | backend/apple.c:2235-2248 | two runs end with the same values and differ in the halftone file |
| `AppleArea.Units` | backend/apple.c:247-262 | whole units, rounded up from a tenth on when asked to |
| `AppleArea.CornerLaw` | backend/apple.c:247-279 | an area begins no further than asked for, and less than a scanner unit and a dot before that |
| `AppleArea.WholeBytes` | backend/apple.c:87-88 | a scanner byte is a whole number of dots except in the two colour modes at 75, 150 and 300 dpi |
| `AppleArea.PixelsOfBytes` | backend/apple.c:1039 | the pixels of a width of whole scanner bytes fill these bytes if and only if the bits of the bytes are those of whole pixels |
| `AppleArea.PixelsLeft` | backend/apple.c:937-1039 | in every mode and at every resolution, for any number of bytes cut off, the pixels of what is left fill the scanner bytes if and only if these hold whole pixels and the dots left over from the cut are fewer than a pixel, or none when fewer than no bytes are left |
| `AppleArea.NoSurplus` | backend/apple.c:87-88 | no dots are left over where a scanner byte is whole dots or nothing was cut off |
| `AppleArea.LineSeen` | backend/apple.c:937-1039 | the width and the pixels of a line after the fit, by the scanner bytes that are left of it, with or without room |
| `AppleArea.Area.Clamp` | backend/apple.c:952-975 | the loop ends; each side has lost whole steps, no more than needed, and fits; the values are protected exactly when nothing changed |
| `AppleArea.LinesSeen` | backend/apple.c:1040 | lines come out whole: as many as asked for or the most that fit |
| `AppleArea.Area.CalcParameters` | backend/apple.c:937-1041 | the area fits the scanner and gives up no more steps than needed; where a scanner byte is whole dots the width is that of the bytes; the pixels are the width's, and fill the bytes exactly when 8 * bytes is a multiple of the bits per pixel and the dots left over are fewer than a pixel (none, when fewer than no bytes are left); lines are always whole |
| `AppleArea.ColourLine` | backend/apple.c:937-1041 | a colour line at 100 dpi of four scanner bytes has one pixel |
| `AppleArea.NoRoom` | backend/apple.c:937-1041 | a colour area at 300 dpi with no room comes out with -9 dots and -2 pixels, not -3 |
| `Nibbles.Complement` | backend/apple.c:2562-2573 | the Apple pixels are the bytewise complement of the Abaton ones |
| `Nibbles.BothPixels` | backend/abaton.c:1370-1376 | the two output bytes determine the scanner byte |
| `Nibbles.PixelLaw` | backend/abaton.c:1370-1376 | the two bytes are sixteen times the upper and the lower half of the scanner's byte, or 255 less that |
| `Nibbles.Scanner.Request` | backend/abaton.c:1338-1352 | a request fits the room that is left and is as large as that allows |
| `Nibbles.Scanner.Spread` | backend/abaton.c:1365-1379 | expanding from the end never overwrites a byte that is still to be read: the result is the two-byte expansion of each byte |
| `Nibbles.Scanner.Round` | backend/abaton.c:1310-1387 | a report brings the frontend as much of what it offers as still fits |
| `Nibbles.Scanner.SaneRead` | backend/abaton.c:1311-1437 | after any reports the buffer holds the pixels of exactly the bytes consumed, never beyond max_len; the call stops at the first report that fills it, ends the scan or is aborted, and an abort counts first; an odd max_len is never filled, any other is when enough is offered |
| `Nibbles.ReadPicture` | backend/apple.c:2496-2583 | over any requests and reports the picture is the expansion of the scanner's bytes in order, no longer than what was asked for; while the scan goes on every request has been filled, and it goes on while the scanner offers enough |
| `BhSections.PointsFit` | backend/bh.c:1416-1418 | the truncation to sixteen pixels takes off less than sixteen pixels |
| `BhSections.PixelsLaw` | backend/bh.c:1416-1419 | pixels, points and the width of points, each rounded down |
| `BhSections.LineBytesLaw` | backend/bh.c:1348-1350 | a line is the fewest bytes that hold its pixels |
| `BhSections.LastFormatLaw` | backend/bh.c:1436-1470 | the compression that no other follows decides the format |
| `BhSections.NoFormatLaw` | backend/bh.c:1436-1470 | without one it is the page's |
| `BhSections.SectionLaw` | backend/bh.c:1406-1424 | each length of a section is the number at its place, in whole thousandths of an inch, the width in whole points |
| `BhSections.WidthSurvives` | backend/bh.c:1418-1419 | after both roundings a line has exactly two bytes for each sixteen pixels, for every width and every resolution to 7001 dpi |
| `BhSections.WidthLost` | backend/bh.c:1418-1419 | at 7003 dpi some width loses a byte |
| `BhSections.SectionLine` | backend/bh.c:1277-1291 | a section that was set up has lines of 2P bytes and 16P pixels |
| `BhSections.ReadNumber` | backend/bh.c:1403-1422 | a number is refused if it is not one, if it is negative, or if errno holds an old or a new range error |
| `BhSections.SectionParse` | backend/bh.c:1368-1492 | while errno is clear exactly the well-formed specifications are read, with all function codes they name and the last compression; a range error stays in errno |
| `BhSections.SetupSections` | backend/bh.c:1496-1542 | the first eight specifications in order, without the blank pieces, up to the first that cannot be read; none if errno is not clear or the text is too long |
| `BhSections.StaleErrno` | backend/bh.c:1403-1422 | a section option with a number out of range makes the next one fail whatever it says |
| `BhReadList.SectionReadsSound` | backend/bh.c:1606-1615 | section reads are distinct, at most two a section, within the codes of their kind |
| `BhReadList.ReadListSound` | backend/bh.c:1594-1704 | the list has at most 53 of its 57 places used, no duplicates, all images before everything decoded, and SENDBARFILE at the end exactly when something is decoded |
| `BhReadList.ReadListHolds` | backend/bh.c:1594-1704 | the list holds exactly the items that pages, sections, icons, bar and patch codes of the job ask for, in the order of their kinds, section by section and front before back |
| `BhReadList.OneOrder` | backend/bh.c:1594-1704 | items and order leave no other list |
| `BhReadList.FramesRecognized` | backend/bh.c:1239-1317 | every frame is recognized for what it is, sections by a number that exists: the fallback for unrecognized items is never reached |
| `BhReadList.FrameLaws` | backend/bh.c:1239-1317 | which size and which format belong to which code |
| `BhReadList.Scanner.StartSetup` | backend/bh.c:1594-1704 | the list for the batch is built, and there is always room |
| `BhReadList.Scanner.GetParameters` | backend/bh.c:1234-1350 | the parameters are those of the current frame, its width in whole bytes; only the decoded frame is text, and none in a preview or when the configuration wants grey frames; failing exactly without a size |
| `BhReadList.Scanner.ReadDecodes` | backend/bh.c:1869-1881 | all decode items are read in order up to the one that delivers them, or the start fails exactly when one of them fails |
| `BhReadList.Scanner.NextFrame` | backend/bh.c:1833-1931 | the next frame of the page, all decoding on the way to the last one; it succeeds exactly when the scanner answers what this frame needs, and a failure ends the scan |
| `BhReadList.Scanner.NewPage` | backend/bh.c:1934-1971 | a new page starts at its first frame; when it cannot be fed, the driver stays as scanning as it was |
| `BhReadList.Scanner.StartScan` | backend/bh.c:1819-1972 | each start goes to the next frame of the page or feeds a new one |
| `BhReadList.Scanner.SaneStart` | backend/bh.c:3703-3745 | the first start of a batch sets it up if the options allow it; a start succeeds exactly when the scanner answers what the frame that follows needs |
| `BhReadList.Scanner.StartItem` | backend/bh.c:3703-3745 | a start that succeeds delivers the item of the frame that follows |
| `BhReadList.RunBatch` | backend/bh.c:1833-1968 | in a batch whose pages scan, for pages that hold exactly what the job asks for, start k delivers frame k modulo the frames of a page: each image once in order, everything decoded as one frame, then the next page |
| `BhReadList.EmptyFeeder` | backend/bh.c:1947-1968 | from every state at the end of a page: after a start that could not feed, the next one delivers the second frame without feeding a page if and only if a page has more than one frame |
| `BhOptions.AreaInside` | backend/bh.c:3623-3655 | the geometry of every paper lies inside every scanner, the right way round |
| `BhOptions.AreaFits` | backend/bh.c:3623-3655 | a paper that fits keeps its size up to rounding and is centred in a feeder; a larger one gets the whole scanner |
| `BhOptions.PaperSizes` | backend/bh.h:517-528 | the size of each paper |
| `BhOptions.EnhancementLaw` | backend/bh.c:3542-3578 | one pair of enhancements, by hardware, unless the control panel has them |
| `BhOptions.LimitsLaw` | backend/bh.h:364-442 | numbers come into the limits of their option |
| `BhOptions.Scanner.constructor` | backend/bh.c:2312-2640 | the initial options are consistent |
| `BhOptions.Scanner.SetGeometry` | backend/bh.c:3466-3482 | a change of the geometry makes the paper custom, and says so |
| `BhOptions.Scanner.SetPaper` | backend/bh.c:3611-3659 | a new paper brings exactly its geometry; the custom one keeps what is there |
| `BhOptions.Scanner.SetMode` | backend/bh.c:3580-3609 | without lineart compression is none and inactive; with lineart it is offered |
| `BhOptions.Scanner.SetControlPanel` | backend/bh.c:3542-3578 | the enhancements that are active are those of the hardware, unless the panel has them |
| `BhOptions.StepStores` | backend/bh.c:3464-3661 | an accepted request stores its value, brought into its range or onto the list of resolutions |
| `BhOptions.ChangesAnnounced` | backend/bh.c:3464-3661 | no other value and no activity changes, nor the geometry or the resolution, unless the frontend is told to reload |
| `BhOptions.AfterSound` | backend/bh.c:3345-3667 | after any requests a paper that is not custom says what the geometry is, the geometry lies inside the scanner, and without lineart there is no compression |
| `BhOptions.Scanner.SetValue` | backend/bh.c:3345-3667 | a request is refused without effect or leads to the state its constrained value calls for, with all flags those of the values and all changes announced |
| `BhOptions.Scanner.Store` | backend/bh.c:3464-3661 | every case leads to the state it should, and announces what else changed |
| `BhOptions.Run` | backend/bh.c:3345-3667 | any run of requests ends in the state its accepted requests lead to one by one, with every flag a function of hardware and values |
| `BhOptions.HiddenCompressionReturns` | backend/bh.c:3600-3604 | a change of the mode and back offers compression on hardware that lacks it |
| `As6e.Scanner.ReadChunk` | backend/as6e.c:222-238 | a chunk is read whole in pieces of any size, only while nothing is carried over |
| `As6e.Scanner.TakeCarry` | backend/as6e.c:157-189 | what is handed out and what moves down are what was carried over |
| `As6e.Scanner.PutChunk` | backend/as6e.c:240-271 | what is handed out and what is carried over are what was there and the chunk |
| `As6e.Scanner.Fill` | backend/as6e.c:203-278 | the request is filled, or all chunks are delivered; the child is never asked for a message it does not send |
| `As6e.Scanner.SaneRead` | backend/as6e.c:128-278 | delivered bytes and carry-over are the chunks read so far; the counter counts them; an unfilled request is the last; the end of file comes exactly when the announced bytes are out or the scan is over |
| `As6e.Scanner.MoveDown` | backend/as6e.c:175-187 | what is carried over moves down by what was handed out |
| `As6e.ReadPicture` | backend/as6e.c:128-278 | for any chunks, pieces and requests the picture is the start of what the child sends, as much of it as the requests call for before the announced size is reached; the first request after that is told the end |
| `AgfaFocus.SetSize` | backend/agfafocus.c:118-128 | the bytes stand for the number modulo 256^n, and no other byte changes |
| `AgfaFocus.GetSize` | backend/agfafocus.c:130-143 | the value of the bytes, in an int of 32 bits |
| `AgfaFocus.WrittenThenRead` | backend/agfafocus.c:118-143 | a number comes back exactly when it fits the bytes and an int |
| `AgfaFocus.ReadThenWritten` | backend/agfafocus.c:118-143 | up to three bytes come back from their value as they were |
| `AgfaFocus.Reader.Reverse` | backend/agfafocus.c:781-790 | every byte is inverted in place, or stretched from six bits |
| `AgfaFocus.InvertedLaw` | backend/agfafocus.c:781-790 | a byte and its inverse make 255, a level of six bits counting four times |
| `AgfaFocus.Reader.ReadData` | backend/agfafocus.c:742-797 | the next lines of the scanner, inverted, one after the other; as many fewer are available |
| `AgfaFocus.Reader.WriteLines` | backend/agfafocus.c:1886-1895 | each line is written once, in order, cut to the bytes that are wanted |
| `AgfaFocus.Reader.FetchBatch` | backend/agfafocus.c:1861-1895 | one batch is read, inverted and written |
| `AgfaFocus.ExactWhen` | backend/agfafocus.c:1838-1898 | the batches hold exactly the announced lines if and only if some number of batches does |
| `AgfaFocus.AllAvailable` | backend/agfafocus.c:1838-1898 | with all lines in the scanner from the start: if and only if the announced lines are whole buffers or all the scanner has |
| `AgfaFocus.Reader.Process` | backend/agfafocus.c:1783-1902 | every fetched line is written once and in order, black and white changed; the lines written are the first batches that reach the announced lines, so exactly those if and only if a batch ends there; positive refills always lead there |
| `AgfaFocus.TooManyLines` | backend/agfafocus.c:1838-1898 | with one line announced, five in the scanner and ten in a buffer the frontend gets five |

## Left out

- SCSI and USB transfers, waiting for data, sense codes, threads, pipes and signals: a device is the data it sends, and
  every read that is asked for succeeds at full length unless the model has an outcome for its failure.
- Attaching, option descriptors, device lists, configuration files, debug output and failed allocations.
- Gamma, contrast and calibration curves, software RGB calibration, and shading correction with doubles.
- Overflow of `bytes_per_line * lines` and of other counters kept in 32 bits.
- Artec: three-pass scans, the branch without line-offset fixup, grey branches of `artec_reverse_line` (which start one
  byte past the line), and staging bytes that survive a cancelled scan in a static buffer.
- Canon: the double length of the last copy in `read_fb1200`; only the bytes that are reported are modelled. Half a line
  must be whole bytes, and whole pixels in colour. A failing write to the temporary file, and the direct reader.
- Artec E+ 48U: lineart packing in `copy_scan_line`, the limit of 15600 bytes a line, exposure calibration, line delays.
- EPlusLines.CopyScanLine: the four copies of the loops, one for each depth and channel count, are one here with both as
  parameters.
- Apple: what `calc_parameters` writes back into the four corners of the scan area; they are a field of their own that
  may change with a corner, the resolution or the mode, and their values are not promised.
- AppleArea.Area.CalcParameters: does not cover a width or height of minus one unit or less, as corners far on the wrong
  side of each other give; the conversion of such a double to unsigned is undefined in C.
- Apple: names of option values are those `Constraints.MatchName` has found; what is stored is the name itself.
- Nibbles.Scanner.SaneRead: the loop runs over a list of status reports; when it is at its end the command for the next
  one fails. Does not model what the scanner answers to the command that follows an abort, nor a failing read.
- BhSections.SectionParse: does not model cutting the string apart with strtok (a specification is its pieces), nor
  other calls of the library that may put another error into errno in between.
- Bell+Howell: decoding itself, the window commands of a batch, the parameters guessed before a scan, and the text options
  without side effects.
- BhReadList.Scanner.SaneStart: does not model why the preliminary parameters or the section option are refused before
  anything changes; `ready` says whether they are.
- AS6E: the child process; chunks are at most as long as the buffers.
- As6e.Scanner.SaneRead: says nothing of the bytes in the caller's buffer after a cancelled scan, which the driver does not
  count either.
- AGFA Focus: a write to the pipe that fails, and a failing size request inside a refill.
- AgfaFocus.Reader.Reverse: does not cover six-bit samples of 64 and more, whose conversion from a negative float is
  undefined in C.
