# Verified models of SANE backend stream transformers

SANE backends turn the bytes a scanner sends into image lines. Most of the code is
traffic; the difficult part is a handful of stateful stream transformers between
the device and the frontend, and a few retry and option state machines around them.
This project models those of the Avision, Artec, AS6E, Artec E+48U, Apple and Abaton
backends and proves that each of them, although it works in stripes, buffers and
carried remainders, computes a function of the whole stream that does not depend on
how the device or the frontend cut that stream into pieces.

Devices, pipes and rear files are byte sequences. How much a single transfer
delivers, what status a transport reports and how much a frontend asks for are
arbitrary values inside the methods, so every statement holds for all of them.
Code that changes buffers in place is written as methods over arrays or classes,
proved against functions on sequences; what the backend promises is then proved
about those functions.

The modules:

- `SaneBytes`: bytes, statuses, the lines of a buffer, and the arithmetic they need.
- `AvisionImage`, `AvisionScale`: what a scanned page is, stated on the whole raw
  stream: `Keep` (the raw lines of one side), `Packed` (where each byte comes from
  after colour or plane packing), `Crop`, and `ScaledLines` (bilinear scaling with
  exact rational coordinates).
- `AvisionReader`, `AvisionRun`, `AvisionSamples`, `AvisionTheorems`: the reader process
  itself, one buffer at a time, then as a whole run, then which device byte each sample
  comes from, and what a run means for line counts, colours and the two sides of a sheet.
- `AvisionUsb`, `AvisionCalibration`, `AvisionAcceleration`: the USB command retry
  machine, the trimmed mean of calibration data, the acceleration-table fix-up.
- `ArtecRealign`, `ArtecRead`: the rotating line FIFO that realigns colours, and the
  two levels of reading built on it.
- `As6e`, `ArtecEplus48u`: two buffered readers; `ArtecEplus48uStream` says what short raw
  reads of the latter make of the stream.
- `AppleOptions`, `AppleArea`, `NibbleRead`: option activity, the scan area, and
  Gray16 reads (shared with the Abaton backend).

Where a property does not always hold, it is proved with its exact condition, and an
input at which it fails is given:

- A colour run of the Avision reader overruns its buffers exactly when the data ends
  before the carried 2 * line_difference lines (`ReaderProcess`): the number of useful
  bytes, unsigned in the code, stays within the output buffer if and only if the carried
  lines are there (`UsefulInside`, `ShortDataOverruns`).
- The history line kept for scaling is the last line of a stripe, whatever the stripe
  holds, exactly when the stripe is whole lines (`HistoryIsLastLine`).
- The second pass over a rear file replays the whole file exactly when one file read
  is a whole number of lines or the file fits one read (`RearFileReplayed`,
  `ReplayLosesBytes`).
- Stripe-wise deinterlacing gives both sides the same number of lines exactly when the
  stripe height divides it (`StripesBalanced`). Since the parameters cut a duplex
  window to whole stripes, that means: exactly when the rear offset is whole stripes
  (`WholeStripes`); half an inch at 300 dpi is not (`HalfInchUnbalanced`).
- The front side of a sheet is right without that (`FrontRun`, `ScaledFrontRun`). The rear
  side of an unscaled ADF sheet is written right exactly when the sides are balanced and the
  rear file is replayed whole (`RearSideExactly`).
- The acceleration fix-up reaches a multiple of the base unit exactly when the missing
  amount is a whole number of table units, at most 255 of them, and the entries have
  room (`FixUpFits`, `UnitsLeftOver`).
- The Apple scan area is defined exactly when the corners are not exchanged by a byte or a
  line or more, since C leaves the conversion of -1 and less to an unsigned number undefined
  (`CalcArea`, `ExchangedCorners`).
- It is non-negative exactly when what remains of the size after whole steps fits behind the
  corner, which for all but the BiColor and Color modes means that the corner is inside
  (`CalcArea`); the largest corner of the option is not (`CornerOutside`).
- Its lines fill whole bytes except in BiColor mode. There the requested window decides: its
  width in 1/1200 inch, less the steps that do not fit, must be less than 1200/resolution above
  a multiple of 9600/resolution (`CalcArea`, `FittedIs`); when it fits, its bytes, rounded, must come in
  threes (`FillsBytesUnshrunk`, `BiColorUnaligned`).
- A Gray16 read ends exactly when its buffer is even or the data cannot fill it; otherwise
  it is left with one byte of room and asks for nothing for ever (`ReadGray16`,
  `ReadEnds`).
- The halftone file's flag is right after a sequence of option sets exactly when the
  pattern is not wanted, or has been "download" ever since the mode was set last
  (`FileFlagRightExactly`, `FileFlagWrong`); on the models without halftone mode it is
  always right (`FileFlagUnused`).
- The E+48U reader does not notice short raw reads. For given sizes of the answers it hands
  out the payload, whatever the stream and its buffer hold, exactly when every raw read brings
  at least the payload bytes that it was for (`PayloadExactly`); a last one may miss its
  padding (`PaddingMayMiss`), but one byte of a block of 64 is not enough
  (`ShortReadStale`).

The code is followed where its comments differ: the Avision padding is described as
white data, but it is 255 only in shaded modes and 0 otherwise (avision.c:7444), which
is what `Padding` says; the AS6E reader's "everything goes into the carryover buffer"
branch and its "count equals max_len" branch are never taken, and are dead code in the
model; so is the Avision scaler's "need more history" branch.

## Model

| member | source | states |
|---|---|---|
| AvisionReader.ReadConstrains | backend/avision.c:1250-1255 | a positive request stays positive and does not grow; a 64-byte-averse device is never asked for a multiple of 64; other requests are unchanged |
| AvisionReader.NextRead | backend/avision.c:6931-6944 | every request is positive, fits the room in the buffer and what is left of the scan, and respects the 64-byte rule; so the fill loop makes progress and cannot overrun |
| AvisionReader.ReadPiece | backend/avision.c:6948-6981 | one device read: contiguous bytes behind those already there, and why the loop goes on or stops: exactly the first end of file of a stripe-wise scan is hidden, and an error is passed on as it was reported |
| AvisionReader.FillFromDevice | backend/avision.c:6927-6982 | the buffer holds what it held followed by the next device bytes, without gap; it stops only when the buffer is full, the scan is complete, or the data has ended, with end of file or an error, whenever the device reports end of file between the pages |
| AvisionReader.FillFromRear | backend/avision.c:6984-7006 | one bounded read of the rear file: contiguous, of exactly known size, end of data only when the file is exhausted |
| AvisionReader.DeinterlaceBuffer | backend/avision.c:7017-7049 | in all three modes the saved lines are the buffer's rear lines in order and the buffer then starts with its front lines in order, including the in-place removal of line mode |
| AvisionImage.CountsSum | backend/avision.c:7017-7049 | the lines of the two sides add up to all lines |
| AvisionImage.SidesComplete | backend/avision.c:7017-7049 | each side holds exactly the lines counted for it, and the counts add up to all lines: nothing lost, nothing duplicated |
| AvisionImage.SidesPartition | backend/avision.c:7017-7049 | raw line i is found on its own side at the position given by the number of earlier lines of that side: the split keeps the order |
| AvisionImage.KeepAppend | backend/avision.c:7017-7049 | deinterlacing two consecutive pieces gives the same pages as deinterlacing them together |
| AvisionImage.StripeSide | backend/avision.c:7029-7031 | a line's side in stripe mode is the parity of its stripe |
| AvisionImage.BufferSides | backend/avision.c:7017-7049 | except line by line, a buffer that starts on a stripe boundary has its front lines before its rear lines, which is why no move is needed there |
| AvisionReader.ColorPackOut | backend/avision.c:7080-7095 | every third byte comes from the same place of the buffer, the others from one and two colour offsets further on |
| AvisionReader.LinePackOut | backend/avision.c:7096-7112 | each whole line of three planes becomes a line of pixels |
| AvisionReader.PackBuffer | backend/avision.c:7052-7112 | what packing writes for a buffer is the specification's image of that buffer, which CopyRun, ColorRun and LinePackRun locate byte by byte |
| AvisionImage.PackedExtend | backend/avision.c:7010-7013 | packing the stream from any line boundary on continues the image packed so far, so the result does not depend on where stripes end |
| AvisionImage.PackedPrefix | backend/avision.c:7080-7095 | a packed image depends only on the raw bytes it needs |
| AvisionImage.SrcShift | backend/avision.c:7080-7112 | source positions move by whole lines together with the lines they serve |
| AvisionSamples.ColorPackMeaning | backend/avision.c:6843-6858 | byte c of pixel q in line n of the packed page is that byte of raw line n + c * line_difference, for every line |
| AvisionSamples.PackedSample | backend/avision.c:7052-7112 | in every packing, channel c of pixel p in line n of the packed page is the byte the device sent for it |
| AvisionSamples.PackedLineIs | backend/avision.c:7071-7112 | a packed line without carried lines holds the device's line: the same bytes, or pixels whose three bytes come from its three planes |
| AvisionTheorems.CompleteSimplex | backend/avision.c:6888-6893 | with all data, the page is the requested total and gives hw_lines packed lines |
| AvisionTheorems.ColorRun | backend/avision.c:6913-7452 | byte c of pixel q in line n of the output of an unscaled colour run is that byte of the device's line n + c * line_difference, for all n < hw_lines |
| AvisionTheorems.CopyRun | backend/avision.c:7071-7075 | byte k of the page that an unscaled copy run writes, gray or colour, is byte k of the device, also when the data ends early; with all the data these are hw_lines lines |
| AvisionTheorems.LinePackRun | backend/avision.c:7096-7112 | byte c of pixel p in line n of the output of an unscaled line-pack run is byte p of plane c of the device's line n |
| AvisionTheorems.PaddingIs | backend/avision.c:7441-7452 | every byte written behind the page is 255 in the shaded modes and 0 in the others |
| AvisionReader.EmitUnscaled | backend/avision.c:7240-7261 | the lines written for a buffer extend the cropped page by exactly the buffer's share |
| AvisionImage.CropLine | backend/avision.c:7248-7256 | cropping line by line, by line number, is cropping the page |
| AvisionScale.BlendBetween | backend/avision.c:7350-7392 | a blended value lies between any bounds of its four sources, hence between their minimum and maximum |
| AvisionScale.BlendIs | backend/avision.c:7350-7392 | the blended value is the bilinear one, rounded down: interpolated on the upper and on the lower line, then between them |
| AvisionScale.BlendAlongLine | backend/avision.c:7350-7392 | with equal lines it is the left and right sample weighted by the horizontal distance alone |
| AvisionScale.BlendAcrossLines | backend/avision.c:7350-7392 | with equal columns it is the upper and lower sample weighted by the vertical distance alone |
| AvisionScale.CoordIs | backend/avision.c:7319-7338 | source position and distance are the exact position (size - 1) * n / out, rounded down to 1/256 |
| AvisionScale.CoordInside | backend/avision.c:7319-7322 | both source positions of an output position lie inside the source |
| AvisionScale.ScalableJob | backend/avision.c:2604-2605 | whenever at least one line is announced, the hardware delivers enough lines and pixels for two neighbours to exist |
| AvisionScale.ScaledLinesStable | backend/avision.c:7268-7304 | output lines made from part of a page stay the same when more of the page arrives |
| AvisionScale.AvailCount | backend/avision.c:7268-7304 | exactly the first ScaledCount(h) output lines can be made from h source lines |
| AvisionScale.CompletePageCount | backend/avision.c:7268-7304 | a complete page gives exactly the announced number of output lines, also for the skipping rear page and the cut front page |
| AvisionReader.WindowLine | backend/avision.c:7306-7421 | every source line from the history line on is found in the window in front of and in out_data, one line later |
| AvisionReader.HistorySuffices | backend/avision.c:7306-7313 | the next output line never needs a source line before the one history line |
| AvisionReader.EmitScaled | backend/avision.c:7262-7421 | a stripe with one history line writes exactly the missing lines of the scaled page, byte for byte, which ScaledByteAt describes; the fallback for missing history is dead |
| AvisionSamples.ScaledByteAt | backend/avision.c:7306-7421 | every byte of a scaled line is the bilinear value of the four samples of the page around its exact position, of its own channel |
| AvisionRun.HistoryIsLastLine | backend/avision.c:7417-7420 | the bytes kept as history are the stripe's last line for every content if and only if the stripe is whole lines |
| AvisionRun.UsefulInside | backend/avision.c:7010-7013 | the unsigned number of useful bytes stays within the output buffer if and only if the carried lines are in the buffer |
| AvisionRun.ShortDataOverruns | backend/avision.c:7010-7013 | a colour job and a device that stops after one byte, for which it does not |
| AvisionTheorems.ScaledByteBetween | backend/avision.c:7262-7421 | every byte of every scaled line lies between any bounds of its own four source samples |
| AvisionRun.ConvertStripe | backend/avision.c:7052-7421 | packing, then cropping or scaling, one buffer extends what was written for the page so far by what the longer page adds, and keeps the history line |
| AvisionRun.StepWhole | backend/avision.c:6920-7432 | one turn of a simplex or flatbed loop overruns exactly when the data ended before the carried lines; otherwise, with these lines moved to the front, it keeps the run invariant and makes progress |
| AvisionRun.StepPaged | backend/avision.c:6920-7432 | one turn of a front or rear pass keeps the run invariant and makes progress |
| AvisionRun.PadLines | backend/avision.c:7441-7452 | padding fills up to the announced number of lines and adds nothing otherwise |
| AvisionRun.ReaderProcess | backend/avision.c:6913-7452 | a whole run overruns exactly when the data ends before the carried lines; otherwise it writes the packed and cropped or scaled page, plus padding unless the device reported an error, which is then returned, and saves exactly the rear lines, for every stripe height, read limit and sequence of device answers |
| AvisionTheorems.FlatbedExact | backend/avision.c:2598-2605 | a flatbed run writes exactly the announced number of lines however much data arrives, and no padding when all of it does |
| AvisionTheorems.SimplexLines | backend/avision.c:6888-6893 | the requested total gives hw_lines lines, and early end of data never more |
| AvisionTheorems.EmittedLength | backend/avision.c:7240-7421 | the written bytes are the counted lines |
| AvisionTheorems.PackedLine | backend/avision.c:7052-7112 | without carried lines packing works line by line |
| AvisionTheorems.StripesBalanced | backend/avision.c:6888-6893 | in stripe mode both sides of 2m lines get m lines if and only if the stripe height divides m; otherwise the rear side gets fewer |
| AvisionTheorems.FrontAtLeastHalf | backend/avision.c:6888-6893 | in every mode the front side gets at least half of all the lines, the rear side at most, and exactly half if and only if the sides are balanced |
| AvisionTheorems.WholeStripes | backend/avision.c:2601-2602 | the cut to whole stripes makes a stripe-wise sheet balanced if and only if the rear offset is whole stripes |
| AvisionTheorems.HalfInchUnbalanced | backend/avision.c:2585-2602 | a duplex job with a rear offset of half an inch whose sides are not balanced |
| AvisionTheorems.SidesBalanced | backend/avision.c:6888-6893 | of all the lines of a duplex scan each side gets half, in every mode |
| AvisionTheorems.SideLineCorrect | backend/avision.c:6767-6778 | an explicit formula for the j-th line of a side, for each mode, agrees with counting lines |
| AvisionTheorems.SideLineIs | backend/avision.c:6767-6778 | the raw line numbers of both sides, mode by mode |
| AvisionTheorems.SideMeaning | backend/avision.c:7017-7049 | line j of a side's page is the raw line given by that formula |
| AvisionTheorems.RearFileReplayed | backend/avision.c:6984-7006 | chunk-wise replay keeps the whole rear file if and only if a chunk is whole lines or the file is one chunk |
| AvisionTheorems.ReplayLosesBytes | backend/avision.c:6984-7006 | reads of five bytes lose bytes of a file of two-byte lines |
| AvisionTheorems.FrontRun | backend/avision.c:6767-6778 | the unscaled front pass over all the data writes hw_lines lines, which hold the device's front lines 0 to hw_lines - 1, also when the sides are not balanced |
| AvisionTheorems.RearRun | backend/avision.c:6984-7006 | the unscaled later pass of a balanced sheet writes hw_lines lines, which hold the device's rear lines from rear_offset on |
| AvisionTheorems.RearSideExactly | backend/avision.c:6984-7006 | for an unscaled ADF sheet it does so if and only if the sides are balanced and the rear-file reads are whole lines or a single one |
| AvisionTheorems.ScaledLinesAt | backend/avision.c:7262-7421 | line j of a scaled page is the blend that belongs to line j |
| AvisionTheorems.ScaledRun | backend/avision.c:7262-7421 | a scaled simplex or flatbed run over all the data writes exactly the announced lines, each sample blended from the four bytes the device sent around its exact position, in every packing |
| AvisionTheorems.ScaledGrayRun | backend/avision.c:7306-7421 | for gray: output pixel (n, x) is the bilinear value of pixels p and p + 1 of the device's lines l and l + 1 |
| AvisionTheorems.ScaledColorRun | backend/avision.c:7306-7421 | for colours sent at a line difference: byte c of output pixel (n, x) is that value, taken c line differences later |
| AvisionTheorems.ScaledFrontRun | backend/avision.c:7282-7304 | the scaled front pass over all the data writes exactly the announced lines, each sample blended from the device's bytes of the front lines around its exact position, also when the sides are not balanced |
| AvisionTheorems.ScaledRearRun | backend/avision.c:7282-7304 | the scaled later pass of a balanced sheet writes exactly the announced lines, each sample blended from the device's bytes of the rear lines behind the offset |
| AvisionTheorems.ScanSheet | backend/avision.c:6913-7452 | both passes one after the other, the second over the file the first saved, give both sides of the sheet in terms of the device's bytes, scaled or not |
| AvisionUsb.UsbStatus | backend/avision.c:1899-1981 | the status is the meaning of a byte really read; the bulk pipe is tried first and the interrupt pipe only when it was silent; the pipe that answered is kept, and a known one never changes |
| AvisionUsb.StatusMeans | backend/avision.c:1965-1980 | good means that a 0 was read and its transport was good; 8 means busy, no byte an I/O error, 2 and the others that sense data is to be requested; an error of the transport is the status itself |
| AvisionUsb.Attempt | backend/avision.c:2066-2226 | one attempt sends one command; it returns Good if and only if the command went out whole and the device's last word was good, and then everything was transferred in order, without stray bytes; it is repeated if and only if the write was short or its failure was cleared by a good status, the payload broke off, or the status neither was good nor asked for sense data; otherwise it fails with the status that its events report |
| AvisionUsb.Exclusive | backend/avision.c:2066-2226 | the three outcomes exclude each other |
| AvisionUsb.GoodIsSuccess | backend/avision.c:2066-2226 | events in which everything was transferred and confirmed are a success |
| AvisionUsb.AvisionCmd | backend/avision.c:2036-2232 | the command is sent at most three times; every attempt but the last one was to be repeated; the last one decides the status, Good exactly when it succeeded, with everything transferred in order and confirmed; a third one that was to be repeated gives an I/O error |
| AvisionUsb.GoodExactly | backend/avision.c:2036-2232 | Good is returned if and only if one of the attempts succeeded |
| AvisionUsb.NoneGood | backend/avision.c:2036-2232 | after any other status, also after three commands, none of the attempts transferred everything and was confirmed |
| AvisionUsb.NoCommands | backend/avision.c:2066-2226 | what happens around a command adds no command to the log |
| AvisionCalibration.SortedOf | backend/avision.c:2239-2275 | the reference order: ascending and a permutation |
| AvisionCalibration.InsertAdds | backend/avision.c:2239-2275 | putting a value into its place of the reference order adds it and loses none |
| AvisionCalibration.SelectedUnique | backend/avision.c:2239-2275 | the smallest n values in order, and the multiset of the others, are determined by the values alone |
| AvisionCalibration.SelectSmallest | backend/avision.c:2246-2260 | a row of exchanges puts the smallest remaining value in its place and loses none |
| AvisionCalibration.BubbleSort | backend/avision.c:2239-2275 | the values are permuted, the smallest third stands sorted in front, and the result times the number of the others, those of the sorted values behind the first third, is at most their sum, and less than one more would make it; 0 when there are none |
| AvisionCalibration.TopMeanOrderFree | backend/avision.c:2239-2275 | the average is the same for every order of the values |
| AvisionCalibration.TopMeanIs | backend/avision.c:2262-2274 | the average is the mean, rounded down, of the sorted values behind the first third |
| AvisionCalibration.MeanFits | backend/avision.c:2262-2274 | a mean of 16-bit values is a 16-bit value |
| AvisionCalibration.SortAndAverage | backend/avision.c:4760-4809 | element i of the result is the mean, rounded down, of the values of column i behind its smallest third |
| AvisionCalibration.ColumnIs | backend/avision.c:4760-4797 | value l of column i is the two bytes of line l, the lower one first, or 257 times its single byte |
| AvisionCalibration.ColumnMeansAt | backend/avision.c:4760-4809 | element i of the result is the mean of column i, whatever the other columns hold |
| AvisionCalibration.GetCalibData | backend/avision.c:4566-4618 | good exactly when every answer was good, and then the buffer is exactly the device's bytes, in order; otherwise the status of the first answer that was not; the loop ends for all answers and stays inside the buffer |
| AvisionAcceleration.FillRaises | backend/avision.c:5499-5507 | no entry decreases, and the last one is untouched |
| AvisionAcceleration.FillFrontFirst | backend/avision.c:5499-5507 | an entry is raised only when all those before it are full |
| AvisionAcceleration.FillTotal | backend/avision.c:5499-5507 | the sum grows by the requested count, up to the headroom of the entries |
| AvisionAcceleration.FixUp | backend/avision.c:5477-5508 | the table becomes the filled table, for the count computed in 32-bit arithmetic |
| AvisionAcceleration.MissingReaches | backend/avision.c:5486-5491 | the missing amount is the least that makes the 32-bit product a multiple of the base unit |
| AvisionAcceleration.FixUpAdds | backend/avision.c:5486-5507 | exactly the missing amount in table units is added, but at most 255, as far as the entries have room, and nothing when it is too large for a signed word |
| AvisionAcceleration.FixUpFits | backend/avision.c:5477-5508 | afterwards the total in table units is a multiple of the base unit if and only if nothing was missing, or a whole number of table units was, within 255 and within the headroom |
| AvisionAcceleration.UnitsDivide | backend/avision.c:5486-5491 | when the table unit divides the base unit, the missing amount is always a whole number of table units |
| AvisionAcceleration.UnitsLeftOver | backend/avision.c:5486-5507 | otherwise a remainder can stay although there is room |
| ArtecRealign.ToPixelsAt | backend/artec.c:854-874 | pixel p takes its three bytes from the three planes |
| ArtecRealign.LineToPixels | backend/artec.c:854-874 | the row is rewritten in place as pixels |
| ArtecRealign.ReverseLine | backend/artec.c:777-800 | the pixels of the row appear in opposite order, each with its bytes in their old order |
| ArtecRealign.Realigner.constructor | backend/artec.c:901-937 | twice the offset separate line buffers |
| ArtecRealign.Realigner.Rotate | backend/artec.c:974-980 | moving the pointers rotates the buffers |
| ArtecRealign.Realigner.Enqueue | backend/artec.c:974-983 | the oldest row leaves, the new one joins, the others keep their order, although no line is copied but the new one |
| ArtecRealign.Realigner.BufferLine | backend/artec.c:881-1030 | nothing comes out until the FIFO is full; then each row comes out with red from the oldest row, green from the middle one and blue from the new one, in all layouts |
| ArtecRead.BufferRow | backend/artec.c:3578-3586 | a row passed through the realigner, stated on row contents |
| ArtecRead.NextRow | backend/artec.c:3578-3614 | taking scanner row n yields exactly the image row that it completes, if any, and the FIFO then ends with the rows taken |
| ArtecRead.Scan.ReadBuffer | backend/artec.c:3499-3664 | end of file exactly when nothing is missing, cancelled exactly when a scan that is not complete was stopped; an I/O error exactly when a device read failed, which stops the scan; otherwise at least one whole row, and the byte count left is what is still missing |
| ArtecRead.Scan.SaneRead | backend/artec.c:3669-3721 | returned bytes and buffered bytes are always the rows completed so far, also for reads of length zero; less than asked for only with the buffer empty; end of file only after all of them, an error exactly when the device failed; whatever happens, what was returned is a beginning of the image |
| ArtecRead.ScanImage | backend/artec.c:3669-3721 | a whole scan with reads of any sizes returns a beginning of the image, and exactly the image, taking lines + 2 * offset scanner rows, if and only if no device read failed |
| ArtecRead.RowMeaning | backend/artec.c:939-1026 | each byte of returned row n comes from the scanner row its colour's offset away, in all four layouts |
| ArtecRead.RowLocated | backend/artec.c:939-1026 | the same with the place written out for each layout |
| ArtecRead.ImageLength | backend/artec.c:1340-1344 | an image is its lines times the row size |
| ArtecRead.ImageRows | backend/artec.c:3499-3664 | row n of the returned bytes is image row n |
| ArtecRead.LayoutsAgree | backend/artec.c:939-1026 | realigning planar rows and then converting equals converting first and realigning pixels, for the whole image |
| As6e.TakeCarried | backend/as6e.c:179-195 | the returned part followed by what is still carried is what was carried |
| As6e.Carry | backend/as6e.c:258-265 | the end of the block stands behind what was carried |
| As6e.Scan.constructor | backend/as6e.c:340-343 | a new scan starts with nothing carried and nothing counted |
| As6e.Scan.Cancel | backend/as6e.c:284-295 | cancelling only marks a running scan |
| As6e.Scan.SaneRead | backend/as6e.c:131-279 | returned bytes followed by carried bytes are always the bytes taken from the driver, the counter is the number returned, a full buffer is returned while the driver goes on, and end of file comes only after everything was returned, unless a cancelled driver gave up, which is reported exactly once; only the read that ends the scan can take a cancelled driver's 0 for the end marker |
| As6e.Scan.Finish | backend/as6e.c:143-156 | a complete image takes one more message, whatever it is; when the driver was cancelled behind its last block it can be the 0, and the -1 then stays in the pipe |
| As6e.Scan.AllReturned | backend/as6e.c:143-156 | when the image is complete nothing is carried and only the end marker is left |
| As6e.Scan.ReturnedPrefix | backend/as6e.c:131-279 | also in a cancelled scan, what was returned is a beginning of what the driver sent |
| As6e.Scan.Fill | backend/as6e.c:204-275 | blocks are taken only with an empty carryover, which therefore never overflows; the end marker leaves nothing carried |
| As6e.ReadImage | backend/as6e.c:131-279 | a scan with reads of any sizes, cancelled at any point or not, returns a beginning of what the driver sent; with end of file it has returned everything and consumed one message per block and one more, which is the end marker unless the driver was cancelled behind its last block |
| ArtecEplus48uStream.StripBlock | backend/artec_eplus48u.c:1827-1848 | the payload of a padded stream is its first block without padding followed by the payload of the rest, also when that block is the last |
| ArtecEplus48uStream.StrippedIs | backend/artec_eplus48u.c:1827-1840 | with blocks of a multiple of 64 bytes all the padding is at the end, so the payload is the beginning of the stream |
| ArtecEplus48uStream.RunSnoc | backend/artec_eplus48u.c:1827-1848 | the reads so far followed by one more raw read are a run of all of them |
| ArtecEplus48uStream.RunCounts | backend/artec_eplus48u.c:1842-1848 | as many bytes are handed out as were asked for, however many arrived |
| ArtecEplus48uStream.RunEnough | backend/artec_eplus48u.c:1827-1848 | when every raw read brings at least its payload bytes, what is handed out is what is on the wire |
| ArtecEplus48uStream.RunPlanned | backend/artec_eplus48u.c:1827-1840 | and the raw reads done and still to come are the planned ones |
| ArtecEplus48uStream.RunMissed | backend/artec_eplus48u.c:1713-1735 | over a stream and a buffer of zeros, the first byte that a raw read misses is handed out as the zero that was in the buffer |
| ArtecEplus48uStream.ShortReadSpoils | backend/artec_eplus48u.c:1713-1735 | whenever a raw read brings fewer than its payload bytes, there are a stream and a buffer for which the result is not the payload |
| ArtecEplus48uStream.PayloadExactly | backend/artec_eplus48u.c:1827-1848 | for given sizes of the answers, the payload is handed out for every stream and every buffer if and only if every raw read brings at least its payload bytes |
| ArtecEplus48uStream.PaddingMayMiss | backend/artec_eplus48u.c:1834-1848 | a last raw read that misses only padding does no harm |
| ArtecEplus48u.Device.SetReadBufferSize | backend/artec_eplus48u.c:1737-1759 | refused while reading or for nothing, otherwise rounded up to 64 |
| ArtecEplus48u.Device.ReadPrepare | backend/artec_eplus48u.c:1761-1786 | refused without effect while reading; otherwise the read is to deliver the payload of the stream from here on |
| ArtecEplus48u.Device.ReadFinish | backend/artec_eplus48u.c:1871-1890 | ends a running read, refuses otherwise |
| ArtecEplus48u.RefillSound | backend/artec_eplus48u.c:1831-1848 | after a raw read of any length, delivered and buffered bytes are what the raw reads so far make of the stream, and the read continues where that one ended |
| ArtecEplus48uStream.ShortReadStale | backend/artec_eplus48u.c:1713-1735 | a raw read of one byte of 64, after which bytes are handed out that are not the payload |
| ArtecEplus48u.Device.Fetch | backend/artec_eplus48u.c:1831-1848 | the padded transfer always fits the buffer; the buffer then starts with the bytes that arrived and keeps its old ones behind them |
| ArtecEplus48u.Device.Read | backend/artec_eplus48u.c:1813-1868 | results are appended to what was delivered; less than asked for, or end of file, only when all of the payload was asked for and everything that the raw reads made of it was delivered; an I/O error exactly when a raw read failed |
| ArtecEplus48u.PixelAlign | backend/artec_eplus48u.c:1285-1289 | the loop ends with 64 pixels at 8 bits and 32 at 16 |
| ArtecEplus48u.SetupWidth | backend/artec_eplus48u.c:1257-1322 | a line is accepted exactly when its padded bytes are at most 15600; it then holds all pixels and is a multiple of 64 bytes, so the two alignment errors cannot happen |
| ArtecEplus48u.UnpaddedLines | backend/artec_eplus48u.c:2250-2267 | with such a block size the payload is the raw stream |
| ArtecEplus48u.PlanOfLines | backend/artec_eplus48u.c:1827-1840 | for a block of one unpadded line, raw read k is planned to be line k |
| ArtecEplus48u.WholeLinesEnough | backend/artec_eplus48u.c:1827-1848 | when the block is a line without padding, raw reads bring enough if and only if each of them brings a whole line |
| ArtecEplus48u.ReadStream | backend/artec_eplus48u.c:1761-1868 | a whole read with requests of any sizes hands out what the raw reads, short or not, make of the stream, all of it exactly when none failed, else a beginning; when they bring enough (PayloadExactly) that is the payload, by the planned raw reads |
| ArtecEplus48u.ReadLines | backend/artec_eplus48u.c:2250-2267 | a scan whose width was chosen by the setup receives, when each raw read brings a whole line, its lines of one or three times the chosen bytes, all of them exactly when no read failed, else a beginning; raw read k is exactly line k, in position and size, and there is one for each line |
| AppleOptions.Scanner.GammaUpdate | backend/apple.c:1060-1137 | the gamma flags become those expected from model, mode, sensor and the custom-gamma switch; all others stay |
| AppleOptions.Scanner.ModeLevels | backend/apple.c:1194-1241 | the threshold, brightness and reference-voltage flags become those expected, although two of them are decided from other flags |
| AppleOptions.Scanner.ModeUpdate | backend/apple.c:1140-1272 | every flag is as expected |
| AppleOptions.Scanner.constructor | backend/apple.c:1845-1853 | the initial flags are as expected |
| AppleOptions.OneLevel | backend/apple.c:1194-1241 | in every state exactly one of threshold, automatic threshold, brightness with contrast, and the two reference voltages can be set |
| AppleOptions.Scanner.SetOption | backend/apple.c:2171-2336 | an inactive option, and a mode that the model does not list, is refused without effect; any other set stores its value and is good, but unsupported for the "download" pattern and the two downloads; all flags stay as expected, except the halftone file's, whose new value is stated for every request: decided by a mode change, cleared by a pattern other than "download", otherwise kept |
| AppleOptions.FileFlagMeans | backend/apple.c:2171-2336 | after any sequence the halftone file's flag is on exactly in halftone mode with a "download" that has not been interrupted since the mode was set |
| AppleOptions.SteadySince | backend/apple.c:2171-2336 | such a steady "download" was the pattern after every request from the last mode change on |
| AppleOptions.UnsteadyAt | backend/apple.c:2171-2336 | and otherwise there is a request since the last mode change after which it was not |
| AppleOptions.FileFlagRightExactly | backend/apple.c:2171-2336 | the flag agrees with the from-scratch specification if and only if the pattern is not wanted, or the "download" was steady |
| AppleOptions.FileFlagWrong | backend/apple.c:2171-2336 | on every model that lists halftone mode, selecting it and then "download", from the initial options, after which it does not |
| AppleOptions.ModeOffered | backend/apple.c:1332-1359 | the mode is always one that the model lists |
| AppleOptions.FileFlagUnused | backend/apple.c:1332-1359 | on the models that do not list it, the flag is right after every sequence |
| AppleOptions.SetOptions | backend/apple.c:2171-2336 | after any sequence of sets the incrementally kept flags equal those decided from the values alone, the values are those of the accepted sets, and the halftone file's flag is right exactly under the stated condition |
| AppleArea.Units | backend/apple.c:247-281 | whole units below x, or above it when at least a tenth is left over |
| AppleArea.XQuant | backend/apple.c:247-262 | a horizontal position is a whole number of byte steps, at the depths whose steps are exact; for every request whose conversion is defined, also a negative one |
| AppleArea.XQuantIs | backend/apple.c:247-262 | x inches are a whole number of bytes of a line, rounded down, or up when a tenth is left over; a byte is one step at the depths whose steps are exact, and 9600/(resolution * depth) rounded down at the others |
| AppleArea.XStepIs | backend/apple.c:89 | a step is 9600/(resolution * depth), rounded down |
| AppleArea.YQuant | backend/apple.c:264-281 | a vertical position is a whole number of lines, for every request whose conversion is defined |
| AppleArea.YQuantIs | backend/apple.c:264-281 | y inches are a whole number of line steps, rounded down, or up when a tenth is left over |
| AppleArea.Shrink | backend/apple.c:949-976 | the loop ends, and each direction has given up just enough steps to fit, no more |
| AppleArea.FittedIs | backend/apple.c:949-976 | what the loop leaves is determined by the request: its size less the least number of steps that make it fit |
| AppleArea.LargestWindow | backend/apple.c:949-976 | with the corner inside, the size is non-negative, aligned, and no larger aligned size within the request fits |
| AppleArea.NonNegativeWindow | backend/apple.c:949-976 | the fitted size is non-negative if and only if what remains after whole steps fits behind the corner |
| AppleArea.PixelsFillBytes | backend/apple.c:1040-1042 | the pixels of a line fill whole bytes |
| AppleArea.CornerOutside | backend/apple.c:939-976 | the largest corner that the option allows, from which every fitted width is negative |
| AppleArea.ExchangedCorners | backend/apple.c:247-281 | an inch from right to left, for which the unsigned conversion is undefined at every resolution and depth |
| AppleArea.BiColorUnaligned | backend/apple.c:1040-1042 | a BiColor window whose lines do not fill bytes |
| AppleArea.BiColorThrees | backend/apple.c:247-262 | a BiColor width of t bytes, quantised, fills whole bytes again if and only if t is a multiple of three, at every resolution |
| AppleArea.FillsBytesUnshrunk | backend/apple.c:1040-1042 | a BiColor request that fits gives lines of whole bytes if and only if its rounded number of bytes is a multiple of three |
| AppleArea.CalcArea | backend/apple.c:939-1042 | the whole computation, for every mode's depth: quantised corner, fitted window, pixels and lines; a request that fits is granted, rounded to whole lines and bytes; and the exact conditions, on the request, under which the area is defined, non-negative, and has lines that fill bytes |
| NibbleRead.ExpandAt | backend/apple.c:2561-2573 | byte i becomes pixels 2i and 2i + 1 |
| NibbleRead.PixelsOf | backend/apple.c:2561-2573 | the left pixel is the upper half of its byte, the right one the lower half, moved to the upper four bits, and inverted for the Apple scanner |
| NibbleRead.ExpandAppend | backend/apple.c:2561-2573 | expanding two pieces gives the expansion of both together |
| NibbleRead.ExpandLossless | backend/apple.c:2561-2573 | both nibbles of every byte can be read back from its pixels |
| NibbleRead.ExpandInPlace | backend/apple.c:2561-2573 | expanding from the back never overwrites an unread byte, so the buffer holds the pure expansion |
| NibbleRead.Request | backend/abaton.c:1337-1344 | what is asked for fits the buffer after expansion, is available, and is as much as that; nothing is asked for only when less than two bytes of room are left |
| NibbleRead.OddBufferStalls | backend/abaton.c:1337-1344 | with data waiting, an unfilled buffer gets no request exactly when its size is odd and one byte is left |
| NibbleRead.ReadEnds | backend/abaton.c:1330-1378 | a read has a state in which it ends if and only if its buffer is even or the data cannot fill it |
| NibbleRead.ReadGray16 | backend/abaton.c:1330-1378 | for all answers the buffer holds the expansion of the consecutive bytes that arrived, and the read ends, full or with the data, if and only if its buffer is even or the data cannot fill it; otherwise it stalls with one byte of room |

## Left out

- ReaderProcess: 8-bit gray and colour only; 12- and 16-bit scaling, bit modes, the mirroring of ADF pages, the background raster and the flipping duplexer are not modelled. The stripe buffer is smaller than 2^32 bytes.
- ReaderProcess: a scaled rear pass is covered when every rear-file read delivers whole lines, by its size or because there is only one, since otherwise the code blends lines with a history that is no line (HistoryIsLastLine); scaling needs at least one announced line (the code divides by it).
- ReaderProcess: coordinates are exact quotients; the code computes them in double precision, which agrees as long as the products stay far below the 53 bits of a mantissa. The carry is a move, as its source and destination may overlap. Several of the loop's locals are grouped in a value.
- FlatbedExact: about runs that do not overrun; when they do is stated exactly by ReaderProcess.
- SimplexLines: about runs that do not overrun; when they do is stated exactly by ReaderProcess.
- StepPaged: a scaled rear pass with file reads that are not whole lines, as for ReaderProcess.
- ScanSheet: balanced sheets whose data arrives completely and whose rear file is replayed whole. The front side needs neither balance nor replay (FrontRun, ScaledFrontRun); that the rear side of an unscaled ADF sheet needs both is RearSideExactly. Without an ADF missing rear lines are padded, and a scaled rear side has no such converse here.
- AvisionCmd: what the sense handler makes of sense data and what the transport does are arbitrary; a source write that reports success has transferred something.
- GetCalibData: a successful read delivers at least one byte while there is data; without that the loop of the code does not end.
- BubbleSort: values are 16-bit words in an array; the big-endian byte pairs of the code's buffer are not modelled.
- FixUp: the ramp that fills the table before and the decrease of all entries by one after it are not modelled; FixUpFits is about products below 2^32, while Missing itself wraps as the code does.
- Realigner: the gray and line-art branches of the line reversal, three-pass scans, software calibration and what a cancelled scan leaves in the static buffers are not modelled.
- Scan: ArtecRead counts rows where the code counts bytes of whole rows, and a device read that succeeds is complete; a row must fit the read buffer. The AS6E driver is not part of this model: it sends non-empty blocks that fit the buffers and no more than the image, then -1, and when cancelled 0 and -1.
- Read: the E+48U line readers' unpacking, the shading arrays and the delay buffers are not modelled.
- CalcArea: corners are not negative, as their options are not; what an undefined conversion of exchanged corners gives is left undefined. The rounding of fixed-point option values and the adjustment written back to them are not modelled.
- PixelsFillBytes: the depths with exact steps; CalcArea states the condition on the request for the others.
- SetOption: values that have no influence on activity are not stored; Abaton's coupling of its two resolution options is not modelled.
- ReadGray16: both backends' polling, and aborting a read, are not modelled.
- Starting, ending and cancelling pages in the Avision backend, device tables, inquiry decoding, gamma and contrast curves, configuration files, processes, signals and pipes are not modelled.
