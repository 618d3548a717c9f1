# LWA commissioning scripts: a verified model of their exact logic

The commissioning scripts for the Long Wavelength Array read instrument
files (TBF, TBW, TBN and DRX), reshape the data and plot it. Most of each
script is I/O, numerics and plotting. This project models, in Dafny, the
parts whose behaviour can be stated exactly, and proves what they promise:

- **TBF multiplexer** (`TBF/tbfMux.py`):
  - the raw TBF frame: the length and sync-word checks, the big-endian time
    tag and first-channel fields, and Python item access;
  - the hooks the reordering frame buffer calls;
  - `createFill`, which builds a zero-payload fill frame from a copied
    template, step by step as the source does;
  - from `main`, the sort of the input paths, the channel-continuity check,
    and the loop that derives the default output name from the longest
    suffix the input file names share.
  - Modules `TbfFrames`, `TbfMuxMain`, `BigEndian` and `Arith`, using `Sorting`.
- **RFI check** (`TBW/rfiCheck.py`):
  - `expandMask` as a method over `array2`, with numpy's negative-index
    wrap-around and its swallowed `IndexError`, and the optional column
    merge;
  - the per-row count of saturated samples (±2047).
  - Modules `RfiCheck` and `PyIndex`.
- **DRX power** (`DRX/drxPower.py`):
  - the beam/tuning/polarisation code and its decoding;
  - the first-seen stand-mapper table with its per-row frame counters, as
    a class whose state the per-frame step updates;
  - the integer chunk sizing and the sanity checks;
  - the order in which the plot visits the rows.
  - Module `DrxPower`, using `Sorting`.
- **Multi-frequency visibility splitter** (`TBN/Calibration/splitMultiVis.py`):
  - grouping rows by distinct centre frequency, in ascending order;
  - dropping each group's last row;
  - skipping groups left with fewer than 20 rows;
  - naming outputs `-NNN.npz` by frequency rank.
  - Module `SplitMultiVis`.
- **DRX script tests** (`tests/test_drx.py`):
  - `_name_to_name` (POSIX `splitext`, `split('/')`, `index('..')`,
    `'_'.join`);
  - the names of the test methods registered for the sorted script list.
  - Module `TestDrx`.

Python exceptions are modelled as values (`Wrappers.Option`/`Result`):
- `EOFError`, `SyncError` and `IndexError` for frames;
- `ZeroDivisionError` and the two sanity-check `RuntimeError`s for DRX
  sizing;
- `ValueError` for an empty frequency list and for a path with no `..`
  component.

Python's unbounded integers map to Dafny's `int`. Bytes are a `byte`
subset type of `int`.

## Model

| member | source | states |
|---|---|---|
| TbfFrames.Check | TBF/tbfMux.py:33-36 | EOFError exactly when the length is not the frame size (checked first), SyncError exactly when the length is right but bytes 0..3 are not DE C0 DE 5C, accepted otherwise |
| TbfFrames.RawTBFFrame.New | TBF/tbfMux.py:31-36 | wrapping fails with the check's error exactly when the check fails; otherwise a fresh frame holding a copy of the bytes |
| TbfFrames.TimetagOf | TBF/tbfMux.py:45-55 | the time tag is the big-endian value of bytes 16..23, below 2^64 |
| TbfFrames.FirstChanOf | TBF/tbfMux.py:58-60 | the first channel is the big-endian value of bytes 12..13, below 65536 |
| TbfFrames.RawTBFFrame.Timetag | TBF/tbfMux.py:44-55 | a frame's `timetag` property is the big-endian value of its bytes 16..23, below 2^64 |
| TbfFrames.RawTBFFrame.FirstChan | TBF/tbfMux.py:57-60 | a frame's `first_chan` property is the big-endian value of its bytes 12..13, below 65536 |
| TbfFrames.RawTBFFrame.GetItem | TBF/tbfMux.py:38-39 | Python indexing: a negative key counts from the end, a key out of range is an IndexError |
| TbfFrames.RawTBFFrame.SetItem | TBF/tbfMux.py:41-42 | exactly the addressed byte changes; a key out of range is an IndexError and changes nothing |
| TbfFrames.RawTBFFrame.SetTail | TBF/tbfMux.py:148 | slice assignment from an offset: the bytes before it are kept and the rest are the new values |
| TbfFrames.RawTBFFrameBuffer.constructor | TBF/tbfMux.py:99-100 | the buffer keeps its channel list, 25 segments and no reordering by default |
| TbfFrames.RawTBFFrameBuffer.GetMaxFrames | TBF/tbfMux.py:102-116 | one expected frame per channel, and the frame list is the channel list in order |
| TbfFrames.RawTBFFrameBuffer.GetFigureOfMerit | TBF/tbfMux.py:118-124 | frames sort by their big-endian 64-bit time tag |
| TbfFrames.RawTBFFrameBuffer.FrameID | TBF/tbfMux.py:126-131 | frames are identified by their big-endian 16-bit first channel |
| TbfFrames.RawTBFFrameBuffer.CreateFill | TBF/tbfMux.py:133-150 | IndexError when no frame is held for the key; the template's own error if it fails the checks; otherwise a fresh frame whose bytes are the template's fill bytes for the channel, with the template left untouched |
| TbfFrames.ChanBytes | TBF/tbfMux.py:144-145 | the masked and shifted channel bytes are the 2-byte big-endian encoding of the channel |
| TbfFrames.FillFirstChan | TBF/tbfMux.py:143-145 | a fill frame's first channel is the requested channel modulo 65536 |
| TbfFrames.FillKeepsHeader | TBF/tbfMux.py:140-148 | a fill frame keeps every header byte but 12..13, including the sync word and time tag; its payload is all zero; it passes the checks exactly when the template has the sync word |
| TbfFrames.FillTwice | TBF/tbfMux.py:143-148 | filling a fill frame again equals filling the template once with the later channel |
| BigEndian.DecodeEncode | TBF/tbfMux.py:144-145 | decoding the n-byte encoding of v gives v modulo 256^n |
| BigEndian.EncodeDecode | TBF/tbfMux.py:45-60 | re-encoding a decoded header field gives back its bytes |
| TbfMuxMain.CheckChannelIncrement | TBF/tbfMux.py:164-166 | no error exactly when every channel is its predecessor plus 12; otherwise the error carries the first increment that is not 12 |
| TbfMuxMain.StepsBy12IsRun | TBF/tbfMux.py:163-166 | channels that pass the check are the run chans[0] + 12i |
| TbfMuxMain.StepsBy12Distinct | TBF/tbfMux.py:163-166 | channels that pass the check strictly increase, so none repeats |
| TbfMuxMain.SortedStepsIffContiguous | TBF/tbfMux.py:163-166 | after sorting, the check passes exactly when the channels, in whatever order they were collected, are the run c0, c0 + 12, ... |
| TbfMuxMain.CheckChannels | TBF/tbfMux.py:163-166 | `chans.sort()` then the check: the sorted list is an ascending permutation of the channels, there is no error exactly when they form one run of step 12, and otherwise the error carries the first bad increment of the sorted list |
| TbfMuxMain.Basename | TBF/tbfMux.py:173 | the base name is the part of the path after the last '/' |
| TbfMuxMain.LastChars | TBF/tbfMux.py:179 | for k >= 1, s[-k:] is the last k characters, or all of s when it is shorter |
| TbfMuxMain.CommonSuffixLen | TBF/tbfMux.py:176-184 | the shared-suffix length is shared by every name and is maximal below one character less than the first name |
| TbfMuxMain.CommonSuffixLenMaximal | TBF/tbfMux.py:177-183 | no longer suffix under that cap is shared by all names |
| TbfMuxMain.CommonSuffixLenUnique | TBF/tbfMux.py:177-184 | any shared length that cannot be extended is the one found |
| TbfMuxMain.OutputName | TBF/tbfMux.py:172-187 | the intended derivation: the longest suffix all names share, below the first name's length, without one leading '_'; the name is a suffix of the first name and shorter than it |
| TbfMuxMain.StripUnderscore | TBF/tbfMux.py:185-186 | at most one leading '_' is removed |
| TbfMuxMain.OutputNameShared | TBF/tbfMux.py:172-187 | every input name ends with the derived name, and the derivation fails exactly when the first name has at most one character or the names do not all end in the same character |
| TbfMuxMain.AllEndWith | TBF/tbfMux.py:178-181 | the inner loop reports whether every name ends with the candidate, and leaves the last name in its loop variable when it does |
| TbfMuxMain.Round | TBF/tbfMux.py:178-183 | one round of the loop as written is RoundOf: the inner check, then the next candidate cut one character longer from the last name; the candidate stays a suffix whose tail every name shares |
| TbfMuxMain.GrowCandidate | TBF/tbfMux.py:174-183 | when the loop does not spin it ends with a candidate whose tail is a shared suffix of the first name, either as long as the first name or with a name that does not end with the candidate's length of the first name |
| TbfMuxMain.DeriveOutputName | TBF/tbfMux.py:172-187 | the loop as written returns the longest-shared-suffix name of OutputName, IndexError included |
| TbfMuxMain.SortedBasenamesOrderFree | TBF/tbfMux.py:155-156 | after `filenames.sort()` the base names the loop sees do not depend on the order the files were given in |
| TbfMuxMain.DefaultOutputName | TBF/tbfMux.py:172-187 | the default output name is OutputName of the base names of the sorted paths, whenever the loop does not spin |
| TbfMuxMain.SpinningLoopNeverExits | TBF/tbfMux.py:174-183 | when the last name is a shared suffix shorter than the first name, after n rounds the candidate is the last min(n + 1, len) characters of the last name, still valid and still shorter than the first name, so the loop condition never fails |
| TbfMuxMain.SpinsInOneDirectory | TBF/tbfMux.py:156-183 | the files `x` and `a_x`, given in either order, reach the loop sorted as `a_x`, `x`, and the loop spins on them |
| PyIndex.Normalize | TBW/rfiCheck.py:114 | an index is accepted exactly when -n <= i < n, and a negative index counts from the end |
| RfiCheck.Landing | TBW/rfiCheck.py:112-116 | offset column j+k lands exactly when -n <= j+k < n, and then on the column congruent to j+k modulo n; other offsets are dropped |
| RfiCheck.CoversIff | TBW/rfiCheck.py:112-116 | a seed at column j covers column c exactly when some offset k in [-radius, radius] lands on c |
| RfiCheck.RowHitIff | TBW/rfiCheck.py:109-116 | without merge, a cell is set exactly when some cell of its row equal to 1 covers it |
| RfiCheck.SeedIsSet | TBW/rfiCheck.py:111-114 | every cell equal to 1 is set when the radius is not negative |
| RfiCheck.RowsIndependent | TBW/rfiCheck.py:109-116 | a row of the expanded mask depends only on the same row of the input |
| RfiCheck.ColumnCountPositive | TBW/rfiCheck.py:119-121 | a column sum is positive exactly when some cell of the column is set |
| RfiCheck.ColumnSums | TBW/rfiCheck.py:119 | one sum per column, positive exactly when the column has a set cell |
| RfiCheck.ExpandRow | TBW/rfiCheck.py:110-116 | after the row's loops, a cell of the row is set exactly when covered, and the other rows are unchanged |
| RfiCheck.MergeColumns | TBW/rfiCheck.py:118-122 | after the merge a cell is set exactly when some row of the expanded mask covers its column |
| RfiCheck.ExpandMask | TBW/rfiCheck.py:103-126 | the result is a fresh mask of the input's shape; without merge a cell is set exactly when its row covers it, with merge exactly when some row covers its column |
| RfiCheck.SaturationCountIsMultiplicity | TBW/rfiCheck.py:264 | a row's saturation count is the number of samples equal to 2047 plus those equal to -2047 |
| RfiCheck.SaturationCounts | TBW/rfiCheck.py:264 | one count per row, each that row's number of ±2047 samples |
| DrxPower.StandCode | DRX/drxPower.py:183 | the code's lowest bit is the polarisation and its next bit the tuning |
| DrxPower.DecodeCode | DRX/drxPower.py:234 | decoding gives tuning 1 or 2 and polarisation 0 or 1, and a beam of at least 1 exactly for non-negative codes |
| DrxPower.DecodeStandCode | DRX/drxPower.py:234 | decoding inverts the code of line 183 for every valid beam, tuning and polarisation |
| DrxPower.StandCodeDecode | DRX/drxPower.py:234 | encoding a decoded code gives the code back |
| DrxPower.StandCodeInjective | DRX/drxPower.py:183 | distinct valid beam/tuning/polarisation triples get distinct codes |
| DrxPower.MaxFrames | DRX/drxPower.py:109 | the chunk limit is the largest multiple of beampols not above the configured limit; beampols 0 is a ZeroDivisionError |
| DrxPower.ConfiguredLimitKept | DRX/drxPower.py:52 | for one to four beampols the configured 19144*3 is already a multiple, so line 109 keeps it as the chunk limit |
| DrxPower.NumChunks | DRX/drxPower.py:122 | the chunk count is the ceiling of nFrames / maxFrames; a zero limit is a ZeroDivisionError |
| DrxPower.SanityCheck | DRX/drxPower.py:136-139 | the first error exactly when the offset is past the end, the second exactly when offset + integration is past it, none otherwise |
| DrxPower.FramesWork | DRX/drxPower.py:156-160 | a chunk's frame count is the smaller of maxFrames and the frames remaining |
| DrxPower.ChunkSizes | DRX/drxPower.py:152-160 | every chunk holds between 1 and maxFrames frames |
| DrxPower.ChunkTotal | DRX/drxPower.py:152-160 | the first k chunks never read more than k * maxFrames frames |
| DrxPower.ChunkTotalPrefix | DRX/drxPower.py:152-160 | the first k chunks hold min(k * maxFrames, nFrames) frames |
| DrxPower.ChunksCoverIntegration | DRX/drxPower.py:136-160 | the chunks hold exactly nFrames frames, and after a passing sanity check they stay inside the file |
| DrxPower.IndexOf | DRX/drxPower.py:188-191 | list.index finds the first position holding the value |
| DrxPower.IndexOfUnique | DRX/drxPower.py:185-191 | in a list without repeats, every value's index is its position |
| DrxPower.IndexOfStable | DRX/drxPower.py:185-191 | appending never moves an index already assigned |
| DrxPower.Registered | DRX/drxPower.py:185-186 | a code already in the table leaves it unchanged; a new code is appended at the end, so the table lists codes in first-arrival order with no repeats and no other entries, and earlier indices never move |
| DrxPower.PowerChunk.constructor | DRX/drxPower.py:151 | the table starts empty |
| DrxPower.PowerChunk.NewChunk | DRX/drxPower.py:163-164 | each chunk resets the counters and allocates a zero array of beampols rows by framesWork*4096/beampols columns; the table is kept |
| DrxPower.PowerChunk.Record | DRX/drxPower.py:182-201 | a frame registers its code, bumps its row's counter by one (from 0 the first time), and writes its samples to columns [4096n, 4096(n+1)) of that row, nothing else; a slot past the row end is the numpy error |
| DrxPower.FrameSlotsDisjoint | DRX/drxPower.py:199 | two frames of the same row never share a sample column |
| DrxPower.PlotRows | DRX/drxPower.py:223-225 | one plotted row per table entry, each a valid row |
| DrxPower.PlotVisitsEachRowOnce | DRX/drxPower.py:223-225 | the plot visits every row exactly once, in ascending code order |
| Sorting.Sort | DRX/drxPower.py:223 | sorting gives a permutation of its input |
| Sorting.SortSorted | DRX/drxPower.py:223 | under a total order the result ascends |
| Sorting.SortedUnique | tests/test_drx.py:85 | under a total order there is only one ascending permutation, so any correct sort gives the same list |
| SplitMultiVis.Unique | TBN/Calibration/splitMultiVis.py:34 | numpy.unique gives strictly increasing values, exactly the values present |
| SplitMultiVis.IncreasingDeterminedByElements | TBN/Calibration/splitMultiVis.py:34 | a strictly increasing list is determined by its elements, so the unique list is the only such result |
| SplitMultiVis.Positions | TBN/Calibration/splitMultiVis.py:45 | numpy.where returns at most one position per entry |
| SplitMultiVis.PositionsSpec | TBN/Calibration/splitMultiVis.py:45 | numpy.where gives the ascending positions holding the frequency |
| SplitMultiVis.PositionsCount | TBN/Calibration/splitMultiVis.py:45 | there are as many positions as occurrences |
| SplitMultiVis.DropLast | TBN/Calibration/splitMultiVis.py:46 | [:-1] keeps all but the last element, also for an empty list |
| SplitMultiVis.KeptRows | TBN/Calibration/splitMultiVis.py:45-46 | a group keeps occurrences - 1 rows, ascending, all holding its frequency |
| SplitMultiVis.KeptDropsLast | TBN/Calibration/splitMultiVis.py:45-46 | the dropped row is the frequency's last occurrence |
| SplitMultiVis.Pad3 | TBN/Calibration/splitMultiVis.py:57 | '%03i' gives only digits, at least three, exactly three below 1000 |
| SplitMultiVis.Pad3RoundTrip | TBN/Calibration/splitMultiVis.py:57 | reading the padded digits back gives the number |
| SplitMultiVis.ParseDecimalRoundTrip | TBN/Calibration/splitMultiVis.py:57 | the unpadded decimal reads back as the number |
| SplitMultiVis.ReplaceAbsent | TBN/Calibration/splitMultiVis.py:57 | str.replace with no occurrence leaves the string as it was |
| SplitMultiVis.ReplaceExtension | TBN/Calibration/splitMultiVis.py:57 | a name stem + '.npz' with no other '.npz' becomes stem + the replacement |
| SplitMultiVis.OutputName | TBN/Calibration/splitMultiVis.py:57 | a name without `.npz` is kept as it is |
| SplitMultiVis.OutputNameOfNpz | TBN/Calibration/splitMultiVis.py:57 | `stem.npz` with no other `.npz` becomes `stem-NNN.npz`, NNN the zero-padded rank |
| SplitMultiVis.ReplaceFirst | TBN/Calibration/splitMultiVis.py:57 | `str.replace` keeps the text before the first occurrence, replaces that occurrence, and continues on the rest |
| SplitMultiVis.OutputNameAtFirstExtension | TBN/Calibration/splitMultiVis.py:57 | every `.npz` in the name is numbered, one after another: the text before the first is kept and the rest of the name is renamed in the same way |
| SplitMultiVis.GroupFile | TBN/Calibration/splitMultiVis.py:45-59 | a group is written exactly when it keeps at least 20 rows, under its ranked name, with the header copied and its frequency |
| SplitMultiVis.GroupFileRows | TBN/Calibration/splitMultiVis.py:49-50 | a written group's times and visibility rows are taken at the kept rows, in order |
| SplitMultiVis.Groups | TBN/Calibration/splitMultiVis.py:42-59 | one candidate per distinct frequency, ranked from 1 in ascending order |
| SplitMultiVis.Split | TBN/Calibration/splitMultiVis.py:34-59 | an empty frequency list is the ValueError of uFreq.min(); otherwise the written groups |
| SplitMultiVis.SplitAscending | TBN/Calibration/splitMultiVis.py:42 | the outputs are written in strictly ascending frequency |
| SplitMultiVis.SplitWritesOnlyGroups | TBN/Calibration/splitMultiVis.py:42-59 | every output is the file of some group |
| SplitMultiVis.SplitWritesEveryGroup | TBN/Calibration/splitMultiVis.py:52-59 | every group keeping at least 20 rows is written |
| TestDrx.RFindSpec | tests/test_drx.py:75 | rfind gives the last position holding the character, or -1 when there is none |
| TestDrx.SplitExtRoot | tests/test_drx.py:75 | splitext's root is a prefix of the path |
| TestDrx.SplitExtRemovesExtension | tests/test_drx.py:75 | splitext removes a '.' followed by neither '.' nor '/', preceded in its component by a character other than '.' |
| TestDrx.SplitExtKeeps | tests/test_drx.py:75 | nothing is removed exactly when every '.' of the last component has only dots before it within the component |
| TestDrx.RFindAppend | tests/test_drx.py:75 | the last occurrence in a concatenation is in the tail when the tail has one |
| TestDrx.SplitOn | tests/test_drx.py:76 | split gives at least one piece, and no piece holds the separator |
| TestDrx.JoinSplit | tests/test_drx.py:76 | joining the pieces of a split gives the string back |
| TestDrx.SplitJoin | tests/test_drx.py:76-79 | splitting joined separator-free pieces gives the pieces back |
| TestDrx.Find | tests/test_drx.py:77 | list.index finds the first equal element, and fails exactly when there is none |
| TestDrx.NameToName | tests/test_drx.py:74-79 | the derivation is a ValueError exactly when no component is '..' |
| TestDrx.NameAfterFirstParent | tests/test_drx.py:77-79 | the name is the components after the first '..' joined with '_', later '..' components included |
| TestDrx.ScriptName | tests/test_drx.py:74-79 | '../c1/.../cn.ext' is named 'c1_..._cn' |
| Sorting.StrLeTotal | tests/test_drx.py:85 | Python's string comparison is a total order |
| TestDrx.RegisterSpec | tests/test_drx.py:86-90 | every script gets a test named 'test_' + its derived name, in order, and one failing script fails the registration |
| TestDrx.TestNames | tests/test_drx.py:83-90 | registration succeeds exactly when every script, in whatever order listed, has a '..' component, and then registers one test per script |
| TestDrx.ScriptsSorted | tests/test_drx.py:83-85 | sorting puts '../DRX/HDF/hdfWaterfall.py' first, because 'H' sorts before lower case |
| TestDrx.RegisteredTests | tests/test_drx.py:83-90 | the four scripts register test_DRX_HDF_hdfWaterfall, test_DRX_checkTimetags, test_DRX_drxFileCheck and test_DRX_fastDRXCheck, in that order |

## Left out

- The reordering frame buffer's own storage and its append, get and flush
  live in the reader library's base class, which is not part of this
  model. Only the hooks tbfMux.py overrides are modelled. CreateFill takes
  the frames held for the key as a parameter.
- The frame size comes from the reader library (`tbf.FRAME_SIZE`), which is
  not part of this model. It is taken as 24 + 12*256*2 = 6168 bytes. That
  is the only size at which createFill's zero fill keeps the frame length.
- TbfFrames.FillBytes: at TBF/tbfMux.py:148, createFill assigns a `str`
  into a `bytearray` slice. Under Python 3 that raises TypeError. The model
  writes the zero bytes that Python 2 writes.
- TbfFrames.RawTBFFrame.GetItem and SetItem: only integer keys are
  modelled. Slice keys are modelled only for the one slice assignment
  createFill makes (SetTail). SetItem takes a byte, so the ValueError a
  `bytearray` raises for a value outside 0..255 is not modelled; the one
  caller masks its values with `& 0xFF`, so that error cannot arise there.
- TbfMuxMain.LastChars and AllEndWith: only non-empty suffixes are
  modelled. Python's `s[-0:]` is all of `s`, but the loop's candidate is
  never empty, so that case does not arise.
- TbfMuxMain.DeriveOutputName: requires that the loop does not spin
  (LoopSpins). On spinning input the source never returns
  (SpinningLoopNeverExits, and see Findings).
- TbfMuxMain: opening the files, collecting `.buffer.chans`, the print
  and the multiplexing read/write loop (TBF/tbfMux.py:158-162, 189-224)
  are I/O.
- RfiCheck.ExpandMask: the source uses an int16 mask and converts it to
  bool at the end. The model keeps bool cells throughout, which gives the
  same result. The source reads cells equal to exactly 1 from an integer
  mask, and so does the model.
- RfiCheck: everything else in `main` (spectra, kurtosis, percentiles,
  plotting) is floating point or external DSP.
- DrxPower.NumChunks: `math.ceil` of a float quotient is modelled as the
  exact integer ceiling.
- DrxPower: the float offset and integration arithmetic of
  DRX/drxPower.py:102-104 and 113-119 is out of scope; `offset` and
  `nFrames` are inputs. The frame reading, the alignment loop, the
  transient gain printout and the plotting are I/O.
- DrxPower.PowerChunk.Record: the sample magnitudes (`numpy.abs` of the
  complex samples) arrive as 4096 reals; computing them is floating
  point.
- DrxPower.PowerChunk.NewChunk: requires beampols > 0, as in the source,
  where every earlier division by beampols would already have failed.
- SplitMultiVis: the centre frequencies are modelled as exact reals, so
  NaN is not modelled. A NaN never equals itself, so in the source its
  `numpy.where` group is empty and the group is skipped as too short.
- SplitMultiVis.Split: the times and visibility arrays are required to
  have one row per frequency entry. `numpy.load`, `savez`, `datetime` and
  the printed reports are I/O.
- TestDrx: the `setattr` on the test class, the docstrings and the
  subprocess run of each script are not modelled. On a failing script the
  source has already registered the earlier scripts; the model reports
  only the ValueError.
- TestDrx: only the POSIX path separator '/' is modelled (os.path.sep on
  Linux).

## Findings

| source | as written | input that shows it | evidently intended | confidence | as-written member | corrected member |
|---|---|---|---|---|---|---|
| TBF/tbfMux.py:177-183 | each new candidate suffix is cut from the last name, so once the candidate equals the whole last name it stops growing while still passing the check, and the loop never ends | the files `x` and `a_x` in one directory, given in either order: `filenames.sort()` puts `a_x` first, and every name ends with the last name `x` (TbfMuxMain.SpinsInOneDirectory) | stop at the longest suffix shared by all names (`x`, giving the output name `x`) | not executed | TbfMuxMain.SpinningLoopNeverExits | TbfMuxMain.OutputName |
