# ssfunc helpers in Dafny

A model of the pure and loop-based helpers of the `ssfunc` VapourSynth script collection:

- `ssfunc/util.py`:
  - `get_episode_number`: the episode number in a file path, found with a regular expression, zero-padded, and checked against the last episode;
  - `betterround`: rounding to a multiple;
  - `peak`: the peak sample value of a bit depth;
  - `scale`: 8-bit scaling;
  - `midval`: the rounded median of a frame range;
  - `desync`: the scan for the first out-of-sync frame.
- `ssfunc/misc.py`:
  - `output_ranges`: cutting inclusive frame ranges out of a clip;
  - `screengen`: reading a frame list, choosing where the frames come from, naming the screenshots, remapping the matrix, and the export loop.
- `ssfunc/aa.py`: the size arithmetic of `basedAA`:
  - the even supersampled size `aaw` x `aah`;
  - the sizes the nested `resize_mclip` takes a mask through.

A clip is modelled by its sequence of frames, or by its width and height where only its size matters. File contents, directory checks and the frame sampler are parameters. The Python built-ins the code relies on are modelled in two modules:

- `PyNum`: shifts, `round` with ties to even, `math.ceil` of a quotient.
- `PyStr`: `str(int)`, `str.zfill`, `str.strip`, `str.split(sep)[0]`, `int(str)`.

Files:

- `wrappers.dfy`: `Option`, `Result`, and the exceptions the code raises.
- `pynum.dfy`, `pystr.dfy`: Python number and string semantics.
- `util.dfy`: module `Util`, for `ssfunc/util.py`.
- `misc.dfy`: module `Misc`, for `ssfunc/misc.py`.
- `aa.dfy`: module `Aa`, for `ssfunc/aa.py`.

`output_ranges`, the screenshot export loop and `desync` change state step by step in Python, so they are Dafny methods with loops. Each is proved against a specification function or a postcondition. Everything else is a function with a contract, plus lemmas relating the functions.

## Model

| member | source | states |
|---|---|---|
| PyNum.RoundHalfEven | ssfunc/util.py:49 | `round(x)` is within 0.5 of x, and on a tie it is the even neighbour |
| PyNum.RoundHalfEvenUnique | ssfunc/util.py:49 | those two properties single out `round(x)`: no other integer has them |
| PyNum.RoundWithin | ssfunc/util.py:49 | rounding a number between two integers stays between them |
| PyNum.Shl | ssfunc/util.py:59 | `x << n` is x times 2^n, no smaller than x for x >= 0, and even for n > 0 |
| PyNum.Shr | ssfunc/aa.py:67-68 | `x >> n` is the floor of x / 2^n, also for negative x |
| PyNum.CeilDiv | ssfunc/aa.py:62 | `ceil(a / b)` is the least integer c with a <= c*b |
| PyNum.MultipleMod | ssfunc/util.py:49 | `base * n` leaves no remainder modulo base, for either sign |
| PyStr.NatToString | ssfunc/misc.py:115-117 | `str(n)` is a non-empty digit string with no leading zero whose decimal value is n |
| PyStr.ZFill | ssfunc/util.py:30 | `zfill` pads on the left with '0' to the width, keeps a sign in front, never truncates |
| PyStr.LStrip | ssfunc/misc.py:98 | `lstrip` removes exactly the leading whitespace |
| PyStr.RStrip | ssfunc/misc.py:98 | `rstrip` removes exactly the trailing whitespace |
| PyStr.IntToString | ssfunc/misc.py:115-117 | `str(i)`: the digits of i, behind a minus sign when i is negative |
| PyStr.Strip | ssfunc/misc.py:98 | `strip()` is the run of s that starts at its first non-whitespace character with only whitespace before and after it; it neither starts nor ends with whitespace, and is empty exactly when the whole string is whitespace |
| PyStr.LiteralValue | ssfunc/misc.py:98 | a stripped string is an int literal (digits, or a sign and digits) exactly when it has a value: the digits' decimal value, negated after a minus sign |
| PyStr.ParseInt | ssfunc/misc.py:98 | `int(s)` succeeds exactly when s stripped is an int literal, with that literal's value; otherwise it fails with ValueError naming s |
| PyStr.ParseDigits | ssfunc/misc.py:98 | `int` reads a digit string as its decimal value |
| PyStr.ParseNegatedDigits | ssfunc/misc.py:98 | `int` reads a minus sign and digits as the negated decimal value |
| PyStr.ParseZeroPadded | ssfunc/misc.py:115-117 | reading back a zero-padded `str(i)` gives i, for any int and width |
| PyStr.Find | ssfunc/misc.py:95 | the first occurrence of the separator from a position, or the end |
| PyStr.FirstField | ssfunc/misc.py:95 | `s.split(sep)[0]`: for a separator, the prefix before its first occurrence, with an empty separator a ValueError; for `None`, the first whitespace-free word, with a blank line an IndexError |
| PyStr.DecimalBelowPow10 | ssfunc/util.py:24-25 | n digits stand for a number below 10^n |
| Util.TrySuffix | ssfunc/util.py:24 | group 3, a word boundary or one `_` or `v`, at a position gives a suffix length that matches there, or no suffix length matches there |
| Util.TryEnd | ssfunc/util.py:24 | after k digits, groups 2 and 3 give a match, or none with that start, prefix and digit count exists |
| Util.TryDigits | ssfunc/util.py:24 | group 2 tried with three, two, then one digit gives a match, or none with that start and prefix exists |
| Util.TryAt | ssfunc/util.py:24 | trying the pattern at one position returns a match there, or none exists at that position |
| Util.Search | ssfunc/util.py:24 | `re.search` returns a match at the leftmost matching position, and nothing exactly when the pattern matches nowhere |
| Util.MatchUnique | ssfunc/util.py:24 | at a given position the pattern matches in one way only, so the groups are determined |
| Util.MatchDigits | ssfunc/util.py:24 | group 2 of a match is all digits, and the character after it is not a digit |
| Util.FirstDigitRun | ssfunc/util.py:25 | the second search finds 1 to 3 digits |
| Util.GroupZeroDigits | ssfunc/util.py:24-25 | searching `[0-9]{1,3}` in the text of a match gives exactly its group 2 |
| Util.EpisodeBelowThousand | ssfunc/util.py:24-25 | an episode of at most three digits is below 1000 |
| Util.GetEpisodeNumber | ssfunc/util.py:22-34 | None is a TypeError; otherwise the result is a digit string of at least one and at least `zfill` characters, below 1000, and not above `final` when that is given; the only errors are TypeError, AttributeError and EpisodeNotFound |
| Util.EpisodeMissingIffNoMatch | ssfunc/util.py:24 | the AttributeError of `.group` on None happens exactly when the pattern matches nowhere in the path |
| Util.EpisodeIsLeftmostMatch | ssfunc/util.py:24-34 | for the leftmost match, the result is its group 2 zero-padded to `zfill`, or EpisodeNotFound when `final` is given and the number exceeds it |
| Util.BetterRound | ssfunc/util.py:37-49 | a zero base is a ZeroDivisionError; otherwise the result is a multiple of base |
| Util.BetterRoundTie | ssfunc/util.py:39-49 | on a tie the result is the multiple of base whose quotient is even, as `round()` gives |
| Util.BetterRoundSixByFour | ssfunc/util.py:39-49 | mod4 rounding of 6 gives 8 |
| Util.BetterRoundNearest | ssfunc/util.py:39-40 | the result is at most half of abs(base) from the input |
| Util.BetterRoundDefaultIsRound | ssfunc/util.py:41-42 | with the default base 1 it is Python's `round()` |
| Util.Peak | ssfunc/util.py:59 | the peak is 2^bits - 1 |
| Util.PeakBitLength | ssfunc/util.py:59 | the peak has exactly `bits` binary digits, and one more needs `bits + 1` |
| Util.Scale | ssfunc/util.py:62-71 | the result is `value * peak / 255` rounded: within 0.5 of it, and the even neighbour on a tie |
| Util.ScaleWithinPeak | ssfunc/util.py:62-71 | an 8-bit value scales into [0, peak] |
| Util.ScaleToEightBitPeak | ssfunc/util.py:71 | scaling to the 8-bit peak 255 only rounds |
| Util.Insert | ssfunc/util.py:75-77 | inserting into a sorted list keeps it sorted and adds exactly that element |
| Util.SortInts | ssfunc/util.py:75-77 | `sorted()` returns a sorted permutation |
| Util.Median | ssfunc/util.py:75-77 | `median` of no data is a StatisticsError, and of any other data a value |
| Util.SortedUnique | ssfunc/util.py:75-77 | two sorted lists with the same values are equal, so `sorted()` has a single possible result |
| Util.MedianOfSorted | ssfunc/util.py:75-77 | the median of sorted data is its middle value, or the mean of its two middle values |
| Util.Midval | ssfunc/util.py:74-77 | midval fails exactly on empty input, and otherwise returns a whole number |
| Util.MidvalIsRoundedMedian | ssfunc/util.py:77 | both branches give the median rounded ties-to-even |
| Util.MedianWithin | ssfunc/util.py:75-77 | the median of values within bounds lies within them |
| Util.MidvalWithin | ssfunc/util.py:77 | midval of values within bounds lies within them |
| Util.FrameRange | ssfunc/dehardsub.py:95 | `[*range(start, end + 1, 1)]` is start, start+1, ..., end, and empty when start > end |
| Util.ReversedFrameRange | ssfunc/dehardsub.py:93-96 | a reversed range gives no frames, and midval of it is a StatisticsError |
| Util.MedianOfFrameRange | ssfunc/dehardsub.py:95-96 | the median of the frames of a range `(start, end)` is `(start + end) / 2` |
| Util.MidvalOfFrameRange | ssfunc/dehardsub.py:95-96 | the frame dehardsub picks for a range `(start, end)` is `(start + end) / 2` rounded ties-to-even, so it lies in that range |
| Util.Desync | ssfunc/util.py:122-129 | the result is the first frame from `start` on whose difference exceeds 0.15, with all frames between `start` and it at or below 0.15; nothing means no frame from `start` on exceeds it |
| Misc.Bounds | ssfunc/misc.py:37-41 | a tuple element gives its own `(start, end)`; a bare frame number gives itself as both start and end |
| Misc.SliceIndex | ssfunc/misc.py:59 | a slice index is normalised into [0, n], counting negative indices from the end |
| Misc.Slice | ssfunc/misc.py:59 | `clip[a:b]` holds the frames between the normalised indices, and an empty slice is an engine error |
| Misc.CheckLastRange | ssfunc/misc.py:36-54 | the checks pass exactly when there is a last element and its bounds satisfy start <= end < num_frames; with no element `start` is unbound; the failures are the two ValueErrors |
| Misc.Assemble | ssfunc/misc.py:57-59 | the second loop fails only by unpacking a bare int (TypeError) or by an empty slice |
| Misc.OutputRangesOf | ssfunc/misc.py:36-61 | output_ranges as written fails on an empty list with UnboundLocalError, and otherwise only with the checks' ValueErrors, TypeError or an empty slice |
| Misc.OutputRanges | ssfunc/misc.py:36-61 | the two loops, the checks, the placeholder frame and `out[1:]` compute exactly `OutputRangesOf`: checks on the last element, then the slices of all elements in order |
| Misc.Selected | ssfunc/misc.py:58-59 | the inclusive slices of in-clip ranges, concatenated, have as many frames as the ranges' lengths add up to |
| Misc.AssembleInClip | ssfunc/misc.py:58-59 | for tuples inside the clip, the second loop returns the concatenation of the inclusive slices in list order |
| Misc.OutputRangesInClip | ssfunc/misc.py:36-61 | for a non-empty list of tuples inside the clip, output_ranges returns those slices, of total length the sum of `end - start + 1` |
| Misc.OutputRangesOkIff | ssfunc/misc.py:36-61 | output_ranges succeeds exactly when the last element passes the checks, every element is a tuple and every slice is non-empty |
| Misc.AssembleOkIff | ssfunc/misc.py:58-59 | the second loop succeeds exactly when every element is a tuple with a non-empty slice |
| Misc.AssembleFromClip | ssfunc/misc.py:57-61 | every output frame is a frame of the input clip, so the placeholder frame is gone |
| Misc.OnlyLastRangeChecked | ssfunc/misc.py:36-54 | on a 10-frame clip, `[(0, 20), (0, 0)]` passes the checks and returns 11 frames |
| Misc.BareFrameRejected | ssfunc/misc.py:40-41 | any list with a bare frame number fails |
| Misc.SingleFrameIsTypeError | ssfunc/misc.py:40-41 | `[f]` with f a frame of the clip fails with TypeError |
| Misc.CheckEveryRange | ssfunc/misc.py:43-54 | checking every element passes exactly when each element passes |
| Misc.CheckedRefusesAnyBadRange | ssfunc/misc.py:43-54 | the corrected output_ranges refuses a bad range wherever it stands |
| Misc.CheckedSelects | ssfunc/misc.py:36-61 | the corrected output_ranges returns exactly the selected frames for tuples and bare frame numbers inside the clip |
| Misc.FirstFields | ssfunc/misc.py:95 | `[v.split(delim)[0] for v in lines]` succeeds exactly when every line splits, with one field per line, in order |
| Misc.ToInts | ssfunc/misc.py:98 | `[int(x.strip()) for x in fields]` succeeds exactly when every stripped field parses, with one int per field, in order; a failure is `int`'s ValueError |
| Misc.ParseFrameFile | ssfunc/misc.py:95-98 | reading a frame-number file gives one frame per line; its only failures are an empty delimiter, a blank line with no delimiter, and `int`'s ValueError |
| Misc.LineFrame | ssfunc/misc.py:95-98 | one line read on its own fails only in those three ways, and with a non-empty delimiter only by `int`'s ValueError |
| Misc.MapOrFail | ssfunc/misc.py:95-98 | a list comprehension succeeds exactly when the expression succeeds on every element, giving one result per element in order; otherwise it raises the error of the first element that fails |
| Misc.FrameFileAsLines | ssfunc/misc.py:95-98 | once every line splits, the two comprehensions together read each line on its own as `int(line.split(delim)[0].strip())` |
| Misc.FrameFileLineByLine | ssfunc/misc.py:95-98 | each line of a frame-number file becomes the int of its stripped first field, one entry per line, in line order |
| Misc.FrameFileOkIff | ssfunc/misc.py:95-98 | a frame-number file parses exactly when each of its lines does |
| Misc.LeadingSpaceLineRejected | ssfunc/misc.py:95-98 | with the default space delimiter, any line starting with a space fails with `int('')` |
| Misc.LeadingSpaceFileRejected | ssfunc/misc.py:95-98 | so any frame-number file holding such a line is refused |
| Misc.SelectScreens | ssfunc/misc.py:90-109 | an existing file path is parsed, a list is used as given, None asks the sampler, and anything else, a non-file string included, is a TypeError |
| Misc.ShotNumber | ssfunc/misc.py:115-117 | the number in a file name is `str(i)` padded to three characters and never truncated |
| Misc.ShotPath | ssfunc/misc.py:115-117 | the file name is exactly `./` + folder + `/` + prefix + the padded number + `.png` |
| Misc.ShotNumberFormat | ssfunc/misc.py:115-117 | the number in a file name has at least three characters, only digits for a non-negative number, and reads back as the number |
| Misc.ShotNumberInjective | ssfunc/misc.py:115-117 | two numbers written alike are the same number |
| Misc.ShotPathsDistinct | ssfunc/misc.py:114-117 | two screenshot numbers give two file names |
| Misc.RemapMatrix | ssfunc/misc.py:119-122 | matrix 2 becomes 1, every other value passes through |
| Misc.ShotsFor | ssfunc/misc.py:114-122 | one screenshot per frame; ShotsForStep and ExportScreens give each one's path, frame and matrix |
| Misc.ShotsForStep | ssfunc/misc.py:114-122 | exporting one more frame appends exactly its screenshot: path `./{folder}/{prefix}{start+k:03d}.png`, the k-th frame and the remapped matrix |
| Misc.ShotsHaveDistinctPaths | ssfunc/misc.py:114-117 | no two screenshots of one run share a file name |
| Misc.ExportScreens | ssfunc/misc.py:114-132 | the loop writes the screenshots of the frames in order and stops at the first frame the clip does not have, with the engine's error; all frames written are in range |
| Misc.ScreenGen | ssfunc/misc.py:87-132 | a failed frame choice writes nothing and reports its error; otherwise the chosen frames are exported in order, every frame written is a frame of the clip, and a failure names the first chosen frame the clip does not have |
| Aa.EvenDown | ssfunc/aa.py:67-68 | `x >> 1 << 1` is even and is x or x - 1 |
| Aa.EvenDownOfEven | ssfunc/aa.py:67-68 | an even number is unchanged, so the step is idempotent |
| Aa.ScaledEven | ssfunc/aa.py:67-68 | a side of the supersampled size is even, at most `round(dim * ssfac)`, and at most 1 below it |
| Aa.AaSize | ssfunc/aa.py:67-68 | `aaw` and `aah` are both even, each at most 1 below the rounded scaled side |
| Aa.DefaultAaSize | ssfunc/aa.py:15 | with the default ssfac 2.0 the supersampled size is exactly twice the clip's |
| Aa.Fallback | ssfunc/aa.py:59-60 | an omitted target defaults to the mask's own size |
| Aa.Overshoots | ssfunc/aa.py:61 | one side of the test is true exactly when the target exceeds the source and is not a multiple of it; dividing by a zero source is a ZeroDivisionError |
| Aa.ResizeMclip | ssfunc/aa.py:56-63 | the result always has the target size, which defaults to the mask's; the pre-upscale happens exactly when a side exceeds the mask's and is not a multiple of it; errors only come from a zero mask size |
| Aa.CeilMultiple | ssfunc/aa.py:62 | `i * ceil(o / i)` is the least multiple of i that is at least o |
| Aa.UpscaleToLeastMultiple | ssfunc/aa.py:61-62 | the pre-upscale goes to the least multiple of the mask's size that reaches the target, in each dimension |
| Aa.DefaultFactorNeedsNoUpscale | ssfunc/aa.py:67-75 | with ssfac 2.0, resizing the mask to `aaw` x `aah` needs no pre-upscale, and resizing it back (line 100) needs none either |

## Left out

- `\b` and `\w` in the episode pattern use the ASCII word characters. Python's `re` also counts Unicode letters and digits as word characters.
- Floating point:
  - `round`, `/` and `math.ceil` are computed on exact reals and integers.
  - IEEE rounding of `value * peak / 255`, of `width * ssfac` and of `ow / iw` for very large sizes is not modelled.
  - `ow / iw != ow // iw` is modelled as `ow % iw != 0`.
- Util.Midval: the median is returned as a real. Python's distinction between an int median and a float one, both of equal value, is not kept.
- Util.Midval: the default argument `val=Union[List, List[Tuple]]` (a typing object, which `median` cannot sort) is left out; the model always takes a list.
- PyStr.ParseInt: does not accept the underscores between digits or the non-ASCII decimal digits that Python's `int` also accepts. It strips all `str.isspace` characters, whereas `int` skips fewer of them (not `\x1c`-`\x1f`). On the already stripped fields of misc.py:98 the two agree.
- Util.Desync:
  - The per-frame `PlaneStatsDiff` values are given as a sequence.
  - `start` is a natural number. A negative `start` would ask the engine for a negative frame.
  - The progress and result `print` calls are the returned value.
- The frame sampler `lazylist` is imported by `ssfunc/misc.py` but defined in no file here. Its result is the parameter `sampled` of Misc.SelectScreens, and lazylist is not part of this model.
- Misc.ScreenGen:
  - `os.path.isfile`, the file's lines and the directory creation are parameters or left out.
  - The `_Matrix` property of frame 0 is given as an int. A clip without it is not modelled.
  - The progress `print` of each exported screenshot is left out.
- Misc.OutputRanges:
  - The `isinstance` check on the clip is left out.
  - A missing `ranges` (the default `None`) is left out.
  - Elements other than 2-tuples and ints are left out.
- Misc.ExportScreens: the PNG encoding and colour conversion are left out. A screenshot is its path, frame and matrix.
- VapourSynth filtering in `ssfunc/aa.py` is left out: the mask, the anti-aliasing and the final resample. Only the sizes are modelled.
- Not part of this model:
  - the other helpers of `ssfunc/util.py` (`get_uv`);
  - `ssfunc/deband.py`, `ssfunc/dehalo.py`, `ssfunc/mask.py` and `ssfunc/dehardsub.py`, apart from the range list of dehardsub.py:95;
  - `ssfunc/fansub.py`: subprocess and file work;
  - `ssfunc/__init__.py`;
  - `setup.py`.

## Findings

| source | as written | input that shows it | evidently intended | confidence | as-written member | corrected member |
|---|---|---|---|---|---|---|
| ssfunc/misc.py:36-54 | the start/end checks run once, after the first loop, on the last element only | a 10-frame clip with `[(0, 20), (0, 0)]`: no ValueError, and 11 frames come back although frame 20 does not exist | every range is checked, as the error messages say | high; not executed | Misc.OnlyLastRangeChecked | Misc.OutputRangesChecked |
| ssfunc/misc.py:40-41 | the first loop accepts a bare frame number r as `(r, r)`, but the second loop unpacks every element as a pair and fails | `[5]` on a clip of 6 or more frames raises TypeError | a bare frame number selects that one frame | high; not executed | Misc.SingleFrameIsTypeError | Misc.OutputRangesChecked |
