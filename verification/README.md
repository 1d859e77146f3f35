# webp-convert: a Dafny model of the conversion core

`converter.py` converts every entry of a source directory to WEBP. It skips
entries whose stem already appears in the destination directory. It can
resize images to a requested width or height, and it prints how many bytes
were saved. This project models the integer decisions of that script:

- the work-set builder: which source entries are converted (`WorkSet`);
- the per-image size step that derives one side from the other through the
  global `WIDTH`/`HEIGHT` (`Dimensions.Derive`);
- the sum-of-sides upscale guard of `resize_and_convert_to_webp` (`Dimensions.Fit`);
- the loop that carries `WIDTH`/`HEIGHT` from one image to the next (`Transcode`);
- the summary figures, including the truncated percentage (`Report`);
- the run as a whole, from the source check to the final message (`Converter.Run`).

Directory listings, the operator's answer to the creation prompt and the
WEBP encoder are inputs. A listing is a sequence of entries with a name, a
byte size and, when PIL can open and decode it, a pixel size. The encoder is an opaque
function from an entry and a saved size to the byte count read back from disk.
Stems follow pathlib's rule: the last dot starts the suffix unless it is the
first or the last character of the name.

The model follows the code where the script's own texts suggest otherwise:

- the parser description (converter.py line 12) speaks of JPG and PNG images,
  but there is no extension filter, so any entry reaches `Image.open`;
- the `--height` help text (lines 55-58) promises every image at that
  height, and to leave an image smaller than that height as it is, but a
  height-only run carries the width computed for one image into the next
  (see Findings): with `--height 50`, a 100x100 image followed by a 60x40
  one saves the 40-high image resized to 50x33.

The side-sum guard itself keeps the promise of the `--width`/`--height` help
texts (lines 43-46 and 55-58) whenever the target is derived from the native
aspect ratio: it resizes exactly when the requested side is at most the
native one (`Dimensions.NoUpscaleByWidth`, `Dimensions.NoUpscaleByHeight`),
and equal side sums only occur when the target is the native size
(`Dimensions.TieOnlyAtNative`), so resizing on a tie changes nothing.

It also keeps these behaviours of the code: the missing side is truncated
with `int()`, not rounded; an empty work-set is only rejected when the
destination already existed; and nothing guards the percentage against an
original total of zero.

Files: `wrappers.dfy` (Option, Result, the failure kinds), `arith.dfy`
(truncating division), `paths.dfy` (stems and output names), `dimensions.dfy`,
`workset.dfy`, `transcode.dfy`, `report.dfy`, `converter.dfy`.

## Model

| member | source | states |
|---|---|---|
| Arith.TruncDivBounds | converter.py:129 | `int(a / b)` for a positive divisor is the integer within one of the exact quotient, on the side of zero |
| Paths.Stem | converter.py:83 | a stem is a prefix of the name and is non-empty for a non-empty name |
| Paths.StemOfOutput | converter.py:114 | the stem of a saved `{stem}.webp` (`Paths.OutputName`) is the stem it was named after |
| WorkSet.StemsOf | converter.py:83 | a stem is among the destination stems exactly when some destination name has it, which is all line 86's membership test consults |
| WorkSet.Pending | converter.py:86 | an entry is kept exactly when it is in the listing and its stem is not among the destination stems; there is no extension test |
| WorkSet.PendingAppend | converter.py:86 | filtering keeps source order: the filter of a concatenation is the concatenation of the filters |
| WorkSet.PendingKeepsAllNew | converter.py:86 | when no stem is already converted, the whole listing is kept unchanged |
| WorkSet.Build | converter.py:82-100 | an existing destination yields "nothing new" exactly when every source stem is among its stems, and otherwise a non-empty filtered work-set; a missing destination yields the whole listing when creation is accepted and "declined" otherwise |
| Dimensions.Derive | converter.py:128-131 | a truthy `WIDTH` (`Dimensions.WidthTruthy`: set and nonzero) is kept and the height follows the aspect ratio; otherwise `HEIGHT` is kept and the width follows it; an unset `HEIGHT` there is a TypeError |
| Dimensions.CarrySteersBranch | converter.py:129-131 | after a step the globals hold the dimensions just computed (`Dimensions.Carry`): the next image takes the width branch exactly when that width is nonzero, and `HEIGHT` is always set |
| Dimensions.Fit | converter.py:109-112 | the saved size is the native or the target size, never has a larger side sum than the native size, and is the target whenever the target's side sum is not larger (ties resize) |
| Dimensions.NoUpscaleByWidth | converter.py:43-46 | with the height derived from a requested width, the guard resizes exactly when that width does not exceed the native width |
| Dimensions.NoUpscaleByHeight | converter.py:55-58 | with the width derived from a requested height, the guard resizes exactly when that height does not exceed the native height |
| Dimensions.TieOnlyAtNative | converter.py:109-112 | for an aspect-derived target, equal side sums happen only when the target is the native size, so a tie never changes an image |
| Dimensions.FitWithinNative | converter.py:109-112 | for any aspect-derived target the saved image is no larger than the native one on either axis |
| Transcode.Process | converter.py:126-134 | the loop saves at most one file per entry, all of them on completion and fewer after a failure, and only for entries PIL can open and decode |
| Transcode.AllConverted | converter.py:106-116 | the i-th saved file is named `{stem}.webp` after the i-th entry, its size is the guard's choice for an aspect-derived target, and its byte count is the encoder's size |
| Transcode.FailureCause | converter.py:127-131 | in this model the loop stops only at the first entry PIL cannot open or decode, or at the first image when `WIDTH` is falsy and `HEIGHT` unset |
| Transcode.CompletesIff | converter.py:126-131 | in this model the loop converts the whole work-set exactly when every entry opens and the first image finds a truthy width or a set height |
| Transcode.WidthRequestSizesAll | converter.py:128-129 | a truthy width request sizes every image at that width with the height from its own aspect ratio |
| Transcode.CarriedWidth | converter.py:128-131 | once an image got a nonzero width, every later image is sized from that width, not from the requested height |
| Transcode.HeightUntilWidth | converter.py:130-131 | a height-only run takes the height branch with the requested height until some image gets a nonzero width |
| Transcode.NeverUpscales | converter.py:109-112 | no saved image is larger than its decoded size on either axis |
| Transcode.CarriedWidthCounterexample | converter.py:128-131 | with `--height 50`, a 100x100 image followed by a 100x200 one saves the second at 50x100 |
| Transcode.CarriedWidthResizesSmaller | converter.py:128-131 | with `--height 50`, a 100x100 image followed by a 60x40 one resizes the 40-high image to 50x33 |
| Transcode.IntendedKeepsRequestedHeight | converter.py:130-131 | sized from the original request, every image of a height-only run gets the requested height, or keeps its size when that height exceeds it |
| Arith.TruncDiv | converter.py:129 | `int()` of an exact quotient keeps the sign of the dividend (the bounds are in TruncDivBounds) |
| Transcode.Save | converter.py:106-116 | the saved file is recognised by its entry's stem on a later listing, is saved at the native or the target size, and weighs what the encoder reports |
| Transcode.Convert | converter.py:126-134 | the loop as written never saves an image larger than its decoded size on either axis (meaning of each saved file in AllConverted) |
| Report.Sum | converter.py:123-134 | a sum of byte counts is zero exactly when every count is zero |
| Report.TotalBytes | converter.py:123 | the original total is zero exactly when every work-set entry is empty, the case in which the percentage divides by zero (figures in SummaryFigures) |
| Report.WrittenBytes | converter.py:134 | the new total is zero exactly when every saved file is empty (figures in SummaryFigures) |
| Report.Summarize | converter.py:136-139 | the summary fails with a division by zero exactly when the original total is zero; the saved bytes plus the new total give the original total, with no clamping |
| Report.PercentMeaning | converter.py:138 | the percentage is at most 100, is 100 exactly when the outputs are empty, has the sign of the savings, and is the exact percentage truncated toward zero |
| Converter.Run | converter.py:72-139 | a missing source is the only cause of that exit; exits, crashes and completion each carry their own failure kinds; a completed run reports one conversion per saved file, the sum of their sizes, and savings as original minus new |
| Converter.NothingNewExit | converter.py:89-90 | with an existing destination, the run exits with "nothing new" exactly when every source stem is already there |
| Converter.FreshDestinationTakesAll | converter.py:95-97 | a newly created destination converts the whole listing in order, and an empty source crashes on the percentage |
| Converter.SummaryFigures | converter.py:123-134 | the original total is the size of the work-set, and each saved file matches its work-set entry by name and by encoder size |
| Converter.RerunFindsNothing | converter.py:83-86 | after a completed run, a destination holding its old names plus every saved `{stem}.webp` makes the next run exit with "nothing new" |
| Converter.WidthScenario | converter.py:126-134 | a 4000x3000 image with `--width 1000` is saved once, as `a.webp` at 1000x750 |

## Findings

| source | as written | input that shows it | evidently intended | confidence | as-written member | corrected member |
|---|---|---|---|---|---|---|
| converter.py:128-131 | in a height-only run the width computed for the first image stays in `WIDTH`, so later images are sized from it | `--height 50` over a 100x100 image then a 100x200 image: the second is saved at 50x100 | every image scaled to the requested height (the second at 25x50), as the `--height` help text says | high; not executed | Transcode.CarriedWidthCounterexample | Transcode.IntendedKeepsRequestedHeight |

The corrected loop is `Transcode.Process` with `carry` false: each image starts
from the original request. `Converter.Run` uses the loop as written (`carry` true).
The carried width can also crash a run: with `--height 50`, a 100x100 image
followed by a 1000x10 one gets a 50x0 target, which PIL refuses. That
refusal is outside the model (see Left out).

## Left out

- PIL decoding, `resize` and WEBP encoding are foreign calls. An entry either opens and decodes with a given positive size or does not (a file whose header opens but whose body is corrupt fails in `resize` or `save`, before anything is written for it, which the model treats the same way), and the encoder is an opaque size function.
- What PIL does with a zero or negative target size is not modelled; the model records the size passed to it. PIL raises on such a size, so the program has a third way to crash that the model lacks. A positive request reaches it: `--width 1` on a 4000x3000 image derives a 1x0 target, and with `--height 50` a 100x100 image followed by a 1000x10 one carries the width into a 50x0 target.
- Transcode.FailureCause, Transcode.CompletesIff: state the loop's stopping reasons within this model only, for the reason above; a run the model completes can crash in `resize` on a zero or negative target.
- Filesystem access (`exists`, `iterdir`, `stat`, `mkdir`) is replaced by given flags and listings. Two entries with the same stem both save `{stem}.webp`, and the second overwrites the first; the model records both saves and adds both sizes, as the code does.
- pathlib itself is not part of this model. The stem rule is the one of Python versions up to 3.13; a name ending in a single dot is treated differently by later versions.
- argparse (lines 12-70) is not modelled: the parsed `WIDTH`/`HEIGHT` are given as optional integers. The interactive prompt (line 93) is a boolean answer; the `Y/n` string parsing is left out.
- tqdm progress display and the formatting of the printed message are left out; the summary figures are modelled.
- Arith.TruncDivBounds: models `int(x * (a / b))` in exact rational arithmetic. Python's floats can differ by one, e.g. `49 * (1 / 49)` is just below 1 and truncates to 0 where the exact value gives 1.
- Report.Summarize: same as above for the percentage, which Python computes with one float division.
