# impipes in Dafny

The model covers two parts of `impipes`, a small Python library for image
processing pipelines:

- **The dark-channel-prior dehazer** (`Dehaze` in `impipes/filters.py`):
  - the dark channel: per-pixel channel minimum, then erosion over a 15 × 15 window clipped to the image;
  - the atmospheric light A: top tenth of the dark channel, then the largest luma, then the first pixel of the whole image with that luma;
  - the coarse transmission `1 − 0.95 · dark(I / A)`;
  - the radiance recovery as the code computes it;
  - the sequencing in `Dehaze.run`.
- **The `Filter` state around it**: `image` and `filteredImage`, `setImage`, `run`, and the kernel normalisation of `Kernel.run`.
- **The `Pipeline` bookkeeping**, in both `impipes/pipes.py` and the older `pipes.py`:
  - validated setters;
  - the image and filter lists;
  - the extension filter applied to walked files;
  - the output file name built from '.'-split pieces;
  - `process` as a left-to-right chain of filters;
  - `run` visiting images in order.

Samples are `real`, an exact stand-in for float64. Images are values: rows of BGR pixels.
The two buffer-filling stages keep the source's form: `_get_transmission` and `_recover` are methods that fill an `array3<real>` layer by layer and read the buffer back; `_recover` also clears negatives in place before reading it back. Each is proved equal to a specification function, and the properties are proved about that function.
`Filter` and `Pipeline` are classes whose methods update their fields. The pipeline classes state each method's whole new state through a `State()` snapshot.

Library calls are parameters:

| Source call | Model |
|---|---|
| `cv2.imread` | `read` |
| `cv2.filter2D` | `convolve` |
| the guided-filter refinement | `refine`, assumed to keep the map's shape |
| `os.walk` | a list of `WalkEntry(root, name)` |
| `cv2.imwrite` | a returned log of `Written(path, image)` |
| the progress messages `run` prints | a returned log of `Message(current, number, path)` entries |

Files: `wrappers.dfy` holds `Option` and `Result`.

| File | Contents |
|---|---|
| `images.dfy` | pixels, flattening, buffers |
| `dark_channel.dfy` | the dark channel |
| `atmospheric_light.dfy` | the atmospheric light A |
| `transmission.dfy` | the coarse transmission |
| `recovery.dfy` | the recovery |
| `dehaze.dfy` | `Dehaze.run` |
| `filters.dfy` | `Filter`, `Kernel` |
| `path_names.dfy` | split, join, stem, extension |
| `composition.dfy` | the filter chain |
| `pipes.dfy` | `impipes/pipes.py` |
| `legacy_pipes.dfy` | `pipes.py` |

## Where the code and its description differ

The model follows the code in each of these cases.

- **Recovery formula.** `_recover` computes `(I_c − A_c) / (max(t, 0.1) + A_c)` (impipes/filters.py:301-302).
  - The haze-model inversion is `(I_c − A_c) / max(t, 0.1) + A_c`.
  - `HazeInverseRoundTrip` proves that the inversion recovers J from `I = J·t + A·(1 − t)`.
  - `RecoveryIsNotHazeInverse` shows that the code's formula does not: J = 0.5, t = 0.5, A = 1 comes out as 0.
- **Ties at the ten-percent cut.** These are not broken by index: `np.argsort` is unstable.
  - The selection lemmas hold for every valid argsort (`IsArgsort`).
  - `DehazeOf` takes the sort as a parameter `argsort` that may break ties in any way (`SortsEveryKey`), so its contract and the lemmas about it hold for every tie-break. `StableArgsort` is one such sort.
- **Where the chosen pixel lies.** The code picks the first position in the *whole* image whose luma equals the kept pixels' maximum. That position need not be one of the kept pixels (`ChosenMayLieOutsideKept`).
- **An all-black image.** A is (0, 0, 0) in the code and in the model (`UniformLight`). What goes wrong is the next step: `_get_transmission` divides by the zero components of A (impipes/filters.py:239).
  - The model returns `Failure(ZeroLightComponent)`.
  - In the same way, a zero recovery denominator gives `ZeroDenominator`, and a kernel summing to zero gives `ZeroKernelSum`. The source goes on with IEEE infinities or NaN.
  - `ByteImageNeverZeroDenominator` shows that an 8-bit image never reaches `ZeroDenominator`.
- **A zero-area image.** The code raises a ValueError before it has an A: the three-way unpacking of `cv2.split` on an empty array (impipes/filters.py:174) is the first place that can fail, and `max` of an empty selection (impipes/filters.py:212) would be the next. The model's `EmptyImage` holds exactly in that case.

## Model

| member | source | states |
|---|---|---|
| Images.Flatten | impipes/filters.py:202 | row-major flattening as `reshape(h * w, ...)` does; its length and the position of each entry are stated by `FlattenLength` and `FlattenAt` |
| Images.FlattenLength | impipes/filters.py:201-202 | reshaping an h × w table gives h·w entries |
| Images.FlattenAt | impipes/filters.py:201-202 | entry (i, j) of an h × w table lands at i·w + j of its reshaping |
| Images.FlattenMember | impipes/filters.py:214-218 | every entry of the flattened image is a pixel of the image |
| Images.ReadBuffer | impipes/filters.py:237-241 | the image read from an h × w × 3 buffer has the buffer's shape and its samples at every (i, j, c) |
| DarkChannelStage.ChannelMin | impipes/filters.py:174-175 | the per-pixel minimum is at most each of B, G, R and equals one of them |
| DarkChannelStage.BlockMin | impipes/filters.py:176-180 | the block minimum is at most every entry of the block and is attained inside it |
| DarkChannelStage.ChannelMinGrid | impipes/filters.py:174-175 | `cv2.min(cv2.min(blue, green), red)` has the image's height and width and holds each pixel's min(B, G, R) |
| DarkChannelStage.Erode | impipes/filters.py:176-180 | the erosion with a 15 × 15 rectangle keeps the map's shape; that each entry is the window minimum is stated by `DarkChannel` |
| DarkChannelStage.DarkChannel | impipes/filters.py:174-180 | the dark channel has the image's height and width; at each pixel it is the smallest channel minimum over the offsets −7..+7 clipped to the image, attained at some pixel of that window |
| DarkChannelStage.DarkBelowChannelMin | impipes/filters.py:174-180 | the dark channel at a pixel is at most min(B, G, R) of that same pixel |
| DarkChannelStage.DarkWitness | impipes/filters.py:176-180 | a pixel within offset 7 on both axes supplies the dark value |
| DarkChannelStage.SmallImageUniform | impipes/filters.py:175-180 | with height and width at most 8, the dark channel is the same at all pixels and at most every pixel's channel minimum, i.e. the global channel minimum |
| DarkChannelStage.UniformImageDark | impipes/filters.py:174-180 | an image of one triple has that triple's smallest sample as its dark channel everywhere |
| AtmosphericLightStage.Luma | impipes/filters.py:207-208 | the grey level `0.299 R + 0.587 G + 0.114 B` by which pixels are compared |
| AtmosphericLightStage.KeepCount | impipes/filters.py:205 | the number of sorted positions the slice keeps, `n − int(0.9 n)`; `KeepCountIsCeilingTenth` states its value |
| AtmosphericLightStage.KeepCountIsCeilingTenth | impipes/filters.py:201-205 | `n − int(0.9 n)` is ⌈n / 10⌉, between 1 and n for every non-empty image |
| AtmosphericLightStage.Kept | impipes/filters.py:205 | the slice `sorted_indexes[int(0.9 n)::]`; `KeptAreTop` states which positions it holds |
| AtmosphericLightStage.KeptAreTop | impipes/filters.py:203-205 | for any argsort, the kept slice has ⌈n / 10⌉ distinct positions, and every kept dark value is ≥ every dropped one |
| AtmosphericLightStage.MaxLuma | impipes/filters.py:207-212 | the largest luma among the kept pixels is ≥ each of them and is attained by one |
| AtmosphericLightStage.FirstWithLuma | impipes/filters.py:212-213 | the returned position has the searched luma, and no earlier position has it |
| AtmosphericLightStage.ChosenPosition | impipes/filters.py:201-213 | no position exactly for an empty image; otherwise the chosen luma is the maximum over the kept pixels and the position is the first in the whole image with that luma |
| AtmosphericLightStage.LightOf | impipes/filters.py:214-218 | A is absent exactly for an empty image and is otherwise a pixel of the image |
| AtmosphericLightStage.AtmosphericLight | impipes/filters.py:201-218 | on the flattened image and dark channel, A is absent exactly when the image has zero area |
| AtmosphericLightStage.UniformLight | impipes/filters.py:214-218 | when every pixel holds the same triple, A is that triple |
| AtmosphericLightStage.ChosenMayLieOutsideKept | impipes/filters.py:201-218 | a 1 × 2 image, with its own dark channel as in `Dehaze.run`, whose chosen pixel is the dropped one, not the kept one |
| AtmosphericLightStage.EqualLumaChoosesFirst | impipes/filters.py:207-218 | in a 1 × 2 image of two pixels with the same luma, A is the first pixel for every dark map and every argsort |
| AtmosphericLightStage.StableArgsort | impipes/filters.py:203 | insertion sort by dark value yields a valid argsort: sorted, distinct, every position once |
| AtmosphericLightStage.SortsEveryKey | impipes/filters.py:203 | what may stand for `np.argsort`: a function returning a valid argsort for every key, ties broken in any way |
| AtmosphericLightStage.StableArgsortSortsEveryKey | impipes/filters.py:203 | the insertion sort is one function `np.argsort` may be, so the dehazer's requirement on its sort can be met |
| TransmissionStage.Normalized | impipes/filters.py:238-239 | each channel of each pixel is divided by its own component of A; the shape is kept |
| TransmissionStage.FillLayer | impipes/filters.py:238-239 | one pass fills its layer of the buffer with `I_c / A_c` and leaves the other layers as they were |
| TransmissionStage.Complement | impipes/filters.py:241 | the result has the shape of `d` and holds `1 − 0.95 · d` at every entry |
| TransmissionStage.CoarseTransmission | impipes/filters.py:237-241 | the transmission map as a function of the image and A, of the image's shape; its bounds are stated by the `Transmission…` lemmas |
| TransmissionStage.Transmission | impipes/filters.py:237-241 | the buffer method yields the image's shape and `1 − 0.95 · dark(I / A)` at every pixel, equal to `CoarseTransmission` |
| TransmissionStage.TransmissionAtMostOne | impipes/filters.py:237-241 | with non-negative samples and positive A the transmission is ≤ 1 |
| TransmissionStage.TransmissionAtLeastPixelEstimate | impipes/filters.py:241 | the transmission is at least `1 − 0.95 · min_c(I_c / A_c)` of the pixel itself |
| TransmissionStage.TransmissionBounds | impipes/filters.py:237-241 | when no sample exceeds its component of a positive A, the transmission lies in [0.05, 1] |
| RecoveryStage.Floored | impipes/filters.py:298 | `cv2.max(t, 0.1)`: every entry is ≥ 0.1, is t or 0.1, and is t wherever t ≥ 0.1 |
| RecoveryStage.RecoverSample | impipes/filters.py:300-304 | a recovered sample is never negative |
| RecoveryStage.RecoverPixel | impipes/filters.py:300-304 | every channel of a pixel is recovered with its own component of A |
| RecoveryStage.Quotient | impipes/filters.py:301-302 | the buffer value `(I_c − A_c) / (t + A_c)` before negatives are cleared; `RecoverSampleCharacterised` relates it to the stored sample |
| RecoveryStage.Recovered | impipes/filters.py:300-304 | the recovered image has the input's shape and is recovered pixel by pixel |
| RecoveryStage.RecoverLayer | impipes/filters.py:301-302 | subtract-then-divide leaves `(I_c − A_c) / (t + A_c)` in its layer and the other layers untouched |
| RecoveryStage.ClearNegatives | impipes/filters.py:304 | every negative buffer entry becomes 0, and every other entry is unchanged |
| RecoveryStage.Recover | impipes/filters.py:297-306 | the buffer method returns exactly `Recovered(img, t, A)` |
| RecoveryStage.RecoverSampleCharacterised | impipes/filters.py:297-306 | with A_c ≥ 0 the denominator is ≥ 0.1; the sample is 0 iff I_c ≤ A_c; otherwise it is positive and times `(max(t, 0.1) + A_c)` gives back `I_c − A_c` |
| RecoveryStage.RecoveredPixel | impipes/filters.py:300-304 | every output sample is ≥ 0; for A_c ≥ 0 it is 0 exactly when I_c ≤ A_c |
| RecoveryStage.HazeInverseRoundTrip | impipes/filters.py:297-306 | the haze-model inversion the recovery is meant to perform returns J from `J·t + A·(1 − t)` when t ≥ 0.1 |
| RecoveryStage.RecoveryIsNotHazeInverse | impipes/filters.py:301-302 | the code's formula clears to 0 a sample the inversion maps back to 0.5 |
| DehazeRun.Scale | impipes/filters.py:311-317 | `/ 255` on the way in and `* 255` on the way out: every sample multiplied by the factor, the shape kept |
| DehazeRun.DehazeOf | impipes/filters.py:308-319 | `Dehaze.run` before the cast: on success the image's shape with no negative sample; `EmptyImage` exactly for a zero-area image |
| DehazeRun.Dehaze | impipes/filters.py:308-319 | the sequencing through the buffer methods gives exactly `DehazeOf` |
| DehazeRun.RecoveredScaledNonNegative | impipes/filters.py:316-317 | the recovered image scaled by 255 has no negative sample |
| DehazeRun.LightNonNegative | impipes/filters.py:311-313 | A from a normalised 8-bit image has no negative component |
| DehazeRun.ByteImageNeverZeroDenominator | impipes/filters.py:311-316 | on an 8-bit image the run never fails on a zero recovery denominator |
| Filters.EffectiveKernel | impipes/filters.py:96 | an empty kernel is replaced by `[[1,1,1],[1,20,1],[1,1,1]]`; any other is kept |
| Filters.RowSum | impipes/filters.py:98-99 | `sum(line)` of one kernel line |
| Filters.KernelSum | impipes/filters.py:97-99 | the kernel's total, line by line; `KernelTotal` is the loop proved equal to it |
| Filters.KernelTotal | impipes/filters.py:97-99 | the accumulation loop returns the sum of all entries, row by row |
| Filters.Normalize | impipes/filters.py:100 | every entry is divided by the total; the shape is kept |
| Filters.KernelSumScaled | impipes/filters.py:100 | dividing every entry by the total divides the kernel's sum by it |
| Filters.NormalizedSumsToOne | impipes/filters.py:97-100 | a kernel with non-zero sum normalises to entries summing to 1 |
| Filters.DefaultKernelSum | impipes/filters.py:96-100 | the default kernel sums to 28, so its centre weight becomes 20/28 |
| Filters.Filter.constructor | impipes/filters.py:15-18 | a given path is read, a given array stored, otherwise `image` stays unset; `filteredImage` is None |
| Filters.Filter.SetImage | impipes/filters.py:20-27 | a path stores what `imread` gives, an array is stored, anything else changes nothing; `filteredImage` is kept |
| Filters.Filter.Run | impipes/filters.py:29-30 | the base filter returns `filteredImage` and changes nothing; `Kernel` and `Dehaze` behave as their own `run` below |
| Filters.Filter.RunKernel | impipes/filters.py:92-103 | `Kernel`: an unset image fails; a None image returns the old result; otherwise the result is the image convolved with the normalised effective kernel, stored and returned |
| Filters.Filter.RunDehaze | impipes/filters.py:308-319 | `Dehaze`: an unset image fails; a None image returns the old result; otherwise the `DehazeOf` result is stored and returned, and a failure changes nothing |
| PathNames.Split | impipes/pipes.py:113 | `str.split` gives one more piece than there are separators, none containing it |
| PathNames.SplitJoin | impipes/pipes.py:113 | joining the pieces with the separator restores the string |
| PathNames.SplitAround | impipes/pipes.py:113 | splitting `a + sep + b` splits `a` and `b` separately |
| PathNames.ConcatSplit | impipes/pipes.py:152 | `''.join` of the pieces is the string with its separators deleted |
| PathNames.Extension | impipes/pipes.py:113 | `name.split('.')[-1]`; `DotlessName` and `LastDot` state what it is |
| PathNames.IsImageName | impipes/pipes.py:113-114 | the extension is one of jpg, jpeg, png, tif |
| PathNames.Stem | impipes/pipes.py:152 | the stem contains no dot |
| PathNames.DotlessName | impipes/pipes.py:113 | a name without a dot is its own extension and has an empty stem |
| PathNames.LastDot | impipes/pipes.py:152 | the extension is the text after the last dot; the stem is the text before it with its dots deleted |
| PathNames.Basename | impipes/pipes.py:244 | `os.path.split(path)[1]` contains no slash |
| PathNames.JoinPath | impipes/pipes.py:115 | POSIX `os.path.join(dir, name)`; `JoinPathParts` and `JoinedBasename` state its properties |
| PathNames.JoinPathParts | impipes/pipes.py:115 | `os.path.join(dir, name)` ends with `name`; it is `name` when that is absolute, and otherwise starts with `dir` |
| PathNames.JoinedBasename | impipes/pipes.py:115 | the last path component of `os.path.join(root, name)` is `name` |
| Composition.Fold | impipes/pipes.py:199-204 | the filters applied in list order, the last to what the ones before it produced |
| Composition.ApplyFromFront | impipes/pipes.py:199-204 | the same chain read from the front; `FoldFromFront` proves the two agree |
| Composition.FoldAppend | impipes/pipes.py:199-204 | running two filter lists one after the other is running their concatenation |
| Composition.FoldFromFront | impipes/pipes.py:199-204 | applying the last filter to the rest's output equals applying the first filter and then the rest |
| Composition.FoldSmall | impipes/pipes.py:199-209 | an empty list returns its input; a one-filter list is that filter |
| Composition.ApplySteps | impipes/pipes.py:199-204 | the `temp` loop returns the filters applied in list order |
| Pipes.ImageFiles | impipes/pipes.py:111-115 | the paths the walk adds, in walk order, never more than the walked files; `ImageFilesMember` says exactly which |
| Pipes.ImageFilesAppend | impipes/pipes.py:111-115 | files of consecutive walk segments are added in order |
| Pipes.ImageFilesMember | impipes/pipes.py:111-115 | a path is added iff some walked file with an accepted extension joins to it |
| Pipes.AddedFrom | impipes/pipes.py:111-115 | every added path comes from a walked file with an accepted extension, joined onto its directory |
| Pipes.AddedAt | impipes/pipes.py:111-115 | every walked file with an accepted extension is added, joined onto its directory |
| Pipes.AddedPathsAreImages | impipes/pipes.py:111-115 | every added path's file name has an accepted extension |
| Pipes.OutputName | impipes/pipes.py:152-154 | `prefix + stem + sufix + "." + type`; `OutputNameParts` states its stem and extension |
| Pipes.OutputNameParts | impipes/pipes.py:152-154 | with dot-free settings the saved name's extension is the file type and its stem is prefix + input stem + sufix |
| Pipes.DotlessOutputName | impipes/pipes.py:152-154 | a dotless input name yields `prefix + sufix + "." + type` |
| Pipes.OutputNameIsImageName | impipes/pipes.py:152-154 | a saved name passes the input extension filter |
| Pipes.Load | impipes/pipes.py:191-197 | `process` starts from the image read from a path, or from the image given |
| Pipes.Outputs | impipes/pipes.py:238-248 | one result per path, in order, each the chain applied to the read image |
| Pipes.Writes | impipes/pipes.py:243-245 | one write per path, in order, at the saved path with the processed image |
| Pipes.Progress | impipes/pipes.py:239-240 | one message per image, in order: the k-th reports `k + 1` out of the image count, with that image's path |
| Pipes.Pipeline.constructor | impipes/pipes.py:19-27 | no images, the given filters, empty paths, type `jpg`, sufix `_modified`, prefix empty |
| Pipes.Pipeline.SetSufix | impipes/pipes.py:39-40 | a string replaces the sufix; anything else changes nothing |
| Pipes.Pipeline.SetPrefix | impipes/pipes.py:52-53 | a string replaces the prefix; anything else changes nothing |
| Pipes.Pipeline.SetOutputFileType | impipes/pipes.py:66-69 | exactly jpg, jpeg, png and tif replace the type; anything else changes nothing |
| Pipes.Pipeline.SetOutputPath | impipes/pipes.py:81 | only the output path changes |
| Pipes.Pipeline.AddImage | impipes/pipes.py:97 | the path is appended to `images`; nothing else changes |
| Pipes.Pipeline.AddInputFolder | impipes/pipes.py:110-115 | the input path is recorded and the accepted walked files are appended in walk order |
| Pipes.Pipeline.Add | impipes/pipes.py:127 | the filter is appended to `pipeline`; nothing else changes |
| Pipes.Pipeline.SetPipeline | impipes/pipes.py:139 | only the filter list changes |
| Pipes.Pipeline.SaveModified | impipes/pipes.py:152-157 | the image is written under the output folder with `prefix + stem + sufix + "." + type` |
| Pipes.Pipeline.Process | impipes/pipes.py:191-209 | the loaded image passes through the filters in list order (both readings of the chain) |
| Pipes.Pipeline.Run | impipes/pipes.py:235-250 | the results are returned in image order when `return_list`, otherwise an empty list; when saving, one write per image in order; one progress message per image, counting 1..n, with its path |
| LegacyPipes.LegacyOutputName | pipes.py:62-63 | `stem + "_modified." + type`; `LegacyNameIsDefaultName` relates it to the newer name |
| LegacyPipes.LegacyNameIsDefaultName | pipes.py:62-63 | the older saved name is the newer one with prefix "" and sufix `_modified` |
| LegacyPipes.LegacyOutputNameParts | pipes.py:62-63 | the older saved name keeps the file type as its extension and stem + `_modified` as its stem |
| LegacyPipes.Pipeline.constructor | pipes.py:19-25 | no images, the given filters, empty paths, type `jpg` |
| LegacyPipes.Pipeline.SetOutputFileType | pipes.py:27-32 | exactly jpg, jpeg, png and tif replace the type; anything else changes nothing |
| LegacyPipes.Pipeline.SetOutputPath | pipes.py:34-35 | only the output path changes |
| LegacyPipes.Pipeline.AddImage | pipes.py:43-44 | the path is appended to `images`; nothing else changes |
| LegacyPipes.Pipeline.AddInputFolder | pipes.py:46-52 | the input path is recorded and the accepted walked files are appended in walk order |
| LegacyPipes.Pipeline.Add | pipes.py:54-55 | the filter is appended to `pipeline`; nothing else changes |
| LegacyPipes.Pipeline.SetPipeline | pipes.py:57-58 | only the filter list changes |
| LegacyPipes.Pipeline.SaveModified | pipes.py:60-65 | the image is written under the output folder with `stem + "_modified." + type` |
| LegacyPipes.Pipeline.Process | pipes.py:73-93 | the loaded image passes through the filters in list order |
| LegacyPipes.Pipeline.Run | pipes.py:95-106 | when saving, one write per image in order, exactly as the newer pipeline with default prefix and sufix; one progress message per image, counting 1..n, with its path; nothing is returned otherwise |

## Left out

- `_refine_transmission` (impipes/filters.py:243-275) is the parameter `refine`, assumed to return a map of the shape it is given.
  - It is built from OpenCV box filters and a fixed-point grey conversion.
- `Gamma` is not modelled: it is a fractional-power lookup table, which is floating-point numerics.
- `CLAHE` is not modelled: it is a foreign OpenCV call.
- `Denoise.run` and `Unsharp.run` are not modelled. They raise in the source: a misspelled attribute in one, an attribute that does not exist in the other.
- `cv2.filter2D` is the parameter `convolve`.
- The string-kernel parsing through `np.matrix` is not modelled.
- A ragged kernel, which `np.array` cannot divide, is not modelled.
- The uint8 cast of the dehazed image (impipes/filters.py:317) is left out: its behaviour out of range is platform-dependent. `filteredImage` holds the samples before the cast.
- Float64 rounding is not modelled: samples are exact reals.
- `int(0.9 * n)` is written `(9 * n) / 10`. The two agree for every image size that fits in memory.
- IEEE infinities and NaN are not modelled. The source continues with them after dividing by zero; the model stops with an error value (see the list above).
- `os.mkdir` in `setOutputPath` is not modelled.
- The printing of the progress messages is not modelled: their contents are returned as a log instead. `show` and `display_steps` are not modelled: they are display only.
- The `try`/`except IOError` blocks are not modelled: `imread` and `imwrite` report failure without raising.
- List aliasing is not modelled: each model instance owns its own filter list, and `pipeline` is a value.
  - In the source, every Pipeline built without an argument shares the one default list `pipeline=[]`, so `add` on one appends to all of them (impipes/pipes.py:19, 22, 127; pipes.py:19, 22, 55).
  - In the same way, a list the caller passes to `__init__` or `setPipeline` is kept by reference, and `add` then appends to the caller's list too (impipes/pipes.py:22, 127, 139; pipes.py:22, 55, 58).
- `Basename` and `JoinPath` model POSIX `os.path` only: Windows drive letters and backslash separators are not modelled.
- Pipelines treat a filter as a step from image to image. The interplay of a filter object's own state inside `process` is not modelled: `setImage(None)` keeps the previous image.
- Pipes.Pipeline.Process: `read` is total. An unreadable path, where `imread` gives None, and an argument that is neither a path nor an array, where `temp` is unbound, are not modelled.
- LegacyPipes.Pipeline.Process: the same as `Pipes.Pipeline.Process`.
- Pipes.Pipeline.Run: the same as `Pipes.Pipeline.Process`. Saving the None result of an unreadable path, which raises in `cv2.imwrite`, is not modelled.
- LegacyPipes.Pipeline.Run: the same as `Pipes.Pipeline.Run`.
- The `strength` argument of `Dehaze.__init__` is not modelled: it is never used.
- The `example` functions and the `docs/` scripts are not modelled: they are I/O scripts.
