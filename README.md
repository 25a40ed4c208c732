# combine-videos: a Dafny model of the parameter selection

`combine.videos.python.py` is a file-manager script. It takes the selected
video files, probes each one, picks a single target size and frame rate, lets
the user override the size, and then has `ffmpeg` transcode and concatenate
everything. This project models the part of the script that computes values:

- **Stream selection** (`get_streams`). From a file's list of stream
  descriptors it picks the earliest `video` stream and the earliest `audio`
  stream. A slot with no match is `{}`.
- **Orientation** (`get_rotated_width_height`). Width and height are swapped
  when the `tags.rotate` value, after `int()` and Python's `% 180`, is not zero.
- **Optimal size** (`get_optimal_size`). It picks the pair nearest to the mean
  of all pairs, counting duplicates. On a tie the first such pair wins.
- **Optimal frame rate** (`get_optimal_fps`). It is the maximum over exact
  rationals.
- **Top-level glue**:
  - cleaning the newline-separated file selection;
  - unpacking the `|`-separated form record;
  - choosing the output name;
  - applying the width and height overrides to the two-element size list.

Modules:

- `Wrappers` (wrappers.dfy): `Option`.
- `PyText` (pytext.dfy): the Python built-ins the script relies on:
  - `str.strip()`, which removes the characters of `str.isspace()`
    (`StrSpaces`);
  - `str.split(c)` and `c.join(...)`;
  - `int(str)` in base 10: an optional sign and ASCII digits with single
    underscores between them, at most 4300 digits, with surrounding
    whitespace skipped. `int()` skips a smaller set than `strip()`
    (`IntSpaces`): the separators U+001C..U+001F count as whitespace for
    `strip()` but make `int()` raise;
  - `str(int)`, the partner of `int`; it is the function `DecimalString`,
    and its meaning is stated by the `ParseIntRoundTrip` row.
- `Streams` (streams.dfy): JSON values, stream descriptors, `get_streams`,
  rotation. Two helpers stand for Python built-ins and have no row of their
  own:
  - `CodecType` is `s.get('codec_type', False)`, covered by the
    `FirstOfType` row;
  - `PyMod` is Python's floor remainder `%`, covered by the
    `GetRotatedWidthHeight` and `RotatedByInt` rows.
- `Optimal` (optimal.dfy): the size and frame-rate optimisers.
- `Driver` (driver.dfy): the top-level glue.

Modelling decisions:

- `get_streams` keeps its loop. It is the method `GetStreams`, proved against
  the function `FirstOfType`.
- The override step keeps its in-place update. It is the method
  `ApplyOverrides`, which works on an `array<int>` of length 2.
- The remaining operations are expressions in the script, so they are
  functions here.

Three behaviours of the code that the model keeps:

- **Which stream wins.** The earliest stream of each type wins, because the
  loop walks the list in reverse and overwrites the slot at every match. The
  function's docstring says the same.
- **Unreadable rotate tags.** Only `KeyError` is caught. A string `rotate` tag
  that `int()` rejects raises `ValueError`; a `null`, list or dictionary tag
  raises `TypeError`, as does a `tags` value that is not a dictionary; neither
  exception leaves the pair unchanged. The model
  states this as the precondition `RotationReadable`.
- **Failed probes.** The record is appended before the `try`, so a file whose
  probe fails keeps a record without `width`, and line 97 then raises
  `KeyError`. No file is silently excluded from the statistics.

Distances are modelled exactly. For `n` pairs with sums `Σw` and `Σh`, the
integer key is `(n·w − Σw)² + (n·h − Σh)²`. This is `n²` times the exact squared
Euclidean distance to the mean (`ScaledDistanceIsExact`), so it orders the
pairs the same way as the square root the script takes. Frame rates are Dafny
`real` values, which are exact rationals, as `Fraction` is.

## Model

| member | source | states |
|---|---|---|
| Streams.GetStreams | combine.videos.python.py:21-29 | the loop over the reversed list leaves, in each slot, the earliest descriptor whose `codec_type` is `video` (resp. `audio`), or `{}` |
| Streams.FirstOfType | combine.videos.python.py:23-29 | the slot is `{}` exactly when no descriptor has that `codec_type`; otherwise it is an element of the input and has that `codec_type`, so a descriptor with a missing or different `codec_type` is never returned |
| Streams.FirstOfTypeIsEarliest | combine.videos.python.py:22-28 | the descriptor chosen is the one at the smallest index with the requested type |
| Streams.RotateTag | combine.videos.python.py:48 | `vid_info["tags"]["rotate"]` gives no value exactly when `tags` or `rotate` is missing (the `KeyError` path), and otherwise the value stored under `rotate` |
| Streams.PyIntOf | combine.videos.python.py:49 | `int(angle)` raises exactly on `null`, a list, a dictionary or a string `int` rejects; a number gives itself and a boolean gives 0 or 1 |
| Streams.GetRotatedWidthHeight | combine.videos.python.py:46-57 | returns `(height, width)` when `tags.rotate` is present and `int(rotate)` is not a multiple of 180, `(width, height)` otherwise; always a permutation of the input pair |
| Streams.UntaggedKeepsPair | combine.videos.python.py:47-57 | a descriptor without `tags`, or whose `tags` lack `rotate`, leaves the pair unchanged (the `KeyError` path) |
| Streams.RotationInvolutive | combine.videos.python.py:46-57 | adjusting twice with the same descriptor gives back the original pair |
| Streams.RotatedByInt | combine.videos.python.py:48-53 | for a numeric tag, the swap happens exactly when the floor remainder mod 180 is non-zero |
| Streams.RotationExamples | combine.videos.python.py:48-53 | 90, 270 and −90 swap 1920×1080; 0, 180, 360 and −180 do not |
| Streams.RotationStringExample | combine.videos.python.py:48-53 | the string tag `"90"` that the prober emits is readable and swaps like the number 90 |
| Optimal.TotalIsSum | combine.videos.python.py:35 | the `reduce` left fold is the pair (sum of all widths, sum of all heights) |
| Optimal.MeanTimesCount | combine.videos.python.py:36 | `ave` times the number of entries is the sum of the widths, and of the heights: the mean counts every entry, duplicates included |
| Optimal.Distances | combine.videos.python.py:38-41 | one key per entry, never negative; `ScaledDistanceIsExact` ties each key to the exact distance |
| Optimal.OptimalIndex | combine.videos.python.py:42 | `dists.index(min(dists))` is a position whose key no other key undercuts, and every earlier key is strictly larger |
| Optimal.GetOptimalSize | combine.videos.python.py:31-44 | the result is an element of the input, and a singleton input returns its only element |
| Optimal.OptimalSizeIsFirstNearest | combine.videos.python.py:35-44 | the result is `sizes[i]` where no entry is strictly closer to the mean `(Σw/n, Σh/n)` (duplicates counted) and every entry before `i` is strictly farther |
| Optimal.ScaledDistanceIsExact | combine.videos.python.py:36-39 | the integer key equals `n²` times the exact squared Euclidean distance to the mean |
| Optimal.KeyOrderGivesDistanceOrder | combine.videos.python.py:38-42 | for the same sums, a smaller-or-equal key means a smaller-or-equal distance to the mean |
| Optimal.KeyStrictGivesDistanceStrict | combine.videos.python.py:38-42 | for the same sums, a strictly smaller key means a strictly smaller distance, so ties fall where the script's ties fall |
| Optimal.MinOf | combine.videos.python.py:42 | `min(dists)` is an element no larger than any element |
| Optimal.IndexOf | combine.videos.python.py:42 | `dists.index(x)` is the first position holding `x` |
| Optimal.OptimalSizeExample | combine.videos.python.py:31-44 | `[(100,100),(200,200),(100,100)]` gives `(100,100)` |
| Optimal.OptimalSizeDuplicatesCount | combine.videos.python.py:35-44 | `[(1920,1080),(1280,720),(1920,1080)]` gives `(1920,1080)`: the duplicate pulls the mean towards itself |
| Optimal.GetOptimalFps | combine.videos.python.py:59-60 | the result is an element of the input and no element exceeds it |
| Optimal.OptimalFpsOrderIndependent | combine.videos.python.py:59-60 | any reordering of the rates gives the same result |
| Optimal.OptimalFpsExamples | combine.videos.python.py:59-60 | 30000/1001 and 60000/2002 are the same rate, and `[30, 24, 60]` gives 60 |
| PyText.Strip | combine.videos.python.py:69 | `Strip(StrSpaces, s)`, which is `s.strip()`, has no whitespace at either end and is no longer than `s`; the same holds for the whitespace `int()` skips |
| PyText.StripDecomposes | combine.videos.python.py:69 | the input is whitespace, then the result, then whitespace |
| PyText.StripUnique | combine.videos.python.py:69 | padding a stripped string with whitespace on both sides and stripping gives it back |
| PyText.StripIdempotent | combine.videos.python.py:69 | stripping twice equals stripping once |
| PyText.StripIgnoresPadding | combine.videos.python.py:69 | surrounding whitespace does not change the result of `strip()` |
| PyText.SplitOn | combine.videos.python.py:69 | `split(c)` returns at least one piece, and no piece contains `c` |
| PyText.JoinSplit | combine.videos.python.py:69 | joining the pieces of a split with the separator gives back the string |
| PyText.SplitJoin | combine.videos.python.py:113 | splitting a join of separator-free parts gives back the parts |
| PyText.SplitOnCount | combine.videos.python.py:113 | `split(c)` returns one piece more than the string has occurrences of `c` |
| PyText.ParseInt | combine.videos.python.py:118 | `int(w)` returns a value exactly when `w`, without the whitespace `int()` skips, is an optionally signed run of ASCII digits with single underscores between digits and at most 4300 digits; a negative value comes only from a leading `-` |
| PyText.ParseIntRoundTrip | combine.videos.python.py:118 | `int(str(n)) == n` for every integer `n` that `str()` can write (at most 4300 digits), negatives included |
| PyText.ParseIntIgnoresPadding | combine.videos.python.py:118 | `int()` ignores the whitespace it skips around its argument, such as the form's trailing newline |
| PyText.ParseIntRejectsBlank | combine.videos.python.py:117-120 | an empty override, or one made only of whitespace `int()` skips, raises `ValueError` (no value) |
| PyText.ParseIntKeepsSeparators | combine.videos.python.py:117-120 | `"\x1c5".strip()` is `"5"`, yet `int("\x1c5")` raises, so the default is kept |
| PyText.ParseIntRejectsLongLiteral | combine.videos.python.py:117-120 | a literal of more than 4300 digits makes `int()` raise `ValueError` |
| Driver.StripNonBlank | combine.videos.python.py:69 | the comprehension keeps at most one entry per piece, and every entry is non-empty and already stripped |
| Driver.StripNonBlankOne | combine.videos.python.py:69 | one piece yields its stripped text, or nothing when that text is empty |
| Driver.StripNonBlankConcat | combine.videos.python.py:69 | the comprehension goes piece by piece: cleaning `a + b` gives the cleaned `a` followed by the cleaned `b` |
| Driver.StripNonBlankBlank | combine.videos.python.py:69 | whitespace-only pieces yield no entries |
| Driver.StripNonBlankAvoids | combine.videos.python.py:69 | a character absent from every piece is absent from every entry |
| Driver.CleanFileList | combine.videos.python.py:69 | every selected path is non-blank, has no surrounding whitespace and contains no newline |
| Driver.CleanFileListOfLines | combine.videos.python.py:69 | for newline-free lines joined by newlines, the file list is the cleaned lines |
| Driver.CleanFileListRoundTrip | combine.videos.python.py:69 | paths that are non-blank, stripped and newline-free, joined by newlines, come back unchanged and in order; an empty selection gives no files |
| Driver.CleanFileListPadded | combine.videos.python.py:69 | paths padded with whitespace, with blank lines before, between and after them, come back without the padding, all of them and in order |
| Driver.FormFields | combine.videos.python.py:113 | the unpacking succeeds exactly when the record holds at least two `|`, and then no field contains `|` |
| Driver.FormFieldsRoundTrip | combine.videos.python.py:113 | a record of three or more `|`-free fields unpacks to its first three fields, and the rest are discarded |
| Driver.FormFieldsTooShort | combine.videos.python.py:113 | a record with fewer than three fields cannot be unpacked (the `ValueError`) |
| Driver.OutputName | combine.videos.python.py:114-116 | the output name is the stripped field when that is not empty, and the fallback exactly when it is |
| Driver.OutputNamePadded | combine.videos.python.py:114-116 | a name typed with whitespace around it is used without that whitespace; a blank field gives the fallback |
| Driver.ApplyOverrides | combine.videos.python.py:117-124 | slot 0 becomes `int(w)` when `w` parses and keeps its value otherwise; slot 1 behaves the same with `h`; neither string touches the other slot |
| Driver.OverrideAcceptsNumber | combine.videos.python.py:117-120 | `"640"`, and `" 640\n"`, replace a default of 800 |
| Driver.OverrideKeepsDefault | combine.videos.python.py:117-124 | `"abc"`, `""` and `"  "` keep a default of 800 |

## Left out

- External tools: every subprocess call (`ffprobe`, `zenity`, `ffmpeg`, `mkdir`, `mv`, `dirname`, `rm`, the notification) and the temporary directory at lines 77-171. These are I/O and process control.
- The probe loop at lines 74-99, which builds the records and lists: not modelled. It depends on the prober's output. For the same reason, the `KeyError` raised when a file has no video stream (line 89) or a failed probe leaves a record without `width` (line 97) is not modelled.
- JSON decoding of the probe output (line 82), a library call. `Streams.Json` stands for its result.
- `Fraction(video['avg_frame_rate'])` (line 92): parsing a rate string is not modelled. Rates enter `GetOptimalFps` as exact `real` values.
- `natsort.natsorted`, and its `sorted` fallback, at lines 14-18 and 70: a foreign library. `CleanFileList` gives the list before sorting.
- Environment variables (lines 64-67): the selection string is a parameter.
- Printing, and the `round(float(...))` used only in the prompt text (lines 72, 104, 143).
- The prompt's `set(sizes)` listing (line 109): its order is nondeterministic and it is display only.
- The ffmpeg filter and command strings (lines 137-147): opaque tool syntax.
- Driver.OutputName: the random name `unnamed_encoded_<n>.mkv` (line 116) is the parameter `fallback`, because it comes from a random number generator.
- Streams.GetRotatedWidthHeight: a string `rotate` tag that `int()` rejects (a `ValueError`), a `null`, list or dictionary tag (a `TypeError`), and a `tags` value that is not a dictionary (a `TypeError`) are a precondition rather than modelled exceptions. The script does not catch either exception.
- Streams.PyIntOf: JSON floating-point numbers are not in `Streams.Json`. `int()` of a float, which truncates, is therefore not modelled.
- PyText.ParseInt: Python's `int()` also accepts non-ASCII Unicode decimal digits. The model accepts ASCII digits only.
- PyText.ParseInt: the digit limit is the default of Python 3.11 and later. Earlier versions have no limit, and a limit changed with `sys.set_int_max_str_digits` is not modelled.
- Optimal.GetOptimalSize: the script compares floating-point square roots. The model compares exact distances, so a tie or a near-tie that rounding creates or breaks is not modelled.
- Optimal.GetOptimalFps: `max` over `Fraction` values is modelled as `max` over exact reals. Equal fractions are identical values in both.
