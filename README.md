# Image converter to WebP — Dafny model

This project models the `ImageConverter` component of a small browser tool. The user picks JPEG/PNG files. The tool previews them and converts each one to WebP at a chosen width. It then writes the results into a directory the user chooses.

The model has four parts:

- **FileNames** (`file_names.dfy`): the output name derivation `name.replace(/\.(jpg|jpeg|png)$/i, ".webp")`. It is given once as a suffix check (`OutputName`) and once as the regular expression's own leftmost-match search and replace (`RegexReplace`). The two are proved equal for every name.
- **Resize** (`resize.dfy`): the canvas size for one image. The width is the target width. The height is `h0 * W / w0` with its fraction dropped, because a canvas dimension is an unsigned integer.
- **Pipeline** (`pipeline.dfy`): one conversion run. The browser's effects are abstract inputs: the directory picker's result, each image's decode result, the encoder (a blob or null for the file's bytes, the decoded bitmap and the canvas size), and each write's result. `RunPrefix` specifies the run image by image. `RunImages` is the loop, proved equal to it. `Convert` is the whole handler. The lemmas state the run's properties: it stops at the first failure, skipped images are invisible, written files stay written, and the last write to a name wins.
- **Component** (`component.dfy`): the class `ImageConverter` with the component's state (`images`, `width`, `successMessage`) and its handlers. `URL.createObjectURL` is a counter that hands out fresh handles. `URL.revokeObjectURL` appends to a log of revoked handles. A ghost set `live` holds the handles created and not yet revoked. The class invariant `Valid()` says four things: `live` is exactly the set of handles the list holds, the list's handles are distinct, no handle is revoked twice, and every handle ever created is either live or revoked, never both.

The canvas height is truncated, not rounded: `canvas.height = img.height * scale` stores an unsigned integer, so the fraction is dropped. A name without an accepted extension comes back unchanged.

## Model

| member | source | states |
|---|---|---|
| `FileNames.OutputName` | src/components/ImageConverter.jsx:47 | the derived name differs from the input exactly when the input ends with `.jpg`, `.jpeg` or `.png` in any letter case |
| `FileNames.FirstMatch` | src/components/ImageConverter.jsx:47 | the leftmost match of the extension pattern at or after a position starts there or later, is non-empty and ends at the end of the name |
| `FileNames.RegexReplace` | src/components/ImageConverter.jsx:47 | the regex's own replace: with no match the name is unchanged; otherwise everything before the leftmost match is kept and the match, which runs to the end, becomes `.webp` |
| `FileNames.OutputNameIsRegexReplace` | src/components/ImageConverter.jsx:47 | for every name, the suffix-based derivation equals the regex's leftmost-match replacement by `.webp` |
| `FileNames.OutputNameKeepsStem` | src/components/ImageConverter.jsx:47 | for any stem and any accepted extension in any letter case, the output is the stem, unchanged, followed by `.webp` |
| `FileNames.OutputNameIdempotent` | src/components/ImageConverter.jsx:47 | deriving the name of a derived name changes nothing (`.webp` is not an accepted extension) |
| `FileNames.OnlyFinalExtension` | src/components/ImageConverter.jsx:47 | only the final extension is replaced: `a.png.JPG` becomes `a.png.webp` |
| `FileNames.DifferentExtensionsCollide` | src/components/ImageConverter.jsx:47 | names that differ only in their accepted extension (`a.jpg`, `a.PNG`) derive the same output name |
| `Resize.CanvasSize` | src/components/ImageConverter.jsx:36-38 | the canvas width is the target width; the height is the largest integer `h` with `h * w0 <= h0 * W` (so `h0 * W < (h + 1) * w0`) |
| `Resize.CanvasHeightUnique` | src/components/ImageConverter.jsx:36-38 | any integer within those bounds is the canvas height: the bounds determine it |
| `Resize.NativeWidthKeepsHeight` | src/components/ImageConverter.jsx:36-38 | converting to the image's own width keeps its height |
| `Resize.ExactAspectRatio` | src/components/ImageConverter.jsx:36-38 | in exact arithmetic, when `h0 * W` is a multiple of `w0`, the canvas keeps the aspect ratio exactly |
| `Resize.HeightMonotone` | src/components/ImageConverter.jsx:36-38 | a larger target width never gives a lower canvas |
| `Resize.HalfWidthExample` | src/components/ImageConverter.jsx:36-38 | an 800 by 600 image at width 400 is drawn at 400 by 300 |
| `Pipeline.ToBlob` | src/components/ImageConverter.jsx:42-44 | `toBlob` on a canvas with a zero dimension yields null; any other canvas is encoded from the file's bytes, the decoded bitmap and the canvas size |
| `Pipeline.ImageEffect` | src/components/ImageConverter.jsx:34-54 | one iteration: it throws exactly when the decode rejects or the write of a blob fails; it is skipped exactly when the decode succeeds and the blob is null; a write goes to the derived name with the canvas's blob; a failure after the handle exists names that file |
| `Pipeline.Apply` | src/components/ImageConverter.jsx:48-53 | a successful write replaces or creates exactly its file and lists it; an exception stops the run, and one after `getFileHandle(..., {create: true})` leaves an absent file created empty and an existing file as it was; no other file changes and none disappears |
| `Pipeline.FirstFailure` | src/components/ImageConverter.jsx:33-55 | the index it returns is that of the first image that throws, or the list length when none does: no earlier image throws, and the image there does |
| `Pipeline.RunImages` | src/components/ImageConverter.jsx:33-55 | the loop, one image at a time in list order, skipping an image with no blob (always so for a canvas with a zero dimension) and stopping at the first exception, ends in exactly the state `RunPrefix` gives for the whole list |
| `Pipeline.Convert` | src/components/ImageConverter.jsx:29-66 | a cancelled picker writes nothing and ends in the alert; the success notice is given exactly when the picker granted a directory and no image throws; the files written are, in order, those of the images before the first failure |
| `Pipeline.AbortIsFinal` | src/components/ImageConverter.jsx:33-65 | once an image has thrown, the remaining images change neither the directory nor the list of written files |
| `Pipeline.RunStopsAtFirstFailure` | src/components/ImageConverter.jsx:33-65 | after any number of images the run has completed exactly when none of them failed, and its written files are the outputs of the images before the first failure, in list order |
| `Pipeline.WrittenFilesStay` | src/components/ImageConverter.jsx:48-53 | files written earlier remain in the written list and in the directory as later images run, whether or not the run later aborts; no file present before the run is removed |
| `Pipeline.LastWriteWins` | src/components/ImageConverter.jsx:47-53 | if image k wrote `blob` to `name` and no later image writes `name`, the directory holds `blob` under `name` at the end, even if the run aborts later |
| `Pipeline.ZeroHeightCanvasSkipped` | src/components/ImageConverter.jsx:36-46 | an image whose scaled height is below one pixel (`h0 * W < w0`) gets a canvas of height 0, for which `toBlob` yields null, so it is skipped whatever the encoder and the write would do |
| `Pipeline.SameNameLaterOverwrites` | src/components/ImageConverter.jsx:47-53 | for `stem.ext1` followed by `stem.ext2`, both written, both writes are listed and `stem.webp` holds the second image's blob |
| `Pipeline.SkippedImageIsInvisible` | src/components/ImageConverter.jsx:42-55 | deleting from the list an image that decodes but encodes to no blob gives the same run at every step: skipping neither writes nor stops |
| `Component.NewEntries` | src/components/ImageConverter.jsx:10-13 | one entry per selected file, in selection order, each with its own consecutive fresh handle |
| `Component.WithoutIndex` | src/components/ImageConverter.jsx:20 | `filter((_, i) => i !== index)`: one element shorter for a valid position, the same length otherwise, and it keeps only elements of the list |
| `Component.WithoutIndexIsSplice` | src/components/ImageConverter.jsx:20 | filtering out a valid position leaves the earlier entries in place and shifts the later ones down by one |
| `Component.WithoutIndexOutOfRange` | src/components/ImageConverter.jsx:20 | filtering by an index that is not a position leaves the list as it is |
| `Component.ImageConverter.constructor` | src/components/ImageConverter.jsx:4-6 | the component starts with no images, width 800, no notice and no object URL created |
| `Component.ImageConverter.HandleFileChange` | src/components/ImageConverter.jsx:8-15 | the new entries are appended after the old ones, one per file in selection order, with no deduplication; each gets a handle never used before; the invariant is kept and nothing is revoked |
| `Component.ImageConverter.HandleRemoveImage` | src/components/ImageConverter.jsx:17-22 | exactly the preview URL of entry `index` is revoked, once; the list loses that position and later entries shift down; the invariant is kept and nothing else changes |
| `Component.ImageConverter.HandleClearAll` | src/components/ImageConverter.jsx:24-27 | every held preview URL is revoked once, in list order, and the list is empty; on an empty list nothing is revoked, so a second call is a no-op |
| `Component.ImageConverter.SetWidth` | src/components/ImageConverter.jsx:139 | the width takes the input's integer value without validation; the invariant is kept and nothing else changes |
| `Component.ImageConverter.HandleConvert` | src/components/ImageConverter.jsx:29-66 | the outcome is `Convert` over the current files at the current width; the notice text is set only on success and is left as it was after an alert; the list and the preview URLs are not touched |
| `Component.ImageConverter.ClearSuccessMessage` | src/components/ImageConverter.jsx:59-61 | the delayed callback clears the notice and changes nothing else |

## Left out

- Rendering (src/components/ImageConverter.jsx:77-168) and src/App.jsx are presentation only.
- Image decoding, drawing and WebP encoding (`loadImage`, `drawImage`, `toBlob` at quality 0.8) are abstract. A decode yields a bitmap or fails. The encoder is a function from the file's bytes, the decoded bitmap and the canvas size to a blob or null, so images of the same size but different content can encode differently.
- The object URL that `loadImage` creates at line 73 is never revoked in the source. It is outside the preview-URL invariant and is not modelled.
- The File System Access API is a map from file name to bytes. A name that `getFileHandle` rejects is covered by the `HandleFailed` write outcome. Write failures are abstract: either the handle cannot be obtained and nothing changes, or the handle exists (and an absent file is created empty) but writing or closing fails, and an existing file keeps its contents. Names are compared exactly: `a.webp` and `A.webp` are two files in the model, while on case-insensitive file systems (the defaults on Windows and macOS) they are one file and the later write replaces the earlier.
- Resize.CanvasSize: computes the exact floor of `h0 * W / w0`. The source multiplies `h0` by the floating-point quotient `W / w0`, and that product can land just below a whole number for ordinary inputs. In double precision 3024 × (1032 / 4032) is 773.9999999999999, so a 4032 by 3024 photo at width 1032 is drawn 1032 by 773 where the model gives 774. Floating point is not modelled.
- Resize.ExactAspectRatio: holds of exact arithmetic only. Because of the floating-point product above, the source can draw one pixel lower even when `h0 * W` is a multiple of `w0` (the 4032 by 3024 photo at width 1032).
- Component.ImageConverter.SetWidth: takes an integer. `Number(e.target.value)` can also be a fraction such as 400.5: the canvas width then becomes 400 while the height is scaled by 400.5 / w0 (a 1 by 10 image is drawn 400 by 4005). Fractional widths and canvas dimensions of 2^31 or more, which a canvas does not accept, are not modelled.
- Component.ImageConverter.HandleConvert: requires `width > 0`. The source does not re-check the width before a run. An empty field gives width 0: every canvas is 0 wide, `toBlob` yields null, every image is skipped, nothing is written and the success notice is still shown. A negative width is converted to an unsigned integer out of the canvas's accepted range, so the canvas keeps its default 300 by 150 size, the image is stretched to it, and a 300 by 150 file is written. Neither case is modelled.
- Pipeline.Bitmap: a decoded image has positive width. A zero-width bitmap would make the scale infinite, which is not modelled.
- Component.ImageConverter.HandleRemoveImage: requires a valid index. In the source, an out-of-range index throws inside the state updater.
- Promises, `await`, React's batched updates and stale closures are not modelled. For example, `handleClearAll` reads the list from the render that created it. Steps run in sequence, and two overlapping runs are not modelled.
- The 5-second timer is not modelled. Its callback is the separate transition `ClearSuccessMessage`, and overlapping timers from repeated runs are not modelled.
- `console.error` and `alert` in the catch block are the single `Alert` notice. Their text is not modelled.
- Names are Dafny strings of Unicode scalar values. The source works on UTF-16 code units. The pattern and the replacement are ASCII, so the derived name is the same either way.
