/**
 * One conversion run (`handleConvert`, ImageConverter.jsx lines 29-66).
 *
 * The browser's effects are abstract inputs: the directory picker either
 * grants a directory (given by its current files) or throws; each image's
 * decode either yields a bitmap or rejects; the WebP encoder, a function
 * of the file's bytes, the decoded bitmap and the canvas size, yields a
 * blob or null; each write
 * either succeeds, fails before the file exists, or fails after
 * `getFileHandle(name, {create: true})` has created it.
 */
module Pipeline {
  import opened Wrappers
  import opened FileNames
  import opened Resize

  type Bytes = seq<bv8>

  /** The chosen directory: file name to contents. */
  type Directory = map<string, Bytes>

  /** A selected file: its name and its bytes. */
  datatype SourceFile = SourceFile(name: string, content: Bytes)

  /** What `loadImage` yields: the decoded image's pixel dimensions (its pixels come from the file's bytes). */
  datatype Bitmap = Bitmap(width: Pos, height: nat)

  /**
   * The WebP encoder on a canvas with pixels. The canvas holds the image
   * decoded from the file's bytes, drawn at the canvas size, so the encoder
   * sees the bytes, the decoded bitmap and the size; it yields a blob, or
   * null when the surface cannot be encoded.
   */
  type Encoder = (Bytes, Bitmap, Dims) -> Option<Bytes>

  /**
   * `canvas.toBlob(..., "image/webp", 0.8)`: a canvas with a zero
   * dimension has no pixels and always yields null; any other canvas is
   * handed to the encoder.
   */
  function ToBlob(encoder: Encoder, content: Bytes, bmp: Bitmap, size: Dims): (blob: Option<Bytes>)
    ensures size.width == 0 || size.height == 0 ==> blob == None
  {
    if size.width == 0 || size.height == 0 then None else encoder(content, bmp, size)
  }

  /** How the write of one output file goes. */
  datatype WriteOutcome =
    | WriteOk        // getFileHandle, createWritable, write and close all succeed
    | HandleFailed   // getFileHandle throws: nothing is created
    | StreamFailed   // the file handle exists (possibly newly created, empty) but createWritable, write or close throws

  /** What the browser does with one image of the run. */
  datatype ImageEnv = ImageEnv(decoded: Option<Bitmap>, write: WriteOutcome)

  /** `window.showDirectoryPicker()`: a directory, or an exception (cancelled or denied). */
  datatype Picker = Granted(dir: Directory) | Cancelled

  /** What processing one image does. */
  datatype Effect =
    | Wrote(name: string, blob: Bytes)   // the file `name` now holds `blob`
    | Skipped                            // the encoder gave no blob: nothing happens
    | Threw(created: Option<string>)     // an exception; `created` names a file the failed write left behind
  {
    predicate WritesTo(file: string) {
      Wrote? && name == file
    }
  }

  /** The state of a run after some images: the directory, the names written in order, and whether no exception was thrown. */
  datatype Run = Run(dir: Directory, written: seq<string>, completed: bool)

  /** How a run ends: the success notice, or the catch block's alert. */
  datatype Notice = Success | Alert

  /** Result of `handleConvert`: the directory if one was chosen, the files written in order, and the notice. */
  datatype Outcome = Outcome(dir: Option<Directory>, written: seq<string>, notice: Notice)

  /** The blob for a decoded image: its canvas at the computed size, encoded. */
  function BlobOf(file: SourceFile, bmp: Bitmap, target: Pos, encoder: Encoder): Option<Bytes> {
    ToBlob(encoder, file.content, bmp, CanvasSize(target, bmp.width, bmp.height))
  }

  /**
   * Processing one image: decode, draw at the computed size, encode, write.
   * It throws exactly when the decode rejects or a blob's write fails; it
   * writes only the derived name, only on a successful write; it is
   * skipped exactly when the decode succeeds and the blob is null.
   */
  function ImageEffect(file: SourceFile, env: ImageEnv, target: Pos, encoder: Encoder): (e: Effect)
    ensures e.Threw? <==> env.decoded.None? || (BlobOf(file, env.decoded.value, target, encoder).Some? && env.write != WriteOk)
    ensures e.Skipped? <==> env.decoded.Some? && BlobOf(file, env.decoded.value, target, encoder).None?
    ensures e.Wrote? ==> e.name == OutputName(file.name) && env.write == WriteOk
                         && BlobOf(file, env.decoded.value, target, encoder) == Some(e.blob)
    ensures e.Threw? && e.created.Some? <==>
              env.decoded.Some? && BlobOf(file, env.decoded.value, target, encoder).Some? && env.write == StreamFailed
    ensures e.Threw? && e.created.Some? ==> e.created.value == OutputName(file.name)
  {
    match env.decoded
    case None => Threw(None)
    case Some(bmp) =>
      match BlobOf(file, bmp, target, encoder)
      case None => Skipped
      case Some(blob) =>
        var name := OutputName(file.name);
        match env.write
        case WriteOk => Wrote(name, blob)
        case HandleFailed => Threw(None)
        case StreamFailed => Threw(Some(name))
  }

  /**
   * Applying one image's effect to a run that has not thrown. A write
   * (`create: true`) replaces or creates exactly its file and lists it; an
   * exception stops the run, and a failure after the handle was obtained
   * leaves an absent file created empty and an existing file as it was.
   * No other file changes and no file disappears.
   */
  function Apply(r: Run, e: Effect): (r': Run)
    ensures e.Wrote? ==> r'.completed && r'.written == r.written + [e.name] && e.name in r'.dir && r'.dir[e.name] == e.blob
    ensures e.Threw? ==> !r'.completed && r'.written == r.written
    ensures r.dir.Keys <= r'.dir.Keys
    ensures forall n :: n in r.dir && !e.WritesTo(n) ==> r'.dir[n] == r.dir[n]
    ensures forall n :: n in r'.dir && n !in r.dir ==> e.WritesTo(n) || e == Threw(Some(n))
    ensures e.Threw? && e.created.Some? && e.created.value !in r.dir ==> e.created.value in r'.dir && r'.dir[e.created.value] == []
  {
    match e
    case Wrote(name, blob) => Run(r.dir[name := blob], r.written + [name], true)
    case Skipped => r
    case Threw(None) => Run(r.dir, r.written, false)
    case Threw(Some(name)) => Run(if name in r.dir then r.dir else r.dir[name := []], r.written, false)
  }

  /** The run after the first `k` images, in list order; once an exception is thrown the later images are not touched. */
  function RunPrefix(files: seq<SourceFile>, envs: seq<ImageEnv>, target: Pos, encoder: Encoder, dir0: Directory, k: nat): Run
    requires |envs| == |files| && k <= |files|
  {
    if k == 0 then Run(dir0, [], true)
    else
      var r := RunPrefix(files, envs, target, encoder, dir0, k - 1);
      if !r.completed then r else Apply(r, ImageEffect(files[k - 1], envs[k - 1], target, encoder))
  }

  /** Whether image `m` throws when it is processed. */
  predicate Fails(files: seq<SourceFile>, envs: seq<ImageEnv>, target: Pos, encoder: Encoder, m: nat)
    requires |envs| == |files| && m < |files|
  {
    ImageEffect(files[m], envs[m], target, encoder).Threw?
  }

  /** Index of the first image among the first `k` that throws, or `k` when none does. */
  function FirstFailure(files: seq<SourceFile>, envs: seq<ImageEnv>, target: Pos, encoder: Encoder, k: nat): (f: nat)
    requires |envs| == |files| && k <= |files|
    ensures f <= k
    ensures forall m :: 0 <= m < f ==> !Fails(files, envs, target, encoder, m)
    ensures f < k ==> Fails(files, envs, target, encoder, f)
  {
    if k == 0 then 0
    else
      var f := FirstFailure(files, envs, target, encoder, k - 1);
      if f < k - 1 then f
      else if Fails(files, envs, target, encoder, k - 1) then k - 1
      else k
  }

  /** Names of the files written by the first `k` images, ignoring exceptions: an independent account of the outputs. */
  function Outputs(files: seq<SourceFile>, envs: seq<ImageEnv>, target: Pos, encoder: Encoder, k: nat): seq<string>
    requires |envs| == |files| && k <= |files|
  {
    if k == 0 then []
    else
      var e := ImageEffect(files[k - 1], envs[k - 1], target, encoder);
      Outputs(files, envs, target, encoder, k - 1) + (if e.Wrote? then [e.name] else [])
  }

  // ---------------------------------------------------------------------
  // The loop of handleConvert.
  // ---------------------------------------------------------------------

  /**
   * The images are processed one at a time in list order; an image whose
   * encoder gives no blob is skipped, and the first exception ends the loop.
   */
  method RunImages(files: seq<SourceFile>, envs: seq<ImageEnv>, target: Pos, encoder: Encoder, dir0: Directory)
    returns (dir: Directory, written: seq<string>, completed: bool)
    requires |envs| == |files|
    ensures Run(dir, written, completed) == RunPrefix(files, envs, target, encoder, dir0, |files|)
  {
    dir, written, completed := dir0, [], true;
    var i := 0;
    while i < |files| && completed
      invariant i <= |files|
      invariant Run(dir, written, completed) == RunPrefix(files, envs, target, encoder, dir0, i)
    {
      var file, env := files[i], envs[i];
      match env.decoded {
        case None =>
          completed := false;  // loadImage rejects
        case Some(bmp) =>
          var size := CanvasSize(target, bmp.width, bmp.height);
          var blob := ToBlob(encoder, file.content, bmp, size);
          if blob.Some? {
            var name := OutputName(file.name);
            match env.write {
              case WriteOk =>
                dir := dir[name := blob.value];
                written := written + [name];
              case HandleFailed =>
                completed := false;
              case StreamFailed =>
                if name !in dir {
                  dir := dir[name := []];
                }
                completed := false;
            }
          }
      }
      i := i + 1;
    }
    if !completed {
      AbortIsFinal(files, envs, target, encoder, dir0, i, |files|);
    }
  }

  /** `handleConvert` as a whole: the picker is asked once, before any image; the notice is set only when every image went through. */
  function Convert(picker: Picker, files: seq<SourceFile>, envs: seq<ImageEnv>, target: Pos, encoder: Encoder): (o: Outcome)
    requires |envs| == |files|
    ensures picker.Cancelled? ==> o == Outcome(None, [], Alert)
    ensures o.notice == Success <==> picker.Granted? && FirstFailure(files, envs, target, encoder, |files|) == |files|
    ensures o.written == if picker.Granted? then Outputs(files, envs, target, encoder, FirstFailure(files, envs, target, encoder, |files|)) else []
  {
    match picker
    case Cancelled => Outcome(None, [], Alert)
    case Granted(dir0) =>
      var r := RunPrefix(files, envs, target, encoder, dir0, |files|);
      RunStopsAtFirstFailure(files, envs, target, encoder, dir0, |files|);
      Outcome(Some(r.dir), r.written, if r.completed then Success else Alert)
  }

  // ---------------------------------------------------------------------
  // Properties of a run.
  // ---------------------------------------------------------------------

  /** Once an image has thrown, the remaining images change nothing. */
  lemma {:induction false} AbortIsFinal(files: seq<SourceFile>, envs: seq<ImageEnv>, target: Pos, encoder: Encoder, dir0: Directory, i: nat, j: nat)
    requires |envs| == |files| && i <= j <= |files|
    requires !RunPrefix(files, envs, target, encoder, dir0, i).completed
    ensures RunPrefix(files, envs, target, encoder, dir0, j) == RunPrefix(files, envs, target, encoder, dir0, i)
    decreases j
  {
    if i < j {
      AbortIsFinal(files, envs, target, encoder, dir0, i, j - 1);
    }
  }

  /**
   * A run stops at its first failing image: it completes exactly when no
   * image fails, and the files it wrote are, in list order, those written by
   * the images before the first failure.
   */
  lemma {:induction false} RunStopsAtFirstFailure(files: seq<SourceFile>, envs: seq<ImageEnv>, target: Pos, encoder: Encoder, dir0: Directory, k: nat)
    requires |envs| == |files| && k <= |files|
    ensures var r := RunPrefix(files, envs, target, encoder, dir0, k);
            var f := FirstFailure(files, envs, target, encoder, k);
            (r.completed <==> f == k) && r.written == Outputs(files, envs, target, encoder, f)
  {
    if k > 0 {
      RunStopsAtFirstFailure(files, envs, target, encoder, dir0, k - 1);
    }
  }

  /** Files written stay in the list and in the directory as later images run, and no file present before is removed. */
  lemma {:induction false} WrittenFilesStay(files: seq<SourceFile>, envs: seq<ImageEnv>, target: Pos, encoder: Encoder, dir0: Directory, i: nat, j: nat)
    requires |envs| == |files| && i <= j <= |files|
    ensures var ri := RunPrefix(files, envs, target, encoder, dir0, i);
            var rj := RunPrefix(files, envs, target, encoder, dir0, j);
            ri.written <= rj.written && ri.dir.Keys <= rj.dir.Keys
    ensures var rj := RunPrefix(files, envs, target, encoder, dir0, j);
            dir0.Keys <= rj.dir.Keys && forall name :: name in rj.written ==> name in rj.dir
    decreases j
  {
    if i < j {
      WrittenFilesStay(files, envs, target, encoder, dir0, i, j - 1);
    } else if j > 0 {
      WrittenFilesStay(files, envs, target, encoder, dir0, j - 1, j - 1);
    }
  }

  /** Image `k` is processed, its file `name` holds `blob`, and no image from `k` to `n` writes `name` again: the directory still holds `blob` there. */
  lemma {:induction false} LastWriteWins(files: seq<SourceFile>, envs: seq<ImageEnv>, target: Pos, encoder: Encoder, dir0: Directory,
                                         k: nat, n: nat, name: string, blob: Bytes)
    requires |envs| == |files| && k < n <= |files|
    requires RunPrefix(files, envs, target, encoder, dir0, k).completed
    requires ImageEffect(files[k], envs[k], target, encoder) == Wrote(name, blob)
    requires forall m :: k < m < n ==> !ImageEffect(files[m], envs[m], target, encoder).WritesTo(name)
    ensures var r := RunPrefix(files, envs, target, encoder, dir0, n);
            name in r.dir && r.dir[name] == blob
    decreases n
  {
    if n > k + 1 {
      LastWriteWins(files, envs, target, encoder, dir0, k, n - 1, name, blob);
    }
  }

  /** Two images whose names differ only in their accepted extension, both written: the later blob is what the directory holds. */
  lemma SameNameLaterOverwrites(stem: string, ext1: string, ext2: string, content1: Bytes, content2: Bytes,
                                bmp1: Bitmap, bmp2: Bitmap, target: Pos, encoder: Encoder, dir0: Directory)
    requires AcceptedExt(ext1) && AcceptedExt(ext2)
    requires ToBlob(encoder, content1, bmp1, CanvasSize(target, bmp1.width, bmp1.height)).Some?
    requires ToBlob(encoder, content2, bmp2, CanvasSize(target, bmp2.width, bmp2.height)).Some?
    ensures var files := [SourceFile(stem + ext1, content1), SourceFile(stem + ext2, content2)];
            var envs := [ImageEnv(Some(bmp1), WriteOk), ImageEnv(Some(bmp2), WriteOk)];
            var r := RunPrefix(files, envs, target, encoder, dir0, 2);
            r.completed && r.written == [stem + TargetExt, stem + TargetExt]
            && stem + TargetExt in r.dir && r.dir[stem + TargetExt] == ToBlob(encoder, content2, bmp2, CanvasSize(target, bmp2.width, bmp2.height)).value
  {
    var files := [SourceFile(stem + ext1, content1), SourceFile(stem + ext2, content2)];
    var envs := [ImageEnv(Some(bmp1), WriteOk), ImageEnv(Some(bmp2), WriteOk)];
    OutputNameKeepsStem(stem, ext1);
    OutputNameKeepsStem(stem, ext2);
    var b1 := ToBlob(encoder, content1, bmp1, CanvasSize(target, bmp1.width, bmp1.height)).value;
    var b2 := ToBlob(encoder, content2, bmp2, CanvasSize(target, bmp2.width, bmp2.height)).value;
    assert ImageEffect(files[0], envs[0], target, encoder) == Wrote(stem + TargetExt, b1);
    assert ImageEffect(files[1], envs[1], target, encoder) == Wrote(stem + TargetExt, b2);
    assert RunPrefix(files, envs, target, encoder, dir0, 1) == Run(dir0[stem + TargetExt := b1], [stem + TargetExt], true);
  }

  /**
   * An image so wide that its scaled height is below one pixel gets a canvas
   * of height 0; `toBlob` then yields null, so the image is skipped whatever
   * the encoder and the write would do.
   */
  lemma ZeroHeightCanvasSkipped(file: SourceFile, bmp: Bitmap, write: WriteOutcome, target: Pos, encoder: Encoder)
    requires bmp.height * target < bmp.width
    ensures CanvasSize(target, bmp.width, bmp.height).height == 0
    ensures ImageEffect(file, ImageEnv(Some(bmp), write), target, encoder) == Skipped
  {
    var h := CanvasSize(target, bmp.width, bmp.height).height;
    LessFromProducts(h, 1, bmp.width);
  }

  /** Removing an image that is skipped (decoded, but encoded to no blob) from the list changes nothing about the run. */
  lemma {:induction false} SkippedImageIsInvisible(files: seq<SourceFile>, envs: seq<ImageEnv>, target: Pos, encoder: Encoder, dir0: Directory, k: nat, n: nat)
    requires |envs| == |files| && k < |files| && n <= |files|
    requires ImageEffect(files[k], envs[k], target, encoder) == Skipped
    ensures var files' := files[..k] + files[k + 1..];
            var envs' := envs[..k] + envs[k + 1..];
            RunPrefix(files, envs, target, encoder, dir0, n)
              == RunPrefix(files', envs', target, encoder, dir0, if n <= k then n else n - 1)
    decreases n
  {
    var files' := files[..k] + files[k + 1..];
    var envs' := envs[..k] + envs[k + 1..];
    if n == 0 {
    } else if n <= k {
      SkippedImageIsInvisible(files, envs, target, encoder, dir0, k, n - 1);
      assert files'[n - 1] == files[n - 1] && envs'[n - 1] == envs[n - 1];
    } else if n == k + 1 {
      SkippedImageIsInvisible(files, envs, target, encoder, dir0, k, n - 1);
    } else {
      SkippedImageIsInvisible(files, envs, target, encoder, dir0, k, n - 1);
      assert files'[n - 2] == files[n - 1] && envs'[n - 2] == envs[n - 1];
    }
  }
}
