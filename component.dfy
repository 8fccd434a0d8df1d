/**
 * The `ImageConverter` component's state and handlers
 * (ImageConverter.jsx lines 3-66): the list of pending images with their
 * preview object URLs, the target width, and the success notice.
 *
 * `URL.createObjectURL` is modelled as a counter that hands out a fresh
 * handle per call, and `URL.revokeObjectURL` as an append to a log of
 * revoked handles. The ghost set `live` is the set of handles created and
 * not yet revoked; the class invariant ties it to the handles the list
 * holds and says that every handle ever created is revoked at most once.
 */
module Component {
  import opened Wrappers
  import opened Resize
  import opened Pipeline

  /** An object URL, identified by the order in which it was created. */
  type Handle = nat

  /** One entry of the list: `{ file, previewUrl }`. */
  datatype PendingImage = PendingImage(file: SourceFile, previewUrl: Handle)

  /** The text the component shows after a run that throws nothing. */
  const SuccessText: string := "Imágenes convertidas y guardadas correctamente ✅"

  /** The preview handles of a list, in list order. */
  function Previews(s: seq<PendingImage>): (hs: seq<Handle>)
    ensures |hs| == |s|
    ensures forall k :: 0 <= k < |s| ==> hs[k] == s[k].previewUrl
  {
    if s == [] then [] else [s[0].previewUrl] + Previews(s[1..])
  }

  /** The files of a list, in list order. */
  function Files(s: seq<PendingImage>): (fs: seq<SourceFile>)
    ensures |fs| == |s|
    ensures forall k :: 0 <= k < |s| ==> fs[k] == s[k].file
  {
    if s == [] then [] else [s[0].file] + Files(s[1..])
  }

  ghost function SetOf<T>(s: seq<T>): set<T> {
    set x | x in s
  }

  ghost predicate Distinct<T>(s: seq<T>) {
    forall j, k :: 0 <= j < k < |s| ==> s[j] != s[k]
  }

  /** The entries `handleFileChange` builds: one per file, in order, with consecutive fresh handles from `base`. */
  function NewEntries(files: seq<SourceFile>, base: nat): (s: seq<PendingImage>)
    ensures |s| == |files|
    ensures forall k :: 0 <= k < |files| ==> s[k] == PendingImage(files[k], base + k)
  {
    if files == [] then [] else [PendingImage(files[0], base)] + NewEntries(files[1..], base + 1)
  }

  /** `prev.filter((_, i) => i !== index)`: keeps every position except `index`. */
  function WithoutIndex<T>(s: seq<T>, index: int): (r: seq<T>)
    ensures |r| == if 0 <= index < |s| then |s| - 1 else |s|
    ensures forall x :: x in r ==> x in s
  {
    if s == [] then []
    else (if index == 0 then [] else [s[0]]) + WithoutIndex(s[1..], index - 1)
  }

  /** Filtering out a valid position removes exactly that element: earlier ones stay, later ones shift down by one. */
  lemma {:induction false} WithoutIndexIsSplice<T>(s: seq<T>, index: nat)
    requires index < |s|
    ensures WithoutIndex(s, index) == s[..index] + s[index + 1..]
  {
    if index == 0 {
      WithoutIndexOutOfRange(s[1..], -1);
    } else {
      WithoutIndexIsSplice(s[1..], index - 1);
      assert s[1..][..index - 1] == s[1..index];
      assert s[1..][index..] == s[index + 1..];
      assert s[..index] == [s[0]] + s[1..index];
    }
  }

  /** Filtering by an index that is not a position leaves the list unchanged. */
  lemma {:induction false} WithoutIndexOutOfRange<T>(s: seq<T>, index: int)
    requires index < 0 || index >= |s|
    ensures WithoutIndex(s, index) == s
  {
    if s != [] {
      WithoutIndexOutOfRange(s[1..], index - 1);
      assert s == [s[0]] + s[1..];
    }
  }

  /** Removing one element of a list of distinct handles keeps them distinct and drops exactly that handle from the set. */
  lemma SpliceDistinct<T>(s: seq<T>, i: nat)
    requires i < |s| && Distinct(s)
    ensures Distinct(s[..i] + s[i + 1..])
    ensures SetOf(s[..i] + s[i + 1..]) == SetOf(s) - {s[i]}
  {
    var t := s[..i] + s[i + 1..];
    forall j | 0 <= j < |t| ensures t[j] == s[if j < i then j else j + 1] { }
    forall x | x in SetOf(s) - {s[i]} ensures x in SetOf(t) {
      var j :| 0 <= j < |s| && s[j] == x;
      assert t[if j < i then j else j - 1] == x;
    }
  }

  /** Two lists of distinct handles with no handle in common concatenate into one. */
  lemma ConcatDistinct<T>(a: seq<T>, b: seq<T>)
    requires Distinct(a) && Distinct(b)
    requires forall x :: x in a ==> x !in b
    ensures Distinct(a + b) && SetOf(a + b) == SetOf(a) + SetOf(b)
  {
    var c := a + b;
    forall j, k | 0 <= j < k < |c| ensures c[j] != c[k] {
      if j < |a| && k >= |a| {
        assert c[j] in a && c[k] == b[k - |a|];
      }
    }
  }

  lemma PreviewsConcat(a: seq<PendingImage>, b: seq<PendingImage>)
    ensures Previews(a + b) == Previews(a) + Previews(b)
  {
    assert |Previews(a + b)| == |Previews(a) + Previews(b)|;
    forall k | 0 <= k < |a + b| ensures Previews(a + b)[k] == (Previews(a) + Previews(b))[k] {
      if k >= |a| {
        assert (a + b)[k] == b[k - |a|];
      }
    }
  }

  lemma PreviewsPrefix(s: seq<PendingImage>, i: nat)
    requires i <= |s|
    ensures Previews(s[..i]) == Previews(s)[..i]
  {
  }

  class ImageConverter {
    /** `images`: the pending images in selection order. */
    var images: seq<PendingImage>
    /** `width`: the target width, as the number input last set it. */
    var width: int
    /** `successMessage`: the notice text, empty when none is shown. */
    var successMessage: string
    /** The handle the next `URL.createObjectURL` call returns. */
    var nextUrl: nat
    /** Every `URL.revokeObjectURL` call made, in order. */
    var revoked: seq<Handle>
    /** Handles created and not yet revoked. */
    ghost var live: set<Handle>

    ghost predicate Valid()
      reads this
    {
      && live == SetOf(Previews(images))
      && Distinct(Previews(images))
      && Distinct(revoked)
      && (forall h :: h in live ==> h < nextUrl)
      && (forall h :: h in revoked ==> h < nextUrl && h !in live)
      && (forall h: Handle :: h < nextUrl ==> h in live || h in revoked)
    }

    /** The initial state: no images, width 800, no notice, no URL created yet. */
    constructor ()
      ensures Valid()
      ensures images == [] && width == DefaultWidth && successMessage == ""
      ensures nextUrl == 0 && revoked == [] && live == {}
    {
      images := [];
      width := DefaultWidth;
      successMessage := "";
      nextUrl := 0;
      revoked := [];
      live := {};
    }

    /**
     * `handleFileChange`: one entry per selected file, appended in selection
     * order, each with a newly created preview URL; no deduplication.
     */
    method HandleFileChange(files: seq<SourceFile>)
      requires Valid()
      modifies this
      ensures Valid()
      ensures images == old(images) + NewEntries(files, old(nextUrl))
      ensures nextUrl == old(nextUrl) + |files|
      ensures forall k :: |old(images)| <= k < |images| ==> images[k].previewUrl !in old(live) && images[k].previewUrl !in old(revoked)
      ensures live == old(live) + SetOf(Previews(NewEntries(files, old(nextUrl))))
      ensures revoked == old(revoked) && width == old(width) && successMessage == old(successMessage)
    {
      var added: seq<PendingImage> := [];
      var i := 0;
      while i < |files|
        invariant i <= |files|
        invariant added == NewEntries(files[..i], old(nextUrl))
        invariant nextUrl == old(nextUrl) + i
        invariant images == old(images) && revoked == old(revoked) && live == old(live)
        invariant width == old(width) && successMessage == old(successMessage)
      {
        var url := nextUrl;  // URL.createObjectURL(file)
        nextUrl := nextUrl + 1;
        added := added + [PendingImage(files[i], url)];
        i := i + 1;
      }
      assert files[..i] == files;
      var newUrls := Previews(added);
      assert forall k :: 0 <= k < |newUrls| ==> newUrls[k] == old(nextUrl) + k;
      assert Distinct(newUrls);
      assert forall x :: x in Previews(images) ==> x in live;
      ConcatDistinct(Previews(images), newUrls);
      forall h: Handle | old(nextUrl) <= h < nextUrl ensures h in SetOf(newUrls) {
        assert newUrls[h - old(nextUrl)] == h;
      }
      PreviewsConcat(images, added);
      images := images + added;
      live := live + SetOf(newUrls);
    }

    /**
     * `handleRemoveImage`: revokes the preview URL of entry `index` and
     * removes that entry; later entries shift down by one.
     */
    method HandleRemoveImage(index: nat)
      requires Valid()
      requires index < |images|
      modifies this
      ensures Valid()
      ensures images == old(images)[..index] + old(images)[index + 1..]
      ensures revoked == old(revoked) + [old(images)[index].previewUrl]
      ensures live == old(live) - {old(images)[index].previewUrl}
      ensures nextUrl == old(nextUrl) && width == old(width) && successMessage == old(successMessage)
    {
      var url := images[index].previewUrl;
      revoked := revoked + [url];  // URL.revokeObjectURL
      live := live - {url};
      WithoutIndexIsSplice(images, index);
      PreviewsConcat(images[..index], images[index + 1..]);
      PreviewsPrefix(images, index);
      assert Previews(images[index + 1..]) == Previews(images)[index + 1..];
      SpliceDistinct(Previews(images), index);
      images := WithoutIndex(images, index);
      assert url in old(live) && url !in old(revoked);
      ConcatDistinct(old(revoked), [url]);
      assert live == SetOf(Previews(images));
      forall h | h in revoked ensures h < nextUrl && h !in live {
        if h != url {
          assert h in old(revoked);
        }
      }
      forall h: Handle | h < nextUrl ensures h in live || h in revoked {
        if h != url && h !in old(revoked) {
          assert h in old(live);
        }
      }
    }

    /** `handleClearAll`: revokes every preview URL held, one call per entry in list order, and empties the list. */
    method HandleClearAll()
      requires Valid()
      modifies this
      ensures Valid()
      ensures images == [] && live == {}
      ensures revoked == old(revoked) + Previews(old(images))
      ensures nextUrl == old(nextUrl) && width == old(width) && successMessage == old(successMessage)
    {
      var i := 0;
      while i < |images|
        invariant i <= |images|
        invariant revoked == old(revoked) + Previews(images)[..i]
        invariant images == old(images) && nextUrl == old(nextUrl) && live == old(live)
        invariant width == old(width) && successMessage == old(successMessage)
      {
        revoked := revoked + [images[i].previewUrl];  // URL.revokeObjectURL
        i := i + 1;
      }
      assert Previews(images)[..i] == Previews(images);
      assert forall x :: x in Previews(images) ==> x in live;
      ConcatDistinct(old(revoked), Previews(images));
      images := [];
      live := {};
    }

    /** The width input's change handler: `setWidth(Number(value))`, with no validation. */
    method SetWidth(value: int)
      requires Valid()
      modifies this
      ensures Valid()
      ensures width == value
      ensures images == old(images) && successMessage == old(successMessage)
      ensures nextUrl == old(nextUrl) && revoked == old(revoked) && live == old(live)
    {
      width := value;
    }

    /**
     * `handleConvert`: the run of `Convert` over the current images at the
     * current width; the notice text is set only when the run went through
     * every image, and is left as it was otherwise.
     */
    method HandleConvert(picker: Picker, envs: seq<ImageEnv>, encoder: Encoder) returns (outcome: Outcome)
      requires Valid()
      requires |envs| == |images|
      requires width > 0
      modifies this
      ensures Valid()
      ensures images == old(images) && width == old(width)
      ensures outcome == Convert(picker, Files(images), envs, width, encoder)
      ensures successMessage == if outcome.notice == Success then SuccessText else old(successMessage)
      ensures nextUrl == old(nextUrl) && revoked == old(revoked) && live == old(live)
    {
      match picker {
        case Cancelled =>
          outcome := Outcome(None, [], Alert);
        case Granted(dir0) =>
          var dir, written, completed := RunImages(Files(images), envs, width, encoder, dir0);
          if completed {
            successMessage := SuccessText;
          }
          outcome := Outcome(Some(dir), written, if completed then Success else Alert);
      }
    }

    /** The timer callback five seconds after a successful run: clears the notice. */
    method ClearSuccessMessage()
      requires Valid()
      modifies this
      ensures Valid()
      ensures successMessage == ""
      ensures images == old(images) && width == old(width)
      ensures nextUrl == old(nextUrl) && revoked == old(revoked) && live == old(live)
    {
      successMessage := "";
    }
  }
}
