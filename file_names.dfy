/**
 * Output file name derivation: the source file's name with a trailing
 * `.jpg`, `.jpeg` or `.png` (in any letter case) replaced by `.webp`,
 * as `name.replace(/\.(jpg|jpeg|png)$/i, ".webp")` does.
 */
module FileNames {
  import opened Wrappers

  const TargetExt: string := ".webp"

  /**
   * Case canonicalisation of a regular expression with the `i` flag and
   * without the `u` flag. The pattern is all ASCII and no non-ASCII
   * character canonicalises to an ASCII one, so folding the ASCII letters
   * decides every comparison the pattern makes.
   */
  function Fold(c: char): char {
    if 'A' <= c <= 'Z' then (c as int + 32) as char else c
  }

  predicate SameIgnoringCase(a: string, b: string) {
    |a| == |b| && forall k :: 0 <= k < |a| ==> Fold(a[k]) == Fold(b[k])
  }

  predicate EndsWithIgnoringCase(s: string, suffix: string) {
    |suffix| <= |s| && SameIgnoringCase(s[|s| - |suffix|..], suffix)
  }

  /** The name ends with one of the accepted input extensions. */
  predicate HasAcceptedExt(name: string) {
    EndsWithIgnoringCase(name, ".jpg") || EndsWithIgnoringCase(name, ".jpeg") || EndsWithIgnoringCase(name, ".png")
  }

  /** Length of the accepted extension that ends `name`, or 0 when there is none. */
  function ExtLength(name: string): nat {
    if EndsWithIgnoringCase(name, ".jpg") || EndsWithIgnoringCase(name, ".png") then 4
    else if EndsWithIgnoringCase(name, ".jpeg") then 5
    else 0
  }

  /**
   * The derived output name (ImageConverter.jsx line 47). It differs from
   * the input exactly when the input ends with an accepted extension.
   */
  function OutputName(name: string): (r: string)
    ensures r != name <==> HasAcceptedExt(name)
  {
    var n := ExtLength(name);
    if n == 0 then name
    else
      var r := name[..|name| - n] + TargetExt;
      assert r != name by {
        if |r| == |name| {
          assert n == 5 && EndsWithIgnoringCase(name, ".jpeg");
          assert Fold(name[|name| - 4]) == Fold(".jpeg"[1]);
          assert r[|name| - 4] == 'w';
        }
      }
      r
  }

  // ---------------------------------------------------------------------
  // Reference definition: the regular expression's own search and replace.
  // ---------------------------------------------------------------------

  /** The alternative `lit` (with its leading dot) matches at position `p` and reaches `$`. */
  predicate AltAt(s: string, p: nat, lit: string)
    requires p <= |s|
  {
    p + |lit| == |s| && SameIgnoringCase(s[p..], lit)
  }

  /** Length of the match of `\.(jpg|jpeg|png)$` starting at `p`, trying the alternatives in order; 0 for no match. */
  function MatchLengthAt(s: string, p: nat): nat
    requires p <= |s|
  {
    if AltAt(s, p, ".jpg") then 4
    else if AltAt(s, p, ".jpeg") then 5
    else if AltAt(s, p, ".png") then 4
    else 0
  }

  /** The leftmost match at or after `p`, as (start, length): the search that a non-global `replace` performs. */
  function FirstMatch(s: string, p: nat): (m: Option<(nat, nat)>)
    requires p <= |s|
    ensures m.Some? ==> p <= m.value.0 && m.value.1 > 0 && m.value.0 + m.value.1 == |s|
    decreases |s| - p
  {
    if MatchLengthAt(s, p) > 0 then Some((p, MatchLengthAt(s, p)))
    else if p == |s| then None
    else FirstMatch(s, p + 1)
  }

  /** `s.replace(/\.(jpg|jpeg|png)$/i, ".webp")`, written as the regex engine does it. */
  function RegexReplace(s: string): (r: string)
    ensures FirstMatch(s, 0).None? ==> r == s
    ensures FirstMatch(s, 0).Some? ==> var p := FirstMatch(s, 0).value.0;
              |r| == p + |TargetExt| && r[..p] == s[..p] && r[p..] == TargetExt
  {
    match FirstMatch(s, 0)
    case None => s
    case Some((p, n)) => s[..p] + TargetExt + s[p + n..]
  }

  lemma MatchLengthAtIsExtLength(s: string, p: nat)
    requires p <= |s|
    ensures MatchLengthAt(s, p) > 0 <==> ExtLength(s) > 0 && p == |s| - ExtLength(s)
    ensures MatchLengthAt(s, p) > 0 ==> MatchLengthAt(s, p) == ExtLength(s)
  {
    if AltAt(s, p, ".jpeg") {
      JpegExcludesShortExts(s);
    }
    if EndsWithIgnoringCase(s, ".jpeg") && p == |s| - 5 {
      assert AltAt(s, p, ".jpeg");
    }
  }

  lemma {:induction false} FirstMatchFrom(s: string, p: nat)
    requires p <= |s|
    ensures FirstMatch(s, p) ==
      if ExtLength(s) > 0 && p <= |s| - ExtLength(s) then Some((|s| - ExtLength(s), ExtLength(s))) else None
    decreases |s| - p
  {
    MatchLengthAtIsExtLength(s, p);
    if MatchLengthAt(s, p) == 0 && p < |s| {
      FirstMatchFrom(s, p + 1);
    }
  }

  /** The suffix-based definition agrees with the regular expression's leftmost-match replacement on every name. */
  lemma OutputNameIsRegexReplace(name: string)
    ensures OutputName(name) == RegexReplace(name)
  {
    FirstMatchFrom(name, 0);
    var n := ExtLength(name);
    if n > 0 {
      assert name[|name| - n + n..] == [];
    }
  }

  // ---------------------------------------------------------------------
  // Properties of the derived name.
  // ---------------------------------------------------------------------

  /** An extension equal to `.jpg`, `.jpeg` or `.png` up to letter case. */
  predicate AcceptedExt(ext: string) {
    SameIgnoringCase(ext, ".jpg") || SameIgnoringCase(ext, ".jpeg") || SameIgnoringCase(ext, ".png")
  }

  /** A name ending in `.jpeg` (any case) ends in neither `.jpg` nor `.png`: its fourth-last character is a `j`, not a dot. */
  lemma JpegExcludesShortExts(s: string)
    requires EndsWithIgnoringCase(s, ".jpeg")
    ensures !EndsWithIgnoringCase(s, ".jpg") && !EndsWithIgnoringCase(s, ".png")
  {
    assert Fold(s[|s| - 4]) == Fold(".jpeg"[1]);
  }

  lemma EndsWithAppended(stem: string, ext: string, lit: string)
    requires SameIgnoringCase(ext, lit)
    ensures EndsWithIgnoringCase(stem + ext, lit)
  {
    var s := stem + ext;
    assert s[|s| - |ext|..] == ext;
  }

  /** Replacing an accepted extension keeps the stem character for character. */
  lemma OutputNameKeepsStem(stem: string, ext: string)
    requires AcceptedExt(ext)
    ensures OutputName(stem + ext) == stem + TargetExt
  {
    var s := stem + ext;
    if SameIgnoringCase(ext, ".jpeg") {
      EndsWithAppended(stem, ext, ".jpeg");
      JpegExcludesShortExts(s);
      assert ExtLength(s) == 5;
    } else if SameIgnoringCase(ext, ".jpg") {
      EndsWithAppended(stem, ext, ".jpg");
      assert ExtLength(s) == 4;
    } else {
      EndsWithAppended(stem, ext, ".png");
      assert ExtLength(s) == 4;
    }
    assert s[..|s| - |ext|] == stem;
  }

  /** Deriving twice gives the same name as deriving once: `.webp` is not an accepted extension. */
  lemma OutputNameIdempotent(name: string)
    ensures OutputName(OutputName(name)) == OutputName(name)
  {
    var r := OutputName(name);
    if HasAcceptedExt(name) {
      assert r[|r| - 5..] == TargetExt;
      assert r[|r| - 4] == 'w' && r[|r| - 5] == '.';
      assert !EndsWithIgnoringCase(r, ".jpg") by {
        assert Fold(r[|r| - 3]) == Fold(".jpg"[1]) ==> false;
      }
      assert !EndsWithIgnoringCase(r, ".png") by {
        assert Fold(r[|r| - 3]) == Fold(".png"[1]) ==> false;
      }
      assert !EndsWithIgnoringCase(r, ".jpeg") by {
        assert Fold(r[|r| - 4]) == Fold(".jpeg"[1]) ==> false;
      }
    }
  }

  /** Only the final extension is replaced. */
  lemma OnlyFinalExtension()
    ensures OutputName("a.png.JPG") == "a.png.webp"
  {
    OutputNameKeepsStem("a.png", ".JPG");
    assert "a.png" + ".JPG" == "a.png.JPG";
  }

  /** Two inputs that differ only in their accepted extension derive the same output name. */
  lemma DifferentExtensionsCollide(stem: string, ext1: string, ext2: string)
    requires AcceptedExt(ext1) && AcceptedExt(ext2)
    ensures OutputName(stem + ext1) == OutputName(stem + ext2)
  {
    OutputNameKeepsStem(stem, ext1);
    OutputNameKeepsStem(stem, ext2);
  }
}
