/** Deciding which files the organiser copies, and which extension it reports
    for the files it does not copy. */
module Classify {
  import opened Text
  import opened Paths

  /** The twelve picture and video suffixes, in the order the organiser lists them. */
  const SupportedExtensions: seq<string> :=
    [".jpg", ".jpeg", ".png", ".gif", ".bmp", ".mp4", ".avi", ".mov", ".wmv", ".cr2", ".webp", ".heic"]

  /** `s.endswith(suffixes)` for a tuple of suffixes: tried one after another. */
  predicate EndsWithAny(s: string, suffixes: seq<string>)
  {
    suffixes != [] && (EndsWith(s, suffixes[0]) || EndsWithAny(s, suffixes[1..]))
  }

  /** Trying the suffixes one after another finds one exactly when one of them fits. */
  lemma {:induction false} EndsWithAnyIff(s: string, suffixes: seq<string>)
    ensures EndsWithAny(s, suffixes) <==> exists e :: e in suffixes && EndsWith(s, e)
  {
    if suffixes != [] {
      EndsWithAnyIff(s, suffixes[1..]);
      forall e | e in suffixes && e != suffixes[0] ensures e in suffixes[1..] {
      }
    }
  }

  /** A supported file: its lower-cased name ends with one of the supported suffixes. */
  predicate IsSupported(name: string)
  {
    EndsWithAny(Lower(name), SupportedExtensions)
  }

  lemma IsSupportedIff(name: string)
    ensures IsSupported(name) <==> exists e :: e in SupportedExtensions && EndsWith(Lower(name), e)
  {
    EndsWithAnyIff(Lower(name), SupportedExtensions);
  }

  /** The extension reported for an unsupported file: the `splitext`
      extension of its name, lower-cased (empty when there is none). */
  function ReportedExtension(name: string): string
  {
    Lower(SplitExt(name).1)
  }

  /** The reported extension is empty exactly when the name has no extension;
      otherwise it starts with a dot, and it is always a suffix of the
      lower-cased name. */
  lemma ReportedExtensionShape(name: string)
    ensures var e := ReportedExtension(name);
      && (e == [] || e[0] == '.')
      && EndsWith(Lower(name), e)
      && (e != [] <==> HasExtension(name))
  {
    var ext := SplitExt(name).1;
    SplitExtSpec(name);
    LowerSuffix(name, |name| - |ext|);
    assert name[|name| - |ext|..] == ext;
  }

  /** Every supported suffix is a dot followed by characters that are
      neither dots nor separators. */
  ghost predicate ExtensionShaped(e: string)
  {
    |e| >= 2 && e[0] == '.' && forall k :: 0 < k < |e| ==> e[k] != '.' && e[k] != '/'
  }

  lemma SupportedExtensionsShaped()
    ensures forall e :: e in SupportedExtensions ==> ExtensionShaped(e)
  {
  }

  /** Classification ignores case: a name and its lower-cased form are treated alike. */
  lemma ClassificationIgnoresCase(name: string)
    ensures IsSupported(Lower(name)) <==> IsSupported(name)
  {
    LowerIdempotent(name);
  }

  /** A name whose reported extension is listed is supported. */
  lemma ListedExtensionIsSupported(name: string)
    requires ReportedExtension(name) in SupportedExtensions
    ensures IsSupported(name)
  {
    ReportedExtensionShape(name);
    IsSupportedIff(name);
  }

  /** A supported suffix ends the lower-cased name at a dot with no dot after it. */
  lemma {:induction false} SupportedSuffixStartsAtLastDot(name: string, e: string)
    requires ExtensionShaped(e) && EndsWith(Lower(name), e)
    ensures name[|name| - |e|] == '.'
    ensures forall k :: |name| - |e| < k < |name| ==> name[k] != '.'
  {
    var p := |name| - |e|;
    var low := Lower(name);
    assert low[p..] == e;
    assert low[p] == e[0];
    LowerAt(name, p);
    LowerCharKeepsSeparators(name[p]);
    forall k | p < k < |name| ensures name[k] != '.' {
      assert low[k] == e[k - p];
      LowerAt(name, k);
      LowerCharKeepsSeparators(name[k]);
    }
  }

  /** A supported name that has an extension has a listed one. */
  lemma {:induction false} SupportedNameHasListedExtension(name: string)
    requires HasExtension(name) && IsSupported(name)
    ensures ReportedExtension(name) in SupportedExtensions
  {
    IsSupportedIff(name);
    var e :| e in SupportedExtensions && EndsWith(Lower(name), e);
    SupportedExtensionsShaped();
    SupportedSuffixStartsAtLastDot(name, e);
    var p := |name| - |e|;
    var ext := SplitExt(name).1;
    SplitExtSpec(name);
    var q := |name| - |ext|;
    assert name[q..] == ext;
    assert name[q] == '.';
    assert p == q;
    LowerSuffix(name, p);
    assert Lower(name)[p..] == e;
  }

  /** For a name that has an extension, being supported is the same as that
      extension, lower-cased, being one of the listed ones. */
  lemma SupportedIffExtensionListed(name: string)
    requires HasExtension(name)
    ensures IsSupported(name) <==> ReportedExtension(name) in SupportedExtensions
  {
    if IsSupported(name) {
      SupportedNameHasListedExtension(name);
    }
    if ReportedExtension(name) in SupportedExtensions {
      ListedExtensionIsSupported(name);
    }
  }

  /** The extension reported for an unsupported file is never a supported one. */
  lemma UnsupportedReportsUnlisted(name: string)
    requires !IsSupported(name)
    ensures ReportedExtension(name) !in SupportedExtensions
  {
    if ReportedExtension(name) in SupportedExtensions {
      ListedExtensionIsSupported(name);
    }
  }

  /** The suffix test and `splitext` disagree on a dot-file named like an
      extension: `.jpg` is copied, although it has no extension. */
  lemma DotFileNamedLikeExtension()
    ensures IsSupported(".jpg") && ReportedExtension(".jpg") == []
  {
    assert EndsWith(Lower(".jpg"), ".jpg");
    IsSupportedIff(".jpg");
    DotFileHasNoExtension(".jpg");
  }

  /** A name is supported as soon as its last characters, lower-cased, spell a supported suffix. */
  lemma SupportedBySuffix(name: string, e: string)
    requires e in SupportedExtensions && |e| <= |name|
    requires Lower(name[|name| - |e|..]) == e
    ensures IsSupported(name)
  {
    LowerSuffix(name, |name| - |e|);
    IsSupportedIff(name);
  }

  /** An upper-case JPEG name is supported like a lower-case one. */
  lemma UpperCaseJpegIsSupported()
    ensures IsSupported("IMG_1.JPG")
  {
    var name := "IMG_1.JPG";
    var tail := name[5..];
    assert tail == ".JPG";
    var low := Lower(tail);
    LowerAt(tail, 0);
    LowerAt(tail, 1);
    LowerAt(tail, 2);
    LowerAt(tail, 3);
    assert low == ".jpg";
    SupportedBySuffix(name, ".jpg");
  }

  /** A TIFF image is not among the supported kinds. */
  lemma TiffIsUnsupported()
    ensures !IsSupported("file.tiff")
  {
    var name := "file.tiff";
    var low := Lower(name);
    assert low[4] == '.' && low[8] == 'f';
    assert forall k :: 0 <= k < 9 && k != 4 ==> low[k] != '.';
    SupportedExtensionsShaped();
    forall e | e in SupportedExtensions ensures !EndsWith(low, e) {
    }
    IsSupportedIff(name);
  }
}
