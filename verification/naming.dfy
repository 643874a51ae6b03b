/** VisuBee's `ProcessingFragment` file naming: the prefilled name, the names the
    two processed images are saved under, and which saves `saveProcessedImages`
    attempts. KotlinTestApp's and ExtractionKotlinApp's gallery display name is
    here too. Writing the files is foreign. */
module Naming {
  import opened Images
  import opened Results
  import opened Sizes

  /** Kotlin's `Char.isWhitespace()`: Java's `isWhitespace` or `isSpaceChar`. */
  predicate IsWhitespace(c: char) {
    || ('\U{9}' <= c <= '\U{D}') || ('\U{1C}' <= c <= '\U{20}')
    || c == '\U{A0}' || c == '\U{1680}' || ('\U{2000}' <= c <= '\U{200A}')
    || c == '\U{2028}' || c == '\U{2029}' || c == '\U{202F}' || c == '\U{205F}' || c == '\U{3000}'
  }

  predicate AllSpace(s: string) {
    forall k :: 0 <= k < |s| ==> IsWhitespace(s[k])
  }

  predicate NoSpace(s: string) {
    forall k :: 0 <= k < |s| ==> !IsWhitespace(s[k])
  }

  /** Neither end is whitespace. */
  predicate Trimmed(s: string) {
    |s| == 0 || (!IsWhitespace(s[0]) && !IsWhitespace(s[|s| - 1]))
  }

  /** The number of leading whitespace characters. */
  function LeadingSpace(s: string): (n: nat)
    ensures n <= |s| && forall k :: 0 <= k < n ==> IsWhitespace(s[k])
    ensures n < |s| ==> !IsWhitespace(s[n])
  {
    if |s| == 0 || !IsWhitespace(s[0]) then 0 else 1 + LeadingSpace(s[1..])
  }

  /** The length left once the trailing whitespace is dropped. */
  function TrailingStart(s: string): (j: nat)
    ensures j <= |s| && forall k :: j <= k < |s| ==> IsWhitespace(s[k])
    ensures j > 0 ==> !IsWhitespace(s[j - 1])
  {
    if |s| == 0 || !IsWhitespace(s[|s| - 1]) then |s| else TrailingStart(s[..|s| - 1])
  }

  /** `String.trim()`. */
  function Trim(s: string): (r: string)
    ensures Trimmed(r)
    ensures AllSpace(s) ==> r == []
  {
    var i := LeadingSpace(s);
    if i == |s| then []
    else
      var j := TrailingStart(s);
      assert !IsWhitespace(s[i]);
      s[i..j]
  }

  /** Trimming removes exactly the whitespace around a trimmed core. */
  lemma TrimPadded(pre: string, core: string, post: string)
    requires AllSpace(pre) && AllSpace(post) && Trimmed(core)
    ensures Trim(pre + core + post) == core
  {
    var s := pre + core + post;
    LeadingOfPadded(pre, core, post);
    if |core| > 0 {
      TrailingOfPadded(pre, core, post);
      assert s[|pre|..|pre| + |core|] == core;
    } else {
      assert AllSpace(s) by {
        forall k | 0 <= k < |s| ensures IsWhitespace(s[k]) {
          if k < |pre| { assert s[k] == pre[k]; } else { assert s[k] == post[k - |pre|]; }
        }
      }
    }
  }

  lemma LeadingOfPadded(pre: string, core: string, post: string)
    requires AllSpace(pre) && AllSpace(post) && Trimmed(core)
    ensures |core| > 0 ==> LeadingSpace(pre + core + post) == |pre|
    ensures |core| == 0 ==> LeadingSpace(pre + core + post) == |pre + core + post|
  {
    var s := pre + core + post;
    var n := LeadingSpace(s);
    assert forall k :: 0 <= k < |pre| ==> s[k] == pre[k];
    if |core| > 0 {
      assert s[|pre|] == core[0];
    } else {
      assert forall k :: 0 <= k < |s| ==> IsWhitespace(s[k]) by {
        forall k | 0 <= k < |s| ensures IsWhitespace(s[k]) {
          if k >= |pre| { assert s[k] == post[k - |pre|]; }
        }
      }
    }
  }

  lemma TrailingOfPadded(pre: string, core: string, post: string)
    requires AllSpace(pre) && AllSpace(post) && Trimmed(core) && |core| > 0
    ensures TrailingStart(pre + core + post) == |pre| + |core|
  {
    var x := pre + core;
    assert x[|x| - 1] == core[|core| - 1];
    TrailingOfSpaceSuffix(x, post);
  }

  /** Whitespace after a non-whitespace character is exactly what is dropped. */
  lemma {:induction false} TrailingOfSpaceSuffix(x: string, y: string)
    requires AllSpace(y) && |x| > 0 && !IsWhitespace(x[|x| - 1])
    ensures TrailingStart(x + y) == |x|
    decreases |y|
  {
    if |y| == 0 {
      assert x + y == x;
    } else {
      var s := x + y;
      assert s[|s| - 1] == y[|y| - 1];
      assert s[..|s| - 1] == x + y[..|y| - 1];
      TrailingOfSpaceSuffix(x, y[..|y| - 1]);
    }
  }

  /** A string without whitespace is its own trim. */
  lemma TrimNoSpace(s: string)
    requires NoSpace(s)
    ensures Trim(s) == s
  {
    TrimPadded([], s, []);
    assert [] + s + [] == s;
  }

  /** Trimming twice trims no more than once. */
  lemma TrimIdempotent(s: string)
    ensures Trim(Trim(s)) == Trim(s)
  {
    TrimPadded([], Trim(s), []);
    assert [] + Trim(s) + [] == Trim(s);
  }

  /** `s` without its trailing `/` characters, as `java.io.File` normalises a path. */
  function StripTrailingSlashes(s: string): (r: string)
    ensures |r| <= |s| && r == s[..|r|]
    ensures |r| == 0 || r[|r| - 1] != '/'
    ensures forall k :: |r| <= k < |s| ==> s[k] == '/'
  {
    if |s| > 0 && s[|s| - 1] == '/' then StripTrailingSlashes(s[..|s| - 1]) else s
  }

  /** What follows the last `/` (all of `s` when there is none). */
  function LastSegment(s: string): (r: string)
    ensures |r| <= |s| && r == s[|s| - |r|..]
    ensures '/' !in r
    ensures |r| < |s| ==> s[|s| - |r| - 1] == '/'
  {
    if |s| == 0 || s[|s| - 1] == '/' then []
    else
      var r := LastSegment(s[..|s| - 1]) + [s[|s| - 1]];
      assert '/' !in r;
      r
  }

  /** `substringBeforeLast(".")`: the part before the last `.`, or all of `s`. */
  function BeforeLastDot(s: string): (r: string)
    ensures '.' !in s ==> r == s
    ensures '.' in s ==> |r| < |s| && s[..|r|] == r && s[|r|] == '.'
    ensures forall k :: |r| < k < |s| ==> s[k] != '.'
  {
    if |s| == 0 then []
    else if s[|s| - 1] == '.' then s[..|s| - 1]
    else if '.' in s[..|s| - 1] then BeforeLastDot(s[..|s| - 1])
    else
      assert s == s[..|s| - 1] + [s[|s| - 1]];
      s
  }

  /** `File(path).nameWithoutExtension`. */
  function NameWithoutExtension(path: string): string {
    BeforeLastDot(LastSegment(StripTrailingSlashes(path)))
  }

  /** A file name `stem.ext` whose extension has no `.` has no `/` and loses just
      the extension, however many dots the stem holds. */
  lemma FileStem(stem: string, ext: string)
    requires '/' !in stem && '/' !in ext && '.' !in ext
    ensures '/' !in stem + "." + ext
    ensures BeforeLastDot(stem + "." + ext) == stem
  {
    var name := stem + "." + ext;
    assert name == stem + ("." + ext);
    assert name[|stem|] == '.';
    DotSplit(stem, ext, BeforeLastDot(name));
  }

  /** A path `dir/stem.ext` yields `stem`, whatever the directory. */
  lemma StemOfPath(dir: string, stem: string, ext: string)
    requires '/' !in stem && '/' !in ext && '.' !in ext
    ensures NameWithoutExtension(dir + "/" + stem + "." + ext) == stem
  {
    var name := stem + "." + ext;
    var path := dir + "/" + stem + "." + ext;
    FileStem(stem, ext);
    assert path == (dir + "/") + name;
    assert path[|path| - 1] == name[|name| - 1];
    assert name[|name| - 1] in name;
    assert StripTrailingSlashes(path) == path;
    SegmentAfterSlash(dir, name);
  }

  /** A bare `stem.ext`, no directory, yields `stem`. */
  lemma StemOfFileName(stem: string, ext: string)
    requires '/' !in stem && '/' !in ext && '.' !in ext
    ensures NameWithoutExtension(stem + "." + ext) == stem
  {
    FileStem(stem, ext);
    SlashFreeSegment(stem + "." + ext);
  }

  /** A name without `/` is its own file name. */
  lemma SlashFreeSegment(s: string)
    requires '/' !in s
    ensures LastSegment(StripTrailingSlashes(s)) == s
  {
    if |s| > 0 {
      assert s[|s| - 1] in s;
    }
    LastSegmentOfSlashFree(s);
  }

  /** The segment after a final `/` is everything that follows it. */
  lemma {:induction false} SegmentAfterSlash(dir: string, name: string)
    requires '/' !in name
    ensures LastSegment(dir + "/" + name) == name
    decreases |name|
  {
    var s := dir + "/" + name;
    if |name| == 0 {
      assert s[|s| - 1] == '/';
    } else {
      assert s[|s| - 1] == name[|name| - 1];
      assert s[..|s| - 1] == dir + "/" + name[..|name| - 1];
      assert name == name[..|name| - 1] + [name[|name| - 1]];
      SegmentAfterSlash(dir, name[..|name| - 1]);
    }
  }

  /** The last `.` of `stem.ext`, when `ext` has none, is the one before `ext`. */
  lemma DotSplit(stem: string, ext: string, r: string)
    requires '.' !in ext
    requires var name := stem + "." + ext;
             && |r| < |name| && name[..|r|] == r && name[|r|] == '.'
             && forall k :: |r| < k < |name| ==> name[k] != '.'
    ensures r == stem
  {
    var name := stem + "." + ext;
    assert name[|stem|] == '.';
    assert forall k :: |stem| < k < |name| ==> name[k] == ext[k - |stem| - 1];
  }

  /** A dot-less name keeps all of itself, whatever directory precedes it. */
  lemma DotlessOfPath(dir: string, name: string)
    requires '/' !in name && '.' !in name && |name| > 0
    ensures NameWithoutExtension(dir + "/" + name) == name
  {
    var path := dir + "/" + name;
    assert path[|path| - 1] == name[|name| - 1];
    assert name[|name| - 1] in name;
    assert StripTrailingSlashes(path) == path;
    SegmentAfterSlash(dir, name);
  }

  /** A name with neither `/` nor `.` is its own stem. */
  lemma PlainName(s: string)
    requires '/' !in s && '.' !in s
    ensures NameWithoutExtension(s) == s
  {
    SlashFreeSegment(s);
  }

  lemma {:induction false} LastSegmentOfSlashFree(s: string)
    requires '/' !in s
    ensures LastSegment(s) == s
    decreases |s|
  {
    if |s| > 0 {
      assert s[|s| - 1] in s;
      assert s == s[..|s| - 1] + [s[|s| - 1]];
      LastSegmentOfSlashFree(s[..|s| - 1]);
    }
  }

  /** The stand-in when the image URI has no last path segment. */
  const DefaultName: string := "default_filename"

  /** The name the text field is first filled with: `"%s_%s_edge.png"` of the URI's
      last path segment (extension kept) and the size. */
  function InitialPrefill(segment: Option<string>, size: ImageSize): string {
    var base := if segment.Some? then segment.value else DefaultName;
    base + "_" + Name(size) + "_edge.png"
  }

  /** `updateFilenameEditText`: `"%s_%s"` of the segment before its last `.` and the size. */
  function UpdatedPrefill(segment: Option<string>, size: ImageSize): string {
    var base := if segment.Some? then BeforeLastDot(segment.value) else DefaultName;
    base + "_" + Name(size)
  }

  /** The updated prefill drops the segment's extension, keeps a dot-less segment
      whole and falls back to `default_filename`. */
  lemma PrefillOfSegment(stem: string, ext: string, size: ImageSize)
    requires '.' !in ext
    ensures UpdatedPrefill(Some(stem + "." + ext), size) == stem + "_" + Name(size)
    ensures UpdatedPrefill(Some(ext), size) == ext + "_" + Name(size)
    ensures UpdatedPrefill(None, size) == DefaultName + "_" + Name(size)
  {
    var name := stem + "." + ext;
    assert name[|stem|] == '.';
    DotSplit(stem, ext, BeforeLastDot(name));
  }

  /** The saved edge image's name: the trimmed field's stem, the size, `_edge.png`. */
  function EdgeFileName(text: string, size: ImageSize): string {
    NameWithoutExtension(Trim(text)) + "_" + Name(size) + "_edge.png"
  }

  /** The saved transparent image's name: the same stem and size, `_transparent.png`. */
  function TransparentFileName(text: string, size: ImageSize): string {
    NameWithoutExtension(Trim(text)) + "_" + Name(size) + "_transparent.png"
  }

  /** The two saved names share their prefix and differ in the suffix. */
  lemma SavedNamesPair(text: string, size: ImageSize)
    ensures var prefix := NameWithoutExtension(Trim(text)) + "_" + Name(size);
            && EdgeFileName(text, size) == prefix + "_edge.png"
            && TransparentFileName(text, size) == prefix + "_transparent.png"
            && EdgeFileName(text, size) != TransparentFileName(text, size)
  {
    var prefix := NameWithoutExtension(Trim(text)) + "_" + Name(size);
    assert |EdgeFileName(text, size)| == |prefix| + 9;
    assert |TransparentFileName(text, size)| == |prefix| + 16;
  }

  /** The text field's path and extension are dropped: `dir/stem.ext` saves as `stem_<size>_edge.png`. */
  lemma SavedNameOfPath(dir: string, stem: string, ext: string, size: ImageSize)
    requires '/' !in stem && '/' !in ext && '.' !in ext
    requires Trimmed(dir + "/" + stem + "." + ext)
    ensures EdgeFileName(dir + "/" + stem + "." + ext, size) == stem + "_" + Name(size) + "_edge.png"
  {
    var path := dir + "/" + stem + "." + ext;
    TrimPadded([], path, []);
    assert [] + path + [] == path;
    StemOfPath(dir, stem, ext);
  }

  /** Saving right after `updateFilenameEditText` names the size twice: a picked
      `stem.ext` saves its edge image as `stem_<size>_<size>_edge.png`. */
  lemma UpdatedPrefillRepeatsSize(stem: string, ext: string, size: ImageSize)
    requires '/' !in stem && '.' !in stem && NoSpace(stem) && '/' !in ext && '.' !in ext
    ensures EdgeFileName(UpdatedPrefill(Some(stem + "." + ext), size), size)
            == stem + "_" + Name(size) + "_" + Name(size) + "_edge.png"
  {
    FileStem(stem, ext);
    var text := stem + "_" + Name(size);
    PlainSizeName(size);
    assert NoSpace(text) by {
      forall k | 0 <= k < |text| ensures !IsWhitespace(text[k]) {
        if k < |stem| { assert text[k] == stem[k]; }
        else if k > |stem| { assert text[k] == Name(size)[k - |stem| - 1]; }
      }
    }
    assert '/' !in text && '.' !in text by {
      forall k | 0 <= k < |text| ensures text[k] != '/' && text[k] != '.' {
        if k < |stem| { assert text[k] == stem[k]; assert stem[k] in stem; }
        else if k > |stem| { assert text[k] == Name(size)[k - |stem| - 1]; assert Name(size)[k - |stem| - 1] in Name(size); }
      }
    }
    TrimNoSpace(text);
    PlainName(text);
  }

  /** A trimmed `stem.ext` saves its edge image as `stem_<size>_edge.png`. */
  lemma SavedNameOfFile(stem: string, ext: string, size: ImageSize)
    requires '/' !in stem && '/' !in ext && '.' !in ext
    requires Trimmed(stem + "." + ext)
    ensures EdgeFileName(stem + "." + ext, size) == stem + "_" + Name(size) + "_edge.png"
  {
    var name := stem + "." + ext;
    TrimPadded([], name, []);
    assert [] + name + [] == name;
    StemOfFileName(stem, ext);
  }

  /** A size's name has no whitespace, `/` or `.`. */
  lemma PlainSizeName(size: ImageSize)
    ensures NoSpace(Name(size)) && '/' !in Name(size) && '.' !in Name(size)
  {
    match size
    case XS => case S => case M => case L => case XL =>
  }

  /** The first prefill keeps the segment's extension and its own `_edge.png`, so
      saving it unchanged yields `<segment>_<size>_edge_<size>_edge.png`. */
  lemma InitialPrefillSavedName(segment: string, size: ImageSize)
    requires '/' !in segment && Trimmed(segment)
    ensures EdgeFileName(InitialPrefill(Some(segment), size), size)
            == segment + "_" + Name(size) + "_edge" + "_" + Name(size) + "_edge.png"
  {
    var stem := segment + "_" + Name(size) + "_edge";
    assert InitialPrefill(Some(segment), size) == stem + "." + "png";
    PlainSizeName(size);
    assert '/' !in stem by {
      assert stem == segment + ("_" + Name(size) + "_edge");
    }
    var text := stem + "." + "png";
    assert |segment| > 0 ==> text[0] == segment[0];
    assert |segment| == 0 ==> text[0] == '_';
    assert text[|text| - 1] == 'g';
    SavedNameOfFile(stem, "png", size);
  }


  /** What `saveProcessedImages` did. */
  datatype SaveReport =
      /** "Processed images not available": nothing saved. */
    | NotAvailable
      /** Both saves were attempted, edge first; `saved` is whether both succeeded. */
    | Attempted(requests: seq<(Bitmap, string)>, saved: bool)

  /** `saveImage`: `false` without a save location; otherwise what writing the file
      through the storage framework reports. */
  function SaveImage(galleryPath: Option<string>, write: (Bitmap, string) -> bool, bitmap: Bitmap, filename: string)
    : (ok: bool)
    ensures (galleryPath.None? || galleryPath.value == "") ==> !ok
    ensures galleryPath.Some? && galleryPath.value != "" ==> ok == write(bitmap, filename)
  {
    if galleryPath.None? || galleryPath.value == "" then false else write(bitmap, filename)
  }

  /** `saveProcessedImages`. */
  function SaveProcessedImages(text: string, size: ImageSize, edge: Option<Bitmap>, transparent: Option<Bitmap>,
                               galleryPath: Option<string>, write: (Bitmap, string) -> bool)
    : (r: SaveReport)
    // nothing is saved unless both images exist
    ensures r.NotAvailable? <==> edge.None? || transparent.None?
    // both saves are attempted even when the first fails
    ensures r.Attempted? ==>
              r.requests == [(edge.value, EdgeFileName(text, size)), (transparent.value, TransparentFileName(text, size))]
    // success needs both
    ensures r.Attempted? ==>
              (r.saved <==> SaveImage(galleryPath, write, edge.value, EdgeFileName(text, size))
                            && SaveImage(galleryPath, write, transparent.value, TransparentFileName(text, size)))
    // without a save location nothing succeeds
    ensures r.Attempted? && (galleryPath.None? || galleryPath.value == "") ==> !r.saved
  {
    if edge.None? || transparent.None? then NotAvailable
    else
      var edgeName := EdgeFileName(text, size);
      var transparentName := TransparentFileName(text, size);
      var edgeSaved := SaveImage(galleryPath, write, edge.value, edgeName);
      var transparentSaved := SaveImage(galleryPath, write, transparent.value, transparentName);
      Attempted([(edge.value, edgeName), (transparent.value, transparentName)], edgeSaved && transparentSaved)
  }

  /** KotlinTestApp's and ExtractionKotlinApp's `DISPLAY_NAME`: `"$fileName-${size.name}.png"`. */
  function GalleryDisplayName(fileName: string, size: ImageSize): string {
    fileName + "-" + Name(size) + ".png"
  }

  /** One file name saved at two sizes gets two display names, and the file name
      can be read back from either. */
  lemma GalleryNamesDistinct(fileName: string, s: ImageSize, t: ImageSize)
    requires s != t
    ensures GalleryDisplayName(fileName, s) != GalleryDisplayName(fileName, t)
    ensures GalleryDisplayName(fileName, s)[..|fileName|] == fileName
  {
    var a, b := GalleryDisplayName(fileName, s), GalleryDisplayName(fileName, t);
    var n := |fileName| + 1;
    NamesDistinct(s, t);
    assert a[n..n + |Name(s)|] == Name(s);
    assert b[n..n + |Name(t)|] == Name(t);
  }
}
