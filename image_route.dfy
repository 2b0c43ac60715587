/**
 * The image handler (`GET /api/image`) once the repository listing has
 * been fetched: keep the entries whose lowercased extension names an
 * image format, answer "No images found" when none is left, otherwise
 * pick one with the daily hash and answer with its name, download URL,
 * size and the date.
 */
module ImageRoute {
  import opened Outcomes
  import opened Text
  import opened DailyHash

  /** One entry of the repository contents listing. */
  datatype FileEntry = FileEntry(name: string, downloadUrl: string, size: int)

  /** The JSON body of the handler's 200 response. */
  datatype ImageResponse = ImageResponse(name: string, url: string, size: int, date: string)

  const NO_IMAGES_FOUND: string := "No images found"

  /** `['jpg', 'jpeg', 'png', 'gif', 'webp'].includes(ext)` */
  predicate IsImageExtension(ext: string)
  {
    ext == "jpg" || ext == "jpeg" || ext == "png" || ext == "gif" || ext == "webp"
  }

  /** `name.toLowerCase().split('.').pop()` */
  function Extension(name: string): (ext: string)
    ensures '.' !in ext
  {
    var parts := Split(ToLowerAscii(name), '.');
    parts[|parts| - 1]
  }

  /**
   * The extension is the lowercased text after the last dot, or the whole
   * lowercased name when it has no dot.
   */
  lemma ExtensionIsLastSegment(name: string)
    ensures var lower, ext := ToLowerAscii(name), Extension(name);
      |ext| <= |lower| && ext == lower[|lower| - |ext|..]
    ensures var lower, ext := ToLowerAscii(name), Extension(name);
      '.' in name ==> |ext| < |lower| && lower[|lower| - |ext| - 1] == '.'
    ensures '.' !in name ==> Extension(name) == ToLowerAscii(name)
  {
    var lower := ToLowerAscii(name);
    var parts := Split(lower, '.');
    var ext := parts[|parts| - 1];
    LowerKeepsDots(name);
    CountPositive(lower, '.');
    if |parts| >= 2 {
      JoinLast(parts, '.');
      var front := Join(parts[..|parts| - 1], '.');
      assert lower == (front + ['.']) + ext;
      assert lower[|lower| - |ext| - 1] == '.';
    } else {
      assert lower == Join(parts, '.') == ext;
    }
  }

  /** The filter's test on one file name. */
  predicate IsImageName(name: string)
  {
    IsImageExtension(Extension(name))
  }

  /** `b` contains the elements of `a` in the same order, possibly with others between them. */
  ghost predicate IsSubsequence<T>(a: seq<T>, b: seq<T>)
  {
    a == [] || (b != [] && (IsSubsequence(a, b[1..]) || (a[0] == b[0] && IsSubsequence(a[1..], b[1..]))))
  }

  /**
   * `files.filter(...)`: exactly the image entries, each as often as in the
   * listing, in listing order, unchanged.
   */
  function FilterImages(files: seq<FileEntry>): (images: seq<FileEntry>)
    ensures forall f :: multiset(images)[f] == if IsImageName(f.name) then multiset(files)[f] else 0
    ensures forall k :: 0 <= k < |images| ==> IsImageName(images[k].name)
    ensures IsSubsequence(images, files)
  {
    if files == [] then []
    else
      var rest := FilterImages(files[1..]);
      assert files == [files[0]] + files[1..];
      if IsImageName(files[0].name) then
        assert ([files[0]] + rest)[1..] == rest;
        [files[0]] + rest
      else rest
  }

  /** The filtered list is empty exactly when no entry of the listing is an image. */
  lemma NoImagesIff(files: seq<FileEntry>)
    ensures FilterImages(files) == [] <==> forall k :: 0 <= k < |files| ==> !IsImageName(files[k].name)
  {
    var images := FilterImages(files);
    if images != [] {
      var f := images[0];
      assert multiset(images)[f] > 0;
      assert f in multiset(files);
    }
    if k :| 0 <= k < |files| && IsImageName(files[k].name) {
      var f := files[k];
      assert f in multiset(files);
      assert multiset(images)[f] > 0;
    }
  }

  /** Every entry the filter keeps comes from the listing. */
  lemma FilteredFromListing(files: seq<FileEntry>, k: nat)
    requires k < |FilterImages(files)|
    ensures FilterImages(files)[k] in files
  {
    var f := FilterImages(files)[k];
    assert multiset(FilterImages(files))[f] > 0;
  }

  /** A name with a dot is judged by what follows the last dot, in either case. */
  lemma ExtensionAfterDot(base: string, ext: string)
    requires '.' !in ext
    ensures Extension(base + "." + ext) == ToLowerAscii(ext)
  {
    var name := base + "." + ext;
    assert name[|base|] == '.' && name[|base| + 1..] == ext;
    ExtensionAt(name, |base|);
  }

  /** A name whose last dot is at `p` has the lowered text after `p` as its extension. */
  lemma ExtensionAt(name: string, p: nat)
    requires p < |name| && name[p] == '.' && '.' !in name[p + 1..]
    ensures Extension(name) == ToLowerAscii(name[p + 1..])
  {
    ExtensionIsLastSegment(name);
    LowerKeepsDots(name[p + 1..]);
    LowerAfter(name, p);
    LastSegmentAfter(ToLowerAscii(name), Extension(name), ToLowerAscii(name[p + 1..]), p);
  }

  /** Lowering keeps the dot at `p` and lowers what follows it on its own. */
  lemma LowerAfter(name: string, p: nat)
    requires p < |name| && name[p] == '.'
    ensures var lower := ToLowerAscii(name);
      lower[p] == '.' && lower[p + 1..] == ToLowerAscii(name[p + 1..])
  {
    var lower, low := ToLowerAscii(name), ToLowerAscii(name[p + 1..]);
    forall k | 0 <= k < |low|
      ensures lower[p + 1 + k] == low[k]
    {
      assert name[p + 1..][k] == name[p + 1 + k];
    }
  }

  /** A dot-free suffix that follows a dot is the text after the last dot at `p`. */
  lemma LastSegmentAfter(s: string, e: string, tail: string, p: nat)
    requires p + 1 + |tail| == |s| && s[p] == '.' && s[p + 1..] == tail && '.' !in tail
    requires '.' !in e && |e| < |s| && e == s[|s| - |e|..] && s[|s| - |e| - 1] == '.'
    ensures e == tail
  {
  }

  /** The test ignores letter case: a name and its lowercased form are judged alike. */
  lemma CaseInsensitive(name: string)
    ensures IsImageName(name) <==> IsImageName(ToLowerAscii(name))
  {
    LowerIdempotent(name);
  }

  /** `photo.JPG` passes: the extension is lowercased before the lookup. */
  lemma UpperCaseExtension(base: string)
    ensures IsImageName(base + ".JPG")
  {
    ExtensionAfterDot(base, "JPG");
    assert base + ".JPG" == base + "." + "JPG";
    assert ToLowerAscii("JPG") == "jpg";
  }

  /** `notes.txt` is rejected. */
  lemma OtherExtension(base: string)
    ensures !IsImageName(base + ".txt")
  {
    ExtensionAfterDot(base, "txt");
    assert base + ".txt" == base + "." + "txt";
  }

  /** A name ending in a dot has the empty extension and is rejected. */
  lemma TrailingDot(base: string)
    ensures !IsImageName(base + ".")
  {
    ExtensionAfterDot(base, "");
    assert base + "." == base + "." + "";
  }

  /** Only the last extension counts: `x.png.md` is rejected. */
  lemma LastExtensionDecides(base: string)
    ensures !IsImageName(base + ".png.md")
  {
    ExtensionAfterDot(base + ".png", "md");
    assert base + ".png.md" == (base + ".png") + "." + "md";
  }

  /** A name without a dot is its own extension: a file called `png` passes. */
  lemma BareExtension()
    ensures IsImageName("png")
  {
    ExtensionIsLastSegment("png");
  }

  /** `cat.png` passes. */
  lemma PlainImage(base: string)
    ensures IsImageName(base + ".png")
  {
    ExtensionAfterDot(base, "png");
    assert base + ".png" == base + "." + "png";
  }

  /** A listing with a picture and a text file keeps only the picture. */
  lemma FilterExample(picture: FileEntry, notes: FileEntry, a: string, b: string)
    requires picture.name == a + ".png" && notes.name == b + ".txt"
    ensures FilterImages([picture, notes]) == [picture]
  {
    PlainImage(a);
    OtherExtension(b);
    assert [picture, notes][1..] == [notes];
    assert [notes][1..] == [];
  }

  /** From `a.png`, `b.txt` and `c.JPG` the filter keeps the first and the third, in that order. */
  lemma FilterThreeExample(first: FileEntry, second: FileEntry, third: FileEntry, a: string, b: string, c: string)
    requires first.name == a + ".png" && second.name == b + ".txt" && third.name == c + ".JPG"
    ensures FilterImages([first, second, third]) == [first, third]
    ensures |FilterImages([first, second, third])| == 2
  {
    PlainImage(a);
    OtherExtension(b);
    UpperCaseExtension(c);
    DropThenKeep(second, third);
    assert [first, second, third][1..] == [second, third];
  }

  /** Filtering a listing in two parts filters each part and keeps them in order. */
  lemma {:induction false} FilterConcat(xs: seq<FileEntry>, ys: seq<FileEntry>)
    ensures FilterImages(xs + ys) == FilterImages(xs) + FilterImages(ys)
  {
    if xs == [] {
      assert xs + ys == ys;
    } else {
      assert (xs + ys)[1..] == xs[1..] + ys;
      FilterConcat(xs[1..], ys);
    }
  }

  /** A non-image followed by an image: the filter keeps only the image. */
  lemma DropThenKeep(second: FileEntry, third: FileEntry)
    requires !IsImageName(second.name) && IsImageName(third.name)
    ensures FilterImages([second, third]) == [third]
  {
    assert [second, third][1..] == [third];
    assert [third][1..] == [];
  }

  /**
   * `GET /api/image` after the fetch: filter, answer "No images found"
   * when nothing is left (before any hash or modulo is computed),
   * otherwise pick `images[Math.abs(hash) % images.length]` and copy its
   * name, download URL and size into the response.
   */
  method HandleImageRequest(files: seq<FileEntry>, date: string) returns (r: Response<ImageResponse>)
    ensures r.NotFound? <==> forall k :: 0 <= k < |files| ==> !IsImageName(files[k].name)
    ensures r.NotFound? ==> r.error == NO_IMAGES_FOUND
    ensures var images := FilterImages(files);
      |images| > 0 ==>
        var chosen := images[DailyIndex(date, |images|)];
        r == Ok(ImageResponse(chosen.name, chosen.downloadUrl, chosen.size, date))
    ensures r.Ok? ==>
      exists f :: f in files && IsImageName(f.name) &&
        r.value == ImageResponse(f.name, f.downloadUrl, f.size, date)
  {
    var imageFiles := FilterImages(files);
    NoImagesIff(files);
    if |imageFiles| == 0 {
      return NotFound(NO_IMAGES_FOUND);
    }
    var hash := ComputeHash(date);
    var selectedIndex := Abs(hash) % |imageFiles|;
    var selectedImage := imageFiles[selectedIndex];
    FilteredFromListing(files, selectedIndex);
    r := Ok(ImageResponse(selectedImage.name, selectedImage.downloadUrl, selectedImage.size, date));
  }
}
