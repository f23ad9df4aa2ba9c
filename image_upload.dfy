/** The bulk image upload (`POST /api/config/upload_images`): select the
    image files of the `product_images` directory, upload each under the
    key `product_images/<name>` with its MIME type, and report which
    uploads succeeded and which failed. */
module ImageUpload {

  import opened Wrappers
  import Strings
  import Cloudflare
  import ProductCard
  import Sequences

  const FOLDER := "product_images/"
  const OCTET_STREAM := "application/octet-stream"

  /** The extensions the selection accepts, in the pattern's order. */
  const IMAGE_EXTENSIONS: seq<string> := ["jpg", "jpeg", "png", "gif", "webp", "svg"]

  // ---------------------------------------------------------------------
  // MIME types and selection

  /** The `mimeTypes` table. */
  function MimeOf(ext: string): Option<string> {
    if ext == "jpg" || ext == "jpeg" then Some("image/jpeg")
    else if ext == "png" then Some("image/png")
    else if ext == "gif" then Some("image/gif")
    else if ext == "webp" then Some("image/webp")
    else if ext == "svg" then Some("image/svg+xml")
    else None
  }

  /** The table has an entry for exactly the selectable extensions. */
  lemma MimeTableCoversExtensions(ext: string)
    ensures MimeOf(ext).Some? <==> ext in IMAGE_EXTENSIONS
  {
  }

  lemma ImageMimeNotDefault(ext: string)
    requires MimeOf(ext).Some?
    ensures MimeOf(ext).value != OCTET_STREAM
  {
  }

  lemma NoDotInExtensions(ext: string)
    requires ext in IMAGE_EXTENSIONS
    ensures '.' !in ext
  {
  }

  /** `fileName.toLowerCase().split(".").pop()` */
  function Extension(fileName: string): string {
    var parts := Strings.Split(Strings.Lower(fileName), ".");
    parts[|parts| - 1]
  }

  /** The extension is what follows the last dot of the lower-cased name,
      or the whole lower-cased name when it has no dot: it holds no dot,
      and it is the whole name or is preceded by a dot. */
  lemma ExtensionAfterLastDot(fileName: string)
    ensures '.' !in Extension(fileName)
    ensures var lower := Strings.Lower(fileName);
      Extension(fileName) == lower || Strings.EndsWith(lower, "." + Extension(fileName))
  {
    var lower := Strings.Lower(fileName);
    var parts := Strings.Split(lower, ['.']);
    var e := parts[|parts| - 1];
    assert e == Extension(fileName);
    Strings.NotOccursChar(e, '.');
    Strings.JoinSplit(lower, ['.']);
    if |parts| >= 2 {
      var p := Strings.JoinLast(parts, ['.']);
      assert lower == p + (['.'] + e);
      Strings.EndsWithConcat(p, ['.'] + e);
    }
  }

  /** `getMimeType(fileName)`: the table entry of the extension, or
      `application/octet-stream` -- the default exactly when the extension
      is not one of the selectable ones. */
  function MimeType(fileName: string): (mime: string)
    ensures mime == OCTET_STREAM <==> Extension(fileName) !in IMAGE_EXTENSIONS
  {
    var ext := Extension(fileName);
    MimeTableCoversExtensions(ext);
    if MimeOf(ext).Some? then ImageMimeNotDefault(ext); MimeOf(ext).value
    else OCTET_STREAM
  }

  /** `/\.(jpg|jpeg|png|gif|webp|svg)$/i` matches the name. */
  predicate HasImageExtension(fileName: string) {
    exists k :: 0 <= k < |IMAGE_EXTENSIONS| && Strings.EndsWith(Strings.Lower(fileName), "." + IMAGE_EXTENSIONS[k])
  }

  /** The filter: an image extension, and not a dotfile. */
  predicate IsImageFile(fileName: string) {
    HasImageExtension(fileName) && !(|fileName| > 0 && fileName[0] == '.')
  }

  /** `files.filter(...)`, in listing order. */
  function SelectImages(files: seq<string>): (r: seq<string>)
    ensures forall k :: 0 <= k < |r| ==> IsImageFile(r[k]) && r[k] in files
    ensures forall f :: f in files && IsImageFile(f) ==> f in r
  {
    if files == [] then []
    else if IsImageFile(files[0]) then [files[0]] + SelectImages(files[1..])
    else SelectImages(files[1..])
  }

  /** The selection keeps the listing's order. */
  lemma {:induction false} SelectImagesInOrder(files: seq<string>)
    ensures Sequences.IsSubsequence(SelectImages(files), files)
  {
    if files != [] {
      var rest := SelectImages(files[1..]);
      SelectImagesInOrder(files[1..]);
      assert files == [files[0]] + files[1..];
      if IsImageFile(files[0]) {
        Sequences.KeepFirst(files[0], rest, files[1..]);
      } else {
        Sequences.DropFirst(files[0], rest, files[1..]);
      }
    }
  }

  /** The selection holds each image file as often as the listing does,
      and nothing else; with `SelectImagesInOrder`, this determines it. */
  lemma {:induction false} SelectImagesCounts(files: seq<string>)
    ensures forall f :: multiset(SelectImages(files))[f] == if IsImageFile(f) then multiset(files)[f] else 0
  {
    if files != [] {
      SelectImagesCounts(files[1..]);
      assert files == [files[0]] + files[1..];
    }
  }

  /** A name ending in `.<ext>`, for an extension without a dot, has
      `ext` as its extension. */
  lemma ExtensionOfSuffix(fileName: string, ext: string)
    requires '.' !in ext
    requires Strings.EndsWith(Strings.Lower(fileName), "." + ext)
    ensures Extension(fileName) == ext
  {
    var lower := Strings.Lower(fileName);
    var stem := lower[..|lower| - |ext| - 1];
    assert lower == stem + ['.'] + ext;
    Strings.SplitLast(stem, '.', ext);
  }

  /** A name ending in `.<ext>` for the `k`-th listed extension gets that
      extension's MIME type. */
  lemma MimeOfSuffix(fileName: string, k: nat)
    requires k < |IMAGE_EXTENSIONS|
    requires Strings.EndsWith(Strings.Lower(fileName), "." + IMAGE_EXTENSIONS[k])
    ensures MimeOf(IMAGE_EXTENSIONS[k]).Some?
    ensures MimeOf(IMAGE_EXTENSIONS[k]) == Some(MimeType(fileName))
  {
    var ext := IMAGE_EXTENSIONS[k];
    assert ext in IMAGE_EXTENSIONS;
    MimeTableCoversExtensions(ext);
    NoDotInExtensions(ext);
    ExtensionOfSuffix(fileName, ext);
  }

  /** Every selected file gets its image MIME type, never the
      `application/octet-stream` default: the type of the extension the
      selection matched. */
  lemma SelectedHasImageMime(fileName: string)
    requires IsImageFile(fileName)
    ensures MimeType(fileName) != OCTET_STREAM
    ensures forall k :: 0 <= k < |IMAGE_EXTENSIONS| && Strings.EndsWith(Strings.Lower(fileName), "." + IMAGE_EXTENSIONS[k]) ==>
              Some(MimeType(fileName)) == MimeOf(IMAGE_EXTENSIONS[k])
  {
    var k :| 0 <= k < |IMAGE_EXTENSIONS| && Strings.EndsWith(Strings.Lower(fileName), "." + IMAGE_EXTENSIONS[k]);
    MimeOfSuffix(fileName, k);
    forall k' | 0 <= k' < |IMAGE_EXTENSIONS| && Strings.EndsWith(Strings.Lower(fileName), "." + IMAGE_EXTENSIONS[k'])
      ensures Some(MimeType(fileName)) == MimeOf(IMAGE_EXTENSIONS[k'])
    {
      MimeOfSuffix(fileName, k');
    }
  }

  /** A directory of two images and a dotfile. */
  lemma SelectionExample()
    ensures SelectImages(["a.png", "b.jpg", ".DS_Store"]) == ["a.png", "b.jpg"]
  {
    assert Strings.EndsWith(Strings.Lower("a.png"), "." + IMAGE_EXTENSIONS[2]);
    assert Strings.EndsWith(Strings.Lower("b.jpg"), "." + IMAGE_EXTENSIONS[0]);
    assert !IsImageFile(".DS_Store");
  }

  // ---------------------------------------------------------------------
  // Keys and URLs

  /** `product_images/${fileName}` */
  function UploadKey(fileName: string): string {
    FOLDER + fileName
  }

  /** Distinct file names are stored under distinct keys, so no upload of
      the batch overwrites another. */
  lemma UploadKeyInjective(a: string, b: string)
    ensures UploadKey(a) == UploadKey(b) ==> a == b
  {
    if UploadKey(a) == UploadKey(b) {
      assert a == UploadKey(a)[|FOLDER|..];
      assert b == UploadKey(b)[|FOLDER|..];
    }
  }

  /** The `image_url` the handler reports: the key passed to
      `getPublicUrlFromKey`, which adds the folder a second time. */
  function ImageUrlAsWritten(fileName: string): string {
    Cloudflare.PublicUrl(UploadKey(fileName))
  }

  /** The public address of the object stored under `UploadKey(fileName)`:
      the bucket origin followed by the key. */
  function ImageUrl(fileName: string): (url: string)
    ensures url == Cloudflare.R2_ORIGIN + UploadKey(fileName)
  {
    Cloudflare.PublicUrl(fileName)
  }

  /** The reported `image_url` never is the uploaded object's address: the
      folder appears twice in it. */
  lemma ImageUrlAsWrittenDoublesFolder(fileName: string)
    ensures ImageUrlAsWritten(fileName) == Cloudflare.R2_ORIGIN + FOLDER + FOLDER + fileName
    ensures ImageUrlAsWritten(fileName) != ImageUrl(fileName)
  {
    var a, b := ImageUrlAsWritten(fileName), ImageUrl(fileName);
    assert |a| != |b|;
  }

  /** The corrected URL of an uploaded `<siyam_ref>.<ext>` is the one the
      product card tries for that part and extension. */
  lemma ImageUrlMatchesCard(siyamRef: string, ext: string)
    ensures ImageUrl(siyamRef + "." + ext) == ProductCard.CandidateUrl(siyamRef, ext)
  {
  }

  // ---------------------------------------------------------------------
  // Uploads and the report

  /** What one upload resolves to. */
  datatype Uploaded = Uploaded(fileName: string, image_url: string, image_key: string)

  /** One entry of `Promise.allSettled`'s result. */
  datatype Settled = Fulfilled(value: Uploaded) | Rejected(reason: Thrown)

  /** What went wrong with one file, if anything: reading it from the
      directory, or storing it in the bucket. */
  datatype FileFault = NoFault | ReadFault(readError: Thrown) | PutFault(putError: Thrown)

  /** One `PutObject` request: the key and the content type. */
  datatype Put = Put(key: string, contentType: string)

  /** The outcome for one file: rejected with what reading or storing it
      threw, else fulfilled with its key and URL. */
  function Outcome(fileName: string, fault: FileFault): (r: Settled)
    ensures r.Fulfilled? <==> fault.NoFault?
    ensures r.Rejected? ==> r.reason == if fault.ReadFault? then fault.readError else fault.putError
    ensures r.Fulfilled? ==> r.value.fileName == fileName && r.value.image_key == UploadKey(fileName)
  {
    match fault
    case ReadFault(e) => Rejected(e)
    case PutFault(e) => Rejected(e)
    case NoFault => Fulfilled(Uploaded(fileName, ImageUrlAsWritten(fileName), UploadKey(fileName)))
  }

  /** The fault of file `i`; none past the end. */
  function FaultAt(faults: seq<FileFault>, i: nat): FileFault {
    if i < |faults| then faults[i] else NoFault
  }

  /** The settled results of the first `n` files. */
  function Outcomes(files: seq<string>, faults: seq<FileFault>, n: nat): (r: seq<Settled>)
    requires n <= |files|
    ensures |r| == n
    ensures forall i :: 0 <= i < n ==> r[i] == Outcome(files[i], FaultAt(faults, i))
  {
    if n == 0 then [] else Outcomes(files, faults, n - 1) + [Outcome(files[n - 1], FaultAt(faults, n - 1))]
  }

  /** The `PutObject` requests for the first `n` files: one for every file
      that could be read, in order. */
  function Puts(files: seq<string>, faults: seq<FileFault>, n: nat): (r: seq<Put>)
    requires n <= |files|
    ensures |r| <= n
  {
    if n == 0 then []
    else if FaultAt(faults, n - 1).ReadFault? then Puts(files, faults, n - 1)
    else Puts(files, faults, n - 1) + [Put(UploadKey(files[n - 1]), MimeType(files[n - 1]))]
  }

  /** Every file that was read is stored under `product_images/<name>`
      with its own MIME type, and every stored object is one of the files. */
  lemma {:induction false} PutsOfReadFiles(files: seq<string>, faults: seq<FileFault>, n: nat)
    requires n <= |files|
    ensures forall i :: 0 <= i < n && !FaultAt(faults, i).ReadFault? ==>
              Put(UploadKey(files[i]), MimeType(files[i])) in Puts(files, faults, n)
    ensures forall q :: q in Puts(files, faults, n) ==>
              exists i :: 0 <= i < n && q == Put(UploadKey(files[i]), MimeType(files[i]))
  {
    if n > 0 {
      PutsOfReadFiles(files, faults, n - 1);
      var prev := Puts(files, faults, n - 1);
      var cur := Puts(files, faults, n);
      var last := Put(UploadKey(files[n - 1]), MimeType(files[n - 1]));
      assert cur == if FaultAt(faults, n - 1).ReadFault? then prev else prev + [last];
      forall i | 0 <= i < n && !FaultAt(faults, i).ReadFault?
        ensures Put(UploadKey(files[i]), MimeType(files[i])) in cur
      {
        if i < n - 1 {
          assert Put(UploadKey(files[i]), MimeType(files[i])) in prev;
        }
      }
      forall q | q in cur ensures exists i :: 0 <= i < n && q == Put(UploadKey(files[i]), MimeType(files[i])) {
        if q in prev {
          var i :| 0 <= i < n - 1 && q == Put(UploadKey(files[i]), MimeType(files[i]));
        } else {
          assert q == last;
        }
      }
    }
  }

  /** The per-file uploads, one outcome per selected file, in order, and the
      `PutObject` requests made. `faults[i]` is what went wrong with file
      `i`, if anything; the uploads are independent of one another. */
  method UploadAll(imageFiles: seq<string>, faults: seq<FileFault>) returns (results: seq<Settled>, puts: seq<Put>)
    ensures results == Outcomes(imageFiles, faults, |imageFiles|)
    ensures puts == Puts(imageFiles, faults, |imageFiles|)
  {
    results, puts := [], [];
    for i := 0 to |imageFiles|
      invariant results == Outcomes(imageFiles, faults, i)
      invariant puts == Puts(imageFiles, faults, i)
    {
      var fileName := imageFiles[i];
      var fault := FaultAt(faults, i);
      var settled: Settled;
      if fault.ReadFault? {
        settled := Rejected(fault.readError);
        assert Puts(imageFiles, faults, i + 1) == puts;
      } else {
        var mimeType := MimeType(fileName);
        var fileKey := UploadKey(fileName);
        assert Puts(imageFiles, faults, i + 1) == puts + [Put(fileKey, mimeType)];
        puts := puts + [Put(fileKey, mimeType)];
        if fault.PutFault? {
          settled := Rejected(fault.putError);
        } else {
          settled := Fulfilled(Uploaded(fileName, ImageUrlAsWritten(fileName), fileKey));
        }
      }
      assert settled == Outcome(fileName, fault);
      results := results + [settled];
      assert Outcomes(imageFiles, faults, i + 1) == Outcomes(imageFiles, faults, i) + [settled];
    }
  }

  /** `successful`: the fulfilled values, in order. */
  function Successful(results: seq<Settled>): (r: seq<Uploaded>)
    ensures |r| <= |results|
    ensures forall u :: u in r <==> Fulfilled(u) in results
  {
    if results == [] then []
    else
      var rest := Successful(results[1..]);
      assert results == [results[0]] + results[1..];
      if results[0].Fulfilled? then [results[0].value] + rest else rest
  }

  /** Results that are all fulfilled, with the given values. */
  function AsFulfilled(values: seq<Uploaded>): (r: seq<Settled>)
    ensures |r| == |values| && forall i :: 0 <= i < |values| ==> r[i] == Fulfilled(values[i])
  {
    seq(|values|, i requires 0 <= i < |values| => Fulfilled(values[i]))
  }

  /** `successful` keeps the results' order: its entries, wrapped back as
      fulfilled results, are a subsequence of `results`. */
  lemma {:induction false} SuccessfulInOrder(results: seq<Settled>)
    ensures Sequences.IsSubsequence(AsFulfilled(Successful(results)), results)
  {
    if results != [] {
      var first, tail := results[0], results[1..];
      var rest := Successful(tail);
      SuccessfulInOrder(tail);
      assert results == [first] + tail;
      if first.Fulfilled? {
        assert Successful(results) == [first.value] + rest;
        assert AsFulfilled([first.value] + rest) == [first] + AsFulfilled(rest);
        Sequences.KeepFirst(first, AsFulfilled(rest), tail);
      } else {
        assert Successful(results) == rest;
        Sequences.DropFirst(first, AsFulfilled(rest), tail);
      }
    }
  }

  /** `successful` holds each value as often as `results` holds it
      fulfilled; with `SuccessfulInOrder`, this determines it. */
  lemma {:induction false} SuccessfulCounts(results: seq<Settled>)
    ensures forall u :: multiset(Successful(results))[u] == multiset(results)[Fulfilled(u)]
  {
    if results != [] {
      var first, tail := results[0], results[1..];
      SuccessfulCounts(tail);
      assert results == [first] + tail;
      FulfilledCountsStep(first, Successful(tail), tail);
      if first.Fulfilled? {
        assert Successful(results) == [first.value] + Successful(tail);
      } else {
        assert Successful(results) == Successful(tail);
      }
    }
  }

  /** Putting one result in front, and its value in front exactly when it
      is fulfilled, preserves the counts `SuccessfulCounts` states. */
  lemma FulfilledCountsStep(first: Settled, values: seq<Uploaded>, tail: seq<Settled>)
    requires forall u :: multiset(values)[u] == multiset(tail)[Fulfilled(u)]
    ensures first.Fulfilled? ==> forall u :: multiset([first.value] + values)[u] == multiset([first] + tail)[Fulfilled(u)]
    ensures first.Rejected? ==> forall u :: multiset(values)[u] == multiset([first] + tail)[Fulfilled(u)]
  {
  }

  function RejectedCount(results: seq<Settled>): nat {
    if results == [] then 0
    else (if results[0].Rejected? then 1 else 0) + RejectedCount(results[1..])
  }

  /** `failed`: the rejection reasons that are truthy, in order. */
  function Failed(results: seq<Settled>): (r: seq<Thrown>)
    ensures |r| <= RejectedCount(results)
    ensures forall e :: e in r <==> Rejected(e) in results && e.IsTruthy()
  {
    if results == [] then []
    else
      var rest := Failed(results[1..]);
      assert results == [results[0]] + results[1..];
      if results[0].Rejected? && results[0].reason.IsTruthy() then [results[0].reason] + rest else rest
  }

  /** Results that are all rejected, with the given reasons. */
  function AsRejected(reasons: seq<Thrown>): (r: seq<Settled>)
    ensures |r| == |reasons| && forall i :: 0 <= i < |reasons| ==> r[i] == Rejected(reasons[i])
  {
    seq(|reasons|, i requires 0 <= i < |reasons| => Rejected(reasons[i]))
  }

  /** Wrapping a reason in front of others. */
  lemma AsRejectedCons(e: Thrown, reasons: seq<Thrown>)
    ensures AsRejected([e] + reasons) == [Rejected(e)] + AsRejected(reasons)
  {
    assert AsRejected([e] + reasons) == [Rejected(e)] + AsRejected(reasons);
  }

  /** `failed` keeps the results' order: its reasons, wrapped back as
      rejected results, are a subsequence of `results`. */
  lemma {:induction false} FailedInOrder(results: seq<Settled>)
    ensures Sequences.IsSubsequence(AsRejected(Failed(results)), results)
  {
    if results != [] {
      var first, tail := results[0], results[1..];
      var rest := Failed(tail);
      FailedInOrder(tail);
      assert results == [first] + tail;
      if first.Rejected? && first.reason.IsTruthy() {
        assert Failed(results) == [first.reason] + rest;
        AsRejectedCons(first.reason, rest);
        Sequences.KeepFirst(first, AsRejected(rest), tail);
      } else {
        assert Failed(results) == rest;
        Sequences.DropFirst(first, AsRejected(rest), tail);
      }
    }
  }

  /** `failed` holds each truthy reason as often as `results` holds it
      rejected, and no falsy one; with `FailedInOrder`, this determines it. */
  lemma {:induction false} FailedCounts(results: seq<Settled>)
    ensures forall e :: multiset(Failed(results))[e] == if e.IsTruthy() then multiset(results)[Rejected(e)] else 0
  {
    if results != [] {
      FailedCounts(results[1..]);
      assert results == [results[0]] + results[1..];
    }
  }

  /** Every reported success is one of the selected files, stored under
      `product_images/<name>` and reported with the URL the handler builds
      from that key; a file
      that failed in neither step is reported. */
  lemma SuccessfulAreUploads(files: seq<string>, faults: seq<FileFault>)
    ensures forall u :: u in Successful(Outcomes(files, faults, |files|)) ==>
              u.fileName in files && u.image_key == UploadKey(u.fileName) && u.image_url == ImageUrlAsWritten(u.fileName)
    ensures forall i :: 0 <= i < |files| && FaultAt(faults, i).NoFault? ==>
              Uploaded(files[i], ImageUrlAsWritten(files[i]), UploadKey(files[i])) in Successful(Outcomes(files, faults, |files|))
  {
    var results := Outcomes(files, faults, |files|);
    forall u | u in Successful(results)
      ensures u.fileName in files && u.image_key == UploadKey(u.fileName) && u.image_url == ImageUrlAsWritten(u.fileName)
    {
      var i :| 0 <= i < |results| && results[i] == Fulfilled(u);
    }
    forall i | 0 <= i < |files| && FaultAt(faults, i).NoFault?
      ensures Uploaded(files[i], ImageUrlAsWritten(files[i]), UploadKey(files[i])) in Successful(results)
    {
      assert results[i] == Fulfilled(Uploaded(files[i], ImageUrlAsWritten(files[i]), UploadKey(files[i])));
    }
  }

  /** Every settled result is a success or a rejection, so the two counts
      add up to the number of files. */
  lemma {:induction false} SettledPartition(results: seq<Settled>)
    ensures |Successful(results)| + RejectedCount(results) == |results|
  {
    if results != [] {
      SettledPartition(results[1..]);
    }
  }

  /** The response body. */
  datatype UploadResponse =
    | UploadReport(message: string, successful: seq<Uploaded>, failed: Option<seq<Thrown>>)
    | UploadError(status: nat, error: string, details: Option<string>)

  /** What listing the directory gave. */
  datatype Listing = Files(names: seq<string>) | ReadDirFailed(error: Thrown)

  function Message(succeeded: nat, total: nat): string {
    "Uploaded " + Strings.NatToString(succeeded) + " of " + Strings.NatToString(total) + " images"
  }

  /** The handler. */
  method HandleUpload(listing: Listing, faults: seq<FileFault>) returns (resp: UploadResponse, puts: seq<Put>)
    ensures listing.ReadDirFailed? || SelectImages(listing.names) == [] ==> puts == []
    ensures listing.Files? ==> puts == Puts(SelectImages(listing.names), faults, |SelectImages(listing.names)|)
    ensures listing.ReadDirFailed? ==>
              resp == UploadError(500, "Failed to upload images", Some(listing.error.Rendered()))
    ensures listing.Files? && SelectImages(listing.names) == [] ==>
              resp == UploadError(404, "No image files found", None)
    ensures listing.Files? && SelectImages(listing.names) != [] ==>
              var files := SelectImages(listing.names);
              var results := Outcomes(files, faults, |files|);
              && resp.UploadReport?
              && resp.successful == Successful(results)
              && resp.message == Message(|resp.successful|, |files|)
              && (resp.failed.Some? <==> Failed(results) != [])
              && (resp.failed.Some? ==> resp.failed.value == Failed(results))
              && (forall u :: u in resp.successful ==>
                    u.fileName in files && u.image_key == UploadKey(u.fileName) && u.image_url == ImageUrlAsWritten(u.fileName))
  {
    match listing
    case ReadDirFailed(e) =>
      resp, puts := UploadError(500, "Failed to upload images", Some(e.Rendered())), [];
    case Files(names) =>
      var imageFiles := SelectImages(names);
      if |imageFiles| == 0 {
        return UploadError(404, "No image files found", None), [];
      }
      var results;
      results, puts := UploadAll(imageFiles, faults);
      var successful := Successful(results);
      var failed := Failed(results);
      SuccessfulAreUploads(imageFiles, faults);
      resp := UploadReport(Message(|successful|, |imageFiles|), successful,
                           if |failed| > 0 then Some(failed) else None);
  }
}
