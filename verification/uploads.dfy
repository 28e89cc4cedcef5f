/**
 * Upload rules of the two services: the video MIME allow-list, the video size
 * ceiling, and the public path an uploaded file is stored under. The bytes
 * themselves, the write streams and the directories are not modelled; an
 * upload is its file name, its declared MIME type and its size in bytes.
 */
module Uploads {
  import opened Wrappers
  import opened Errors
  import opened Ascii

  datatype FileUpload = FileUpload(filename: string, mimetype: string, size: nat)

  /** The MIME types a video upload may declare. */
  const VideoMimeTypes: seq<string> := ["video/mp4", "video/webm", "video/ogg"]

  /** 25 MB: the most bytes a video upload may stream before it is rejected. */
  const MaxVideoBytes: nat := 25 * 1024 * 1024

  /** The sub-directories of `/uploads` each kind of file is stored in. */
  const NewsImageDir: string := "news"
  const VideoDir: string := "videos"
  const ProductImageDir: string := "products"

  const UploadsPrefix: string := "/uploads/"

  /** The video checks of the news service: the MIME type first, then the size ceiling. */
  function ValidateVideoFile(file: FileUpload): (r: Outcome<Error>)
    ensures r.Pass? <==> file.mimetype in VideoMimeTypes && file.size <= MaxVideoBytes
    ensures file.mimetype !in VideoMimeTypes ==> r == Fail(InvalidVideoType)
    ensures file.mimetype in VideoMimeTypes && file.size > MaxVideoBytes ==> r == Fail(VideoTooLarge)
  {
    if file.mimetype !in VideoMimeTypes then Fail(InvalidVideoType)
    else if file.size > MaxVideoBytes then Fail(VideoTooLarge)
    else Pass
  }

  /** The number of bytes in a sequence of stream chunks. */
  function TotalBytes(chunks: seq<nat>): nat
    decreases |chunks|
  {
    if |chunks| == 0 then 0 else chunks[0] + TotalBytes(chunks[1..])
  }

  /** The running check on the video stream: each chunk adds its length to the count `seen`,
      and the upload is aborted with the size error as soon as the count passes the ceiling. */
  function StreamSizeCheck(seen: nat, chunks: seq<nat>): Outcome<Error>
    decreases |chunks|
  {
    if |chunks| == 0 then Pass
    else if seen + chunks[0] > MaxVideoBytes then Fail(VideoTooLarge)
    else StreamSizeCheck(seen + chunks[0], chunks[1..])
  }

  /** Checking the count chunk by chunk, from a count that has not yet passed the ceiling,
      rejects a stream exactly when its total passes the ceiling, and then always with the size
      error. */
  lemma {:induction false} StreamSizeCheckIsTotalCheck(seen: nat, chunks: seq<nat>)
    requires seen <= MaxVideoBytes
    ensures StreamSizeCheck(seen, chunks).Pass? <==> seen + TotalBytes(chunks) <= MaxVideoBytes
    ensures StreamSizeCheck(seen, chunks).Fail? ==> StreamSizeCheck(seen, chunks) == Fail(VideoTooLarge)
    decreases |chunks|
  {
    if |chunks| > 0 {
      if seen + chunks[0] <= MaxVideoBytes {
        StreamSizeCheckIsTotalCheck(seen + chunks[0], chunks[1..]);
      } else {
        assert TotalBytes(chunks) >= chunks[0];
      }
    }
  }

  /** The video check on a file's total size is the type check followed by the streamed size
      check, for every way the file's bytes arrive in chunks. */
  lemma StreamedVideoCheck(file: FileUpload, chunks: seq<nat>)
    requires TotalBytes(chunks) == file.size
    ensures ValidateVideoFile(file)
      == if file.mimetype !in VideoMimeTypes then Fail(InvalidVideoType) else StreamSizeCheck(0, chunks)
  {
    StreamSizeCheckIsTotalCheck(0, chunks);
  }

  /** `/uploads/<dir>/<timestamp>-<name>`, the timestamp written in decimal. */
  function UploadPath(dir: string, timestamp: nat, name: string): string {
    UploadsPrefix + dir + "/" + Decimal(timestamp) + "-" + name
  }

  /** The index of the first occurrence of `c`, or -1. */
  function FirstIndexOf(s: string, c: char): (r: int)
    ensures -1 <= r < |s|
    ensures r >= 0 ==> s[r] == c
    ensures forall k :: 0 <= k < |s| && (r < 0 || k < r) ==> s[k] != c
    decreases |s|
  {
    if |s| == 0 then -1
    else if s[0] == c then 0
    else var r := FirstIndexOf(s[1..], c); if r < 0 then -1 else r + 1
  }

  /** The length of the leading run of decimal digits. */
  function DigitRunLength(s: string): (n: nat)
    ensures n <= |s| && AllDigits(s[..n])
    ensures n < |s| ==> !IsDigit(s[n])
    decreases |s|
  {
    if |s| > 0 && IsDigit(s[0]) then
      var n := DigitRunLength(s[1..]);
      assert s[..n + 1] == [s[0]] + s[1..][..n];
      n + 1
    else 0
  }

  /** Reads a stored path back into its directory, timestamp and file name. */
  function ParseUploadPath(path: string): Option<(string, nat, string)> {
    if |path| < |UploadsPrefix| || path[..|UploadsPrefix|] != UploadsPrefix then None
    else
      var rest := path[|UploadsPrefix|..];
      var slash := FirstIndexOf(rest, '/');
      if slash < 0 then None
      else
        var dir := rest[..slash];
        var tail := rest[slash + 1..];
        var n := DigitRunLength(tail);
        if n == 0 || n == |tail| || tail[n] != '-' then None
        else Some((dir, ParseDecimal(tail[..n]), tail[n + 1..]))
  }

  /** A directory name without a slash, as the three upload directories are. */
  predicate IsDirName(dir: string) { forall k :: 0 <= k < |dir| ==> dir[k] != '/' }

  /** FirstIndexOf is pinned down by its contract. */
  lemma {:induction false} FirstIndexOfIs(s: string, c: char, q: nat)
    requires q < |s| && s[q] == c
    requires forall k :: 0 <= k < q ==> s[k] != c
    ensures FirstIndexOf(s, c) == q
  {
  }

  /** DigitRunLength is pinned down by its contract. */
  lemma {:induction false} DigitRunLengthIs(s: string, n: nat)
    requires n < |s| && AllDigits(s[..n]) && !IsDigit(s[n])
    ensures DigitRunLength(s) == n
    decreases n
  {
    if n > 0 {
      assert IsDigit(s[..n][0]);
      assert s[1..][..n - 1] == s[..n][1..];
      DigitRunLengthIs(s[1..], n - 1);
    }
  }

  /** The path splits into the directory, the digits of the timestamp, a dash and the name. */
  lemma UploadPathShape(dir: string, timestamp: nat, name: string)
    ensures var path := UploadPath(dir, timestamp, name);
      && |path| >= |UploadsPrefix|
      && path[..|UploadsPrefix|] == UploadsPrefix
      && path[|UploadsPrefix|..] == dir + "/" + (Decimal(timestamp) + "-" + name)
  {
  }

  /** The stored path can be read back: directory, timestamp and file name are recovered. */
  lemma {:induction false} ParseUploadPathOfUploadPath(dir: string, timestamp: nat, name: string)
    requires IsDirName(dir)
    ensures ParseUploadPath(UploadPath(dir, timestamp, name)) == Some((dir, timestamp, name))
  {
    UploadPathShape(dir, timestamp, name);
    var d := Decimal(timestamp);
    var tail := d + "-" + name;
    var rest := dir + "/" + tail;
    forall k | 0 <= k < |dir|
      ensures rest[k] != '/'
    {
      assert rest[k] == dir[k];
    }
    FirstIndexOfIs(rest, '/', |dir|);
    assert rest[..|dir|] == dir;
    assert rest[|dir| + 1..] == tail;
    assert tail[..|d|] == d;
    DigitRunLengthIs(tail, |d|);
    assert tail[|d| + 1..] == name;
    ParseDecimalOfDecimal(timestamp);
  }

  /** Within one directory, two uploads get the same stored path only when both the timestamp
      and the file name agree. */
  lemma UploadPathInjective(dir: string, t1: nat, n1: string, t2: nat, n2: string)
    requires IsDirName(dir)
    requires UploadPath(dir, t1, n1) == UploadPath(dir, t2, n2)
    ensures t1 == t2 && n1 == n2
  {
    ParseUploadPathOfUploadPath(dir, t1, n1);
    ParseUploadPathOfUploadPath(dir, t2, n2);
  }

  /** A news image `a.png` uploaded at time 42 is stored under its raw name. */
  lemma UploadPathExample()
    ensures UploadPath(NewsImageDir, 42, "a.png") == "/uploads/news/42-a.png"
  {
    assert Decimal(42) == "42";
  }
}
