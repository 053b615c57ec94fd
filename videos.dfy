/**
 * The video pool: the Drive files of every configured folder whose name ends,
 * ignoring case, with one of the video extensions (`list_videos_in_folder`
 * filters each folder's listing, `list_all_videos` concatenates the folders
 * in configuration order).
 */
module Videos {

  /** A Drive file as the listing returns it; only its id and name are used. */
  datatype DriveFile = DriveFile(id: string, name: string)

  const VideoExtensions: seq<string> := [".mp4", ".mov", ".m4v", ".webm"]

  /** Lower-casing of one character, for the ASCII letters. */
  function LowerChar(c: char): (l: char)
    ensures 'A' <= c <= 'Z' ==> 'a' <= l <= 'z' && l as int == c as int + 32
    ensures !('A' <= c <= 'Z') ==> l == c
  {
    if 'A' <= c <= 'Z' then (c as int + 32) as char else c
  }

  /** `s.lower()`, character by character. */
  function Lower(s: string): (l: string)
    ensures |l| == |s| && forall i :: 0 <= i < |s| ==> l[i] == LowerChar(s[i])
  {
    if s == [] then [] else [LowerChar(s[0])] + Lower(s[1..])
  }

  predicate EndsWith(s: string, suffix: string) {
    |suffix| <= |s| && s[|s| - |suffix|..] == suffix
  }

  /** The extension test: the lower-cased name ends with a video extension. */
  predicate IsVideoName(name: string)
    ensures IsVideoName(name) ==> 4 <= |name| && LowerChar(name[|name| - 1]) in "4vm"
  {
    assert forall i :: 0 <= i < |VideoExtensions| ==>
      4 <= |VideoExtensions[i]| && VideoExtensions[i][|VideoExtensions[i]| - 1] in "4vm";
    exists i :: 0 <= i < |VideoExtensions| && EndsWith(Lower(name), VideoExtensions[i])
  }

  /** The files of one listing that pass the extension test, in listing order. */
  function FilterVideos(files: seq<DriveFile>): (r: seq<DriveFile>)
    ensures |r| <= |files|
    ensures forall f :: f in r <==> f in files && IsVideoName(f.name)
  {
    if files == [] then []
    else if IsVideoName(files[0].name) then [files[0]] + FilterVideos(files[1..])
    else FilterVideos(files[1..])
  }

  /** The pool: each folder's videos, folder after folder. */
  function Pool(listings: seq<seq<DriveFile>>): (r: seq<DriveFile>)
    ensures forall f :: f in r <==> (exists k :: 0 <= k < |listings| && f in listings[k]) && IsVideoName(f.name)
  {
    if listings == [] then []
    else
      var rest := Pool(listings[1..]);
      assert forall k :: 1 <= k < |listings| ==> listings[k] == listings[1..][k - 1];
      FilterVideos(listings[0]) + rest
  }

  /** Filtering a concatenation filters each part. */
  lemma {:induction false} FilterVideosAppend(a: seq<DriveFile>, b: seq<DriveFile>)
    ensures FilterVideos(a + b) == FilterVideos(a) + FilterVideos(b)
  {
    if a == [] {
      assert a + b == b;
    } else {
      assert (a + b)[0] == a[0] && (a + b)[1..] == a[1..] + b;
      FilterVideosAppend(a[1..], b);
    }
  }

  /** Filtering twice is filtering once. */
  lemma {:induction false} FilterVideosIdempotent(files: seq<DriveFile>)
    ensures FilterVideos(FilterVideos(files)) == FilterVideos(files)
  {
    if files != [] {
      FilterVideosIdempotent(files[1..]);
      if IsVideoName(files[0].name) {
        var r := [files[0]] + FilterVideos(files[1..]);
        assert r[0] == files[0] && r[1..] == FilterVideos(files[1..]);
      }
    }
  }

  /** Listing the folders one by one is filtering their concatenation. */
  function Concat(listings: seq<seq<DriveFile>>): seq<DriveFile> {
    if listings == [] then [] else listings[0] + Concat(listings[1..])
  }

  lemma {:induction false} PoolIsFilteredConcat(listings: seq<seq<DriveFile>>)
    ensures Pool(listings) == FilterVideos(Concat(listings))
  {
    if listings != [] {
      PoolIsFilteredConcat(listings[1..]);
      FilterVideosAppend(listings[0], Concat(listings[1..]));
    }
  }

  lemma LowerAppend(a: string, b: string)
    ensures Lower(a + b) == Lower(a) + Lower(b)
  {
    var l, r := Lower(a + b), Lower(a) + Lower(b);
    forall i | 0 <= i < |l| ensures l[i] == r[i] {
      if i < |a| {
        assert (a + b)[i] == a[i];
      } else {
        assert (a + b)[i] == b[i - |a|];
      }
    }
  }

  /** Lower-casing twice is lower-casing once. */
  lemma LowerIdempotent(s: string)
    ensures Lower(Lower(s)) == Lower(s)
  {
    forall i | 0 <= i < |s| ensures Lower(Lower(s))[i] == Lower(s)[i] {
      assert LowerChar(LowerChar(s[i])) == LowerChar(s[i]);
    }
  }

  /** The extension test ignores case: a name passes exactly when its
      lower-cased form does. */
  lemma VideoTestIgnoresCase(name: string)
    ensures IsVideoName(name) <==> IsVideoName(Lower(name))
  {
    LowerIdempotent(name);
  }

  /** A name whose last characters lower-case to a video extension is a video. */
  lemma VideoByExtension(base: string, ext: string, i: nat)
    requires i < |VideoExtensions| && Lower(ext) == VideoExtensions[i]
    ensures IsVideoName(base + ext)
  {
    LowerAppend(base, ext);
    var l := Lower(base + ext);
    assert l[|l| - |ext|..] == Lower(ext);
  }

  /** Every video extension ends with '4', 'v' or 'm'; a name whose last
      character is none of these, in either case, is not a video. */
  lemma NotVideoByLastChar(name: string)
    requires name != [] && LowerChar(name[|name| - 1]) !in "4vm"
    ensures !IsVideoName(name)
  {
    var l := Lower(name);
    forall i | 0 <= i < |VideoExtensions| ensures !EndsWith(l, VideoExtensions[i]) {
      var e := VideoExtensions[i];
      assert e[|e| - 1] in "4vm";
      LastCharMismatch(l, e);
    }
  }

  lemma LastCharMismatch(s: string, suffix: string)
    requires s != [] && suffix != [] && s[|s| - 1] != suffix[|suffix| - 1]
    ensures !EndsWith(s, suffix)
  {
    if |suffix| <= |s| {
      assert s[|s| - |suffix|..][|suffix| - 1] == s[|s| - 1];
    }
  }

  lemma UpperCaseExtensionAccepted(base: string, ext: string)
    requires base == "clip" && ext == ".MP4"
    ensures IsVideoName(base + ext)
  {
    assert Lower(ext) == ".mp4";
    VideoByExtension(base, ext, 0);
  }

  lemma MixedCaseWebmAccepted(base: string, ext: string)
    requires base == "Homer" && ext == ".WebM"
    ensures IsVideoName(base + ext)
  {
    assert Lower(ext) == ".webm";
    VideoByExtension(base, ext, 3);
  }

  lemma TextFileRejected(name: string)
    requires name == "notes.txt"
    ensures !IsVideoName(name)
  {
    NotVideoByLastChar(name);
  }
}
