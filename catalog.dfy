/** The video listing (`get_video_list`): a scan of the share folder keeping
    the files with a video extension, as paths relative to the folder with
    '/' separators, and one cached listing per folder (the public one and the
    secret one), refreshed after VIDEO_CACHE_EXPIRE seconds. The directory
    walk is an input: the (relative directory, file name) pairs in walk order. */
module Catalog {
  import opened Text

  /** Seconds a non-empty listing is served from the cache. */
  const VIDEO_CACHE_EXPIRE := 300

  /** The accepted extensions, compared with the lower-cased file name. */
  const EXTENSIONS: seq<string> := [".mp4", ".webm", ".ogg", ".mkv", ".rmvb", ".avi", ".flv", ".mov", ".wmv"]

  /** One file found by the walk, with its directory relative to the root
      (`os.path.relpath(root, video_root)`, "." for the root itself). */
  datatype Found = Found(relDir: string, file: string)

  predicate IsVideo(file: string)
  {
    exists x :: x in EXTENSIONS && EndsWith(Lower(file), x)
  }

  /** The listed path: the bare name in the root, otherwise the Windows join
      `relDir\file`, with every '\' turned into '/'. */
  function RelPath(f: Found): (r: string)
    ensures '\\' !in r
  {
    var joined := if f.relDir != "." then f.relDir + "\\" + f.file else f.file;
    ReplaceChar(joined, '\\', '/')
  }

  /** The listing a scan produces, in walk order. */
  function Listing(walk: seq<Found>): seq<string>
  {
    if walk == [] then []
    else
      var rest := Listing(walk[..|walk| - 1]);
      var f := walk[|walk| - 1];
      if IsVideo(f.file) then rest + [RelPath(f)] else rest
  }

  /** The scan loop over the walk. */
  method Scan(walk: seq<Found>) returns (files: seq<string>)
    ensures files == Listing(walk)
  {
    files := [];
    var i := 0;
    while i < |walk|
      invariant 0 <= i <= |walk|
      invariant files == Listing(walk[..i])
    {
      assert walk[..i + 1][..i] == walk[..i];
      var f := walk[i];
      if IsVideo(f.file) {
        files := files + [RelPath(f)];
      }
      i := i + 1;
    }
    assert walk[..i] == walk;
  }

  /** Replacing backslashes after a prefix keeps a backslash-free suffix of
      the lower-cased name. */
  lemma SuffixSurvives(pre: string, file: string, x: string)
    requires '\\' !in x && EndsWith(Lower(file), x)
    ensures EndsWith(Lower(ReplaceChar(pre + file, '\\', '/')), x)
  {
    var joined := pre + file;
    var low := Lower(ReplaceChar(joined, '\\', '/'));
    forall k | 0 <= k < |x|
      ensures low[|low| - |x| + k] == x[k]
    {
      var j := |file| - |x| + k;
      assert Lower(file)[|file| - |x|..][k] == x[k];
      assert joined[|pre| + j] == file[j];
    }
    assert low[|low| - |x|..] == x;
  }

  /** The lower-cased listed path ends with the extension the file name ends with. */
  lemma KeepsExtension(f: Found, x: string)
    requires '\\' !in x && EndsWith(Lower(f.file), x)
    ensures EndsWith(Lower(RelPath(f)), x)
  {
    if f.relDir != "." {
      assert f.relDir + "\\" + f.file == (f.relDir + "\\") + f.file;
      SuffixSurvives(f.relDir + "\\", f.file, x);
    } else {
      assert [] + f.file == f.file;
      SuffixSurvives([], f.file, x);
    }
  }

  lemma ExtensionsHaveNoBackslash(x: string)
    requires x in EXTENSIONS
    ensures '\\' !in x
  {
  }

  /** Every listed path comes from a video file of the walk: its lower-cased
      form ends with one of the nine extensions, and it holds no backslash. */
  lemma {:induction false} ListingIsClean(walk: seq<Found>, i: nat)
    requires i < |Listing(walk)|
    ensures exists f :: f in walk && IsVideo(f.file) && Listing(walk)[i] == RelPath(f)
    ensures exists x :: x in EXTENSIONS && EndsWith(Lower(Listing(walk)[i]), x)
    ensures '\\' !in Listing(walk)[i]
  {
    var rest := Listing(walk[..|walk| - 1]);
    var f := walk[|walk| - 1];
    if i < |rest| {
      ListingIsClean(walk[..|walk| - 1], i);
      var g :| g in walk[..|walk| - 1] && IsVideo(g.file) && rest[i] == RelPath(g);
      assert g in walk;
    } else {
      assert IsVideo(f.file) && Listing(walk)[i] == RelPath(f);
      var x :| x in EXTENSIONS && EndsWith(Lower(f.file), x);
      ExtensionsHaveNoBackslash(x);
      KeepsExtension(f, x);
    }
  }

  /** Every video file of the walk is listed. */
  lemma {:induction false} ListingComplete(walk: seq<Found>, f: Found)
    requires f in walk
    ensures IsVideo(f.file) ==> RelPath(f) in Listing(walk)
  {
    var p := walk[..|walk| - 1];
    if f != walk[|walk| - 1] {
      assert f in p;
      ListingComplete(p, f);
    }
  }

  /** One of the two cached listings. */
  class ListingCache {
    var files: seq<string>
    var lastUpdate: int

    constructor ()
      ensures files == [] && lastUpdate == 0
    {
      files := [];
      lastUpdate := 0;
    }

    /** The cached listing is served only when no refresh is forced, it is
        non-empty and it is younger than VIDEO_CACHE_EXPIRE seconds. */
    predicate Fresh(force: bool, now: int)
      reads this
    {
      !force && files != [] && now - lastUpdate < VIDEO_CACHE_EXPIRE
    }

    /** `get_video_list` for this folder at time `now`; `rootExists` stands
        for `os.path.exists(video_root)` and `walk` for `os.walk`. */
    method List(force: bool, now: int, rootExists: bool, walk: seq<Found>) returns (result: seq<string>)
      modifies this
      ensures old(Fresh(force, now)) ==> result == old(files) && files == old(files) && lastUpdate == old(lastUpdate)
      ensures !old(Fresh(force, now)) && !rootExists ==> result == [] && files == [] && lastUpdate == now
      ensures !old(Fresh(force, now)) && rootExists ==> result == Listing(walk) && files == result && lastUpdate == now
    {
      if Fresh(force, now) {
        return files;
      }
      if !rootExists {
        files := [];
        lastUpdate := now;
        return [];
      }
      var scanned := Scan(walk);
      files := scanned;
      lastUpdate := now;
      result := scanned;
    }
  }

  /** The two listings, one per folder. */
  class Library {
    var normal: ListingCache
    var secret: ListingCache

    ghost predicate Valid()
      reads this
    {
      normal != secret
    }

    constructor ()
      ensures Valid() && fresh(normal) && fresh(secret)
      ensures normal.files == [] && secret.files == []
    {
      normal := new ListingCache();
      secret := new ListingCache();
    }

    /** `get_video_list(is_secret, force_refresh)`: only the chosen folder's
        cache is consulted and updated. */
    method VideoList(isSecret: bool, force: bool, now: int, rootExists: bool, walk: seq<Found>)
      returns (result: seq<string>)
      requires Valid()
      modifies normal, secret
      ensures Valid() && normal == old(normal) && secret == old(secret)
      ensures isSecret ==> normal.files == old(normal.files) && normal.lastUpdate == old(normal.lastUpdate)
      ensures !isSecret ==> secret.files == old(secret.files) && secret.lastUpdate == old(secret.lastUpdate)
      ensures var c := if isSecret then secret else normal;
        if old(c.Fresh(force, now)) then result == old(c.files) && c.files == old(c.files) && c.lastUpdate == old(c.lastUpdate)
        else result == (if rootExists then Listing(walk) else []) && c.files == result && c.lastUpdate == now
    {
      if isSecret {
        result := secret.List(force, now, rootExists, walk);
      } else {
        result := normal.List(force, now, rootExists, walk);
      }
    }
  }
}
