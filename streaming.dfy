/** The `/video/<filename>` route: the MIME type from the file extension, the
    full body read in CHUNK_SIZE pieces, and the arithmetic of a `Range`
    request (section 14.2 of RFC 9110) answered with 206 and `Content-Range`
    (section 14.4). The file system is an input: whether the file exists and
    its bytes. */
module Streaming {
  import opened Text

  newtype byte = x: int | 0 <= x < 256

  /** Bytes per read of the full-body generator. */
  const CHUNK_SIZE := 65536
  const DEFAULT_MIME := "video/mp4"

  type Header = (string, string)

  datatype Response =
    | NotFound                                         // 404 'File not found'
    | ServerError                                      // 500: the Range header raised
    | Full(mimetype: string, headers: seq<Header>, body: seq<seq<byte>>)   // 200
    | Partial(mimetype: string, headers: seq<Header>)  // 206, empty body

  // ---------------------------------------------------------------------------
  // File extension and MIME type

  predicate IsSep(c: char) { c == '/' || c == '\\' }

  /** The last separator position, or -1. */
  function LastSep(p: string): (i: int)
    ensures -1 <= i < |p|
    ensures i >= 0 ==> IsSep(p[i])
    ensures forall j :: i < j < |p| ==> !IsSep(p[j])
  {
    if p == [] then -1
    else if IsSep(p[|p| - 1]) then |p| - 1
    else LastSep(p[..|p| - 1])
  }

  /** The last '.' position, or -1. */
  function LastDot(p: string): (i: int)
    ensures -1 <= i < |p|
    ensures i >= 0 ==> p[i] == '.'
    ensures forall j :: i < j < |p| ==> p[j] != '.'
  {
    if p == [] then -1
    else if p[|p| - 1] == '.' then |p| - 1
    else LastDot(p[..|p| - 1])
  }

  /** `os.path.splitext(p)[1]` with Windows separators: the text from the last
      '.' of the last path component, unless that component has only dots
      before it (a leading-dot name has no extension). */
  function Ext(p: string): (e: string)
    ensures e == [] || (|e| <= |p| && e == p[|p| - |e|..] && e[0] == '.' && '.' !in e[1..])
    ensures forall i :: 0 <= i < |e| ==> !IsSep(e[i])
  {
    var sep := LastSep(p);
    var dot := LastDot(p);
    if dot > sep && exists j :: sep < j < dot && p[j] != '.' then
      assert p[dot..][1..] == p[dot + 1..];
      p[dot..]
    else []
  }

  /** The MIME table of the route (`.wmv` is absent and falls back). */
  function MimeOf(ext: string): Option<string>
  {
    if ext == ".mp4" then Some("video/mp4")
    else if ext == ".webm" then Some("video/webm")
    else if ext == ".ogg" then Some("video/ogg")
    else if ext == ".mkv" then Some("video/x-matroska")
    else if ext == ".rmvb" then Some("application/vnd.rn-realmedia-vbr")
    else if ext == ".avi" then Some("video/x-msvideo")
    else if ext == ".flv" then Some("video/x-flv")
    else if ext == ".mov" then Some("video/quicktime")
    else None
  }

  function MimeType(filename: string): string
  {
    var m := MimeOf(Lower(Ext(filename)));
    if m.Some? then m.value else DEFAULT_MIME
  }

  /** The last '.' is pinned down by its position and the dot-free rest. */
  lemma LastDotIs(p: string, d: int)
    requires 0 <= d < |p| && p[d] == '.'
    requires forall j :: d < j < |p| ==> p[j] != '.'
    ensures LastDot(p) == d
  {
  }

  /** The last separator is pinned down by its position and the rest. */
  lemma LastSepIs(p: string, d: int)
    requires -1 <= d < |p| && (d >= 0 ==> IsSep(p[d]))
    requires forall j :: d < j < |p| ==> !IsSep(p[j])
    ensures LastSep(p) == d
  {
  }

  /** With a non-dot between the last separator and the last dot, the
      extension runs from that dot. */
  lemma ExtFromDot(p: string, j: int)
    requires LastSep(p) < j < LastDot(p) && p[j] != '.'
    ensures Ext(p) == p[LastDot(p)..]
  {
  }

  lemma DotSuffix(name: string, suffix: string)
    ensures (name + "." + suffix)[|name|..] == "." + suffix
  {
  }

  /** A dot followed by a dot-free suffix is the last dot. */
  lemma LastDotBefore(q: string, suffix: string)
    requires |q| > 0 && q[|q| - 1] == '.'
    requires forall j :: 0 <= j < |suffix| ==> suffix[j] != '.'
    ensures LastDot(q + suffix) == |q| - 1
  {
    var p := q + suffix;
    assert forall j :: |q| <= j < |p| ==> p[j] == suffix[j - |q|];
    LastDotIs(p, |q| - 1);
  }

  /** A separator-free tail leaves the last separator where `q` put it. */
  lemma LastSepBefore(q: string, t: string)
    requires q == [] || IsSep(q[|q| - 1])
    requires forall j :: 0 <= j < |t| ==> !IsSep(t[j])
    ensures LastSep(q + t) == |q| - 1
  {
    var p := q + t;
    assert forall j :: |q| <= j < |p| ==> p[j] == t[j - |q|];
    if q != [] {
      assert p[|q| - 1] == q[|q| - 1];
    }
    LastSepIs(p, |q| - 1);
  }

  /** `stem.suffix` has no separator when neither part has one. */
  lemma NoSepInLast(stem: string, suffix: string)
    requires forall j :: 0 <= j < |stem| ==> !IsSep(stem[j])
    requires forall j :: 0 <= j < |suffix| ==> !IsSep(suffix[j])
    ensures forall j :: 0 <= j < |stem + "." + suffix| ==> !IsSep((stem + "." + suffix)[j])
  {
  }

  lemma Regroup(dir: string, stem: string, suffix: string)
    ensures dir + stem + "." + suffix == dir + (stem + "." + suffix)
  {
  }

  /** The last separator of `dir stem.suffix` ends `dir`. */
  lemma LastSepOfName(dir: string, stem: string, suffix: string)
    requires dir == [] || IsSep(dir[|dir| - 1])
    requires forall j :: 0 <= j < |stem| ==> !IsSep(stem[j])
    requires forall j :: 0 <= j < |suffix| ==> !IsSep(suffix[j])
    ensures LastSep(dir + stem + "." + suffix) == |dir| - 1
  {
    NoSepInLast(stem, suffix);
    Regroup(dir, stem, suffix);
    LastSepBefore(dir, stem + "." + suffix);
  }

  lemma StemIndex(dir: string, stem: string, suffix: string, j: int)
    requires 0 <= j < |stem|
    ensures |dir| + j < |dir + stem + "." + suffix|
    ensures (dir + stem + "." + suffix)[|dir| + j] == stem[j]
  {
  }

  /** A name whose last component is `stem.suffix` has extension `.suffix`. */
  lemma ExtOfName(dir: string, stem: string, suffix: string)
    requires dir == [] || IsSep(dir[|dir| - 1])
    requires forall j :: 0 <= j < |stem| ==> !IsSep(stem[j])
    requires exists j :: 0 <= j < |stem| && stem[j] != '.'
    requires forall j :: 0 <= j < |suffix| ==> !IsSep(suffix[j]) && suffix[j] != '.'
    ensures Ext(dir + stem + "." + suffix) == "." + suffix
  {
    var p := dir + stem + "." + suffix;
    LastDotBefore(dir + stem + ".", suffix);
    LastSepOfName(dir, stem, suffix);
    var j :| 0 <= j < |stem| && stem[j] != '.';
    StemIndex(dir, stem, suffix, j);
    ExtFromDot(p, |dir| + j);
    DotSuffix(dir + stem, suffix);
  }

  /** A name made only of dots after its separator, like `.mp4`, has no extension. */
  lemma ExtOfDotName(dir: string, suffix: string)
    requires dir == [] || IsSep(dir[|dir| - 1])
    requires forall j :: 0 <= j < |suffix| ==> !IsSep(suffix[j]) && suffix[j] != '.'
    ensures Ext(dir + "." + suffix) == []
  {
    var p := dir + "." + suffix;
    var dot := |dir|;
    assert p[dot] == '.';
    assert forall j :: dot < j < |p| ==> p[j] == suffix[j - dot - 1];
    if dir != [] {
      assert p[|dir| - 1] == dir[|dir| - 1];
    }
  }

  /** The MIME type of a name ending in `stem.suffix` is looked up by the
      lower-cased suffix, with `video/mp4` when the table has no entry. */
  lemma {:induction false} MimeTypeOfName(dir: string, stem: string, suffix: string)
    requires dir == [] || IsSep(dir[|dir| - 1])
    requires forall j :: 0 <= j < |stem| ==> !IsSep(stem[j])
    requires exists j :: 0 <= j < |stem| && stem[j] != '.'
    requires forall j :: 0 <= j < |suffix| ==> !IsSep(suffix[j]) && suffix[j] != '.'
    ensures MimeType(dir + stem + "." + suffix) ==
              var m := MimeOf("." + Lower(suffix));
              if m.Some? then m.value else DEFAULT_MIME
  {
    ExtOfName(dir, stem, suffix);
    assert Lower("." + suffix) == "." + Lower(suffix);
  }

  /** `.wmv` is listed by the catalog but missing from the MIME table. */
  lemma WmvFallsBack()
    ensures MimeOf(".wmv").None? && MimeOf(".mp4") == Some(DEFAULT_MIME)
  {
  }

  // ---------------------------------------------------------------------------
  // The full body

  function Min(a: int, b: int): int { if a < b then a else b }

  /** The chunks `generate_full` yields when every read succeeds: CHUNK_SIZE
      bytes at a time, the last one shorter, and nothing for an empty file. */
  function Chunks(content: seq<byte>): (r: seq<seq<byte>>)
    decreases |content|
  {
    if content == [] then []
    else
      var n := Min(CHUNK_SIZE, |content|);
      [content[..n]] + Chunks(content[n..])
  }

  function Flatten(chunks: seq<seq<byte>>): seq<byte>
  {
    if chunks == [] then [] else chunks[0] + Flatten(chunks[1..])
  }

  /** What the client receives when read number `failAt` raises `IOError`
      (read 0 standing also for the open): the chunks read before it, then
      one empty chunk. A failure after the end-of-file read changes nothing. */
  function ChunkStream(content: seq<byte>, failAt: Option<nat>): seq<seq<byte>>
  {
    var all := Chunks(content);
    if failAt.Some? && failAt.value <= |all| then all[..failAt.value] + [[]] else all
  }

  /** The chunks put back together are the file. */
  lemma {:induction false} FlattenChunks(content: seq<byte>)
    ensures Flatten(Chunks(content)) == content
    decreases |content|
  {
    if content != [] {
      var n := Min(CHUNK_SIZE, |content|);
      FlattenChunks(content[n..]);
      assert Chunks(content)[1..] == Chunks(content[n..]);
      assert content[..n] + content[n..] == content;
    }
  }

  /** Every chunk is non-empty and at most CHUNK_SIZE long; all but the last are full. */
  lemma {:induction false} ChunkSizes(content: seq<byte>, i: nat)
    requires i < |Chunks(content)|
    ensures 0 < |Chunks(content)[i]| <= CHUNK_SIZE
    ensures i < |Chunks(content)| - 1 ==> |Chunks(content)[i]| == CHUNK_SIZE
    decreases |content|
  {
    var n := Min(CHUNK_SIZE, |content|);
    if i > 0 {
      assert Chunks(content)[i] == Chunks(content[n..])[i - 1];
      ChunkSizes(content[n..], i - 1);
    } else if |Chunks(content)| > 1 {
      assert content[n..] != [];
    }
  }

  /** There are ceil(|content| / CHUNK_SIZE) chunks. */
  lemma {:induction false} ChunkCount(content: seq<byte>)
    ensures |Chunks(content)| == (|content| + CHUNK_SIZE - 1) / CHUNK_SIZE
    decreases |content|
  {
    if content != [] {
      var n := Min(CHUNK_SIZE, |content|);
      ChunkCount(content[n..]);
    }
  }

  /** The chunks of a suffix: one read's worth, then the chunks after it. */
  lemma ChunksFrom(content: seq<byte>, pos: nat)
    requires pos < |content|
    ensures var n := Min(CHUNK_SIZE, |content| - pos);
      Chunks(content[pos..]) == [content[pos..pos + n]] + Chunks(content[pos + n..])
  {
    var n := Min(CHUNK_SIZE, |content| - pos);
    assert content[pos..][..n] == content[pos..pos + n];
    assert content[pos..][n..] == content[pos + n..];
  }

  lemma AppendAssoc(a: seq<seq<byte>>, b: seq<seq<byte>>, c: seq<seq<byte>>)
    ensures a + (b + c) == (a + b) + c
  {
  }

  /** One successful read keeps "the chunks so far, then those of the rest"
      equal to the chunks of the file. */
  lemma ReadStep(content: seq<byte>, chunks: seq<seq<byte>>, pos: nat)
    requires pos < |content| && chunks + Chunks(content[pos..]) == Chunks(content)
    ensures var n := Min(CHUNK_SIZE, |content| - pos);
      (chunks + [content[pos..pos + n]]) + Chunks(content[pos + n..]) == Chunks(content)
  {
    var n := Min(CHUNK_SIZE, |content| - pos);
    ChunksFrom(content, pos);
    AppendAssoc(chunks, [content[pos..pos + n]], Chunks(content[pos + n..]));
  }

  /** A read that raises after `chunks` ends the stream with one empty chunk. */
  lemma StreamOnFailure(content: seq<byte>, chunks: seq<seq<byte>>, pos: nat)
    requires pos <= |content| && chunks + Chunks(content[pos..]) == Chunks(content)
    ensures ChunkStream(content, Some(|chunks|)) == chunks + [[]]
  {
    assert (chunks + Chunks(content[pos..]))[..|chunks|] == chunks;
  }

  /** Once the file is read through, the stream is the chunks read, unless a
      later read was to fail. */
  lemma StreamAtEnd(content: seq<byte>, chunks: seq<seq<byte>>, failAt: Option<nat>)
    requires chunks + Chunks(content[|content|..]) == Chunks(content)
    requires failAt.None? || failAt.value > |chunks|
    ensures ChunkStream(content, failAt) == chunks
  {
    assert content[|content|..] == [];
    assert chunks + [] == chunks;
  }

  /** `generate_full`: read CHUNK_SIZE bytes until a read returns nothing;
      an `IOError` at read number `failAt` ends the stream with an empty chunk. */
  method ReadChunks(content: seq<byte>, failAt: Option<nat>) returns (chunks: seq<seq<byte>>)
    ensures chunks == ChunkStream(content, failAt)
  {
    chunks := [];
    var pos := 0;
    while true
      invariant 0 <= pos <= |content|
      invariant chunks + Chunks(content[pos..]) == Chunks(content)
      invariant failAt.None? || failAt.value >= |chunks|
      decreases |content| - pos
    {
      if failAt == Some(|chunks|) {
        StreamOnFailure(content, chunks, pos);
        chunks := chunks + [[]];
        return;
      }
      var n := Min(CHUNK_SIZE, |content| - pos);
      var data := content[pos..pos + n];
      if |data| == 0 {
        StreamAtEnd(content, chunks, failAt);
        break;
      }
      ReadStep(content, chunks, pos);
      chunks := chunks + [data];
      pos := pos + n;
    }
  }

  // ---------------------------------------------------------------------------
  // Byte ranges

  /** One bound of the range: an empty piece takes the default, anything
      else goes through `int()`. */
  function Bound(piece: string, default: int): Option<int>
  {
    if piece == [] then Some(default) else ParseInt(piece)
  }

  /** The two bounds of `Range: bytes=A-B` as the route reads them: `bytes=`
      removed everywhere, the rest split on '-', an empty first piece meaning 0
      and an empty second piece meaning the last byte. `None` stands for the
      exception (a missing '-' or a bound `int()` rejects) that becomes a 500. */
  function ParseRange(header: string, size: nat): Option<(int, int)>
  {
    var m := Split(RemoveAll(header, "bytes="), '-');
    if |m| < 2 then None
    else
      var b1 := Bound(m[0], 0);
      var b2 := Bound(m[1], size - 1);
      if b1.None? || b2.None? then None else Some((b1.value, b2.value))
  }

  datatype Span = Span(first: nat, last: nat, length: nat)

  /** The clamped span: the first byte into [0, size-1], the last byte into
      [first, size-1], and the length between them. For a non-empty file the
      span lies inside it and is never empty; a request inside the file is
      served exactly; a zero-byte file still reports the span 0-0 of length 1. */
  function Clamp(b1: int, b2: int, size: nat): (r: Span)
    ensures r.length == r.last - r.first + 1
    ensures size >= 1 ==> 0 <= r.first <= r.last <= size - 1 && 1 <= r.length <= size
    ensures 0 <= b1 <= b2 < size ==> r.first == b1 && r.last == b2
    ensures size == 0 ==> r == Span(0, 0, 1)
  {
    var first := if b1 < size - 1 then b1 else size - 1;
    var first := if first < 0 then 0 else first;
    var last := if b2 < size - 1 then b2 else size - 1;
    var last := if last < first then first else last;
    Span(first, last, last - first + 1)
  }

  /** The range once the header is split into its two pieces. */
  lemma ParseRangeOfPieces(header: string, size: nat, x: string, y: string)
    requires Split(RemoveAll(header, "bytes="), '-') == [x, y]
    ensures ParseRange(header, size) ==
      if Bound(x, 0).None? || Bound(y, size - 1).None? then None
      else Some((Bound(x, 0).value, Bound(y, size - 1).value))
  {
  }

  /** `bytes=x-y` splits into x and y when neither holds '-' or 'b'. */
  lemma SplitHeader(x: string, y: string)
    requires '-' !in x && '-' !in y && 'b' !in x && 'b' !in y
    ensures Split(RemoveAll("bytes=" + x + "-" + y, "bytes="), '-') == [x, y]
  {
    var rest := x + "-" + y;
    assert "bytes=" + x + "-" + y == "bytes=" + rest;
    RemovePrefix(rest);
    SplitNoSeparator(y, '-');
    SplitAtSeparator(x, y, '-');
  }

  /** `bytes=A-B` with decimal bounds parses back to (A, B). */
  lemma ParseRangeRoundTrip(a: nat, b: nat, size: nat)
    requires |Decimal(a)| <= INT_MAX_STR_DIGITS && |Decimal(b)| <= INT_MAX_STR_DIGITS
    ensures ParseRange("bytes=" + Decimal(a) + "-" + Decimal(b), size) == Some((a as int, b as int))
  {
    var x := Decimal(a);
    var y := Decimal(b);
    NoLetterInDigits(x);
    NoLetterInDigits(y);
    SplitHeader(x, y);
    ParseRangeOfPieces("bytes=" + x + "-" + y, size, x, y);
    ParseDecimal(a);
    ParseDecimal(b);
  }

  /** `bytes=A-` runs to the last byte. */
  lemma ParseRangeOpenEnd(a: nat, size: nat)
    requires |Decimal(a)| <= INT_MAX_STR_DIGITS
    ensures ParseRange("bytes=" + Decimal(a) + "-", size) == Some((a as int, size - 1))
  {
    var x := Decimal(a);
    NoLetterInDigits(x);
    SplitHeader(x, []);
    assert "bytes=" + x + "-" + [] == "bytes=" + x + "-";
    ParseRangeOfPieces("bytes=" + x + "-", size, x, []);
    ParseDecimal(a);
  }

  /** `bytes=-B` is read as 0..B, not as the last B bytes of section 14.1.2 of
      RFC 9110. */
  lemma ParseRangeSuffix(b: nat, size: nat)
    requires |Decimal(b)| <= INT_MAX_STR_DIGITS
    ensures ParseRange("bytes=-" + Decimal(b), size) == Some((0, b as int))
  {
    var y := Decimal(b);
    NoLetterInDigits(y);
    SplitHeader([], y);
    assert "bytes=" + [] + "-" + y == "bytes=-" + y;
    ParseRangeOfPieces("bytes=-" + y, size, [], y);
    ParseDecimal(b);
  }

  /** A first bound beyond the digit limit makes `int()` raise: a server
      error, not a clamped 206. */
  lemma ParseRangeHugeBound(a: nat, size: nat)
    requires |Decimal(a)| > INT_MAX_STR_DIGITS
    ensures ParseRange("bytes=" + Decimal(a) + "-", size).None?
  {
    var x := Decimal(a);
    NoLetterInDigits(x);
    SplitHeader(x, []);
    assert "bytes=" + x + "-" + [] == "bytes=" + x + "-";
    ParseRangeOfPieces("bytes=" + x + "-", size, x, []);
    ParseIntDigitLimit(x);
  }

  /** A header without '-' after removing `bytes=` is a server error. */
  lemma ParseRangeNoDash(header: string, size: nat)
    requires '-' !in RemoveAll(header, "bytes=")
    ensures ParseRange(header, size).None?
  {
    SplitNoSeparator(RemoveAll(header, "bytes="), '-');
  }

  lemma NoLetterInDigits(s: string)
    requires AllDigits(s)
    ensures 'b' !in s && '-' !in s
  {
  }

  /** Removing `bytes=` from `bytes=` + rest, when rest holds no 'b'. */
  lemma RemovePrefix(rest: string)
    requires 'b' !in rest
    ensures RemoveAll("bytes=" + rest, "bytes=") == rest
  {
    assert "bytes="[0] == 'b';
    var h := "bytes=" + rest;
    assert h[..|"bytes="|] == "bytes=";
    assert h[|"bytes="|..] == rest;
    RemoveAllAbsent(rest, "bytes=");
  }

  function ContentRange(r: Span, size: nat): string
  {
    "bytes " + Decimal(r.first) + "-" + Decimal(r.last) + "/" + Decimal(size)
  }

  /** `Range: bytes=A-B` inside a file is answered for exactly bytes A..B,
      with `Content-Range: bytes A-B/size`; `bytes=A-` runs to the last byte. */
  lemma RequestedRange(a: nat, b: nat, size: nat)
    requires a <= b < size
    requires |Decimal(a)| <= INT_MAX_STR_DIGITS && |Decimal(b)| <= INT_MAX_STR_DIGITS
    ensures var p := ParseRange("bytes=" + Decimal(a) + "-" + Decimal(b), size);
      && p.Some?
      && Clamp(p.value.0, p.value.1, size) == Span(a, b, b - a + 1)
      && ContentRange(Clamp(p.value.0, p.value.1, size), size) ==
           "bytes " + Decimal(a) + "-" + Decimal(b) + "/" + Decimal(size)
    ensures var p := ParseRange("bytes=" + Decimal(a) + "-", size);
      p.Some? && Clamp(p.value.0, p.value.1, size) == Span(a, size - 1, size - a)
  {
    ParseRangeRoundTrip(a, b, size);
    ParseRangeOpenEnd(a, size);
  }

  // ---------------------------------------------------------------------------
  // The route

  /** `video(filename)` once the file root is chosen: `isFile` and `content`
      stand for `os.path.isfile` and the file's bytes, `range` for the
      `Range` header, `failAt` for the read that raises `IOError`, if any. */
  method Serve(filename: string, isFile: bool, content: seq<byte>, range: Option<string>,
               failAt: Option<nat>) returns (reply: Response)
    ensures !isFile ==> reply == NotFound
    ensures isFile && (range.None? || range.value == []) ==>
              reply == Full(MimeType(filename),
                            [("Content-Length", Decimal(|content|)), ("Accept-Ranges", "bytes")],
                            ChunkStream(content, failAt))
    ensures isFile && range.Some? && range.value != [] && ParseRange(range.value, |content|).None? ==>
              reply == ServerError
    ensures isFile && range.Some? && range.value != [] && ParseRange(range.value, |content|).Some? ==>
              var b := ParseRange(range.value, |content|).value;
              var r := Clamp(b.0, b.1, |content|);
              reply == Partial(MimeType(filename),
                               [("Content-Range", ContentRange(r, |content|)),
                                ("Accept-Ranges", "bytes"),
                                ("Content-Length", Decimal(r.length))])
  {
    if !isFile {
      return NotFound;
    }
    var mimetype := MimeType(filename);
    var size := |content|;
    if range.None? || range.value == [] {
      var body := ReadChunks(content, failAt);
      return Full(mimetype, [("Content-Length", Decimal(size)), ("Accept-Ranges", "bytes")], body);
    }
    var bounds := ParseRange(range.value, size);
    if bounds.None? {
      return ServerError;
    }
    var r := Clamp(bounds.value.0, bounds.value.1, size);
    reply := Partial(mimetype, [("Content-Range", ContentRange(r, size)),
                                ("Accept-Ranges", "bytes"),
                                ("Content-Length", Decimal(r.length))]);
  }
}
