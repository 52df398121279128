/** Downloading an artifact's zip to disk, and the handles that serve files from it.

    Every artifact has one path, named by its ID.  A successful download leaves a file and an
    open handle; the cleanup that goes with it closes the handle and removes the file.  Hashing
    and zip decoding are foreign code and enter as uninterpreted functions. */
module Archive {
  import opened Wrappers
  import opened ByteSize

  type Bytes = seq<bv8>
  type Path = int
  type Handle = nat

  datatype Format = Format(hash: Bytes -> string, isZip: Bytes -> bool)

  /** A response body: the pieces the reads return, and how the last read ends. */
  datatype Stream = Stream(chunks: seq<Bytes>, readFails: bool)

  /** What may go wrong on the local side.  `writeLimit` is how many bytes the disk takes. */
  datatype Faults = Faults(create: bool, writeLimit: Option<nat>, close: bool, hash: bool, open: bool)

  datatype Response =
    | Refused                                                        // no usable HTTP response
    | Body(contentLength: int, stream: Stream, faults: Faults)

  datatype Download = Rejected | Opened(handle: Handle, size: int)

  datatype Cleanup = Cleanup(handle: Handle, path: Path)

  /** The files on disk, how often each handle's cleanup has run, and the next unused handle. */
  datatype Disk = Disk(files: map<Path, Bytes>, cleaned: multiset<Handle>, next: Handle)

  function Whole(chunks: seq<Bytes>): Bytes {
    if chunks == [] then [] else Whole(chunks[..|chunks| - 1]) + chunks[|chunks| - 1]
  }

  lemma {:induction false} WholeSplit(a: seq<Bytes>, b: seq<Bytes>)
    ensures Whole(a + b) == Whole(a) + Whole(b)
  {
    if b == [] {
      assert a + b == a;
    } else {
      var u, last := b[..|b| - 1], b[|b| - 1];
      assert (a + b)[..|a + b| - 1] == a + u && (a + b)[|a + b| - 1] == last;
      WholeSplit(a, u);
      assert Whole(a) + Whole(u) + last == Whole(a) + (Whole(u) + last);
    }
  }

  function Min(a: int, b: int): int {
    if a < b then a else b
  }

  /** What a reader limited to `limit` bytes delivers of `s`. */
  function Limited(s: Bytes, limit: int): Bytes {
    if limit <= 0 then [] else s[..Min(|s|, limit)]
  }

  /** Does copying at most `limit` bytes of the stream succeed?  A read error is met only if the
      limit has not been reached before it. */
  predicate CopySucceeds(stream: Stream, limit: int, writeLimit: Option<nat>) {
    var whole := Whole(stream.chunks);
    && !(stream.readFails && |whole| < limit)
    && (writeLimit.Some? ==> |Limited(whole, limit)| <= writeLimit.value)
  }

  function RemoveFile(d: Disk, path: Path): Disk {
    d.(files := d.files - {path})
  }

  /** Write the stream to `path`, at most `maxSize` bytes of it.  One byte more is asked for, to
      tell a stream that is too long; at the largest int64 that bound wraps below zero. */
  function ToFile(d: Disk, path: Path, stream: Stream, maxSize: int, faults: Faults): (r: (Disk, bool))
    ensures r.1 ==> path in r.0.files
  {
    var limit := Wrap64(maxSize + 1);
    var got := Limited(Whole(stream.chunks), limit);
    if faults.create then (d, false)
    else if !CopySucceeds(stream, limit, faults.writeLimit) || faults.close || |got| > maxSize
    then (RemoveFile(d, path), false)
    else (d.(files := d.files[path := got]), true)
  }

  /** Download, hash and open a zip. */
  function ToZip(f: Format, d: Disk, path: Path, stream: Stream, maxSize: int, faults: Faults)
    : (r: (Disk, Option<(Handle, string)>))
    ensures r.1.Some? ==> path in r.0.files
  {
    var (d', ok) := ToFile(d, path, stream, maxSize, faults);
    if !ok then (d', None)
    else if faults.hash || faults.open || !f.isZip(d'.files[path]) then (RemoveFile(d', path), None)
    else (d'.(next := d'.next + 1), Some((d'.next, f.hash(d'.files[path]))))
  }

  function RunCleanup(d: Disk, c: Cleanup): Disk {
    Disk(d.files - {c.path}, d.cleaned + multiset{c.handle}, d.next)
  }

  /** No body to read, or one announced to be too long. */
  predicate TurnedAway(response: Response, maxSize: int) {
    response.Refused? || (response.contentLength > 0 && response.contentLength > maxSize)
  }

  /** Download an artifact, checking its announced size first and its digest last. */
  function DownloadArtifact(f: Format, d: Disk, id: Path, response: Response, maxSize: int, expected: string)
    : (Disk, Download)
  {
    if TurnedAway(response, maxSize) then (d, Rejected)
    else
      match ToZip(f, d, id, response.stream, maxSize, response.faults)
      case (d', None) => (d', Rejected)
      case (d', Some((handle, digest))) =>
        if expected != "" && digest != expected then (RunCleanup(d', Cleanup(handle, id)), Rejected)
        else (d', Opened(handle, |d'.files[id]|))
  }

  // ----- what the download promises

  /** The response can be stored: nothing fails, the stream fits, is a zip and has the digest. */
  predicate Acceptable(f: Format, response: Response, maxSize: int, expected: string) {
    && response.Body?
    && response.contentLength <= maxSize
    && var whole := Whole(response.stream.chunks);
       && |whole| <= maxSize && !response.stream.readFails
       && (response.faults.writeLimit.Some? ==> |whole| <= response.faults.writeLimit.value)
       && response.faults == Faults(false, response.faults.writeLimit, false, false, false)
       && f.isZip(whole)
       && (expected == "" || f.hash(whole) == expected)
  }

  /** For every int64 limit but the largest, negative ones included: the download succeeds exactly
      for acceptable responses, and then the file is the whole stream, within the limit, with the
      digest asked for, behind a new handle. */
  lemma SucceedsExactlyWhenAcceptable(f: Format, d: Disk, id: Path, response: Response, maxSize: int, expected: string)
    requires -MAX_INT64 - 1 <= maxSize < MAX_INT64
    ensures var (d', r) := DownloadArtifact(f, d, id, response, maxSize, expected);
            && (r.Opened? <==> Acceptable(f, response, maxSize, expected))
            && (r.Opened? ==>
                  && d' == Disk(d.files[id := Whole(response.stream.chunks)], d.cleaned, d.next + 1)
                  && r == Opened(d.next, |Whole(response.stream.chunks)|))
  {
    if response.Body? {
      var whole := Whole(response.stream.chunks);
      if |whole| <= maxSize {
        assert whole[..|whole|] == whole;
      }
    }
  }

  /** A zip that arrives whole. */
  function Delivered(zip: Bytes): Response {
    Body(|zip|, Stream([zip], false), Faults(false, None, false, false, false))
  }

  lemma DeliveredIsStored(f: Format, d: Disk, id: Path, zip: Bytes, maxSize: int)
    requires f.isZip(zip) && |zip| <= maxSize < MAX_INT64
    ensures DownloadArtifact(f, d, id, Delivered(zip), maxSize, "")
            == (Disk(d.files[id := zip], d.cleaned, d.next + 1), Opened(d.next, |zip|))
  {
    WholeSplit([], [zip]);
    assert [zip][..0] == [] && Whole([zip]) == zip;
    SucceedsExactlyWhenAcceptable(f, d, id, Delivered(zip), maxSize, "");
  }

  /** A rejected download leaves no file at its path, except one that was there before and that it
      never got to overwrite. */
  lemma RejectedLeavesNothing(f: Format, d: Disk, id: Path, response: Response, maxSize: int, expected: string)
    ensures var (d', r) := DownloadArtifact(f, d, id, response, maxSize, expected);
            r.Rejected? ==>
              && (id in d'.files <==>
                    id in d.files && (TurnedAway(response, maxSize) || response.faults.create))
              && d'.files - {id} == d.files - {id}
              && (id !in d.files ==> d'.files == d.files)
  {
    var (d', r) := DownloadArtifact(f, d, id, response, maxSize, expected);
    if response.Body? {
      var (d1, ok) := ToFile(d, id, response.stream, maxSize, response.faults);
      assert d1.files - {id} == d.files - {id};
    }
    if r.Rejected? && id !in d.files {
      assert d.files - {id} == d.files;
      assert d'.files - {id} == d'.files;
    }
  }

  /** A rejected download's handle, if it got as far as opening one, has been cleaned up. */
  lemma RejectedIsCleaned(f: Format, d: Disk, id: Path, response: Response, maxSize: int, expected: string)
    ensures var (d', r) := DownloadArtifact(f, d, id, response, maxSize, expected);
            r.Rejected? ==>
              || (d'.next == d.next && d'.cleaned == d.cleaned)
              || (d'.next == d.next + 1 && d'.cleaned == d.cleaned + multiset{d.next})
  {
  }

  /** A download that succeeds, whatever the limit, adds one file and one handle. */
  lemma OpenedAddsOneFile(f: Format, d: Disk, id: Path, response: Response, maxSize: int, expected: string)
    ensures var (d', r) := DownloadArtifact(f, d, id, response, maxSize, expected);
            r.Opened? ==>
              && id in d'.files && d' == Disk(d.files[id := d'.files[id]], d.cleaned, d.next + 1)
              && r == Opened(d.next, |d'.files[id]|)
              && f.isZip(d'.files[id]) && (expected != "" ==> f.hash(d'.files[id]) == expected)
              && |d'.files[id]| <= maxSize
  {
  }

  /** What the limit is for, and where it stops working: a stream that is written without error is
      on disk as a whole for every limit but the largest int64, at which the file is empty, whatever
      the stream. */
  lemma WholeUnlessLimitWraps(d: Disk, path: Path, stream: Stream, maxSize: int, faults: Faults)
    requires -MAX_INT64 - 1 <= maxSize <= MAX_INT64
    requires ToFile(d, path, stream, maxSize, faults).1
    ensures ToFile(d, path, stream, maxSize, faults).0.files[path] == Whole(stream.chunks)
            <==> maxSize < MAX_INT64 || Whole(stream.chunks) == []
    ensures maxSize == MAX_INT64 ==> ToFile(d, path, stream, maxSize, faults).0.files[path] == []
  {
    var whole := Whole(stream.chunks);
    if maxSize < MAX_INT64 {
      assert |whole| <= maxSize;
      assert whole[..|whole|] == whole;
    }
  }

  /** The largest limit, from end to end: nothing of the stream is read, so its content and its
      faults make no difference, and what is opened is the empty file. */
  lemma LargestLimitReadsNothing(f: Format, d: Disk, id: Path, response: Response, expected: string)
    ensures DownloadArtifact(f, d, id, response, MAX_INT64, expected).1.Opened? <==>
              && response.Body? && response.contentLength <= MAX_INT64
              && response.faults == Faults(false, response.faults.writeLimit, false, false, false)
              && f.isZip([]) && (expected == "" || f.hash([]) == expected)
    ensures !f.isZip([]) ==> DownloadArtifact(f, d, id, response, MAX_INT64, expected).1.Rejected?
  {
  }

  // ----- the same, one file operation at a time

  class Storage {
    var files: map<Path, Bytes>
    var cleaned: multiset<Handle>
    var next: Handle

    ghost function View(): Disk
      reads this
    {
      Disk(files, cleaned, next)
    }

    constructor ()
      ensures View() == Disk(map[], multiset{}, 0)
    {
      files, cleaned, next := map[], multiset{}, 0;
    }

    /** Create the file, copy the stream into it piece by piece, and undo on any failure. */
    method DownloadToFile(path: Path, stream: Stream, maxSize: int, faults: Faults) returns (ok: bool)
      modifies this
      ensures (View(), ok) == ToFile(old(View()), path, stream, maxSize, faults)
    {
      if faults.create {
        return false;
      }
      files := files[path := []];
      var copied := Copy(path, stream, Wrap64(maxSize + 1), faults.writeLimit);
      Overwrite(old(files), path, [], files[path]);
      assert files - {path} == old(files) - {path};
      if !copied || faults.close {
        files := files - {path};
        return false;
      }
      if |files[path]| > maxSize {
        files := files - {path};
        return false;
      }
      ok := true;
    }

    /** Copy pieces from the limited reader to the open file until one side ends. */
    method Copy(path: Path, stream: Stream, limit: int, writeLimit: Option<nat>) returns (ok: bool)
      requires path in files && files[path] == []
      modifies this`files
      ensures ok == CopySucceeds(stream, limit, writeLimit)
      ensures path in files && files == old(files)[path := files[path]]
      ensures ok ==> files[path] == Limited(Whole(stream.chunks), limit)
    {
      var chunks := stream.chunks;
      var i, written := 0, [];
      assert Limited(Whole(chunks[..0]), limit) == [];
      hide Whole, Limited, Longer, Min;
      while i < |chunks| && |written| < limit
        invariant 0 <= i <= |chunks|
        invariant files == old(files)[path := written]
        invariant written == Limited(Whole(chunks[..i]), limit)
        invariant writeLimit.Some? ==> |written| <= writeLimit.value
      {
        var longer := Longer(written, chunks[i], limit);
        NextChunk(chunks, i, limit);
        if writeLimit.Some? && |longer| > writeLimit.value {
          return false;
        }
        written := longer;
        Overwrite(old(files), path, files[path], written);
        files := files[path := written];
        i := i + 1;
      }
      LimitReached(chunks, i, limit);
      ok := !(stream.readFails && i == |chunks| && |written| < limit);
    }

    lemma Overwrite(files: map<Path, Bytes>, path: Path, before: Bytes, after: Bytes)
      ensures files[path := before][path := after] == files[path := after]
    {
    }

    /** What has been read so far with one more chunk, as much of it as the limit allows. */
    static function Longer(got: Bytes, chunk: Bytes, limit: int): Bytes
      requires |got| < limit
    {
      got + chunk[..Min(|chunk|, limit - |got|)]
    }

    lemma LimitedAppend(a: Bytes, b: Bytes, limit: int)
      ensures var got := Limited(a, limit);
              && (|got| < limit ==> Limited(a + b, limit) == Longer(got, b, limit))
              && (|got| >= limit ==> Limited(a + b, limit) == got)
              && |got| <= |Limited(a + b, limit)|
      ensures |a + b| < limit ==> Limited(a, limit) == a
      ensures |Limited(a, limit)| >= limit ==> |a| >= limit
    {
      if |Limited(a, limit)| < limit {
        assert Limited(a, limit) == a;
      }
    }

    lemma NextChunk(chunks: seq<Bytes>, i: nat, limit: int)
      requires i < |chunks| && |Limited(Whole(chunks[..i]), limit)| < limit
      ensures var got := Limited(Whole(chunks[..i]), limit);
              Limited(Whole(chunks[..i + 1]), limit) == Longer(got, chunks[i], limit)
      ensures |Limited(Whole(chunks[..i + 1]), limit)| <= |Limited(Whole(chunks), limit)|
    {
      var next, rest := chunks[..i + 1], chunks[i + 1..];
      assert next[..i] == chunks[..i] && chunks == next + rest;
      assert Whole(next) == Whole(chunks[..i]) + chunks[i];
      WholeSplit(next, rest);
      hide *;
      LimitedAppend(Whole(chunks[..i]), chunks[i], limit);
      LimitedAppend(Whole(next), Whole(rest), limit);
    }

    lemma LimitReached(chunks: seq<Bytes>, i: nat, limit: int)
      requires i <= |chunks|
      requires i == |chunks| || |Limited(Whole(chunks[..i]), limit)| >= limit
      ensures Limited(Whole(chunks[..i]), limit) == Limited(Whole(chunks), limit)
      ensures |Whole(chunks)| < limit <==> i == |chunks| && |Limited(Whole(chunks[..i]), limit)| < limit
    {
      assert chunks == chunks[..i] + chunks[i..];
      WholeSplit(chunks[..i], chunks[i..]);
      LimitedAppend(Whole(chunks[..i]), Whole(chunks[i..]), limit);
      LimitedAppend(Whole(chunks), [], limit);
      assert Whole(chunks) + [] == Whole(chunks);
      assert i == |chunks| ==> chunks[..i] == chunks;
    }

    method DownloadZip(f: Format, path: Path, stream: Stream, maxSize: int, faults: Faults)
      returns (r: Option<(Handle, string)>)
      modifies this
      ensures (View(), r) == ToZip(f, old(View()), path, stream, maxSize, faults)
    {
      var ok := DownloadToFile(path, stream, maxSize, faults);
      if !ok {
        return None;
      }
      if faults.hash {
        files := files - {path};
        return None;
      }
      var digest := f.hash(files[path]);
      if faults.open || !f.isZip(files[path]) {
        files := files - {path};
        return None;
      }
      r := Some((next, digest));
      next := next + 1;
    }

    method Clean(c: Cleanup)
      modifies this
      ensures View() == RunCleanup(old(View()), c)
    {
      cleaned := cleaned + multiset{c.handle};
      files := files - {c.path};
    }

    method Download(f: Format, id: Path, response: Response, maxSize: int, expected: string) returns (r: Download)
      modifies this
      ensures (View(), r) == DownloadArtifact(f, old(View()), id, response, maxSize, expected)
    {
      if response.Refused? {
        return Rejected;
      }
      if response.contentLength > 0 && response.contentLength > maxSize {
        return Rejected;
      }
      var zip := DownloadZip(f, id, response.stream, maxSize, response.faults);
      match zip
      case None =>
        r := Rejected;
      case Some((handle, digest)) =>
        if expected != "" && digest != expected {
          Clean(Cleanup(handle, id));
          return Rejected;
        }
        r := Opened(handle, |files[id]|);
    }
  }
}
