/**
 The package cache of qcom/scripts/all/package_manager.py: validation of cached and downloaded
 files, downloading with retries, and pruning by access time.

 What the network and the disk do is an input: the answer to each download attempt. The hash
 functions and the archive test are parameters too.
 */
module FileCache {
  import opened Sorting
  import opened Text
  import opened Wrappers

  newtype Byte = b: int | 0 <= b < 256
  type Bytes = seq<Byte>

  /** A file in the directory of its cache key. */
  datatype Path = Path(key: string, name: string)

  datatype Library = Library(sha1: Bytes -> string, sha256: Bytes -> string, md5: Bytes -> string, isArchive: Bytes -> bool)

  datatype Request = Request(path: Path, sha256: Option<string>, sha1: Option<string>, md5: Option<string>)

  /** One configured checksum: the expected digest, if any, and how to compute the actual one. */
  datatype Checksum = Checksum(expected: Option<string>, digest: Bytes -> string)

  datatype Spec = Spec(checksums: seq<Checksum>, expectsArchive: bool, isArchive: Bytes -> bool)

  /** pathlib's suffix: from the last dot, unless it is the first or the last character. */
  function Suffix(name: string): string {
    var i := LastDot(name, |name|);
    if 0 < i < |name| - 1 then name[i..] else ""
  }

  function LastDot(name: string, n: nat): (i: int)
    requires n <= |name|
    ensures i < n
  {
    if n == 0 then -1 else if name[n - 1] == '.' then n - 1 else LastDot(name, n - 1)
  }

  lemma {:induction false} LastDotIs(stem: string, ext: string, n: nat)
    requires Free(ext, '.') && |stem| + 1 <= n <= |stem| + 1 + |ext|
    ensures LastDot(stem + "." + ext, n) == |stem|
    decreases n
  {
    var name := stem + "." + ext;
    if n > |stem| + 1 {
      assert name[n - 1] == ext[n - 1 - |stem| - 1];
      LastDotIs(stem, ext, n - 1);
    }
  }

  lemma {:induction false} NoDot(name: string, n: nat)
    requires n <= |name| && Free(name, '.')
    ensures LastDot(name, n) == -1
  {
    if n == 0 {
    } else {
      NoDot(name, n - 1);
    }
  }

  /**
   A name without a dot has no suffix. Of any other, the suffix is what follows its last dot, with the dot,
   unless nothing stands before it or nothing after it.
   */
  lemma SuffixExactly(stem: string, ext: string)
    requires Free(ext, '.')
    ensures Suffix(ext) == ""
    ensures Suffix(stem + "." + ext) == if stem == "" || ext == "" then "" else "." + ext
  {
    NoDot(ext, |ext|);
    var name := stem + "." + ext;
    LastDotIs(stem, ext, |name|);
    assert name[|stem|..] == "." + ext;
  }

  function SpecOf(lib: Library, r: Request): Spec {
    Spec([Checksum(r.sha1, lib.sha1), Checksum(r.sha256, lib.sha256), Checksum(r.md5, lib.md5)],
         Suffix(r.path.name) != "" && Suffix(r.path.name) != ".exe", lib.isArchive)
  }

  /** An archive is expected of every name with a suffix, except that of a Windows program. */
  lemma ArchiveExpectedExactly(lib: Library, r: Request, stem: string, ext: string)
    requires Free(ext, '.')
    ensures r.path.name == ext ==> !SpecOf(lib, r).expectsArchive
    ensures r.path.name == stem + "." + ext ==> (SpecOf(lib, r).expectsArchive <==> stem != "" && ext != "" && ext != "exe")
  {
    hide Suffix;
    SuffixExactly(stem, ext);
    assert ("." + ext)[1..] == ext && ".exe"[1..] == "exe";
  }

  /** The bytes have every expected digest, and are an archive if one is expected. */
  predicate Trusted(lib: Library, r: Request, bytes: Bytes) {
    && (r.sha1.Some? ==> lib.sha1(bytes) == r.sha1.value)
    && (r.sha256.Some? ==> lib.sha256(bytes) == r.sha256.value)
    && (r.md5.Some? ==> lib.md5(bytes) == r.md5.value)
    && (Suffix(r.path.name) != "" && Suffix(r.path.name) != ".exe" ==> lib.isArchive(bytes))
  }

  datatype Problem = Mismatch(checksum: nat) | NotAnArchive

  method Validate(spec: Spec, bytes: Bytes) returns (problem: Option<Problem>)
    ensures problem.None? <==>
            (forall i :: 0 <= i < |spec.checksums| ==> Agrees(spec.checksums[i], bytes)) && (spec.expectsArchive ==> spec.isArchive(bytes))
    ensures problem == Some(NotAnArchive) ==> forall i :: 0 <= i < |spec.checksums| ==> Agrees(spec.checksums[i], bytes)
    ensures problem.Some? && problem.value.Mismatch? ==>
            var k := problem.value.checksum;
            k < |spec.checksums| && !Agrees(spec.checksums[k], bytes) && forall i :: 0 <= i < k ==> Agrees(spec.checksums[i], bytes)
  {
    for i := 0 to |spec.checksums|
      invariant forall k :: 0 <= k < i ==> Agrees(spec.checksums[k], bytes)
    {
      var c := spec.checksums[i];
      if c.expected.Some? {
        var actual := c.digest(bytes);
        if c.expected.value != actual {
          return Some(Mismatch(i));
        }
      }
    }
    if spec.expectsArchive && !spec.isArchive(bytes) {
      return Some(NotAnArchive);
    }
    return None;
  }

  predicate Agrees(c: Checksum, bytes: Bytes) { c.expected.Some? ==> c.digest(bytes) == c.expected.value }

  // ---------------------------------------------------------------- fetching

  /**
   What becomes of an attempt: it fails on the way, delivers a body, delivers one that cannot be written
   in full, or meets an exception of another kind, which no retry follows.
   */
  datatype Answer = NetworkError | Body(bytes: Bytes) | WriteError(left: Option<Bytes>) | Aborted(left: Option<Bytes>)

  type Files = map<Path, Bytes>

  predicate Succeeds(lib: Library, r: Request, answer: Answer) {
    answer.Body? && Trusted(lib, r, answer.bytes)
  }

  predicate Stops(lib: Library, r: Request, answer: Answer) { Succeeds(lib, r, answer) || answer.Aborted? }

  /** The files after one attempt. */
  function After(files: Files, lib: Library, r: Request, answer: Answer): Files {
    match answer
    case NetworkError => files
    case Body(bytes) => if Trusted(lib, r, bytes) then files[r.path := bytes] else files - {r.path}
    case WriteError(left) => if left.Some? then files[r.path := left.value] else files
    case Aborted(left) => if left.Some? then files[r.path := left.value] else files
  }

  /** The path is returned, RuntimeError is raised after the last attempt, or another exception goes through. */
  datatype Ending = Returned | GaveUp | Raised

  datatype Fetched = Fetched(files: Files, ending: Ending, tried: nat)

  /** The attempts from number k on, of which there are `attempts`. */
  function Retry(files: Files, lib: Library, r: Request, answers: nat -> Answer, k: nat, attempts: nat): Fetched
    decreases attempts - k
  {
    if k >= attempts then Fetched(files, GaveUp, k)
    else
      var next := After(files, lib, r, answers(k));
      if Succeeds(lib, r, answers(k)) then Fetched(next, Returned, k + 1)
      else if answers(k).Aborted? then Fetched(next, Raised, k + 1)
      else Retry(next, lib, r, answers, k + 1, attempts)
  }

  predicate Hit(files: Files, lib: Library, r: Request) { r.path in files && Trusted(lib, r, files[r.path]) }

  function Fetch(files: Files, lib: Library, r: Request, answers: nat -> Answer, attempts: nat): Fetched {
    if Hit(files, lib, r) then Fetched(files, Returned, 0) else Retry(files - {r.path}, lib, r, answers, 0, attempts)
  }

  function KeysOf(files: Files): set<string> { set p | p in files :: p.key }

  class Cache {
    const lib: Library
    const maxCacheSizeBytes: int
    const attempts: nat
    var files: Files
    var dirs: set<string>

    /** A file stands in the directory of its key. */
    predicate Valid()
      reads this
    {
      KeysOf(files) <= dirs
    }

    constructor (lib: Library, maxCacheSizeBytes: int, attempts: nat, files: Files, dirs: set<string>)
      requires KeysOf(files) <= dirs
      ensures Valid() && this.lib == lib && this.maxCacheSizeBytes == maxCacheSizeBytes && this.attempts == attempts
      ensures this.files == files && this.dirs == dirs
    {
      this.lib := lib;
      this.maxCacheSizeBytes := maxCacheSizeBytes;
      this.attempts := attempts;
      this.files := files;
      this.dirs := dirs;
    }

    /** GaveUp where the source raises OSError or ValueError. */
    method DownloadOnce(r: Request, answer: Answer) returns (ending: Ending)
      requires Valid()
      modifies this
      ensures Valid() && old(dirs) <= dirs <= old(dirs) + {r.path.key}
      ensures files == After(old(files), lib, r, answer)
      ensures ending == if Succeeds(lib, r, answer) then Returned else if answer.Aborted? then Raised else GaveUp
    {
      if answer.NetworkError? || (answer.Aborted? && answer.left.None?) {
        return if answer.Aborted? then Raised else GaveUp;
      }
      dirs := dirs + {r.path.key};
      match answer
      case Body(bytes) =>
        files := files[r.path := bytes];
        var problem := Validate(SpecOf(lib, r), files[r.path]);
        TrustedBySpec(lib, r, bytes);
        if problem.Some? {
          files := files - {r.path};
          return GaveUp;
        }
        return Returned;
      case WriteError(left) =>
        if left.Some? {
          files := files[r.path := left.value];
        }
        return GaveUp;
      case Aborted(left) =>
        files := files[r.path := left.value];
        return Raised;
    }

    method DownloadWithRetries(r: Request, answers: nat -> Answer) returns (ending: Ending, tried: nat)
      requires Valid()
      modifies this
      ensures Valid() && old(dirs) <= dirs <= old(dirs) + {r.path.key}
      ensures Fetched(files, ending, tried) == Retry(old(files), lib, r, answers, 0, attempts)
    {
      hide After, Succeeds;
      tried := 0;
      while tried < attempts
        invariant Valid() && old(dirs) <= dirs <= old(dirs) + {r.path.key} && tried <= attempts
        invariant Retry(old(files), lib, r, answers, 0, attempts) == Retry(files, lib, r, answers, tried, attempts)
      {
        ending := DownloadOnce(r, answers(tried));
        tried := tried + 1;
        if !ending.GaveUp? {
          return ending, tried;
        }
      }
      return GaveUp, tried;
    }

    method FetchPath(r: Request, answers: nat -> Answer) returns (path: Option<Path>, ending: Ending, tried: nat)
      requires Valid()
      modifies this
      ensures Valid() && old(dirs) <= dirs <= old(dirs) + {r.path.key}
      ensures Fetched(files, ending, tried) == Fetch(old(files), lib, r, answers, attempts)
      ensures path == if ending.Returned? then Some(r.path) else None
    {
      if r.path in files {
        var problem := Validate(SpecOf(lib, r), files[r.path]);
        TrustedBySpec(lib, r, files[r.path]);
        if problem.None? {
          return Some(r.path), Returned, 0;
        }
        files := files - {r.path};
      }
      assert files == old(files) - {r.path};
      ending, tried := DownloadWithRetries(r, answers);
      path := if ending.Returned? then Some(r.path) else None;
    }

    /** Returns the size that is reported as left. */
    method Prune(listing: seq<PkgFile>) returns (totalSize: int)
      requires Valid() && Lists(listing, files)
      modifies this
      ensures Valid() && dirs == KeysOf(files)
      ensures var sorted := Sort(ByAccess, listing);
              var k := Cut(sorted, maxCacheSizeBytes);
              files == old(files) - PathsOf(sorted[..k]) && totalSize == Total(sorted[k..])
    {
      hide Lists, PathsOf, Sort, KeysOf;
      var pkgFiles := Sort(ByAccess, listing);
      ghost var cut := Cut(pkgFiles, maxCacheSizeBytes);
      var toPrune: seq<PkgFile> := [];
      totalSize := 0;
      for i := 0 to |pkgFiles|
        invariant totalSize + Total(pkgFiles[i..]) == Total(pkgFiles)
      {
        totalSize := totalSize + pkgFiles[i].size;
        assert pkgFiles[i..][1..] == pkgFiles[i + 1..];
      }
      assert pkgFiles[0..] == pkgFiles;
      var n := 0;
      while n < |pkgFiles|
        invariant n <= |pkgFiles| && toPrune == pkgFiles[..n] && totalSize == Total(pkgFiles[n..])
        invariant cut == n + Cut(pkgFiles[n..], maxCacheSizeBytes)
      {
        if totalSize <= maxCacheSizeBytes {
          break;
        }
        toPrune := toPrune + [pkgFiles[n]];
        totalSize := totalSize - pkgFiles[n].size;
        assert pkgFiles[n..][1..] == pkgFiles[n + 1..];
        n := n + 1;
      }
      assert n == cut;
      Unlink(toPrune);
      RemoveEmptyDirectories();
    }

    method RemoveEmptyDirectories()
      requires Valid()
      modifies this`dirs
      ensures Valid() && dirs == KeysOf(files)
    {
      var todo := dirs;
      while todo != {}
        invariant todo <= old(dirs) && dirs == KeysOf(files) + todo
      {
        var d :| d in todo;
        if d !in KeysOf(files) {
          dirs := dirs - {d};
        }
        todo := todo - {d};
      }
    }

    method Unlink(toPrune: seq<PkgFile>)
      requires Valid()
      modifies this`files
      ensures Valid() && files == old(files) - PathsOf(toPrune)
    {
      for i := 0 to |toPrune|
        invariant files == old(files) - PathsOf(toPrune[..i])
      {
        files := files - {toPrune[i].path};
        assert toPrune[..i + 1] == toPrune[..i] + [toPrune[i]];
        assert PathsOf(toPrune[..i + 1]) == PathsOf(toPrune[..i]) + {toPrune[i].path};
      }
      assert toPrune[..|toPrune|] == toPrune;
    }
  }

  // ---------------------------------------------------------------- pruning

  datatype PkgFile = PkgFile(path: Path, atime: real, size: nat)

  predicate ByAccess(a: PkgFile, b: PkgFile) { a.atime <= b.atime }

  function Total(listing: seq<PkgFile>): nat {
    if listing == [] then 0 else listing[0].size + Total(listing[1..])
  }

  function PathsOf(listing: seq<PkgFile>): set<Path> { set f | f in listing :: f.path }

  /** Every file of the cache once, with its size, in whatever order the directory walk gives. */
  ghost predicate Lists(listing: seq<PkgFile>, files: Files) {
    && PathsOf(listing) == files.Keys
    && (forall f :: f in listing ==> f.path in files && f.size == |files[f.path]|)
    && (forall i, j :: 0 <= i < j < |listing| ==> listing[i].path != listing[j].path)
  }

  /** How many files to take from the front so that the rest fits. */
  function Cut(sorted: seq<PkgFile>, limit: int): (k: nat)
    ensures k <= |sorted|
  {
    if sorted == [] || Total(sorted) <= limit then 0 else 1 + Cut(sorted[1..], limit)
  }

  lemma TrustedBySpec(lib: Library, r: Request, bytes: Bytes)
    ensures var spec := SpecOf(lib, r);
            (forall i :: 0 <= i < |spec.checksums| ==> Agrees(spec.checksums[i], bytes)) && (spec.expectsArchive ==> spec.isArchive(bytes))
            <==> Trusted(lib, r, bytes)
  {
    hide Suffix;
    var all := SpecOf(lib, r).checksums;
    assert all[0].expected == r.sha1 && all[1].expected == r.sha256 && all[2].expected == r.md5;
  }

  // ---------------------------------------------------------------- one fetch

  /** What a failed write left. */
  function Left(a: Answer): Option<Bytes> {
    match a case WriteError(left) => left case Aborted(left) => left case _ => None
  }

  /** The attempt leaves the file at the path alone. */
  predicate Quiet(a: Answer) { !a.Body? && Left(a).None? }

  /** The answers from number j up to number n are quiet. */
  ghost predicate QuietFrom(answers: nat -> Answer, j: nat, n: nat) {
    forall i :: j <= i < n ==> Quiet(answers(i))
  }

  ghost predicate NoneStops(lib: Library, r: Request, answers: nat -> Answer, k: nat, n: int) {
    forall i :: k <= i < n ==> !Stops(lib, r, answers(i))
  }

  /** How many attempts are made, and how they end. */
  lemma {:induction false} RetryEnds(files: Files, lib: Library, r: Request, answers: nat -> Answer, k: nat, attempts: nat)
    requires k <= attempts
    ensures var f := Retry(files, lib, r, answers, k, attempts);
            && k <= f.tried <= attempts && NoneStops(lib, r, answers, k, f.tried - 1)
            && (f.ending.GaveUp? ==> f.tried == attempts && NoneStops(lib, r, answers, k, attempts))
            && (f.ending.Raised? ==> f.tried > k && answers(f.tried - 1).Aborted?)
            && (f.ending.Returned? ==>
                 f.tried > k && Succeeds(lib, r, answers(f.tried - 1)) && f.files == files[r.path := answers(f.tried - 1).bytes])
    decreases attempts - k
  {
    hide Trusted;
    if k == attempts {
    } else {
      var next := After(files, lib, r, answers(k));
      if !Stops(lib, r, answers(k)) { RetryEnds(next, lib, r, answers, k + 1, attempts); }
    }
  }

  lemma {:induction false} RetryLeaves(files: Files, lib: Library, r: Request, answers: nat -> Answer, k: nat, attempts: nat)
    requires k <= attempts && !Retry(files, lib, r, answers, k, attempts).ending.Returned?
    ensures var f := Retry(files, lib, r, answers, k, attempts);
            && k <= f.tried
            && (QuietFrom(answers, k, f.tried) ==> f.files == files)
            && forall j: nat :: k <= j < f.tried && !Quiet(answers(j)) && QuietFrom(answers, j + 1, f.tried) ==>
                 f.files == if answers(j).Body? then files - {r.path} else files[r.path := Left(answers(j)).value]
    decreases attempts - k
  {
    hide Trusted;
    if k == attempts {
    } else {
      var next := After(files, lib, r, answers(k));
      if !Stops(lib, r, answers(k)) {
        RetryLeaves(next, lib, r, answers, k + 1, attempts);
        assert next - {r.path} == files - {r.path};
      }
    }
  }

  /** A failed write left these bytes, and no later answer touched them. */
  ghost predicate LeftBy(answers: nat -> Answer, j: nat, n: nat, bytes: Bytes) {
    j < n && Left(answers(j)) == Some(bytes) && QuietFrom(answers, j + 1, n)
  }

  /** At the path is what a failed write left, or nothing; the other files are as before. */
  ghost predicate Failed(files: Files, r: Request, answers: nat -> Answer, f: Fetched) {
    && f.files - {r.path} == files - {r.path}
    && (r.path in f.files ==> exists j: nat :: LeftBy(answers, j, f.tried, f.files[r.path]))
    && (forall j: nat, bytes :: LeftBy(answers, j, f.tried, bytes) ==> r.path in f.files && f.files[r.path] == bytes)
  }

  lemma FailedOutcome(files: Files, lib: Library, r: Request, answers: nat -> Answer, attempts: nat)
    requires !Retry(files - {r.path}, lib, r, answers, 0, attempts).ending.Returned?
    ensures Failed(files, r, answers, Retry(files - {r.path}, lib, r, answers, 0, attempts))
  {
    hide *;
    var start := files - {r.path};
    RetryLeaves(start, lib, r, answers, 0, attempts);
    var f := Retry(start, lib, r, answers, 0, attempts);
    LastLoud(answers, f.tried, f.tried);
    if QuietFrom(answers, 0, f.tried) {
      QuietOutcome(files, r, answers, f);
    } else {
      var j: nat :| j < f.tried && !Quiet(answers(j)) && QuietFrom(answers, j + 1, f.tried);
      LoudOutcome(files, r, answers, f, j);
    }
  }

  lemma QuietOutcome(files: Files, r: Request, answers: nat -> Answer, f: Fetched)
    requires QuietFrom(answers, 0, f.tried) && f.files == files - {r.path}
    ensures Failed(files, r, answers, f)
  {
    forall j: nat, bytes ensures !LeftBy(answers, j, f.tried, bytes) {}
  }

  lemma LoudOutcome(files: Files, r: Request, answers: nat -> Answer, f: Fetched, j: nat)
    requires j < f.tried && !Quiet(answers(j)) && QuietFrom(answers, j + 1, f.tried)
    requires var start := files - {r.path};
             f.files == if answers(j).Body? then start - {r.path} else start[r.path := Left(answers(j)).value]
    ensures Failed(files, r, answers, f)
  {
    hide QuietFrom;
    forall i: nat, bytes | LeftBy(answers, i, f.tried, bytes) ensures i == j { LoudOnce(answers, i, j, f.tried); }
    if !answers(j).Body? { assert LeftBy(answers, j, f.tried, Left(answers(j)).value); }
  }

  lemma LoudOnce(answers: nat -> Answer, i: nat, j: nat, n: nat)
    requires i < n && j < n && !Quiet(answers(i)) && !Quiet(answers(j))
    requires QuietFrom(answers, i + 1, n) && QuietFrom(answers, j + 1, n)
    ensures i == j
  {
  }

  lemma {:induction false} LastLoud(answers: nat -> Answer, k: nat, n: nat)
    requires k <= n && (k < n ==> QuietFrom(answers, k, n))
    ensures QuietFrom(answers, 0, n) || exists j: nat :: j < n && !Quiet(answers(j)) && QuietFrom(answers, j + 1, n)
  {
    if k > 0 && Quiet(answers(k - 1)) {
      assert QuietFrom(answers, k - 1, n);
      LastLoud(answers, k - 1, n);
    }
  }

  /**
   The outcome of a fetch. A trusted file is returned as it is and without a download. Otherwise the
   attempts go on until one brings a trusted body, which is cached and returned, or is aborted, or none
   is left; without a trusted body only what a failed write left, with no later body, is at the path.
   */
  lemma FetchOutcome(files: Files, lib: Library, r: Request, answers: nat -> Answer, attempts: nat)
    ensures var f := Fetch(files, lib, r, answers, attempts);
            if Hit(files, lib, r) then f == Fetched(files, Returned, 0)
            else
              var n := f.tried;
              && n <= attempts && NoneStops(lib, r, answers, 0, n - 1)
              && match f.ending
                 case Returned =>
                   n > 0 && Succeeds(lib, r, answers(n - 1)) && f.files == files[r.path := answers(n - 1).bytes]
                 case Raised => n > 0 && answers(n - 1).Aborted? && Failed(files, r, answers, f)
                 case GaveUp => n == attempts && NoneStops(lib, r, answers, 0, attempts) && Failed(files, r, answers, f)
  {
    hide Trusted, Hit, Failed, NoneStops, Retry;
    if !Hit(files, lib, r) {
      var start := files - {r.path};
      RetryEnds(start, lib, r, answers, 0, attempts);
      var f := Retry(start, lib, r, answers, 0, attempts);
      if f.ending.Returned? {
        assert start[r.path := answers(f.tried - 1).bytes] == files[r.path := answers(f.tried - 1).bytes];
      } else {
        FailedOutcome(files, lib, r, answers, attempts);
      }
    }
  }

  /** The answer that a fetch needs: a trusted body, with no abort before it. */
  ghost predicate GoodAt(lib: Library, r: Request, answers: nat -> Answer, k: nat) {
    Succeeds(lib, r, answers(k)) && NoneStops(lib, r, answers, 0, k)
  }

  /**
   A fetch returns exactly on a hit or a good answer within the allowed attempts. It never tries more
   often than allowed and touches no other file, and what it returns is trusted.
   */
  lemma FetchSafe(files: Files, lib: Library, r: Request, answers: nat -> Answer, attempts: nat)
    ensures var f := Fetch(files, lib, r, answers, attempts);
            && (f.ending.Returned? <==> Hit(files, lib, r) || exists k: nat :: k < attempts && GoodAt(lib, r, answers, k))
            && (f.ending.Returned? ==> Hit(f.files, lib, r))
            && f.tried <= attempts && (f.tried == 0 <==> Hit(files, lib, r) || attempts == 0)
            && f.files - {r.path} == files - {r.path}
  {
    hide Trusted, Fetch;
    FetchOutcome(files, lib, r, answers, attempts);
    var f := Fetch(files, lib, r, answers, attempts);
    if !Hit(files, lib, r) && f.ending.Returned? {
      assert GoodAt(lib, r, answers, f.tried - 1);
    }
  }

  /**
   At the inputs: a cached file is used without a download exactly when it has each digest that the request
   gives and, if its name has a suffix other than that of a Windows program, is an archive.
   */
  lemma HitExactly(files: Files, lib: Library, r: Request, stem: string, ext: string)
    requires Free(ext, '.') && (r.path.name == ext || r.path.name == stem + "." + ext) && r.path in files
    ensures var bytes := files[r.path];
            Hit(files, lib, r) <==>
            && (r.sha1 == None || r.sha1 == Some(lib.sha1(bytes)))
            && (r.sha256 == None || r.sha256 == Some(lib.sha256(bytes)))
            && (r.md5 == None || r.md5 == Some(lib.md5(bytes)))
            && (r.path.name == ext || stem == "" || ext == "" || ext == "exe" || lib.isArchive(bytes))
  {
    hide Suffix;
    SuffixExactly(stem, ext);
    assert ("." + ext)[1..] == ext && ".exe"[1..] == "exe";
    if r.path.name == ext { assert Free(r.path.name, '.'); }
    assert r.path.name == ext ==> Suffix(r.path.name) == "";
  }

  // ---------------------------------------------------------------- runs of fetches

  datatype Call = Call(r: Request, answers: nat -> Answer, attempts: nat)

  function Calling(files: Files, lib: Library, c: Call): Fetched { Fetch(files, lib, c.r, c.answers, c.attempts) }

  function Run(files: Files, lib: Library, calls: seq<Call>): Files
    decreases |calls|
  {
    if calls == [] then files else Run(Calling(files, lib, calls[0]).files, lib, calls[1..])
  }

  /** A call for the path that trusts the bytes, or in one of whose attempts a failed write left them. */
  ghost predicate Brings(lib: Library, c: Call, path: Path, bytes: Bytes) {
    c.r.path == path && (Trusted(lib, c.r, bytes) || exists k: nat :: k < c.attempts && Left(c.answers(k)) == Some(bytes))
  }

  ghost predicate Explained(files: Files, lib: Library, calls: seq<Call>, path: Path, bytes: Bytes) {
    || (path in files && files[path] == bytes)
    || exists i :: 0 <= i < |calls| && Brings(lib, calls[i], path, bytes)
  }

  lemma FetchExplains(files: Files, lib: Library, c: Call, path: Path)
    requires path in Calling(files, lib, c).files
    ensures var bytes := Calling(files, lib, c).files[path];
            (path in files && files[path] == bytes) || Brings(lib, c, path, bytes)
  {
    hide Trusted, Fetch;
    var f := Calling(files, lib, c);
    FetchSafe(files, lib, c.r, c.answers, c.attempts);
    if path != c.r.path {
      assert path in f.files - {c.r.path};
    } else if !f.ending.Returned? {
      FetchOutcome(files, lib, c.r, c.answers, c.attempts);
      var j: nat :| LeftBy(c.answers, j, f.tried, f.files[path]);
    }
  }

  /** After any run of fetches from any cache, every file is explained; no rejected body stays. */
  lemma {:induction false} RunExplains(files: Files, lib: Library, calls: seq<Call>, path: Path)
    requires path in Run(files, lib, calls)
    ensures Explained(files, lib, calls, path, Run(files, lib, calls)[path])
    decreases |calls|
  {
    hide Calling, Brings;
    if calls == [] {
    } else {
      var c, rest := calls[0], calls[1..];
      var next, bytes := Calling(files, lib, c).files, Run(files, lib, calls)[path];
      RunExplains(next, lib, rest, path);
      if path in next && next[path] == bytes {
        FetchExplains(files, lib, c, path);
      } else {
        var i :| 0 <= i < |rest| && Brings(lib, rest[i], path, bytes);
        assert calls[i + 1] == rest[i];
      }
    }
  }

  ghost predicate SameSpec(calls: seq<Call>, r: Request) {
    forall i :: 0 <= i < |calls| ==> (calls[i].r.path == r.path ==> calls[i].r == r)
  }

  /**
   Once a fetch has succeeded, later fetches, which ask for the same at that path, leave the file as it
   is, and none of them downloads it again.
   */
  lemma {:induction false} FetchedOnce(files: Files, lib: Library, r: Request, calls: seq<Call>, i: nat)
    requires Hit(files, lib, r) && SameSpec(calls, r) && i <= |calls|
    ensures var now := Run(files, lib, calls[..i]);
            && r.path in now && now[r.path] == files[r.path]
            && (i < |calls| && calls[i].r == r ==> Calling(now, lib, calls[i]) == Fetched(now, Returned, 0))
    decreases |calls|
  {
    hide Trusted;
    if i == 0 {
      assert calls[..0] == [];
    } else {
      var c, rest := calls[0], calls[1..];
      var next := Calling(files, lib, c).files;
      FetchSafe(files, lib, c.r, c.answers, c.attempts);
      if c.r.path != r.path { assert r.path in files - {c.r.path} && r.path in next - {c.r.path}; }
      assert forall k :: 0 <= k < |rest| ==> rest[k] == calls[k + 1];
      FetchedOnce(next, lib, r, rest, i - 1);
      assert calls[..i][0] == c && calls[..i][1..] == rest[..i - 1];
    }
  }

  // ---------------------------------------------------------------- what pruning keeps

  lemma {:induction false} CutIsShortest(sorted: seq<PkgFile>, limit: int, j: nat)
    ensures limit >= 0 ==> Total(sorted[Cut(sorted, limit)..]) <= limit
    ensures j < Cut(sorted, limit) ==> Total(sorted[j..]) > limit
  {
    var k := Cut(sorted, limit);
    if k == 0 {
      assert sorted[0..] == sorted;
    } else {
      var rest := sorted[1..];
      CutIsShortest(rest, limit, if j == 0 then 0 else j - 1);
      assert sorted[k..] == rest[k - 1..];
      if j == 0 {
        assert sorted[0..] == sorted;
      } else if j < k {
        assert sorted[j..] == rest[j - 1..];
      }
    }
  }

  lemma SortedListing(listing: seq<PkgFile>, files: Files)
    requires Lists(listing, files)
    ensures Lists(Sort(ByAccess, listing), files) && Sorted(ByAccess, Sort(ByAccess, listing))
  {
    SortSorts(ByAccess, listing);
    var sorted := Sort(ByAccess, listing);
    forall f ensures f in sorted <==> f in listing {
      assert f in multiset(sorted) <==> f in multiset(listing);
    }
    forall i, j | 0 <= i < j < |sorted| ensures sorted[i].path != sorted[j].path {
      DistinctKept(listing, sorted, i, j);
    }
  }

  /** Equal paths would make an element occur twice. */
  lemma DistinctKept(listing: seq<PkgFile>, sorted: seq<PkgFile>, i: nat, j: nat)
    requires multiset(listing) == multiset(sorted) && i < j < |sorted|
    requires forall a, b :: 0 <= a < b < |listing| ==> listing[a].path != listing[b].path
    ensures sorted[i].path != sorted[j].path
  {
    var x, y := sorted[i], sorted[j];
    assert x in multiset(sorted) && y in multiset(sorted);
    assert x in listing && y in listing;
    if x == y {
      assert sorted == sorted[..j] + [y] + sorted[j + 1..];
      assert multiset(sorted)[x] >= 2 by { assert sorted[..j][i] == x; }
      OnlyOnce(listing, x);
    }
  }

  lemma {:induction false} OnlyOnce(listing: seq<PkgFile>, x: PkgFile)
    requires forall a, b :: 0 <= a < b < |listing| ==> listing[a].path != listing[b].path
    ensures multiset(listing)[x] <= 1
  {
    if listing == [] {
    } else {
      var rest := listing[1..];
      assert listing == [listing[0]] + rest;
      assert forall a :: 0 <= a < |rest| ==> rest[a] == listing[a + 1];
      OnlyOnce(rest, x);
      if x in rest {
        var a :| 0 <= a < |rest| && rest[a] == x;
        assert listing[0].path != listing[a + 1].path;
      }
    }
  }

  /**
   Pruning deletes the shortest run of least recently used files that makes the rest fit, reports the size of
   the rest, and leaves the survivors as they were.
   */
  lemma PruneKeepsTheRecent(listing: seq<PkgFile>, files: Files, limit: int)
    requires Lists(listing, files)
    ensures var sorted := Sort(ByAccess, listing);
            var k := Cut(sorted, limit);
            && Lists(sorted[k..], files - PathsOf(sorted[..k]))
            && (limit >= 0 ==> Total(sorted[k..]) <= limit)
            && (forall j :: 0 <= j < k ==> Total(sorted[j..]) > limit)
            && (forall f, g :: f in sorted[..k] && g in sorted[k..] ==> f.atime <= g.atime)
  {
    SortedListing(listing, files);
    hide *;
    var sorted := Sort(ByAccess, listing);
    var k := Cut(sorted, limit);
    CutIsShortest(sorted, limit, 0);
    forall j | 0 <= j < k ensures Total(sorted[j..]) > limit { CutIsShortest(sorted, limit, j); }
    PartsList(sorted, files, k);
    LeastRecent(sorted, k);
  }

  lemma LeastRecent(sorted: seq<PkgFile>, k: nat)
    requires Sorted(ByAccess, sorted) && k <= |sorted|
    ensures forall f, g :: f in sorted[..k] && g in sorted[k..] ==> f.atime <= g.atime
  {
    forall f, g | f in sorted[..k] && g in sorted[k..] ensures f.atime <= g.atime {
      var i :| 0 <= i < k && sorted[i] == f;
      var j :| 0 <= j < |sorted[k..]| && sorted[k..][j] == g;
      assert ByAccess(sorted[i], sorted[k + j]);
    }
  }

  lemma PartsList(sorted: seq<PkgFile>, files: Files, k: nat)
    requires Lists(sorted, files) && k <= |sorted|
    ensures Lists(sorted[k..], files - PathsOf(sorted[..k]))
  {
    var rest, left := sorted[k..], files - PathsOf(sorted[..k]);
    forall f | f in rest ensures f in sorted && f.path !in PathsOf(sorted[..k]) {
      var j :| 0 <= j < |rest| && rest[j] == f;
      assert f == sorted[k + j];
    }
    forall p | p in left ensures p in PathsOf(rest) {
      assert p in PathsOf(sorted);
      var i :| 0 <= i < |sorted| && sorted[i].path == p;
      assert rest[i - k] in rest;
    }
    assert PathsOf(rest) == left.Keys;
  }
}
