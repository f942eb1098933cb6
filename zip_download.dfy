/** Downloading the converted files: exactly one result is downloaded as itself,
    any other number of results (zero included) as one archive of the non-empty
    payloads. Blobs, object URLs and the archive library are opaque: an object URL
    is numbered in creation order, and `archiveSize` gives the size of the archive
    generated from a list of entries. */
module ZipDownload {
  import opened Common

  /** The archive's fixed download name. */
  const ArchiveName: string := "converted-images.zip"

  const ArchiveFailedAlert: string := "Failed to generate ZIP archive. Please try again."

  function SingleFailedAlert(name: string): string
  {
    "Failed to download " + name + ". Please try again."
  }

  /** An object URL, identified by its position in creation order. */
  type Url = nat

  /** What the user receives: one file under its own name, an archive under the
      fixed name holding the listed entries, or an alert. */
  datatype Download =
    | SingleFile(fileName: string)
    | Archive(fileName: string, entries: seq<ConvertedFile>)
    | Failed(alert: string)

  /** The size of `new Blob([file.arrayBuffer])`. */
  function BlobSize(f: ConvertedFile): nat
  {
    f.payload.byteLength
  }

  /** The files added to the archive: the non-empty ones, in order. */
  function ArchiveEntries(files: seq<ConvertedFile>): (r: seq<ConvertedFile>)
    ensures |r| <= |files|
  {
    if files == [] then []
    else
      var last := files[|files| - 1];
      ArchiveEntries(files[..|files| - 1]) + (if BlobSize(last) == 0 then [] else [last])
  }

  /** The archive holds exactly the non-empty files. */
  lemma {:induction false} ArchiveEntriesMembers(files: seq<ConvertedFile>)
    ensures forall f :: f in ArchiveEntries(files) ==> f in files && BlobSize(f) > 0
    ensures forall f :: f in files && BlobSize(f) > 0 ==> f in ArchiveEntries(files)
  {
    if files != [] {
      var init := files[..|files| - 1];
      ArchiveEntriesMembers(init);
      assert files == init + [files[|files| - 1]];
    }
  }

  /** Entries keep the order of the results. */
  lemma {:induction false} ArchiveEntriesAppend(a: seq<ConvertedFile>, b: seq<ConvertedFile>)
    ensures ArchiveEntries(a + b) == ArchiveEntries(a) + ArchiveEntries(b)
    decreases |b|
  {
    if b == [] {
      assert a + b == a;
    } else {
      assert (a + b)[..|a + b| - 1] == a + b[..|b| - 1];
      ArchiveEntriesAppend(a, b[..|b| - 1]);
    }
  }

  /** Results that all carry a payload (as every converted reply does) are all archived. */
  lemma {:induction false} NonEmptyResultsAreAllArchived(files: seq<ConvertedFile>)
    requires forall i :: 0 <= i < |files| ==> BlobSize(files[i]) > 0
    ensures ArchiveEntries(files) == files
  {
    if files != [] {
      var init, last := files[..|files| - 1], files[|files| - 1];
      assert files == init + [last];
      forall i | 0 <= i < |init|
        ensures BlobSize(init[i]) > 0
      {
        assert init[i] == files[i];
      }
      NonEmptyResultsAreAllArchived(init);
      assert BlobSize(last) > 0;
    }
  }

  /** The download `downloadConvertedFiles` ends in (its specification). */
  function Plan(files: seq<ConvertedFile>, archiveSize: seq<ConvertedFile> -> nat): (d: Download)
    ensures d.SingleFile? <==> |files| == 1 && BlobSize(files[0]) > 0
    ensures d.SingleFile? ==> d.fileName == files[0].name
    ensures d.Archive? <==> |files| != 1 && archiveSize(ArchiveEntries(files)) > 0
    ensures d.Archive? ==> d.fileName == ArchiveName && d.entries == ArchiveEntries(files)
    ensures d.Failed? ==> d.alert == if |files| == 1 then SingleFailedAlert(files[0].name) else ArchiveFailedAlert
  {
    if |files| == 1 then
      if BlobSize(files[0]) == 0 then Failed(SingleFailedAlert(files[0].name)) else SingleFile(files[0].name)
    else
      var entries := ArchiveEntries(files);
      if archiveSize(entries) == 0 then Failed(ArchiveFailedAlert) else Archive(ArchiveName, entries)
  }

  /** Two non-empty results go into the archive, both of them, in order. */
  lemma TwoResultsAreArchived(a: ConvertedFile, b: ConvertedFile, archiveSize: seq<ConvertedFile> -> nat)
    requires BlobSize(a) > 0 && BlobSize(b) > 0 && archiveSize([a, b]) > 0
    ensures Plan([a, b], archiveSize) == Archive(ArchiveName, [a, b])
  {
    NonEmptyResultsAreAllArchived([a, b]);
  }

  /** No result at all still takes the archive path. */
  lemma NoResultsTakeArchivePath(archiveSize: seq<ConvertedFile> -> nat)
    ensures Plan([], archiveSize) == if archiveSize([]) == 0 then Failed(ArchiveFailedAlert) else Archive(ArchiveName, [])
  {
  }

  /** The URL cache after the archive loop has processed `files`, starting from
      `cache` with `next` object URLs already created: each non-empty file's name is
      bound to the URL created for it. */
  function CacheAfter(cache: map<string, Url>, files: seq<ConvertedFile>, next: Url): (r: map<string, Url>)
    ensures cache.Keys <= r.Keys
  {
    if files == [] then cache
    else
      var init := files[..|files| - 1];
      var last := files[|files| - 1];
      var c := CacheAfter(cache, init, next);
      if BlobSize(last) == 0 then c else c[last.name := next + |ArchiveEntries(init)|]
  }

  /** The cache's keys are the old keys and the names of the non-empty files. */
  lemma {:induction false} CacheKeys(cache: map<string, Url>, files: seq<ConvertedFile>, next: Url, name: string)
    ensures name in CacheAfter(cache, files, next)
        <==> name in cache || exists i :: 0 <= i < |files| && BlobSize(files[i]) > 0 && files[i].name == name
  {
    if files != [] {
      var init := files[..|files| - 1];
      CacheKeys(cache, init, next, name);
      if exists i :: 0 <= i < |init| && BlobSize(init[i]) > 0 && init[i].name == name {
        var i :| 0 <= i < |init| && BlobSize(init[i]) > 0 && init[i].name == name;
        assert files[i] == init[i];
      }
      if exists i :: 0 <= i < |files| && BlobSize(files[i]) > 0 && files[i].name == name {
        var i :| 0 <= i < |files| && BlobSize(files[i]) > 0 && files[i].name == name;
        if i < |init| {
          assert init[i] == files[i];
        }
      }
    }
  }

  /** A later file with the same name overwrites the earlier entry: a name maps to
      the URL created for the last non-empty file that bears it. */
  lemma {:induction false} CacheLastWins(cache: map<string, Url>, files: seq<ConvertedFile>, next: Url, i: nat)
    requires i < |files| && BlobSize(files[i]) > 0
    requires forall j :: i < j < |files| && BlobSize(files[j]) > 0 ==> files[j].name != files[i].name
    ensures files[i].name in CacheAfter(cache, files, next)
    ensures CacheAfter(cache, files, next)[files[i].name] == next + |ArchiveEntries(files[..i])|
  {
    var init := files[..|files| - 1];
    if i < |files| - 1 {
      assert init[..i] == files[..i];
      CacheLastWins(cache, init, next, i);
    }
  }

  /** A name that no non-empty file bears keeps its entry, or its absence. */
  lemma {:induction false} CacheKeepsOtherNames(cache: map<string, Url>, files: seq<ConvertedFile>, next: Url,
                                                name: string)
    requires forall i :: 0 <= i < |files| && BlobSize(files[i]) > 0 ==> files[i].name != name
    ensures name in CacheAfter(cache, files, next) <==> name in cache
    ensures name in cache ==> CacheAfter(cache, files, next)[name] == cache[name]
  {
    if files != [] {
      var init := files[..|files| - 1];
      forall i | 0 <= i < |init| && BlobSize(init[i]) > 0
        ensures init[i].name != name
      {
        assert init[i] == files[i];
      }
      CacheKeepsOtherNames(cache, init, next, name);
    }
  }

  /** `cache` and the count of object URLs created so far. */
  class Downloader {
    var cache: map<string, Url>
    var urlsCreated: nat

    constructor ()
      ensures cache == map[] && urlsCreated == 0
    {
      cache := map[];
      urlsCreated := 0;
    }

    /** `URL.createObjectURL` */
    method CreateObjectUrl() returns (url: Url)
      modifies this`urlsCreated
      ensures url == old(urlsCreated) && urlsCreated == old(urlsCreated) + 1
    {
      url := urlsCreated;
      urlsCreated := urlsCreated + 1;
    }

    /** The archive loop: add each non-empty file to the archive and cache an
        object URL for it under its name; empty payloads are skipped. */
    method AddArchiveEntries(files: seq<ConvertedFile>) returns (entries: seq<ConvertedFile>)
      modifies this`cache, this`urlsCreated
      ensures entries == ArchiveEntries(files)
      ensures cache == CacheAfter(old(cache), files, old(urlsCreated))
      ensures urlsCreated == old(urlsCreated) + |entries|
    {
      entries := [];
      for i := 0 to |files|
        invariant entries == ArchiveEntries(files[..i])
        invariant cache == CacheAfter(old(cache), files[..i], old(urlsCreated))
        invariant urlsCreated == old(urlsCreated) + |entries|
      {
        var file := files[i];
        ghost var done := files[..i + 1];
        assert done[..i] == files[..i] && done[i] == file;
        assert ArchiveEntries(done) == entries + (if BlobSize(file) == 0 then [] else [file]);
        assert CacheAfter(old(cache), done, old(urlsCreated))
            == if BlobSize(file) == 0 then cache else cache[file.name := old(urlsCreated) + |entries|];
        if BlobSize(file) == 0 {
          continue;
        }
        entries := entries + [file];
        var url := CreateObjectUrl();
        cache := cache[file.name := url];
      }
      assert files[..|files|] == files;
    }

    /** `downloadConvertedFiles`. The single file's URL is cached after it has been
        revoked; in the archive path every non-empty entry's URL is cached before the
        archive is generated, so the cache changes even when generation fails. */
    method DownloadConvertedFiles(files: seq<ConvertedFile>, archiveSize: seq<ConvertedFile> -> nat)
      returns (d: Download)
      modifies this
      ensures d == Plan(files, archiveSize)
      ensures |files| == 1 && BlobSize(files[0]) == 0 ==> cache == old(cache) && urlsCreated == old(urlsCreated)
      ensures |files| == 1 && BlobSize(files[0]) > 0
              ==> cache == old(cache)[files[0].name := old(urlsCreated)] && urlsCreated == old(urlsCreated) + 1
      ensures |files| != 1 ==> cache == CacheAfter(old(cache), files, old(urlsCreated))
      ensures |files| != 1 ==> urlsCreated == old(urlsCreated) + |ArchiveEntries(files)| + (if d.Archive? then 1 else 0)
    {
      if |files| == 1 {
        var file := files[0];
        if BlobSize(file) == 0 {
          return Failed(SingleFailedAlert(file.name));
        }
        var url := CreateObjectUrl();
        cache := cache[file.name := url];
        return SingleFile(file.name);
      }
      var entries := AddArchiveEntries(files);
      if archiveSize(entries) == 0 {
        return Failed(ArchiveFailedAlert);
      }
      var archiveUrl := CreateObjectUrl();
      d := Archive(ArchiveName, entries);
    }
  }
}
