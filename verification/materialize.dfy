/**
  Running a chapter: the metadata fetch, the folder creation, and the
  sequential fetch-then-save of each planned image. The filesystem is an
  abstract disk: a set of folders and a map from file name to contents.
  Each fetch is the outcome of the retry loop for that request.
 */
module Materialize {
  import opened Wrappers
  import opened Retry
  import opened Chapter

  type Bytes = seq<bv8>

  datatype Disk = Disk(dirs: set<string>, files: map<string, Bytes>)

  /** Why a chapter task ended with an exception. */
  datatype ChapterError<+E> = KeyError(key: MissingKey) | FetchError(error: E)

  /** How a chapter task ends: it returns, raises, or waits forever on a retry loop. */
  datatype Status<+E> = Completed | Aborted(error: ChapterError<E>) | Stalled

  /** The disk after a run, how many images were saved, and how the run ended. */
  datatype Run<+E> = Run(disk: Disk, written: nat, status: Status<E>)

  /** `os.makedirs(folder, exist_ok=True)`. */
  function MakeDirs(disk: Disk, folder: string): (r: Disk)
    ensures folder in r.dirs
    ensures forall d :: d in r.dirs && d != folder ==> d in disk.dirs
    ensures disk.dirs <= r.dirs && r.files == disk.files
    ensures folder in disk.dirs ==> r == disk
  {
    disk.(dirs := disk.dirs + {folder})
  }

  /** `save_image`: the file is opened with mode `wb`, so earlier contents are replaced. */
  function SaveImage(disk: Disk, filename: string, data: Bytes): (r: Disk)
    ensures filename in r.files && r.files[filename] == data
    ensures r.files.Keys == disk.files.Keys + {filename}
    ensures forall f :: f in disk.files && f != filename ==> r.files[f] == disk.files[f]
    ensures r.dirs == disk.dirs
  {
    disk.(files := disk.files[filename := data])
  }

  ghost predicate DistinctFileNames(downloads: seq<Download>) {
    forall k, l :: 0 <= k < l < |downloads| ==> downloads[k].filename != downloads[l].filename
  }

  /**
    The `for image in images` loop: image `k` is saved only once its fetch has
    returned, and the first raised or endlessly retried fetch ends the loop.
    `fetches[k]` is what the retry loop does for download `k`.
   */
  function RunDownloads<E>(downloads: seq<Download>, fetches: seq<Fetch<Bytes, E>>, disk: Disk): (r: Run<E>)
    requires |fetches| == |downloads|
    ensures r.written <= |downloads|
    ensures r.disk.dirs == disk.dirs
    ensures forall k :: 0 <= k < r.written ==> fetches[k].Fetched?
    ensures r.status.Completed? <==> r.written == |downloads|
    ensures r.status.Aborted? ==> fetches[r.written].Raised? && r.status.error == FetchError(fetches[r.written].error)
    ensures r.status.Stalled? ==> fetches[r.written].StillRetrying?
    decreases |downloads|
  {
    if |downloads| == 0 then Run(disk, 0, Completed)
    else
      match fetches[0]
      case Fetched(data, _) =>
        var rest := RunDownloads(downloads[1..], fetches[1..], SaveImage(disk, downloads[0].filename, data));
        Run(rest.disk, rest.written + 1, rest.status)
      case Raised(e, _) => Run(disk, 0, Aborted(FetchError(e)))
      case StillRetrying(_) => Run(disk, 0, Stalled)
  }

  /** A run leaves the files it did not write as they were. */
  lemma {:induction false} RunDownloadsFrame<E>(downloads: seq<Download>, fetches: seq<Fetch<Bytes, E>>, disk: Disk)
    requires |fetches| == |downloads|
    ensures var r := RunDownloads(downloads, fetches, disk);
      forall f :: f in disk.files && (forall k :: 0 <= k < r.written ==> downloads[k].filename != f) ==>
        f in r.disk.files && r.disk.files[f] == disk.files[f]
    decreases |downloads|
  {
    var r := RunDownloads(downloads, fetches, disk);
    if |downloads| > 0 && fetches[0].Fetched? {
      var disk1 := SaveImage(disk, downloads[0].filename, fetches[0].payload);
      var ds, fs := downloads[1..], fetches[1..];
      RunDownloadsFrame(ds, fs, disk1);
      var rest := RunDownloads(ds, fs, disk1);
      forall f | f in disk.files && (forall k :: 0 <= k < r.written ==> downloads[k].filename != f)
        ensures f in r.disk.files && r.disk.files[f] == disk.files[f]
      {
        assert downloads[0].filename != f;
        forall j | 0 <= j < rest.written ensures ds[j].filename != f {
          assert ds[j] == downloads[j + 1];
        }
      }
    }
  }

  /** After a run, the files on disk are the old ones plus those of the saved images. */
  lemma {:induction false} RunDownloadsKeys<E>(downloads: seq<Download>, fetches: seq<Fetch<Bytes, E>>, disk: Disk)
    requires |fetches| == |downloads|
    ensures var r := RunDownloads(downloads, fetches, disk);
      forall f :: f in r.disk.files <==>
        f in disk.files || exists k :: 0 <= k < r.written && downloads[k].filename == f
    decreases |downloads|
  {
    var r := RunDownloads(downloads, fetches, disk);
    if |downloads| > 0 && fetches[0].Fetched? {
      var disk1 := SaveImage(disk, downloads[0].filename, fetches[0].payload);
      var ds, fs := downloads[1..], fetches[1..];
      RunDownloadsKeys(ds, fs, disk1);
      var rest := RunDownloads(ds, fs, disk1);
      forall f ensures f in r.disk.files <==>
                       f in disk.files || exists k :: 0 <= k < r.written && downloads[k].filename == f
      {
        if exists j :: 0 <= j < rest.written && ds[j].filename == f {
          var j :| 0 <= j < rest.written && ds[j].filename == f;
          assert downloads[j + 1].filename == f;
        }
        if exists k :: 0 <= k < r.written && downloads[k].filename == f {
          var k :| 0 <= k < r.written && downloads[k].filename == f;
          if k > 0 { assert ds[k - 1].filename == f; }
        }
      }
    }
  }

  /** With distinct file names, file `k` of a run holds the bytes of fetch `k`. */
  lemma {:induction false} RunDownloadsContents<E>(downloads: seq<Download>, fetches: seq<Fetch<Bytes, E>>, disk: Disk)
    requires |fetches| == |downloads| && DistinctFileNames(downloads)
    ensures var r := RunDownloads(downloads, fetches, disk);
      forall k :: 0 <= k < r.written ==>
        downloads[k].filename in r.disk.files && r.disk.files[downloads[k].filename] == fetches[k].payload
    decreases |downloads|
  {
    var r := RunDownloads(downloads, fetches, disk);
    if |downloads| > 0 && fetches[0].Fetched? {
      var d0 := downloads[0];
      var disk1 := SaveImage(disk, d0.filename, fetches[0].payload);
      var ds, fs := downloads[1..], fetches[1..];
      RunDownloadsContents(ds, fs, disk1);
      RunDownloadsFrame(ds, fs, disk1);
      var rest := RunDownloads(ds, fs, disk1);
      forall k | 0 <= k < r.written
        ensures downloads[k].filename in r.disk.files && r.disk.files[downloads[k].filename] == fetches[k].payload
      {
        if k > 0 {
          assert downloads[k] == ds[k - 1] && fetches[k] == fs[k - 1];
        } else {
          forall j | 0 <= j < rest.written ensures ds[j].filename != d0.filename {
            assert ds[j] == downloads[j + 1];
          }
        }
      }
    }
  }

  /**
    With distinct file names, a run leaves exactly the saved images' files
    behind: file `k` holds the bytes of fetch `k`, every other file is untouched.
   */
  lemma RunDownloadsFiles<E>(downloads: seq<Download>, fetches: seq<Fetch<Bytes, E>>, disk: Disk)
    requires |fetches| == |downloads| && DistinctFileNames(downloads)
    ensures var r := RunDownloads(downloads, fetches, disk);
      && (forall k :: 0 <= k < r.written ==>
            downloads[k].filename in r.disk.files && r.disk.files[downloads[k].filename] == fetches[k].payload)
      && (forall f :: f in r.disk.files <==>
            f in disk.files || exists k :: 0 <= k < r.written && downloads[k].filename == f)
      && (forall f :: f in disk.files && (forall k :: 0 <= k < r.written ==> downloads[k].filename != f) ==>
            r.disk.files[f] == disk.files[f])
  {
    RunDownloadsContents(downloads, fetches, disk);
    RunDownloadsKeys(downloads, fetches, disk);
    RunDownloadsFrame(downloads, fetches, disk);
  }

  /** A run over a disk that already holds what it would write changes nothing. */
  lemma {:induction false} RunDownloadsStable<E>(downloads: seq<Download>, fetches: seq<Fetch<Bytes, E>>, disk: Disk)
    requires |fetches| == |downloads|
    requires forall k :: 0 <= k < RunDownloads(downloads, fetches, disk).written ==>
               downloads[k].filename in disk.files && disk.files[downloads[k].filename] == fetches[k].payload
    ensures RunDownloads(downloads, fetches, disk).disk == disk
    decreases |downloads|
  {
    if |downloads| > 0 && fetches[0].Fetched? {
      var r := RunDownloads(downloads, fetches, disk);
      var disk1 := SaveImage(disk, downloads[0].filename, fetches[0].payload);
      assert disk1 == disk;
      forall j | 0 <= j < RunDownloads(downloads[1..], fetches[1..], disk1).written
        ensures downloads[1..][j].filename in disk1.files
                && disk1.files[downloads[1..][j].filename] == fetches[1..][j].payload
      {
        assert downloads[1..][j] == downloads[j + 1] && fetches[1..][j] == fetches[j + 1];
      }
      RunDownloadsStable(downloads[1..], fetches[1..], disk1);
    }
  }

  /**
    Downloading a chapter again over its own output, with the same fetch
    results, overwrites every file with the bytes it already holds and ends
    the same way.
   */
  lemma RunDownloadsIdempotent<E>(downloads: seq<Download>, fetches: seq<Fetch<Bytes, E>>, disk: Disk)
    requires |fetches| == |downloads| && DistinctFileNames(downloads)
    ensures var once := RunDownloads(downloads, fetches, disk);
      RunDownloads(downloads, fetches, once.disk) == once
  {
    var once := RunDownloads(downloads, fetches, disk);
    RunDownloadsFiles(downloads, fetches, disk);
    RunDownloadsWrittenIndependent(downloads, fetches, disk, once.disk);
    RunDownloadsStable(downloads, fetches, once.disk);
  }

  /** How far a run gets and how it ends depend on the fetches alone, not on the disk. */
  lemma {:induction false} RunDownloadsWrittenIndependent<E>(downloads: seq<Download>, fetches: seq<Fetch<Bytes, E>>,
                                                             disk: Disk, disk': Disk)
    requires |fetches| == |downloads|
    ensures RunDownloads(downloads, fetches, disk).written == RunDownloads(downloads, fetches, disk').written
    ensures RunDownloads(downloads, fetches, disk).status == RunDownloads(downloads, fetches, disk').status
    decreases |downloads|
  {
    if |downloads| > 0 && fetches[0].Fetched? {
      RunDownloadsWrittenIndependent(downloads[1..], fetches[1..],
        SaveImage(disk, downloads[0].filename, fetches[0].payload),
        SaveImage(disk', downloads[0].filename, fetches[0].payload));
    }
  }

  /**
    `get_chapter` end to end: the metadata fetch, then the plan, the folder,
    and the image loop. `fetchImage(k)` is the retry loop's outcome for the
    image with counter `k + 1`.
   */
  function DownloadChapter<E>(mangaName: string, metadata: Fetch<MetadataResponse, E>,
                              fetchImage: nat -> Fetch<Bytes, E>, disk: Disk): (r: Run<E>)
    ensures metadata.StillRetrying? ==> r == Run(disk, 0, Stalled)
    ensures metadata.Raised? ==> r == Run(disk, 0, Aborted(FetchError(metadata.error)))
    ensures r.status.Completed? ==> metadata.Fetched? && Decode(metadata.payload).Success?
    ensures r.disk.files.Keys >= disk.files.Keys
    ensures r.disk.dirs >= disk.dirs
    ensures metadata.Fetched? ==> match GetChapter(mangaName, metadata.payload)
      case Failed(created, key) =>
        r.written == 0 && r.status == Aborted(KeyError(key))
        && r.disk.files == disk.files
        && r.disk.dirs == disk.dirs + (if created.Some? then {created.value} else {})
      case Planned(folder, ds) =>
        r.disk.dirs == disk.dirs + {folder} && r.written <= |ds|
  {
    match metadata
    case StillRetrying(_) => Run(disk, 0, Stalled)
    case Raised(e, _) => Run(disk, 0, Aborted(FetchError(e)))
    case Fetched(response, _) =>
      match GetChapter(mangaName, response)
      case Failed(None, key) => Run(disk, 0, Aborted(KeyError(key)))
      case Failed(Some(folder), key) => Run(MakeDirs(disk, folder), 0, Aborted(KeyError(key)))
      case Planned(folder, ds) =>
        var fetches := seq(|ds|, k requires 0 <= k => fetchImage(k));
        var r := RunDownloads(ds, fetches, MakeDirs(disk, folder));
        RunDownloadsGrowsFiles(ds, fetches, MakeDirs(disk, folder));
        r
  }

  /** A run never deletes a file. */
  lemma {:induction false} RunDownloadsGrowsFiles<E>(downloads: seq<Download>, fetches: seq<Fetch<Bytes, E>>, disk: Disk)
    requires |fetches| == |downloads|
    ensures RunDownloads(downloads, fetches, disk).disk.files.Keys >= disk.files.Keys
    decreases |downloads|
  {
    if |downloads| > 0 && fetches[0].Fetched? {
      RunDownloadsGrowsFiles(downloads[1..], fetches[1..], SaveImage(disk, downloads[0].filename, fetches[0].payload));
    }
  }

  /** The `k`-th download of a chapter's plan writes `{folder}/{k + 1}.png`. */
  lemma PlanFileNames(mangaName: string, info: ChapterInfo)
    ensures var ds := PlanChapter(mangaName, info).downloads;
      forall k :: 0 <= k < |ds| ==> ds[k].filename == FileName(Folder(mangaName, info.number), k + 1)
  {
    var ds := PlanChapter(mangaName, info).downloads;
    forall k | 0 <= k < |ds|
      ensures ds[k].filename == FileName(Folder(mangaName, info.number), k + 1)
    {
      assert ds[(k + 1) - 1] == ds[k];
    }
  }

  /** When every image fetch returns, a chapter's plan runs to completion and file `k` holds image `k`. */
  lemma PlanRunContents<E>(mangaName: string, info: ChapterInfo, fetches: seq<Fetch<Bytes, E>>, disk: Disk)
    requires |fetches| == |info.images|
    requires forall k :: 0 <= k < |fetches| ==> fetches[k].Fetched?
    ensures var folder := Folder(mangaName, info.number);
      var r := RunDownloads(PlanChapter(mangaName, info).downloads, fetches, disk);
      && r.status == Completed
      && (forall k :: 1 <= k <= |info.images| ==>
            FileName(folder, k) in r.disk.files && r.disk.files[FileName(folder, k)] == fetches[k - 1].payload)
  {
    var folder := Folder(mangaName, info.number);
    var ds := PlanChapter(mangaName, info).downloads;
    PlanFilesContiguous(mangaName, info);
    PlanFileNames(mangaName, info);
    RunDownloadsContents(ds, fetches, disk);
    var r := RunDownloads(ds, fetches, disk);
    assert r.written == |ds|;
    forall k | 1 <= k <= |info.images|
      ensures FileName(folder, k) in r.disk.files && r.disk.files[FileName(folder, k)] == fetches[k - 1].payload
    {
      assert ds[k - 1].filename == FileName(folder, k);
    }
  }

  /**
    The files after running downloads numbered `1.png`, `2.png`, … in `folder`
    are the old ones plus some of the numbered files, and all of them once
    every fetch has returned.
   */
  lemma NumberedRunKeys<E>(folder: string, ds: seq<Download>, fetches: seq<Fetch<Bytes, E>>, disk: Disk)
    requires |fetches| == |ds|
    requires forall k :: 0 <= k < |ds| ==> ds[k].filename == FileName(folder, k + 1)
    ensures var r := RunDownloads(ds, fetches, disk);
      forall f :: f in r.disk.files ==>
        f in disk.files || exists k :: 1 <= k <= |ds| && f == FileName(folder, k)
    ensures (forall k :: 0 <= k < |fetches| ==> fetches[k].Fetched?) ==>
      var r := RunDownloads(ds, fetches, disk);
      forall f :: f in disk.files || (exists k :: 1 <= k <= |ds| && f == FileName(folder, k)) ==>
        f in r.disk.files
  {
    RunDownloadsKeys(ds, fetches, disk);
    var r := RunDownloads(ds, fetches, disk);
    forall f | f in r.disk.files && f !in disk.files
      ensures exists k :: 1 <= k <= |ds| && f == FileName(folder, k)
    {
      var k :| 0 <= k < r.written && ds[k].filename == f;
      assert f == FileName(folder, k + 1);
    }
    if forall k :: 0 <= k < |fetches| ==> fetches[k].Fetched? {
      forall f | f !in disk.files && exists k :: 1 <= k <= |ds| && f == FileName(folder, k)
        ensures f in r.disk.files
      {
        var k :| 1 <= k <= |ds| && f == FileName(folder, k);
        assert ds[k - 1].filename == f;
      }
    }
  }

  /** A completed chapter run adds exactly the files `1.png` to `N.png` to the disk. */
  lemma PlanRunKeys<E>(mangaName: string, info: ChapterInfo, fetches: seq<Fetch<Bytes, E>>, disk: Disk)
    requires |fetches| == |info.images|
    requires forall k :: 0 <= k < |fetches| ==> fetches[k].Fetched?
    ensures var folder := Folder(mangaName, info.number);
      var r := RunDownloads(PlanChapter(mangaName, info).downloads, fetches, disk);
      forall f :: f in r.disk.files <==>
        f in disk.files || exists k :: 1 <= k <= |info.images| && f == FileName(folder, k)
  {
    PlanFileNames(mangaName, info);
    NumberedRunKeys(Folder(mangaName, info.number), PlanChapter(mangaName, info).downloads, fetches, disk);
  }

  /** A chapter run leaves every file other than `1.png` to `N.png` of its folder as it was. */
  lemma PlanRunFrame<E>(mangaName: string, info: ChapterInfo, fetches: seq<Fetch<Bytes, E>>, disk: Disk)
    requires |fetches| == |info.images|
    ensures var folder := Folder(mangaName, info.number);
      var r := RunDownloads(PlanChapter(mangaName, info).downloads, fetches, disk);
      forall f :: f in disk.files && (forall k :: 1 <= k <= |info.images| ==> f != FileName(folder, k)) ==>
        f in r.disk.files && r.disk.files[f] == disk.files[f]
  {
    var folder := Folder(mangaName, info.number);
    var ds := PlanChapter(mangaName, info).downloads;
    PlanFileNames(mangaName, info);
    RunDownloadsFrame(ds, fetches, disk);
    var r := RunDownloads(ds, fetches, disk);
    forall f | f in disk.files && (forall k :: 1 <= k <= |info.images| ==> f != FileName(folder, k))
      ensures f in r.disk.files && r.disk.files[f] == disk.files[f]
    {
      forall k | 0 <= k < r.written ensures ds[k].filename != f {
        assert ds[k].filename == FileName(folder, k + 1);
      }
    }
  }

  /**
    Running a chapter's plan when every image fetch returns: all images are
    saved, file `{folder}/{k}.png` holding image `k`; no other file is
    created, and every file other than those `N` is unchanged.
   */
  lemma PlanRunComplete<E>(mangaName: string, info: ChapterInfo, fetches: seq<Fetch<Bytes, E>>, disk: Disk)
    requires |fetches| == |info.images|
    requires forall k :: 0 <= k < |fetches| ==> fetches[k].Fetched?
    ensures var folder := Folder(mangaName, info.number);
      var r := RunDownloads(PlanChapter(mangaName, info).downloads, fetches, disk);
      && r.status == Completed
      && (forall k :: 1 <= k <= |info.images| ==>
            FileName(folder, k) in r.disk.files && r.disk.files[FileName(folder, k)] == fetches[k - 1].payload)
      && (forall f :: f in r.disk.files <==>
            f in disk.files || exists k :: 1 <= k <= |info.images| && f == FileName(folder, k))
      && (forall f :: f in disk.files && (forall k :: 1 <= k <= |info.images| ==> f != FileName(folder, k)) ==>
            r.disk.files[f] == disk.files[f])
  {
    PlanRunContents(mangaName, info, fetches, disk);
    PlanRunKeys(mangaName, info, fetches, disk);
    PlanRunFrame(mangaName, info, fetches, disk);
  }

  /**
    When the metadata is well formed and every image fetch returns, the
    chapter folder exists and holds `1.png` to `N.png`, file `k` holding the
    bytes of image `k`; no other file is created and no other file changes.
   */
  lemma ChapterSavedInOrder<E>(mangaName: string, response: MetadataResponse, sleeps: seq<int>,
                               fetchImage: nat -> Fetch<Bytes, E>, disk: Disk)
    requires Decode(response).Success?
    requires forall k :: 0 <= k < |Decode(response).value.images| ==> fetchImage(k).Fetched?
    ensures var info := Decode(response).value;
      var folder := Folder(mangaName, info.number);
      var r := DownloadChapter(mangaName, Fetched(response, sleeps), fetchImage, disk);
      && r.status == Completed
      && folder in r.disk.dirs
      && (forall k :: 1 <= k <= |info.images| ==>
            FileName(folder, k) in r.disk.files && r.disk.files[FileName(folder, k)] == fetchImage(k - 1).payload)
      && (forall f :: f in r.disk.files <==>
            f in disk.files || exists k :: 1 <= k <= |info.images| && f == FileName(folder, k))
      && (forall f :: f in disk.files && (forall k :: 1 <= k <= |info.images| ==> f != FileName(folder, k)) ==>
            r.disk.files[f] == disk.files[f])
  {
    var info := Decode(response).value;
    var folder := Folder(mangaName, info.number);
    var ds := PlanChapter(mangaName, info).downloads;
    var fetches := seq(|ds|, k requires 0 <= k => fetchImage(k));
    assert GetChapter(mangaName, response) == Planned(folder, ds);
    assert DownloadChapter(mangaName, Fetched(response, sleeps), fetchImage, disk)
        == RunDownloads(ds, fetches, MakeDirs(disk, folder));
    PlanRunComplete(mangaName, info, fetches, MakeDirs(disk, folder));
  }

  /**
    A well-formed chapter saves its images in order and stops at the first
    image whose fetch does not return: a raised fetch aborts the chapter with
    that error, an endless retry stalls it there.
   */
  lemma ChapterStopsAtFailedImage<E>(mangaName: string, response: MetadataResponse, sleeps: seq<int>,
                                     fetchImage: nat -> Fetch<Bytes, E>, disk: Disk)
    requires Decode(response).Success?
    ensures var n := |Decode(response).value.images|;
      var r := DownloadChapter(mangaName, Fetched(response, sleeps), fetchImage, disk);
      && r.written <= n
      && (forall k :: 0 <= k < r.written ==> fetchImage(k).Fetched?)
      && (r.status.Completed? <==> r.written == n)
      && (r.status.Aborted? ==>
            fetchImage(r.written).Raised? && r.status.error == FetchError(fetchImage(r.written).error))
      && (r.status.Stalled? ==> fetchImage(r.written).StillRetrying?)
  {
    var info := Decode(response).value;
    var folder := Folder(mangaName, info.number);
    var ds := PlanChapter(mangaName, info).downloads;
    var fetches := seq(|ds|, k requires 0 <= k => fetchImage(k));
    assert forall k :: 0 <= k < |ds| ==> fetches[k] == fetchImage(k);
    assert GetChapter(mangaName, response) == Planned(folder, ds);
    assert DownloadChapter(mangaName, Fetched(response, sleeps), fetchImage, disk)
        == RunDownloads(ds, fetches, MakeDirs(disk, folder));
  }
}
