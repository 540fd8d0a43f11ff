# Mangalib downloader: a Dafny model of its sequential core

The downloader takes the catalog page of one manga, collects the chapter ids
listed on it, and downloads every chapter's page images to
`{manga}/{chapter number}/{k}.png`. Chapters are launched in batches of ten
concurrent tasks. Every GET of chapter metadata and of images (lines 19-52 of
`mangalib_downloader.py`) is retried forever, with a sleep of 1 to 5 time
units, when it fails with one of five transient exception kinds. The single
GET of the catalog page is not retried.

This project models the deterministic logic under that I/O as pure Dafny
functions and proves its properties:

- `Scheduler` (scheduler.dfy) models `main`. It cuts the id list into slices of
  `portion` ids. After each batch, `asyncio.gather` waits on the task list
  built so far. The loop itself is modelled by the method `RunMain`.
- `Chapter` (chapter.dfy) models `get_chapter` after its metadata fetch. It
  reads the `chapter.slug`, `chapter.number` and `images` keys. Each missing
  key is a `KeyError`, raised in the order the code reads them. It then builds
  the chapter folder, the image URLs and the `1.png … N.png` file names.
- `Decimal` (decimal.dfy) renders the image counter as `str(k)` does, and
  parses it back.
- `MangaName` (manga_name.dfy) models `path_url.replace('/', '')`.
- `Retry` (retry.dfy) models the `while True` / `try` / `except` loop shared by
  `get_image` and `get_chapter_info`. It works over a finite sequence of
  attempt outcomes. Each attempt comes with a delay input, constrained to the
  inclusive range [1, 5] that `random.randint(1, 5)` draws from.
- `Materialize` (materialize.dfy) runs a chapter against the retry loop's
  outcome for each request. Its disk is abstract: a set of folders plus a map
  from file name to bytes. It models `os.makedirs(..., exist_ok=True)` and the
  overwriting `save_image`.

Inputs that come from outside the program are parameters. These are the id
list (parsed from HTML), the decoded metadata JSON, the outcome of each HTTP
attempt, and the random delays.

The code does not guarantee a non-empty manga name: a request path of `/`
gives the empty name, and `StripSlashes` follows the code. The code waits on
every task launched so far after each batch, and the model follows it
(`AwaitedAfter`, `RunMain`).

## Model

| member | source | states |
|---|---|---|
| Scheduler.BatchCount | mangalib_downloader.py:91-93 | the number of batches is the least `c` with `portion*c >= L` (that is, `ceil(L/portion)`); there are no batches exactly when the id list is empty |
| Scheduler.BatchSizes | mangalib_downloader.py:93-97 | every batch but the last holds exactly `portion` ids; the last holds between 1 and `portion` ids, namely `L - portion*(count-1)` |
| Scheduler.Batch | mangalib_downloader.py:94-97 | batch `i` (for `i` below the batch count) is non-empty and holds at most `portion` ids |
| Scheduler.Batches | mangalib_downloader.py:91-97 | there are no batches exactly when there are no ids, and every batch holds between 1 and `portion` ids |
| Scheduler.FlattenBatches | mangalib_downloader.py:93-97 | the batches laid end to end give back the id list exactly: no id lost, repeated or reordered |
| Scheduler.FlattenPrefix | mangalib_downloader.py:93-99 | the first `i` batches laid end to end are the first `min(portion*i, L)` ids |
| Scheduler.AwaitedAfter | mangalib_downloader.py:80-101 | the task list awaited after batch `i` is the prefix of the ids of length `min(portion*(i+1), L)` |
| Scheduler.AwaitedGrows | mangalib_downloader.py:80-101 | tasks are never removed: the list awaited after batch `i` is a prefix of the list awaited after any later batch |
| Scheduler.LastAwaitCoversAll | mangalib_downloader.py:93-101 | the last `gather` waits on a task for every chapter id |
| Scheduler.RunMain | mangalib_downloader.py:79-101 | the loop of `main`, with `portion = 10`, launches exactly the batches `ids[10*i:10*(i+1)]`, and after batch `i` awaits the first `min(10*(i+1), L)` ids |
| Scheduler.Slice | mangalib_downloader.py:97 | Python slicing with non-negative bounds clamps to the list: the slice has `min(to,L) - min(from,L)` elements, the `k`-th being element `from+k` |
| Scheduler.ExampleTwentyThree | mangalib_downloader.py:81-97 | 23 ids in portions of 10 form batches of 10, 10 and 3 ids |
| Chapter.MetadataUrl | mangalib_downloader.py:37 | the metadata URL is the fixed download endpoint followed by the chapter id, unchanged |
| Chapter.Folder | mangalib_downloader.py:59 | the folder is the manga name, a slash, then the chapter number, each recoverable from it |
| Chapter.ImageUrl | mangalib_downloader.py:66 | the image URL is the image host, the manga name, `/chapters/` followed by the slug, then a slash and the image reference, each segment at a known position |
| Chapter.Decode | mangalib_downloader.py:57-65 | the metadata yields a `ChapterInfo` exactly when the `chapter`, `slug`, `number` and `images` keys are all present, and it then carries their values |
| Chapter.GetChapter | mangalib_downloader.py:55-65 | the keys are read in the order `chapter`, `slug`, `number`, `images`, and the first missing one is the `KeyError` raised; the first three fail before the folder is made, a missing `images` key fails after the folder `{manga}/{number}` is made; otherwise the result is the chapter's plan |
| Chapter.PlanImages | mangalib_downloader.py:65-74 | the image loop from counter `c` on gives one download per image, in order: the `k`-th goes from the image URL of the `k`-th ref to file `c+k` |
| Chapter.PlanChapter | mangalib_downloader.py:59-74 | for `N` image refs the plan has `N` entries in folder `{manga}/{number}`; entry `k` (from 1) fetches `https://img2.mangalib.me/manga/{manga}/chapters/{slug}/{ref k}` into `{folder}/{k}.png` |
| Chapter.FileName | mangalib_downloader.py:70 | the file name starts with `{folder}/`, ends with `.png`, and what lies between is exactly `str(k)`; the counter can be read back from it: parsing `{folder}/{k}.png` gives `k` |
| Chapter.FileNameInjective | mangalib_downloader.py:70 | two counters give the same file name only if they are equal |
| Chapter.PlanFilesContiguous | mangalib_downloader.py:61-74 | the files of a chapter carry counters `1..N` in order, one per image, and no two entries share a file |
| Chapter.FirstFileNames | mangalib_downloader.py:70 | the first two images of a chapter are saved as `{folder}/1.png` and `{folder}/2.png` |
| Chapter.ExampleTwoImages | mangalib_downloader.py:59-74 | images `["a.png", "b.png"]` are saved to `{manga}/{number}/1.png` and `{manga}/{number}/2.png`, the second fetched from `.../chapters/{slug}/b.png` |
| Decimal.NatToString | mangalib_downloader.py:70 | the counter's text is non-empty, all decimal digits, with no leading zero |
| Decimal.ParseNatToString | mangalib_downloader.py:70 | parsing the decimal text of `n` gives back `n` |
| Decimal.NatToStringInjective | mangalib_downloader.py:70 | distinct counters have distinct decimal texts |
| MangaName.StripSlashes | mangalib_downloader.py:84 | the manga name contains no `/`; it keeps every other character with the same count, and is shorter by the number of slashes |
| MangaName.StripSlashesFixedPoint | mangalib_downloader.py:84 | stripping leaves a string unchanged exactly when it has no `/` |
| MangaName.StripSlashesIdempotent | mangalib_downloader.py:84 | stripping slashes twice is the same as stripping once |
| MangaName.StripSlashesAppend | mangalib_downloader.py:84 | stripping a concatenation is concatenating the stripped parts, so a slash anywhere in the path is removed |
| MangaName.ExampleName | mangalib_downloader.py:84 | the path `/my-manga` gives the manga name `my-manga` |
| Retry.RetryLoop | mangalib_downloader.py:19-33 | every sleep is one of the drawn delays in [1,5], one per transient attempt before the loop stops; a returned payload is the first non-transient attempt's success; a raised error is the first non-transient attempt's fatal error; still retrying means every attempt was transient |
| Retry.ReturnsFirstSuccess | mangalib_downloader.py:20-33 | if all attempts before the first success are transient, the loop returns that success's payload after exactly one sleep per earlier attempt |
| Retry.RaisesFirstFatal | mangalib_downloader.py:20-31 | if all attempts before the first uncaught exception are transient, that exception propagates after one sleep per earlier attempt |
| Retry.AllTransientKeepsRetrying | mangalib_downloader.py:20-33 | the loop is still retrying exactly when every attempt so far failed transiently, and then it has slept once per attempt |
| Retry.IgnoresLaterAttempts | mangalib_downloader.py:22-31 | nothing after the first success or fatal error is consulted: changing the later attempts or their delays does not change the result |
| Materialize.RunDownloads | mangalib_downloader.py:65-74 | images are saved strictly in order: every saved image's fetch returned; the loop completes exactly when all are saved; an uncaught fetch error aborts at that image; an endless retry stalls there; folders are untouched |
| Materialize.MakeDirs | mangalib_downloader.py:60 | the folder exists afterwards, no folder other than the chapter folder is recorded, files are untouched, and an existing folder is no error and no change (`exist_ok=True`) |
| Materialize.SaveImage | mangalib_downloader.py:14-16 | the file holds exactly the new bytes, replacing earlier contents; no other file or folder changes |
| Materialize.RunDownloadsFiles | mangalib_downloader.py:14-72 | with distinct file names, the disk afterwards holds exactly the old files plus the saved ones; file `k` holds the bytes of fetch `k`; every other file is unchanged |
| Materialize.RunDownloadsFrame | mangalib_downloader.py:14-74 | a file that none of the saved images is written to is still on disk with its old bytes |
| Materialize.RunDownloadsKeys | mangalib_downloader.py:14-74 | the files after a run are exactly the old files plus the files of the images saved |
| Materialize.RunDownloadsContents | mangalib_downloader.py:14-74 | with distinct file names, the file of the `k`-th saved image holds the bytes of the `k`-th fetch |
| Materialize.RunDownloadsStable | mangalib_downloader.py:14-16 | saving over files that already hold the bytes being written leaves the disk unchanged |
| Materialize.RunDownloadsIdempotent | mangalib_downloader.py:14-74 | re-running a chapter's downloads over their own output with the same fetch results overwrites without error and gives the same disk and the same ending |
| Materialize.RunDownloadsWrittenIndependent | mangalib_downloader.py:65-74 | how many images are saved and how the loop ends depend only on the fetch results, not on what is already on disk |
| Materialize.RunDownloadsGrowsFiles | mangalib_downloader.py:14-16 | saving images never deletes a file |
| Materialize.DownloadChapter | mangalib_downloader.py:55-76 | a metadata fetch that raises or retries forever touches nothing; a missing key aborts the chapter with at most the folder made; a well-formed chapter makes its folder; files are only added |
| Materialize.PlanFileNames | mangalib_downloader.py:65-70 | the `k`-th download of a chapter's plan (from 0) writes `{folder}/{k+1}.png` |
| Materialize.PlanRunContents | mangalib_downloader.py:61-74 | when every image fetch returns, a chapter's plan completes and `{folder}/{k}.png` holds the bytes of image `k` |
| Materialize.NumberedRunKeys | mangalib_downloader.py:65-74 | saving into `{folder}/1.png`, `{folder}/2.png`, … adds no file outside these names, and all of them once every fetch has returned |
| Materialize.PlanRunKeys | mangalib_downloader.py:61-74 | when every image fetch returns, the files after a chapter's plan are the old files plus exactly `{folder}/1.png` to `{folder}/N.png` |
| Materialize.PlanRunFrame | mangalib_downloader.py:61-74 | whatever the fetches return, a file other than `{folder}/1.png` to `{folder}/N.png` keeps its old bytes |
| Materialize.PlanRunComplete | mangalib_downloader.py:61-74 | running a chapter's plan when every image fetch returns completes; file `{folder}/{k}.png` holds the bytes of image `k`; the files afterwards are the old files plus exactly these `N`; every other file is unchanged |
| Materialize.ChapterStopsAtFailedImage | mangalib_downloader.py:55-74 | for a well-formed chapter, the images saved are a prefix of the image list whose fetches all returned; the chapter completes exactly when all are saved; it aborts with the error of the first image fetch that raised, or stalls at the first that keeps retrying |
| Materialize.ChapterSavedInOrder | mangalib_downloader.py:55-74 | with well-formed metadata and every image fetch returning, the chapter completes: its folder exists, file `{folder}/{k}.png` holds image `k` for `k` in `1..N`, no file besides `1.png … N.png` is created, and every other file is unchanged |

## Left out

- HTTP (aiohttp and requests): sessions, `Connection: close`, redirects and `ssl=False` are network I/O inside libraries. Each GET attempt appears only as its outcome (`Retry.Attempt`).
- Which exceptions aiohttp raises for which failures is library behaviour. The model takes each attempt's classification (one of the five caught kinds, or anything else) as input.
- `asyncio.create_task`, `gather` and `sleep`: concurrency and timing are not modelled. The model keeps which tasks each `gather` waits on, and the sleep lengths as a list (`sleeps`).
- A failing chapter task surfacing at `gather` is not modelled: the scheduler model does not abort later batches.
- `random.randint(1, 5)` is an input sequence with each delay in [1, 5], not a random distribution.
- Retry.RetryLoop: the real loop is unbounded; the model consults a finite sequence of attempts and reports `StillRetrying` when all of them were transient.
- Scheduler.BatchCount: `ceil(len / portion)` uses floating-point division; the model uses exact integer ceiling, which agrees for any realistic list length.
- BeautifulSoup parsing of `chapter-item` / `data-id` (lines 86-89) and JSON decoding are external parsers. The id list and the decoded metadata are inputs.
- Chapter.Decode: JSON values are taken to be strings and a list of strings. A numeric `number` is taken in its `str()` form, and values of other JSON types are not modelled.
- Materialize.MakeDirs: `os.makedirs` also creates missing parent folders (such as `{manga}`); the model records only the chapter folder.
- Materialize.RunDownloads: writing a file never fails in the model. In the code, `aiofiles.open(filename, 'wb')` (line 15) can raise (full disk, denied permission) and abort the chapter; the model's "completes exactly when all are saved" and the idempotence lemmas hold only because writes cannot fail.
- Materialize.DownloadChapter: creating the chapter folder never fails in the model. In the code, `os.makedirs` (line 60) can raise and abort the chapter, for example when `{manga}/{number}` exists as a regular file, or when an empty manga name puts the folder at the filesystem root.
- File writes are atomic in the model. A crash mid-write is not modelled.
- `print` progress messages (lines 63, 76) and the `sys.argv` / `asyncio.run` entry point (lines 104-106) are output and process plumbing.
