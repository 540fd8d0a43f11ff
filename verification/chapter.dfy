/**
  The chapter downloader `get_chapter`: decoding the chapter metadata, the
  destination folder, and the ordered plan of image downloads, the k-th image
  (counting from 1) saved as `{folder}/{k}.png`.
 */
module Chapter {
  import opened Wrappers
  import opened Decimal

  const MetadataEndpoint := "https://mangalib.me/download/"
  const ImageHost := "https://img2.mangalib.me/manga/"

  /** The `chapter` object of the metadata response; each field may be missing. */
  datatype ChapterMeta = ChapterMeta(slug: Option<string>, number: Option<string>)

  /** The decoded JSON body of the metadata endpoint, reduced to the keys the downloader reads. */
  datatype MetadataResponse = MetadataResponse(chapter: Option<ChapterMeta>, images: Option<seq<string>>)

  /** The key whose absence raises a `KeyError`. */
  datatype MissingKey = MissingChapter | MissingSlug | MissingNumber | MissingImages

  /** What the downloader reads from a well-formed metadata response. */
  datatype ChapterInfo = ChapterInfo(slug: string, number: string, images: seq<string>)

  /** One image to fetch and the file it is written to. */
  datatype Download = Download(url: string, filename: string)

  /**
    What `get_chapter` does once the metadata has been fetched: either a folder
    to create and the ordered downloads into it, or a missing key. The
    `images` key is read only after the folder has been created, so that
    failure reports the folder it left behind.
   */
  datatype ChapterPlan =
    | Planned(folder: string, downloads: seq<Download>)
    | Failed(createdFolder: Option<string>, missing: MissingKey)

  /** The metadata URL `get_chapter_info` fetches for a chapter id. */
  function MetadataUrl(chapterId: string): (url: string)
    ensures |url| == |MetadataEndpoint| + |chapterId|
    ensures url[..|MetadataEndpoint|] == MetadataEndpoint
    ensures url[|MetadataEndpoint|..] == chapterId
  {
    MetadataEndpoint + chapterId
  }

  /** The chapter folder `{manga}/{number}`: the manga name, a slash, then the chapter number. */
  function Folder(mangaName: string, number: string): (folder: string)
    ensures |folder| == |mangaName| + 1 + |number|
    ensures folder[..|mangaName|] == mangaName && folder[|mangaName|] == '/'
    ensures folder[|mangaName| + 1..] == number
  {
    mangaName + "/" + number
  }

  /**
    The image URL: the image host, then the manga name, then `/chapters/`,
    the slug, a slash, and the image reference last.
   */
  function ImageUrl(mangaName: string, slug: string, image: string): (url: string)
    ensures |url| == |ImageHost| + |mangaName| + |"/chapters/"| + |slug| + 1 + |image|
    ensures url[..|ImageHost|] == ImageHost
    ensures url[|ImageHost|..|ImageHost| + |mangaName|] == mangaName
    ensures url[|ImageHost| + |mangaName|..|url| - |image| - 1] == "/chapters/" + slug
    ensures url[|url| - |image| - 1] == '/' && url[|url| - |image|..] == image
  {
    ImageHost + mangaName + "/chapters/" + slug + "/" + image
  }

  /** The file `{folder}/{count}.png`; the counter can be read back from it. */
  function FileName(folder: string, count: nat): (name: string)
    ensures |name| >= |folder| + 6
    ensures name[..|folder| + 1] == folder + "/"
    ensures name[|name| - 4..] == ".png"
    ensures name[|folder| + 1..|name| - 4] == NatToString(count)
    ensures FileIndex(folder, name) == Some(count)
  {
    var digits := NatToString(count);
    var name := folder + "/" + digits + ".png";
    assert name[..|folder| + 1] == folder + "/";
    assert name[|name| - 4..] == ".png";
    assert name[|folder| + 1..|name| - 4] == digits;
    ParseNatToString(count);
    name
  }

  /**
    The body of the `for image in images` loop from the image whose counter is
    `count` onwards: one download per remaining image, numbered consecutively.
   */
  function PlanImages(mangaName: string, slug: string, folder: string, images: seq<string>, count: nat)
    : (ds: seq<Download>)
    ensures |ds| == |images|
    ensures forall k :: 0 <= k < |ds| ==>
              ds[k] == Download(ImageUrl(mangaName, slug, images[k]), FileName(folder, count + k))
    decreases |images|
  {
    if |images| == 0 then []
    else
      [Download(ImageUrl(mangaName, slug, images[0]), FileName(folder, count))]
      + PlanImages(mangaName, slug, folder, images[1..], count + 1)
  }

  /** The folder and downloads for a chapter, with the image counter starting at 1. */
  function PlanChapter(mangaName: string, info: ChapterInfo): (p: ChapterPlan)
    ensures p.Planned?
    ensures p.folder == Folder(mangaName, info.number)
    ensures |p.downloads| == |info.images|
    ensures forall k :: 1 <= k <= |info.images| ==>
              p.downloads[k - 1].url == ImageUrl(mangaName, info.slug, info.images[k - 1])
              && p.downloads[k - 1].filename == FileName(Folder(mangaName, info.number), k)
  {
    var folder := Folder(mangaName, info.number);
    Planned(folder, PlanImages(mangaName, info.slug, folder, info.images, 1))
  }

  /**
    `get_chapter` after the metadata fetch: `chapter`, then `slug`, then
    `number` are read before the folder is made, `images` after.
   */
  function GetChapter(mangaName: string, response: MetadataResponse): (p: ChapterPlan)
    ensures p.Failed? && p.createdFolder.None? <==>
              response.chapter.None? || response.chapter.value.slug.None? || response.chapter.value.number.None?
    ensures p.Failed? && p.createdFolder.Some? <==> p.Failed? && p.missing == MissingImages
    ensures p.Planned? <==> Decode(response).Success?
    ensures p.Planned? ==> p == PlanChapter(mangaName, Decode(response).value)
    ensures p.Failed? && p.missing == MissingImages ==>
              p.createdFolder == Some(Folder(mangaName, response.chapter.value.number.value))
    ensures (response.chapter.None?) ==> p == Failed(None, MissingChapter)
    ensures (response.chapter.Some? && response.chapter.value.slug.None?) ==> p == Failed(None, MissingSlug)
    ensures (response.chapter.Some? && response.chapter.value.slug.Some? && response.chapter.value.number.None?) ==>
              p == Failed(None, MissingNumber)
  {
    match response.chapter
    case None => Failed(None, MissingChapter)
    case Some(meta) =>
      match meta.slug
      case None => Failed(None, MissingSlug)
      case Some(slug) =>
        match meta.number
        case None => Failed(None, MissingNumber)
        case Some(number) =>
          match response.images
          case None => Failed(Some(Folder(mangaName, number)), MissingImages)
          case Some(images) => PlanChapter(mangaName, ChapterInfo(slug, number, images))
  }

  /** The metadata fields as a record, or the first key found missing. */
  function Decode(response: MetadataResponse): (r: Result<ChapterInfo, MissingKey>)
    ensures r.Success? <==>
              response.chapter.Some? && response.chapter.value.slug.Some?
              && response.chapter.value.number.Some? && response.images.Some?
    ensures r.Success? ==>
              r.value == ChapterInfo(response.chapter.value.slug.value, response.chapter.value.number.value,
                                     response.images.value)
  {
    if response.chapter.None? then Failure(MissingChapter)
    else if response.chapter.value.slug.None? then Failure(MissingSlug)
    else if response.chapter.value.number.None? then Failure(MissingNumber)
    else if response.images.None? then Failure(MissingImages)
    else Success(ChapterInfo(response.chapter.value.slug.value, response.chapter.value.number.value,
                             response.images.value))
  }

  /** The counter a file name carries, if it is `{folder}/{digits}.png`. */
  function FileIndex(folder: string, filename: string): (k: Option<nat>)
  {
    var pre := |folder| + 1;
    if |filename| >= pre + 4 && filename[..pre] == folder + "/"
       && filename[|filename| - 4..] == ".png" && AllDigits(filename[pre..|filename| - 4])
    then Some(ParseDigits(filename[pre..|filename| - 4]))
    else None
  }

  /** Two counters give the same file name only if they are equal. */
  lemma FileNameInjective(folder: string, i: nat, j: nat)
    requires FileName(folder, i) == FileName(folder, j)
    ensures i == j
  {
    assert FileIndex(folder, FileName(folder, i)) == Some(i);
  }

  /**
    The files of a chapter are `1.png` to `N.png` in its folder, one per
    image: entry `k` carries counter `k + 1`, and no two entries share a file.
   */
  lemma PlanFilesContiguous(mangaName: string, info: ChapterInfo)
    ensures var p := PlanChapter(mangaName, info);
      && (forall k :: 0 <= k < |p.downloads| ==>
            FileIndex(p.folder, p.downloads[k].filename) == Some(k + 1))
      && (forall k, l :: 0 <= k < l < |p.downloads| ==>
            p.downloads[k].filename != p.downloads[l].filename)
  {
    var p := PlanChapter(mangaName, info);
    forall k | 0 <= k < |p.downloads|
      ensures FileIndex(p.folder, p.downloads[k].filename) == Some(k + 1)
    {
      assert p.downloads[k].filename == FileName(p.folder, k + 1);
    }
  }

  /** The first two images of a chapter are saved as `1.png` and `2.png`. */
  lemma FirstFileNames(folder: string)
    ensures FileName(folder, 1) == folder + "/1.png"
    ensures FileName(folder, 2) == folder + "/2.png"
  {
    assert NatToString(1) == "1" && NatToString(2) == "2";
  }

  /** A chapter with images `["a.png", "b.png"]` is saved as `1.png` then `2.png`. */
  lemma ExampleTwoImages(mangaName: string, slug: string, number: string)
    ensures var p := PlanChapter(mangaName, ChapterInfo(slug, number, ["a.png", "b.png"]));
      && p.downloads[0].filename == mangaName + "/" + number + "/1.png"
      && p.downloads[1].filename == mangaName + "/" + number + "/2.png"
      && p.downloads[1].url == "https://img2.mangalib.me/manga/" + mangaName + "/chapters/" + slug + "/b.png"
  {
    var folder := Folder(mangaName, number);
    var p := PlanChapter(mangaName, ChapterInfo(slug, number, ["a.png", "b.png"]));
    FirstFileNames(folder);
    assert p.downloads[0].filename == FileName(folder, 1);
    assert p.downloads[1].filename == FileName(folder, 2);
  }
}
