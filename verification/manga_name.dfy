/**
  The manga name is the `path_url` of the catalog request with every `/`
  removed (`path_url.replace('/', '')`). It names the top-level output folder
  and is spliced into every image URL. `path_url` is the path followed by any
  `?query`, so a catalog URL with a query string carries the query into the
  name, the folder and every image URL.
 */
module MangaName {

  const Slash := '/'

  /** How many times `c` occurs in `s`. */
  function Count(s: string, c: char): nat {
    if |s| == 0 then 0 else (if s[0] == c then 1 else 0) + Count(s[1..], c)
  }

  /** `path` with every slash removed and every other character kept, in order. */
  function StripSlashes(path: string): (name: string)
    ensures Slash !in name
    ensures |name| == |path| - Count(path, Slash)
    ensures forall c :: c != Slash ==> Count(name, c) == Count(path, c)
    decreases |path|
  {
    if |path| == 0 then []
    else if path[0] == Slash then StripSlashes(path[1..])
    else [path[0]] + StripSlashes(path[1..])
  }

  /** A string without slashes is left alone, and only such strings are. */
  lemma {:induction false} StripSlashesFixedPoint(s: string)
    ensures StripSlashes(s) == s <==> Slash !in s
    decreases |s|
  {
    if |s| > 0 && s[0] != Slash {
      StripSlashesFixedPoint(s[1..]);
      assert s == [s[0]] + s[1..];
    }
  }

  /** Stripping twice is the same as stripping once. */
  lemma StripSlashesIdempotent(path: string)
    ensures StripSlashes(StripSlashes(path)) == StripSlashes(path)
  {
    StripSlashesFixedPoint(StripSlashes(path));
  }

  /** Stripping distributes over concatenation, so slashes anywhere in the path are removed. */
  lemma {:induction false} StripSlashesAppend(a: string, b: string)
    ensures StripSlashes(a + b) == StripSlashes(a) + StripSlashes(b)
    decreases |a|
  {
    if |a| > 0 {
      assert (a + b)[1..] == a[1..] + b;
      StripSlashesAppend(a[1..], b);
    } else {
      assert a + b == b;
    }
  }

  /** Example: the catalog URL `https://example.org/my-manga` has request path `/my-manga`. */
  lemma ExampleName()
    ensures StripSlashes("/my-manga") == "my-manga"
  {
    assert "/my-manga"[1..] == "my-manga";
    StripSlashesFixedPoint("my-manga");
  }
}
