/** Media naming and deduplication (fill.js): the extension derived from a content type,
    the first-seen deduplication of image sources, which downloads are kept, and the file
    names and public paths given to a batch of images.

    The page-side `fetch` is a function from a source URL to its outcome, `path.join` a
    function from a directory and a file name to a path, and the file writes are returned
    as a list of effects instead of being performed. */
module Media {
  import opened Wrappers
  import opened JsText

  // ---------------------------------------------------------------------------------
  // getExtensionFromContentType

  /** `contentType.split("/")[1]`: the text between the first and the second '/'. */
  function Subtype(contentType: string): (r: Option<string>)
    ensures r.None? <==> '/' !in contentType
    ensures r.Some? ==>
      && '/' !in r.value && |r.value| <= |After(contentType, '/').value|
      && r.value == After(contentType, '/').value[..|r.value|]
  {
    match After(contentType, '/')
    case None => None
    case Some(rest) => Some(Before(rest, '/'))
  }

  /** `getExtensionFromContentType`; a missing argument is the empty string. */
  function ExtensionFromContentType(contentType: string): (ext: string)
    ensures '/' !in ext && ';' !in ext
  {
    match Subtype(contentType)
    case None => "png"
    case Some(sub) =>
      if sub == [] then "png"
      else if Contains(sub, "jpeg") then "jpg"
      else
        var ext := Before(sub, ';');
        assert forall i :: 0 <= i < |ext| ==> ext[i] == sub[i];
        ext
  }

  /** The extension of `<kind>/<segment><tail>`, where `tail` is empty or starts a further
      '/'-separated part: "png" for an empty segment, "jpg" for any segment mentioning
      "jpeg", and otherwise the segment up to its first ';'. */
  lemma ExtensionOfMediaType(kind: string, segment: string, tail: string)
    requires '/' !in kind && '/' !in segment
    requires tail == [] || tail[0] == '/'
    ensures ExtensionFromContentType(kind + "/" + segment + tail) ==
      if segment == [] then "png"
      else if Contains(segment, "jpeg") then "jpg"
      else Before(segment, ';')
  {
    SubtypeOf(kind, segment, tail);
  }

  lemma SubtypeOf(kind: string, segment: string, tail: string)
    requires '/' !in kind && '/' !in segment
    requires tail == [] || tail[0] == '/'
    ensures Subtype(kind + "/" + segment + tail) == Some(segment)
  {
    assert kind + "/" + segment + tail == kind + ['/'] + (segment + tail);
    AfterOfJoin(kind, '/', segment + tail);
    BeforeOfJoin(segment, '/', tail);
  }

  /** A content type without any '/' has no subtype and gets "png". */
  lemma NoSubtypeIsPng(contentType: string)
    requires '/' !in contentType
    ensures ExtensionFromContentType(contentType) == "png"
  {
  }

  /** Any JPEG media type, whatever its parameters, is saved as ".jpg". */
  lemma JpegWithParameters(kind: string, parameters: string)
    requires '/' !in kind && '/' !in parameters
    ensures ExtensionFromContentType(kind + "/" + "jpeg" + parameters) == "jpg"
  {
    var segment := "jpeg" + parameters;
    assert kind + "/" + segment + "" == kind + "/" + "jpeg" + parameters;
    SubtypeOf(kind, segment, "");
    ContainsPrefix("jpeg", parameters);
  }

  // The media type below is written as a concatenation so that the verifier reasons
  // about its parts instead of evaluating the functions character by character.

  lemma PngExample()
    ensures ExtensionFromContentType("image" + "/" + "png") == "png"
  {
    ExtensionOfMediaType("image", "png", "");
    assert "image" + "/" + "png" + "" == "image" + "/" + "png";
  }

  lemma EmptyContentTypeExample()
    ensures ExtensionFromContentType("") == "png"
  {
  }

  /** `sub` occurs in `s` starting at position `i`. */
  predicate OccursAt(s: string, sub: string, i: int) {
    0 <= i && i + |sub| <= |s| && s[i..i + |sub|] == sub
  }

  /** `subtype.includes("jpeg")`, as `Contains`: true exactly when the text occurs at some
      position. */
  lemma {:induction false} ContainsIffOccurs(s: string, sub: string)
    ensures Contains(s, sub) <==> exists i :: OccursAt(s, sub, i)
    decreases |s|
  {
    if |sub| <= |s| && s[..|sub|] != sub {
      ContainsIffOccurs(s[1..], sub);
      if Contains(s[1..], sub) {
        var i :| OccursAt(s[1..], sub, i);
        assert s[i + 1..i + 1 + |sub|] == s[1..][i..i + |sub|];
        assert OccursAt(s, sub, i + 1);
      }
      if exists i :: OccursAt(s, sub, i) {
        var i :| OccursAt(s, sub, i);
        assert i != 0;
        assert s[1..][i - 1..i - 1 + |sub|] == s[i..i + |sub|];
        assert OccursAt(s[1..], sub, i - 1);
      }
    } else if |sub| <= |s| {
      assert OccursAt(s, sub, 0);
    }
  }

  // ---------------------------------------------------------------------------------
  // Array.from(new Set(imageSources))

  predicate Distinct<T(==)>(s: seq<T>) {
    forall i, j :: 0 <= i < j < |s| ==> s[i] != s[j]
  }

  /** The position of the first occurrence of `x` in `xs`. */
  function FirstIndex<T(==)>(xs: seq<T>, x: T): (i: nat)
    requires x in xs
    ensures i < |xs| && xs[i] == x && x !in xs[..i]
  {
    if xs[0] == x then 0
    else
      var i := 1 + FirstIndex(xs[1..], x);
      assert xs[..i] == [xs[0]] + xs[1..][..i - 1];
      i
  }

  lemma {:induction false} FirstIndexOfPrefix<T>(xs: seq<T>, m: nat, x: T)
    requires m <= |xs| && x in xs[..m]
    ensures FirstIndex(xs, x) == FirstIndex(xs[..m], x)
    decreases m
  {
    var ys := xs[..m];
    assert ys[0] == xs[0];
    if xs[0] != x {
      assert ys[1..] == xs[1..][..m - 1];
      assert x in ys[1..];
      FirstIndexOfPrefix(xs[1..], m - 1, x);
    }
  }

  /** The elements of `xs` without repeats, each where it was first seen, as iterating a
      `Set` built from `xs` gives them. */
  function Unique<T(==,!new)>(xs: seq<T>): (r: seq<T>)
    ensures Distinct(r)
    ensures forall x :: x in r <==> x in xs
    ensures forall i, j :: 0 <= i < j < |r| ==> FirstIndex(xs, r[i]) < FirstIndex(xs, r[j])
  {
    if xs == [] then []
    else
      var init := xs[..|xs| - 1];
      var d := Unique(init);
      assert xs == init + [Last(xs)];
      forall x | x in d
        ensures FirstIndex(xs, x) == FirstIndex(init, x) < |init|
      {
        FirstIndexOfPrefix(xs, |init|, x);
      }
      if Last(xs) in d then d
      else
        assert FirstIndex(xs, Last(xs)) == |init|;
        d + [Last(xs)]
  }

  lemma UniqueExample()
    ensures Unique(["u1", "u1", "u2"]) == ["u1", "u2"]
  {
    var xs := ["u1", "u1", "u2"];
    assert xs[..2] == ["u1", "u1"] && xs[..2][..1] == ["u1"] && ["u1"][..0] == [];
    assert "u1" != "u2";
  }

  /** Deduplication changes nothing in a list without repeats. */
  lemma {:induction false} UniqueOfDistinct<T(!new)>(xs: seq<T>)
    requires Distinct(xs)
    ensures Unique(xs) == xs
  {
    if xs != [] {
      var init := xs[..|xs| - 1];
      DistinctSplit(xs);
      UniqueOfDistinct(init);
      InitPlusLast(xs);
    }
  }

  lemma InitPlusLast<T>(xs: seq<T>)
    requires xs != []
    ensures xs == xs[..|xs| - 1] + [Last(xs)]
  {
  }

  /** Dropping the last element of a list without repeats leaves one without repeats
      that does not hold that element. */
  lemma DistinctSplit<T>(xs: seq<T>)
    requires Distinct(xs) && xs != []
    ensures Distinct(xs[..|xs| - 1]) && Last(xs) !in xs[..|xs| - 1]
  {
  }

  lemma UniqueIdempotent<T(!new)>(xs: seq<T>)
    ensures Unique(Unique(xs)) == Unique(xs)
  {
    UniqueOfDistinct(Unique(xs));
  }

  // ---------------------------------------------------------------------------------
  // downloadImages

  /** What the page-side fetch of one source gives: the content-type header and the body,
      or the rejection of `fetch` or of `arrayBuffer`, with its `message` if it has one. */
  datatype FetchResult =
    | Fetched(contentTypeHeader: Option<string>, body: seq<bv8>)
    | Rejected(message: Option<string>)

  /** One entry of the page-side `results` array. */
  datatype Download =
    | Downloaded(src: string, contentType: string, data: seq<bv8>)
    | Failed(src: string, error: Option<string>)

  /** A successfully fetched image. */
  datatype Asset = Asset(src: string, contentType: string, data: seq<bv8>)

  /** The content type of a response: its header, or "image/png" when the header is
      absent or empty. */
  function ContentTypeOrDefault(header: Option<string>): (ct: string)
    ensures ct != []
    ensures header.Some? && header.value != [] ==> ct == header.value
    ensures header.None? || header.value == [] ==> ct == "image/png"
  {
    if header.Some? && header.value != [] then header.value else "image/png"
  }

  /** One turn of the page-side loop: the response's bytes and content type, or the
      rejection's message. */
  function Attempt(src: string, fetch: string -> FetchResult): (d: Download)
    ensures d.src == src
    ensures d.Downloaded? <==> fetch(src).Fetched?
    ensures d.Downloaded? ==>
      d.contentType == ContentTypeOrDefault(fetch(src).contentTypeHeader) && d.data == fetch(src).body
    ensures d.Failed? ==> d.error == fetch(src).message
  {
    match fetch(src)
    case Fetched(header, body) => Downloaded(src, ContentTypeOrDefault(header), body)
    case Rejected(message) => Failed(src, message)
  }

  /** The `results` array after fetching `sources` one after the other. */
  function FetchAll(sources: seq<string>, fetch: string -> FetchResult): (ds: seq<Download>)
    ensures |ds| == |sources|
    ensures forall i :: 0 <= i < |sources| ==> ds[i] == Attempt(sources[i], fetch)
  {
    if sources == [] then []
    else FetchAll(sources[..|sources| - 1], fetch) + [Attempt(Last(sources), fetch)]
  }

  /** JavaScript truthiness of an optional `error` property. */
  predicate Truthy(error: Option<string>) {
    error.Some? && error.value != []
  }

  /** `downloaded.filter((item) => !item.error)`, as written: a failure whose message is
      empty or missing is kept. */
  function KeptAsWritten(ds: seq<Download>): (r: seq<Download>)
    ensures forall d :: d in r <==> d in ds && !(d.Failed? && Truthy(d.error))
  {
    if ds == [] then []
    else KeptAsWritten(ds[..|ds| - 1]) + (if Last(ds).Failed? && Truthy(Last(ds).error) then [] else [Last(ds)])
  }

  /** The filter lets through a failed download that carries no message. */
  lemma SilentFailureIsKept()
    ensures KeptAsWritten([Downloaded("u1", "image/png", []), Failed("u2", Some(""))])
         == [Downloaded("u1", "image/png", []), Failed("u2", Some(""))]
  {
    var ds := [Downloaded("u1", "image/png", []), Failed("u2", Some(""))];
    assert ds[..1] == [Downloaded("u1", "image/png", [])] && ds[..1][..0] == [];
  }

  /** The successful downloads, in order: the filter as intended. */
  function Successful(ds: seq<Download>): (r: seq<Asset>)
    ensures |r| <= |ds|
    ensures forall a :: a in r <==> Downloaded(a.src, a.contentType, a.data) in ds
  {
    if ds == [] then []
    else
      var init := Successful(ds[..|ds| - 1]);
      assert ds == ds[..|ds| - 1] + [Last(ds)];
      match Last(ds)
      case Downloaded(src, ct, data) => init + [Asset(src, ct, data)]
      case Failed(_, _) => init
  }

  /** The sources of `assets` appear in the order they were first seen in `sources`. */
  predicate InFirstSeenOrder(assets: seq<Asset>, sources: seq<string>)
    requires forall a :: a in assets ==> a.src in sources
  {
    forall i, j :: 0 <= i < j < |assets| ==> FirstIndex(sources, assets[i].src) < FirstIndex(sources, assets[j].src)
  }

  lemma AppendInOrder(assets: seq<Asset>, a: Asset, sources: seq<string>)
    requires forall b :: b in assets ==> b.src in sources
    requires a.src in sources && InFirstSeenOrder(assets, sources)
    requires forall b :: b in assets ==> FirstIndex(sources, b.src) < FirstIndex(sources, a.src)
    ensures InFirstSeenOrder(assets + [a], sources)
  {
    var r := assets + [a];
    forall i, j | 0 <= i < j < |r|
      ensures FirstIndex(sources, r[i].src) < FirstIndex(sources, r[j].src)
    {
      assert r[i] == assets[i];
      if j < |assets| {
        assert r[j] == assets[j];
      } else {
        assert assets[i] in assets;
      }
    }
  }

  /** Keeping the successes preserves an order on sources. */
  lemma {:induction false} SuccessfulKeepsOrder(ds: seq<Download>, sources: seq<string>)
    requires forall d :: d in ds ==> d.src in sources
    requires forall i, j :: 0 <= i < j < |ds| ==> FirstIndex(sources, ds[i].src) < FirstIndex(sources, ds[j].src)
    ensures forall a :: a in Successful(ds) ==> a.src in sources
    ensures InFirstSeenOrder(Successful(ds), sources)
  {
    if ds != [] {
      var init := ds[..|ds| - 1];
      assert forall i :: 0 <= i < |init| ==> init[i] == ds[i];
      assert forall d :: d in init ==> d in ds;
      SuccessfulKeepsOrder(init, sources);
      var r := Successful(init);
      var last := Last(ds);
      if last.Downloaded? {
        forall a | a in r
          ensures FirstIndex(sources, a.src) < FirstIndex(sources, last.src)
        {
          var k :| 0 <= k < |init| && init[k] == Downloaded(a.src, a.contentType, a.data);
          assert ds[k] == init[k];
        }
        assert last in ds;
        AppendInOrder(r, Asset(last.src, last.contentType, last.data), sources);
      }
    }
  }

  /** `downloadImages`: fetch every distinct source once, in first-seen order, keep the
      successes, and report whether any fetch failed (the warning it logs). */
  method DownloadImages(imageSources: seq<string>, fetch: string -> FetchResult)
    returns (saved: seq<Asset>, partial: bool)
    ensures saved == Successful(FetchAll(Unique(imageSources), fetch))
    ensures partial <==> |saved| != |Unique(imageSources)|
  {
    var uniqueSources := Unique(imageSources);
    if |uniqueSources| == 0 {
      return [], false;
    }
    var results: seq<Download> := [];
    for i := 0 to |uniqueSources|
      invariant results == FetchAll(uniqueSources[..i], fetch)
    {
      assert uniqueSources[..i + 1] == uniqueSources[..i] + [uniqueSources[i]];
      results := results + [Attempt(uniqueSources[i], fetch)];
    }
    assert uniqueSources[..|uniqueSources|] == uniqueSources;
    saved := Successful(results);
    partial := |saved| != |uniqueSources|;
  }

  /** Every asset `downloadImages` keeps comes from a source it was given whose fetch
      succeeded. */
  lemma DownloadedSourcesWereFetched(imageSources: seq<string>, fetch: string -> FetchResult)
    ensures forall a :: a in Successful(FetchAll(Unique(imageSources), fetch)) ==>
      && a.src in imageSources && fetch(a.src).Fetched?
      && a.data == fetch(a.src).body && a.contentType == ContentTypeOrDefault(fetch(a.src).contentTypeHeader)
  {
    var ds := FetchAll(Unique(imageSources), fetch);
    forall a | a in Successful(ds)
      ensures && a.src in imageSources && fetch(a.src).Fetched?
              && a.data == fetch(a.src).body && a.contentType == ContentTypeOrDefault(fetch(a.src).contentTypeHeader)
    {
      var k :| 0 <= k < |ds| && ds[k] == Downloaded(a.src, a.contentType, a.data);
    }
  }

  /** Every source whose fetch succeeds is kept. */
  lemma FetchedSourcesAreKept(imageSources: seq<string>, fetch: string -> FetchResult, x: string)
    requires x in imageSources && fetch(x).Fetched?
    ensures exists a :: a in Successful(FetchAll(Unique(imageSources), fetch)) && a.src == x
  {
    var u := Unique(imageSources);
    var ds := FetchAll(u, fetch);
    var k :| 0 <= k < |u| && u[k] == x;
    var d := ds[k];
    assert d.Downloaded? && d.src == x;
    assert Asset(d.src, d.contentType, d.data) in Successful(ds);
  }

  /** The kept assets are in the order their sources were first seen, so no source is kept
      twice. */
  lemma DownloadsInFirstSeenOrder(imageSources: seq<string>, fetch: string -> FetchResult)
    ensures forall a :: a in Successful(FetchAll(Unique(imageSources), fetch)) ==> a.src in imageSources
    ensures InFirstSeenOrder(Successful(FetchAll(Unique(imageSources), fetch)), imageSources)
  {
    var ds := FetchAll(Unique(imageSources), fetch);
    assert forall d :: d in ds ==> d.src in imageSources;
    SuccessfulKeepsOrder(ds, imageSources);
  }

  /** The sources "u1", "u1", "u2" are fetched twice: "u1", then "u2". */
  lemma DuplicateSourceFetchedOnce(fetch: string -> FetchResult)
    ensures FetchAll(Unique(["u1", "u1", "u2"]), fetch) == [Attempt("u1", fetch), Attempt("u2", fetch)]
  {
    UniqueExample();
  }

  /** Every fetch in a batch succeeds exactly when every source's fetch does. */
  lemma AllDownloadedIffAllFetched(sources: seq<string>, fetch: string -> FetchResult)
    ensures (forall d :: d in FetchAll(sources, fetch) ==> d.Downloaded?)
        <==> (forall x :: x in sources ==> fetch(x).Fetched?)
  {
    var ds := FetchAll(sources, fetch);
    if forall x :: x in sources ==> fetch(x).Fetched? {
      forall d | d in ds
        ensures d.Downloaded?
      {
        var k :| 0 <= k < |ds| && ds[k] == d;
        assert sources[k] in sources;
      }
    } else {
      var x :| x in sources && !fetch(x).Fetched?;
      var k :| 0 <= k < |sources| && sources[k] == x;
      assert ds[k] in ds;
    }
  }

  /** The batch is partial exactly when the fetch of some source fails. */
  lemma PartialExactlyWhenAFetchFails(imageSources: seq<string>, fetch: string -> FetchResult)
    ensures |Successful(FetchAll(Unique(imageSources), fetch))| == |Unique(imageSources)|
        <==> forall x :: x in imageSources ==> fetch(x).Fetched?
  {
    var u := Unique(imageSources);
    SuccessfulCount(FetchAll(u, fetch));
    AllDownloadedIffAllFetched(u, fetch);
  }

  /** All downloads are kept exactly when none failed. */
  lemma {:induction false} SuccessfulCount(ds: seq<Download>)
    ensures |Successful(ds)| == |ds| <==> forall d :: d in ds ==> d.Downloaded?
  {
    if ds != [] {
      var init := ds[..|ds| - 1];
      assert ds == init + [Last(ds)];
      SuccessfulCount(init);
    }
  }

  // ---------------------------------------------------------------------------------
  // persistImages

  /** `image-<timestamp>-<index + 1>.<ext>`. */
  function FileName(timestamp: nat, index: nat, ext: string): (name: string)
    ensures |name| > 6 + |ext| && name[..6] == "image-" && name[|name| - |ext| - 1..] == "." + ext
  {
    var name := "image-" + Decimal(timestamp) + "-" + Decimal(index + 1) + "." + ext;
    assert name == "image-" + (Decimal(timestamp) + "-" + Decimal(index + 1)) + ("." + ext);
    name
  }

  /** Two images of one batch never share a file name. */
  lemma FileNamesDistinct(timestamp: nat, i: nat, j: nat, e1: string, e2: string)
    requires i != j
    ensures FileName(timestamp, i, e1) != FileName(timestamp, j, e2)
  {
    var prefix := "image-" + Decimal(timestamp) + "-";
    var a := Decimal(i + 1) + "." + e1;
    var b := Decimal(j + 1) + "." + e2;
    assert FileName(timestamp, i, e1) == prefix + a;
    assert FileName(timestamp, j, e2) == prefix + b;
    if prefix + a == prefix + b {
      assert a == (prefix + a)[|prefix|..] == (prefix + b)[|prefix|..] == b;
      assert a == Decimal(i + 1) + ['.'] + e1 && b == Decimal(j + 1) + ['.'] + e2;
      DecimalThenSeparator(i + 1, e1, j + 1, e2, '.');
    }
  }

  /** The public base with one trailing '/' removed. */
  function NormalizedBase(publicBasePath: string): (r: string)
    ensures publicBasePath == r + "/" || (r == publicBasePath && (r == [] || Last(r) != '/'))
  {
    if publicBasePath != [] && Last(publicBasePath) == '/' then publicBasePath[..|publicBasePath| - 1]
    else publicBasePath
  }

  /** The URL an image is served under: the base, one '/', and the file name. */
  function PublicPath(publicBasePath: string, fileName: string): (r: string)
    ensures |r| > |fileName| && r[|r| - |fileName| - 1..] == "/" + fileName
    ensures r[..|r| - |fileName| - 1] == NormalizedBase(publicBasePath)
  {
    var r := NormalizedBase(publicBasePath) + "/" + fileName;
    assert r == NormalizedBase(publicBasePath) + ("/" + fileName);
    r
  }

  /** A base given with or without its trailing '/' yields the same public path, with a
      single '/' before the file name. */
  lemma TrailingSlashIsOptional(base: string, fileName: string)
    requires base == [] || Last(base) != '/'
    ensures PublicPath(base + "/", fileName) == PublicPath(base, fileName) == base + "/" + fileName
  {
    assert (base + "/")[..|base|] == base;
  }

  lemma FileNameExample()
    ensures FileName(1, 0, "png") == "image-1-1.png"
  {
    assert Decimal(1) == "1";
  }

  lemma PublicPathExample()
    ensures PublicPath("/image" + "/", "image-1-1.png") == "/image/image-1-1.png"
  {
    TrailingSlashIsOptional("/image", "image-1-1.png");
  }

  /** Only one '/' is removed: a base ending in "//" keeps the other. */
  lemma OnlyOneSlashIsRemoved()
    ensures PublicPath("/image//", "a.png") == "/image//a.png"
  {
  }

  datatype SavedImage = SavedImage(source: string, url: string, filePath: string)

  datatype Effect = MakeDirectory(path: string) | WriteFile(path: string, data: seq<bv8>)

  datatype Persisted = Persisted(saved: seq<SavedImage>, effects: seq<Effect>)

  function Save(img: Asset, index: nat, outputDir: string, publicBasePath: string, timestamp: nat,
                join: (string, string) -> string): (r: SavedImage)
    ensures var fileName := FileName(timestamp, index, ExtensionFromContentType(img.contentType));
      && r.source == img.src
      && r.url == PublicPath(publicBasePath, fileName)
      && r.filePath == join(outputDir, fileName)
  {
    var fileName := FileName(timestamp, index, ExtensionFromContentType(img.contentType));
    SavedImage(img.src, PublicPath(publicBasePath, fileName), join(outputDir, fileName))
  }

  /** `persistImages` with `Date.now()` given as `timestamp`: nothing at all for an empty
      batch; otherwise the output directory is created and every image is written under
      its own name, the whole batch sharing one timestamp. */
  function PersistImages(images: seq<Asset>, outputDir: string, publicBasePath: string, timestamp: nat,
                         join: (string, string) -> string): (r: Persisted)
    ensures images == [] ==> r == Persisted([], [])
    ensures |r.saved| == |images|
    ensures images != [] ==> |r.effects| == |images| + 1 && r.effects[0] == MakeDirectory(outputDir)
    ensures forall i :: 0 <= i < |images| ==>
      && r.saved[i].source == images[i].src
      && r.saved[i].url == PublicPath(publicBasePath, FileName(timestamp, i, ExtensionFromContentType(images[i].contentType)))
      && r.saved[i].filePath == join(outputDir, FileName(timestamp, i, ExtensionFromContentType(images[i].contentType)))
      && r.effects[i + 1] == WriteFile(r.saved[i].filePath, images[i].data)
    ensures forall i, j :: 0 <= i < j < |images| ==> r.saved[i].url != r.saved[j].url
  {
    if images == [] then Persisted([], [])
    else
      var saved := seq(|images|, i requires 0 <= i < |images| =>
                         Save(images[i], i, outputDir, publicBasePath, timestamp, join));
      var writes := seq(|images|, i requires 0 <= i < |images| => WriteFile(saved[i].filePath, images[i].data));
      forall i, j | 0 <= i < j < |images|
        ensures saved[i].url != saved[j].url
      {
        var base := NormalizedBase(publicBasePath) + "/";
        var fi := FileName(timestamp, i, ExtensionFromContentType(images[i].contentType));
        var fj := FileName(timestamp, j, ExtensionFromContentType(images[j].contentType));
        FileNamesDistinct(timestamp, i, j, ExtensionFromContentType(images[i].contentType),
                          ExtensionFromContentType(images[j].contentType));
        assert saved[i].url == base + fi && saved[j].url == base + fj;
        assert (base + fi)[|base|..] == fi && (base + fj)[|base|..] == fj;
      }
      Persisted(saved, [MakeDirectory(outputDir)] + writes)
  }
}
