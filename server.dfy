/**
 * The two listing handlers of the server: GET /albums and
 * GET /images/:albumName. The object store's listObjectsV2 call is a
 * parameter (`Lister`); its rejection is `None`. A reply is the value the
 * handler sends: a JSON body with status 200, or status 500 with a fixed
 * error message.
 */
module Server {
  import opened Options
  import JsString
  import Uri
  import ImagePattern

  const Bucket: string := "curvewrotofoliowebsite"
  /** The root prefix under which every album lives. */
  const AlbumRoot: string := "Weddings/"
  const Delimiter: string := "/"
  /** The public address of the bucket, `https://${Bucket}.s3.eu-north-1.amazonaws.com/`. */
  const PublicBase: string := "https://" + Bucket + ".s3.eu-north-1.amazonaws.com/"
  const AlbumsErrorMessage: string := "Failed to fetch albums"
  const ImagesErrorMessage: string := "Failed to fetch images"

  /** The parameters of a listObjectsV2 call. */
  datatype ListRequest = ListRequest(bucket: string, prefix: string, delimiter: Option<string>)

  /** An entry of `Contents`: an object and its key. */
  datatype StoredObject = StoredObject(key: string)

  /** An entry of `CommonPrefixes`: a key prefix up to and including the delimiter. */
  datatype CommonPrefix = CommonPrefix(prefix: string)

  /** A listing; either field may be absent from the store's answer. */
  datatype ListOutput = ListOutput(contents: Option<seq<StoredObject>>, commonPrefixes: Option<seq<CommonPrefix>>)

  /** The store's listing operation; `None` when the call fails. */
  type Lister = ListRequest -> Option<ListOutput>

  datatype Reply<T> = Json(body: T) | ServerError(error: string) {
    function Status(): int {
      if Json? then 200 else 500
    }
  }

  // ---------------------------------------------------------------- /albums

  /** The album listing lists one level below the root, grouped at "/". */
  const AlbumsRequest: ListRequest := ListRequest(Bucket, AlbumRoot, Some(Delimiter))

  /**
   * `prefix.replace("Weddings/", "").replace("/", "")`: the name before
   * decoding. At most the root and one separator are removed.
   */
  function RawAlbumName(prefix: string): (r: string)
    ensures |prefix| - |AlbumRoot| - 1 <= |r| <= |prefix|
  {
    var withoutRoot := JsString.ReplaceFirst(prefix, AlbumRoot, "");
    JsString.ReplaceFirstLength(prefix, AlbumRoot, "");
    JsString.ReplaceFirstLength(withoutRoot, "/", "");
    JsString.ReplaceFirst(withoutRoot, "/", "")
  }

  /** The album name of one common prefix; `None` when decoding throws. It is never longer than the prefix. */
  function AlbumName(cp: CommonPrefix): (r: Option<string>)
    ensures r.Some? ==> |r.value| <= |cp.prefix|
  {
    Uri.DecodeURIComponent(RawAlbumName(cp.prefix))
  }

  /**
   * `xs.map(f)` for an `f` that may throw: every result, in order, or `None`
   * when some call throws (the exception leaves the whole map).
   */
  function MapOrThrow<A, B>(f: A -> Option<B>, xs: seq<A>): (r: Option<seq<B>>)
    ensures r.Some? <==> forall k :: 0 <= k < |xs| ==> f(xs[k]).Some?
    ensures r.Some? ==> |r.value| == |xs| && forall k :: 0 <= k < |xs| ==> Some(r.value[k]) == f(xs[k])
  {
    if xs == [] then Some([])
    else
      var head := f(xs[0]);
      var tail := MapOrThrow(f, xs[1..]);
      if head.None? then None
      else if tail.None? then
        assert exists k :: 1 <= k < |xs| && f(xs[k]).None? by {
          var j :| 0 <= j < |xs[1..]| && f(xs[1..][j]).None?;
          assert xs[1..][j] == xs[j + 1];
        }
        None
      else
        assert forall k :: 1 <= k < |xs| ==> xs[k] == xs[1..][k - 1];
        Some([head.value] + tail.value)
  }

  /** `xs || []`: an absent list is an empty one. */
  function OrEmpty<T>(xs: Option<seq<T>>): seq<T> {
    if xs.None? then [] else xs.value
  }

  /**
   * `(data.CommonPrefixes || []).map(...)`: the names of all common prefixes,
   * in the store's order, or `None` when one fails to decode.
   */
  function AlbumList(commonPrefixes: Option<seq<CommonPrefix>>): (r: Option<seq<string>>)
    ensures var cps := OrEmpty(commonPrefixes);
      && (r.Some? <==> forall k :: 0 <= k < |cps| ==> AlbumName(cps[k]).Some?)
      && (r.Some? ==> |r.value| == |cps| && forall k :: 0 <= k < |cps| ==> Some(r.value[k]) == AlbumName(cps[k]))
  {
    MapOrThrow(AlbumName, OrEmpty(commonPrefixes))
  }

  /**
   * GET /albums: a rejected listing is the 500 error; otherwise a JSON list
   * (status 200) exactly when every common prefix decodes, one name per prefix
   * in the store's order, and the 500 error when one does not.
   */
  function GetAlbums(list: Lister): (r: Reply<seq<string>>)
    ensures list(AlbumsRequest).None? ==> r == ServerError(AlbumsErrorMessage)
    ensures r.ServerError? ==> r.error == AlbumsErrorMessage
    ensures list(AlbumsRequest).Some? ==> var cps := OrEmpty(list(AlbumsRequest).value.commonPrefixes);
      && (r.Json? <==> forall k :: 0 <= k < |cps| ==> AlbumName(cps[k]).Some?)
      && (r.Json? ==> |r.body| == |cps| && forall k :: 0 <= k < |cps| ==> Some(r.body[k]) == AlbumName(cps[k]))
  {
    match list(AlbumsRequest)
    case None => ServerError(AlbumsErrorMessage)
    case Some(data) =>
      match AlbumList(data.commonPrefixes)
      case None => ServerError(AlbumsErrorMessage)
      case Some(albums) => Json(albums)
  }

  // ---------------------------------------------------------------- /images/:albumName

  /** `Weddings/${albumName}/`: the root, the name, and a closing separator. */
  function AlbumPrefix(albumName: string): (r: string)
    ensures |r| == |AlbumRoot| + |albumName| + 1
    ensures JsString.StartsWith(r, AlbumRoot) && JsString.EndsWith(r, "/")
    ensures r[|AlbumRoot|..|r| - 1] == albumName
  {
    AlbumRoot + albumName + "/"
  }

  /**
   * The listing request for the album named by the decoded route parameter:
   * one exactly when the parameter decodes, for the bucket, under the album's
   * prefix and without a delimiter.
   */
  function ImagesRequest(param: string): (r: Option<ListRequest>)
    ensures r.Some? <==> Uri.DecodeURIComponent(param).Some?
    ensures r.Some? ==>
      && r.value.bucket == Bucket && r.value.delimiter.None?
      && r.value.prefix == AlbumPrefix(Uri.DecodeURIComponent(param).value)
  {
    match Uri.DecodeURIComponent(param)
    case None => None
    case Some(albumName) => Some(ListRequest(Bucket, AlbumPrefix(albumName), None))
  }

  /** The filter's test on one object. */
  predicate IsImage(obj: StoredObject) {
    ImagePattern.Matches(obj.key)
  }

  /** `xs.filter(f)`: the elements on which `f` holds, in order. */
  function Filter<T>(f: T -> bool, xs: seq<T>): (r: seq<T>)
    ensures |r| <= |xs|
    ensures forall x :: x in r ==> x in xs && f(x)
  {
    if xs == [] then []
    else (if f(xs[0]) then [xs[0]] else []) + Filter(f, xs[1..])
  }

  /** `contents.filter(IsImage)`. */
  function KeepImages(contents: seq<StoredObject>): (r: seq<StoredObject>)
    ensures |r| <= |contents|
    ensures forall o :: o in r ==> o in contents && IsImage(o)
  {
    Filter(IsImage, contents)
  }

  /** The public URL of a key: the bucket's base address, then the encoded key. */
  function PublicUrl(key: string): (r: string)
    ensures |PublicBase| + |key| <= |r| && r[..|PublicBase|] == PublicBase
  {
    PublicBase + Uri.EncodeURI(key)
  }

  /** `objects.map(obj => PublicUrl(obj.Key))`. */
  function PublicUrls(objects: seq<StoredObject>): (r: seq<string>)
    ensures |r| == |objects|
    ensures forall k :: 0 <= k < |objects| ==> r[k] == PublicUrl(objects[k].key)
  {
    if objects == [] then [] else [PublicUrl(objects[0].key)] + PublicUrls(objects[1..])
  }

  /**
   * The body sent for a successful listing, with the empty-contents short
   * cut: one URL per image object, in listing order, the k-th being that of
   * the object at the k-th image index.
   */
  function ImageUrls(contents: Option<seq<StoredObject>>): (r: seq<string>)
    ensures var objs := OrEmpty(contents); var idx := ImageIndicesFrom(objs, 0);
      |r| == |idx| && forall k :: 0 <= k < |idx| ==> idx[k] < |objs| && r[k] == PublicUrl(objs[idx[k]].key)
  {
    if contents.None? || |contents.value| == 0 then []
    else
      KeepImagesIsOrderedSubsequence(contents.value);
      PublicUrls(KeepImages(contents.value))
  }

  /**
   * GET /images/:albumName, given the route parameter: a JSON list exactly
   * when the parameter decodes and the listing succeeds, holding one URL per
   * image object in listing order; otherwise the 500 error.
   */
  function GetImages(param: string, list: Lister): (r: Reply<seq<string>>)
    ensures r.Json? <==> ImagesRequest(param).Some? && list(ImagesRequest(param).value).Some?
    ensures r.ServerError? ==> r.error == ImagesErrorMessage
    ensures r.Json? ==>
      var objs := OrEmpty(list(ImagesRequest(param).value).value.contents);
      var idx := ImageIndicesFrom(objs, 0);
      |r.body| == |idx| && forall k :: 0 <= k < |idx| ==> idx[k] < |objs| && r.body[k] == PublicUrl(objs[idx[k]].key)
  {
    match ImagesRequest(param)
    case None => ServerError(ImagesErrorMessage)
    case Some(request) =>
      match list(request)
      case None => ServerError(ImagesErrorMessage)
      case Some(data) => Json(ImageUrls(data.contents))
  }

  // ---------------------------------------------------------------- album names

  /** A common prefix "Weddings/<s>/" whose segment has no "/" yields `s` before decoding. */
  lemma RawAlbumNameOfCommonPrefix(s: string)
    requires '/' !in s
    ensures RawAlbumName(AlbumRoot + s + "/") == s
  {
    var p := AlbumRoot + s + "/";
    assert JsString.OccursAt(p, AlbumRoot, 0);
    var q := JsString.ReplaceFirst(p, AlbumRoot, "");
    assert q == s + "/";
    assert JsString.OccursAt(q, "/", |s|);
    forall j | 0 <= j < |s|
      ensures !JsString.OccursAt(q, "/", j)
    {
      assert q[j..j + 1] == [s[j]];
      assert s[j] in s;
    }
    assert q[..|s|] == s;
  }

  /** A common prefix whose segment has neither "/" nor "%" names the album `s` itself. */
  lemma AlbumNameOfPlainPrefix(s: string)
    requires '/' !in s && '%' !in s
    ensures AlbumName(CommonPrefix(AlbumRoot + s + "/")) == Some(s)
  {
    RawAlbumNameOfCommonPrefix(s);
    Uri.DecodeWithoutPercent(s);
  }

  /** A failed listing is a 500, and a listing without CommonPrefixes is an empty album list. */
  lemma AlbumsWithoutPrefixes(list: Lister)
    ensures list(AlbumsRequest).None? ==> GetAlbums(list) == ServerError(AlbumsErrorMessage) && GetAlbums(list).Status() == 500
    ensures list(AlbumsRequest).Some? && list(AlbumsRequest).value.commonPrefixes.None? ==> GetAlbums(list) == Json([])
  {
  }

  /** One album whose folder name ends in "%" makes the whole album listing fail. */
  lemma AlbumsFailOnMalformedName(list: Lister, cps: seq<CommonPrefix>, k: nat, s: string)
    requires list(AlbumsRequest).Some? && list(AlbumsRequest).value.commonPrefixes == Some(cps)
    requires k < |cps| && cps[k] == CommonPrefix(AlbumRoot + s + "/")
    requires '/' !in s && |s| > 0 && s[|s| - 1] == '%'
    ensures GetAlbums(list) == ServerError(AlbumsErrorMessage)
  {
    RawAlbumNameOfCommonPrefix(s);
    Uri.DecodeFailsOnTrailingPercent(s);
  }

  /** Prefixes "Weddings/<n>/" for plain names n list as exactly those names, in the store's order. */
  lemma AlbumsOfPlainNames(list: Lister, cps: seq<CommonPrefix>, names: seq<string>)
    requires forall k :: 0 <= k < |names| ==> '/' !in names[k] && '%' !in names[k]
    requires list(AlbumsRequest).Some? && list(AlbumsRequest).value.commonPrefixes == Some(cps)
    requires |cps| == |names| && forall k :: 0 <= k < |cps| ==> cps[k].prefix == AlbumRoot + names[k] + "/"
    ensures GetAlbums(list) == Json(names)
  {
    forall k | 0 <= k < |names|
      ensures AlbumName(cps[k]) == Some(names[k])
    {
      AlbumNameOfPlainPrefix(names[k]);
    }
    var r := AlbumList(Some(cps));
    assert r.Some?;
    assert r.value == names;
  }

  /** Prefixes "Weddings/Alpha/" and "Weddings/Beta/" list as ["Alpha", "Beta"]. */
  lemma AlbumsScenario(list: Lister)
    requires list(AlbumsRequest) == Some(ListOutput(None, Some([CommonPrefix("Weddings/Alpha/"), CommonPrefix("Weddings/Beta/")])))
    ensures GetAlbums(list) == Json(["Alpha", "Beta"])
  {
    assert "Weddings/Alpha/" == AlbumRoot + "Alpha" + "/";
    assert "Weddings/Beta/" == AlbumRoot + "Beta" + "/";
    AlbumsOfPlainNames(list, [CommonPrefix("Weddings/Alpha/"), CommonPrefix("Weddings/Beta/")], ["Alpha", "Beta"]);
  }

  // ---------------------------------------------------------------- the listing prefix

  /**
   * No traversal check: for EVERY album name, "../other" included, the route
   * parameter encodeURI(name) lists exactly "Weddings/" + name + "/".
   */
  lemma AnyNameReachesItsPrefix(name: string)
    ensures ImagesRequest(Uri.EncodeURI(name)) == Some(ListRequest(Bucket, AlbumRoot + name + "/", None))
  {
    Uri.DecodeEncodeURI(name);
  }

  /**
   * A plain album name listed by GET /albums, sent back as the route
   * parameter of GET /images, lists exactly the folder it was read from.
   */
  lemma AlbumLinksToItsImages(s: string)
    requires '/' !in s && '%' !in s
    ensures AlbumName(CommonPrefix(AlbumPrefix(s))) == Some(s)
    ensures ImagesRequest(s) == Some(ListRequest(Bucket, AlbumPrefix(s), None))
  {
    AlbumNameOfPlainPrefix(s);
    Uri.DecodeWithoutPercent(s);
  }

  /** A route parameter that does not decode is a 500, whatever the store holds. */
  lemma ImagesBadParameter(param: string, list: Lister)
    requires Uri.DecodeURIComponent(param).None?
    ensures GetImages(param, list) == ServerError(ImagesErrorMessage) && GetImages(param, list).Status() == 500
  {
  }

  /** Absent or empty Contents gives an empty list, not an error. */
  lemma EmptyContentsGiveEmptyList(param: string, list: Lister)
    requires ImagesRequest(param).Some? && list(ImagesRequest(param).value).Some?
    requires var contents := list(ImagesRequest(param).value).value.contents;
      contents.None? || |contents.value| == 0
    ensures GetImages(param, list) == Json([])
  {
  }

  // ---------------------------------------------------------------- the image filter

  /** The indices, from `from` on, of the elements on which `f` holds. */
  function IndicesWhere<T>(f: T -> bool, xs: seq<T>, from: nat): seq<nat>
    requires from <= |xs|
    decreases |xs| - from
  {
    if from == |xs| then []
    else (if f(xs[from]) then [from] else []) + IndicesWhere(f, xs, from + 1)
  }

  /** The indices, from `from` on, of the objects the filter keeps. */
  function ImageIndicesFrom(contents: seq<StoredObject>, from: nat): seq<nat>
    requires from <= |contents|
  {
    IndicesWhere(IsImage, contents, from)
  }

  /** The indices from `from` on are strictly increasing, and they are exactly the positions where `f` holds. */
  lemma {:induction false} IndicesWhereArePositions<T>(f: T -> bool, xs: seq<T>, from: nat)
    requires from <= |xs|
    decreases |xs| - from
    ensures var idx := IndicesWhere(f, xs, from);
      && (forall k :: 0 <= k < |idx| ==> from <= idx[k] < |xs|)
      && (forall k, l :: 0 <= k < l < |idx| ==> idx[k] < idx[l])
      && (forall j :: from <= j < |xs| ==> (j in idx <==> f(xs[j])))
  {
    if from < |xs| {
      IndicesWhereArePositions(f, xs, from + 1);
    }
  }

  /** The k-th element the filter keeps from `from` on is the one at the k-th index. */
  lemma {:induction false} FilterAtIndices<T>(f: T -> bool, xs: seq<T>, from: nat)
    requires from <= |xs|
    decreases |xs| - from
    ensures var idx := IndicesWhere(f, xs, from);
      && |Filter(f, xs[from..])| == |idx|
      && (forall k :: 0 <= k < |idx| ==> idx[k] < |xs| && Filter(f, xs[from..])[k] == xs[idx[k]])
  {
    IndicesWhereArePositions(f, xs, from);
    if from < |xs| {
      FilterAtIndices(f, xs, from + 1);
      assert xs[from..][0] == xs[from];
      assert xs[from..][1..] == xs[from + 1..];
    }
  }

  /**
   * The filter keeps exactly the objects whose key has an image extension,
   * as a subsequence in the store's order: the k-th kept object is the one
   * at the k-th such index.
   */
  lemma KeepImagesIsOrderedSubsequence(contents: seq<StoredObject>)
    ensures var idx := ImageIndicesFrom(contents, 0);
      && |KeepImages(contents)| == |idx|
      && (forall k :: 0 <= k < |idx| ==> idx[k] < |contents| && KeepImages(contents)[k] == contents[idx[k]])
      && (forall k, l :: 0 <= k < l < |idx| ==> idx[k] < idx[l])
      && (forall j :: 0 <= j < |contents| ==> (j in idx <==> ImagePattern.HasImageExtension(contents[j].key)))
  {
    FilterAtIndices(IsImage, contents, 0);
    IndicesWhereArePositions(IsImage, contents, 0);
    assert contents[0..] == contents;
    forall j | 0 <= j < |contents| {
      ImagePattern.MatchesIffImageExtension(contents[j].key);
    }
  }

  /** The filter keeps an object iff it is listed and its key has an image extension. */
  lemma KeptIffImageExtension(contents: seq<StoredObject>, o: StoredObject)
    ensures o in KeepImages(contents) <==> o in contents && ImagePattern.HasImageExtension(o.key)
  {
    KeepImagesIsOrderedSubsequence(contents);
    ImagePattern.MatchesIffImageExtension(o.key);
    if o in contents && IsImage(o) {
      var j :| 0 <= j < |contents| && contents[j] == o;
      var idx := ImageIndicesFrom(contents, 0);
      var k :| 0 <= k < |idx| && idx[k] == j;
      assert KeepImages(contents)[k] == o;
    }
  }

  /**
   * A successful listing of `contents` replies with one URL per object whose
   * key has an image extension, in listing order, and with no other URL.
   */
  lemma ImagesOfListing(param: string, list: Lister, contents: seq<StoredObject>)
    requires ImagesRequest(param).Some? && list(ImagesRequest(param).value).Some?
    requires OrEmpty(list(ImagesRequest(param).value).value.contents) == contents
    ensures GetImages(param, list).Json?
    ensures var urls := GetImages(param, list).body; var idx := ImageIndicesFrom(contents, 0);
      && |urls| == |idx|
      && (forall k :: 0 <= k < |idx| ==> idx[k] < |contents| && urls[k] == PublicUrl(contents[idx[k]].key))
      && (forall k, l :: 0 <= k < l < |idx| ==> idx[k] < idx[l])
      && (forall j :: 0 <= j < |contents| ==> (j in idx <==> ImagePattern.HasImageExtension(contents[j].key)))
  {
    KeepImagesIsOrderedSubsequence(contents);
  }

  // ---------------------------------------------------------------- public URLs

  /** Every URL starts with the bucket's base address, and its remainder decodes back to the key. */
  lemma PublicUrlRoundTrip(key: string)
    ensures JsString.StartsWith(PublicUrl(key), PublicBase)
    ensures Uri.DecodeURIComponent(PublicUrl(key)[|PublicBase|..]) == Some(key)
  {
    assert PublicUrl(key)[..|PublicBase|] == PublicBase;
    assert PublicUrl(key)[|PublicBase|..] == Uri.EncodeURI(key);
    Uri.DecodeEncodeURI(key);
  }

  /** Distinct keys get distinct URLs. */
  lemma PublicUrlInjective(k1: string, k2: string)
    requires PublicUrl(k1) == PublicUrl(k2)
    ensures k1 == k2
  {
    PublicUrlRoundTrip(k1);
    PublicUrlRoundTrip(k2);
  }

  /** After the base address a URL holds only characters encodeURI leaves alone, and '%'. */
  lemma PublicUrlAlphabet(key: string)
    ensures forall i :: |PublicBase| <= i < |PublicUrl(key)| ==>
      Uri.IsUnescapedByEncodeURI(PublicUrl(key)[i]) || PublicUrl(key)[i] == '%'
  {
    Uri.EncodeURIAlphabet(key);
    assert forall i :: |PublicBase| <= i < |PublicUrl(key)| ==> PublicUrl(key)[i] == Uri.EncodeURI(key)[i - |PublicBase|];
  }

  /** Of a.jpg and notes.txt the filter keeps a.jpg only, the object at index 0. */
  lemma SmithFilter()
    ensures var contents := [StoredObject("Weddings/Smith/a.jpg"), StoredObject("Weddings/Smith/notes.txt")];
      && KeepImages(contents) == [contents[0]]
      && ImageIndicesFrom(contents, 0) == [0]
  {
    var jpg := "Weddings/Smith/a.jpg";
    var txt := "Weddings/Smith/notes.txt";
    assert IsImage(StoredObject(jpg)) by {
      ImagePattern.MatchesIffImageExtension(jpg);
      assert ImagePattern.EndsWithIgnoringCase(jpg, ".jpg");
    }
    assert !IsImage(StoredObject(txt)) by {
      ImagePattern.NoImageExtension(txt);
      ImagePattern.MatchesIffImageExtension(txt);
    }
    var contents := [StoredObject(jpg), StoredObject(txt)];
    assert contents[1..] == [StoredObject(txt)];
    assert contents[1..][1..] == [];
    assert ImageIndicesFrom(contents, 2) == [];
    assert ImageIndicesFrom(contents, 1) == [];
  }

  /** A key made of characters encodeURI leaves alone is published verbatim after the base address. */
  lemma PlainKeyUrl(key: string)
    requires forall i :: 0 <= i < |key| ==> Uri.IsUnescapedByEncodeURI(key[i])
    ensures PublicUrl(key) == PublicBase + key
  {
    Uri.EncodeURIOfUnescaped(key);
  }

  /** Route parameter "Smith" lists the prefix "Weddings/Smith/", and a.jpg in it gets its URL verbatim. */
  lemma SmithRequestAndUrl()
    ensures ImagesRequest("Smith") == Some(ListRequest(Bucket, "Weddings/Smith/", None))
    ensures PublicUrl("Weddings/Smith/a.jpg") == PublicBase + "Weddings/Smith/a.jpg"
  {
    Uri.DecodeWithoutPercent("Smith");
    assert AlbumRoot + "Smith" + "/" == "Weddings/Smith/";
    PlainKeyUrl("Weddings/Smith/a.jpg");
  }

  /** A listing in which only the first object is an image replies with that object's URL alone. */
  lemma ImagesOfFirstOnly(param: string, list: Lister, contents: seq<StoredObject>)
    requires ImagesRequest(param).Some? && list(ImagesRequest(param).value).Some?
    requires list(ImagesRequest(param).value).value.contents == Some(contents)
    requires |contents| > 0 && ImageIndicesFrom(contents, 0) == [0]
    ensures GetImages(param, list) == Json([PublicUrl(contents[0].key)])
  {
    var urls := GetImages(param, list).body;
    assert |urls| == 1 && urls[0] == PublicUrl(contents[0].key);
    assert urls == [PublicUrl(contents[0].key)];
  }

  /** Album "Smith" holding a.jpg and notes.txt lists exactly one URL, that of a.jpg. */
  lemma ImagesScenario(list: Lister)
    requires list(ListRequest(Bucket, "Weddings/Smith/", None))
      == Some(ListOutput(Some([StoredObject("Weddings/Smith/a.jpg"), StoredObject("Weddings/Smith/notes.txt")]), None))
    ensures GetImages("Smith", list) == Json([PublicBase + "Weddings/Smith/a.jpg"])
  {
    SmithRequestAndUrl();
    SmithFilter();
    ImagesOfFirstOnly("Smith", list, [StoredObject("Weddings/Smith/a.jpg"), StoredObject("Weddings/Smith/notes.txt")]);
  }
}
