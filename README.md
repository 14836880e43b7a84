# framer_server listing handlers, modelled in Dafny

The server lists the albums and images of a wedding-photography portfolio
stored in one S3 bucket, `curvewrotofoliowebsite`, under the root prefix
`Weddings/`. Two handlers hold its logic.

- `GET /albums` lists the bucket one level below `Weddings/`, grouped at
  `/`. Each common prefix becomes an album name: the first `Weddings/` is
  removed, then the first remaining `/`, and the result is passed through
  `decodeURIComponent`. A missing `CommonPrefixes` gives `[]`. A failed
  listing or a failed decode gives status 500 with
  `{error: "Failed to fetch albums"}`.
- `GET /images/:albumName` decodes the route parameter with
  `decodeURIComponent` and lists the prefix `Weddings/<name>/`. An absent or
  empty `Contents` gives `[]`. Otherwise the handler keeps the keys matching
  `/\.(jpe?g|png|gif)$/i`, in listing order, and maps each one to
  `https://curvewrotofoliowebsite.s3.eu-north-1.amazonaws.com/` +
  `encodeURI(key)`. A failed decode or listing gives status 500 with
  `{error: "Failed to fetch images"}`.

The model is pure: datatypes, functions and lemmas, because the handlers
are `.map`/`.filter` chains and string operations with no mutable state.

- `options.dfy` (`Options`): the `Option` type. `None` stands for an
  exception or an absent field.
- `js_string.dfy` (`JsString`): `indexOf` and `replace` with a string
  pattern. `replace` rewrites the first occurrence and is not anchored to
  the start of the string.
- `utf8.dfy` (`Utf8`): the UTF-8 encoding and the well-formedness test
  that the URI functions use.
- `uri.dfy` (`Uri`): `encodeURI` and `decodeURIComponent`, written out
  from the Encode and Decode operations (sections 19.2.6.5 and 19.2.6.6 of
  ECMAScript 2023).
- `image_pattern.dfy` (`ImagePattern`): the regular expression. It is a
  left-to-right search for a match, and it is proved equal to "ends in
  `.jpg`, `.jpeg`, `.png` or `.gif`, ignoring ASCII case".
- `server.dfy` (`Server`): the listing request, the listing output and the
  reply. It also holds both handlers and their properties.

The object store's `listObjectsV2` call is a parameter of the handlers:
`Lister`, a function from the request (bucket, prefix, delimiter) to an
optional listing. `None` means the call was rejected. A reply is the value
the handler sends: `Json(body)`, whose status is 200, or
`ServerError(message)`, whose status is 500.

The model follows what the code does, including what it leaves undone:
- the code builds no thumbnails;
- it returns plain URL strings, not `{thumb, full}` pairs;
- it accepts `.gif`;
- it does no traversal check on the album name;
- it strips the first `Weddings/` and the first `/` wherever they occur,
  not a leading root and a trailing separator.

## Model

| member | source | states |
|---|---|---|
| `JsString.IndexOfFrom` | server.js:32 | the index found is an occurrence of the pattern at or after `from`, with no occurrence before it; `None` only when the pattern occurs nowhere from `from` on |
| `JsString.ReplaceFirst` | server.js:32 | with no occurrence the string is unchanged; otherwise the FIRST occurrence, wherever it is, is replaced and everything around it is kept |
| `JsString.ReplaceFirstLength` | server.js:32 | a replacement leaves the length alone or changes it by the difference between replacement and pattern |
| `Utf8.Encode` | server.js:54 | 1 to 4 octets; one octet exactly for code points below 0x80, and then the octet is the code point; a multi-octet lead has as many leading 1 bits as the sequence has octets; every later octet is a continuation |
| `Utf8.DecodeEncode` | server.js:54 | every multi-octet encoding decodes to the character it encodes |
| `Utf8.EncodeDecode` | server.js:32 | the decoder accepts only shortest-form sequences: whatever it decodes to `c` is exactly `Encode(c)` (no overlong forms, surrogates or values above U+10FFFF) |
| `Uri.HexDigitValue` | server.js:32 | the hexadecimal digits are exactly 0-9, a-f and A-F; a digit's value is below 16, and its upper-case hexadecimal digit is the digit upper-cased (so `a` and `A` are both worth 10) |
| `Uri.DecodeEscape` | server.js:32 | an escape that decodes to `c` consumes 3 characters per octet of `Utf8.Encode(c)`, and what it consumes reads as the escapes of exactly those octets; a mis-encoded octet sequence is never decoded |
| `Uri.DecodeEscapeOfOctets` | server.js:32 | conversely, a string that starts with the escapes of the octets of `Utf8.Encode(c)` decodes to `c`; with `Uri.DecodeEscape` this says which escapes decode and to what |
| `Uri.DecodeURIComponent` | server.js:32 | decoding never lengthens the string; what it decodes is stated by `Uri.DecodeEncodeURI`, `Uri.DecodeWithoutPercent` and `Uri.DecodeFailsOnTrailingPercent` |
| `Uri.EncodeURI` | server.js:54 | every character becomes between 1 and 12 characters, so the result is at least as long as the input and at most 12 times as long; which characters are escaped is stated by `Uri.EncodeURIAlphabet` and `Uri.EncodeURIOfUnescaped` |
| `Uri.DecodeEncodeURI` | server.js:54 | `decodeURIComponent(encodeURI(s)) == s` for every string |
| `Uri.EncodeURIAlphabet` | server.js:54 | every character `encodeURI` writes is one it leaves unescaped, or a '%' followed by two upper-case hexadecimal digits |
| `Uri.EncodeURIOfUnescaped` | server.js:54 | `encodeURI` leaves a string of unescaped characters (letters, digits, `-_.!~*'()` and `;/?:@&=+$,#`) unchanged |
| `Uri.DecodeWithoutPercent` | server.js:32 | `decodeURIComponent` succeeds and changes nothing on a string without '%' |
| `Uri.DecodeFailsOnTrailingPercent` | server.js:32 | `decodeURIComponent` throws on every string ending in '%' |
| `ImagePattern.Matches` | server.js:53 | a matching key has at least 4 characters, and its fourth- or fifth-last is the dot; the full meaning is `ImagePattern.MatchesIffImageExtension` |
| `ImagePattern.MatchAtIsExtension` | server.js:53 | the pattern matches at position `pos` exactly when the key from `pos` on is one of the image extensions, ignoring ASCII case |
| `ImagePattern.MatchesIffImageExtension` | server.js:53 | the image pattern matches iff the key ends in `.jpg`, `.jpeg`, `.png` or `.gif`, ignoring ASCII case (both directions) |
| `ImagePattern.UpperAndMixedCaseKept` | server.js:53 | `IMG.JPG` and `x.Jpeg` match |
| `ImagePattern.OtherExtensionsDropped` | server.js:53 | `notes.txt` does not match, and neither does `a.jpg.bak`, because `$` anchors at the end of the key |
| `Server.RawAlbumName` | server.js:32 | the two replacements remove at most the root `Weddings/` and one `/`; on a common prefix `Weddings/<s>/` the result is stated by `Server.RawAlbumNameOfCommonPrefix` |
| `Server.AlbumName` | server.js:32 | a decoded album name is never longer than its prefix; which names come out is stated by `Server.AlbumNameOfPlainPrefix` and `Server.AlbumsFailOnMalformedName` |
| `Server.MapOrThrow` | server.js:31-33 | `map` with a callback that may throw: all results, in order and one per element, exactly when no call throws |
| `Server.AlbumList` | server.js:31-33 | an absent `CommonPrefixes` counts as empty; one album name per common prefix, in the store's order, exactly when every prefix decodes; otherwise the exception |
| `Server.GetAlbums` | server.js:26-40 | a rejected listing is the 500 "Failed to fetch albums"; otherwise the reply is a JSON list (status 200) iff every common prefix decodes, the list then has one name per prefix in order, and every error reply carries that message |
| `Server.RawAlbumNameOfCommonPrefix` | server.js:32 | for a common prefix `Weddings/<s>/` with no `/` in `s`, the two replacements give exactly `s` |
| `Server.AlbumNameOfPlainPrefix` | server.js:32 | such a prefix with no `%` in `s` names the album `s` |
| `Server.AlbumsWithoutPrefixes` | server.js:29-38 | a rejected listing is the 500 reply; a listing without `CommonPrefixes` is `[]` |
| `Server.AlbumsFailOnMalformedName` | server.js:31-38 | one album folder whose name ends in `%` makes the whole `/albums` reply the 500 error, whatever `Contents` holds |
| `Server.AlbumsOfPlainNames` | server.js:28-35 | prefixes `Weddings/<n>/` for names with neither `/` nor `%` list as exactly those names, in order |
| `Server.AlbumsScenario` | server.js:28-35 | prefixes `Weddings/Alpha/` and `Weddings/Beta/` give `["Alpha", "Beta"]` |
| `Server.AlbumPrefix` | server.js:46 | the prefix is the root `Weddings/`, the album name, and a closing `/`: it starts with the root, ends with `/`, and holds exactly the name between them |
| `Server.ImagesRequest` | server.js:45-46 | there is a listing request exactly when the route parameter decodes; it names the bucket, the prefix of the decoded name and no delimiter |
| `Server.AlbumLinksToItsImages` | server.js:31-46 | a plain album name listed by `/albums`, sent back as the route parameter of `/images`, lists exactly the folder it was read from |
| `Server.AnyNameReachesItsPrefix` | server.js:45-46 | no traversal check: for every name, `..` and `/` included, the parameter `encodeURI(name)` lists exactly `Weddings/<name>/` |
| `Server.GetImages` | server.js:43-61 | a JSON list exactly when the parameter decodes and the listing succeeds, otherwise the 500 "Failed to fetch images"; the list has one URL per image object, in listing order, the k-th being the public URL of the object at the k-th image index |
| `Server.ImagesBadParameter` | server.js:45-59 | a parameter that does not decode gives the 500 "Failed to fetch images", whatever the store holds |
| `Server.EmptyContentsGiveEmptyList` | server.js:50 | absent or empty `Contents` gives `[]`, not an error |
| `Server.ImagesOfListing` | server.js:48-56 | a successful listing replies with one URL per object whose key has an image extension, at strictly increasing indices in listing order, and with no other URL |
| `Server.Filter` | server.js:52-53 | `filter`: no more elements than the input, each of them in the input and satisfying the test |
| `Server.IndicesWhereArePositions` | server.js:52-53 | the indices the filter keeps are strictly increasing and are exactly the positions where the test holds |
| `Server.FilterAtIndices` | server.js:52-53 | the k-th kept element is the element at the k-th such index |
| `Server.KeepImages` | server.js:52-53 | the kept objects are no more than the listed ones, and each of them is listed and is an image |
| `Server.KeepImagesIsOrderedSubsequence` | server.js:52-53 | the kept objects are the listed objects at the strictly increasing indices of the keys with an image extension: each such index is kept and no other |
| `Server.KeptIffImageExtension` | server.js:53 | an object is kept iff it is listed and its key has an image extension |
| `Server.ImageUrls` | server.js:50-54 | the body of a successful listing: one URL per image object, in listing order, the k-th that of the object at the k-th image index; absent or empty `Contents` gives none |
| `Server.PublicUrl` | server.js:54 | every URL starts with `https://curvewrotofoliowebsite.s3.eu-north-1.amazonaws.com/` and is at least as long as that base plus the key; what follows the base is stated by `Server.PublicUrlRoundTrip` |
| `Server.PublicUrls` | server.js:54 | one URL per object, in the same order, the k-th being the public URL of the k-th key |
| `Server.PublicUrlRoundTrip` | server.js:54 | every URL starts with the base address, and its remainder decodes back to the key |
| `Server.PublicUrlInjective` | server.js:54 | distinct keys give distinct URLs |
| `Server.PublicUrlAlphabet` | server.js:54 | after the base address a URL holds only characters `encodeURI` leaves unescaped, and '%' |
| `Server.PlainKeyUrl` | server.js:54 | a key made only of unescaped characters appears in its URL as it is |
| `Server.SmithFilter` | server.js:52-53 | of `a.jpg` and `notes.txt` only `a.jpg`, at index 0, is kept |
| `Server.ImagesScenario` | server.js:43-56 | album `Smith` holding `a.jpg` and `notes.txt` lists exactly one URL, that of `Weddings/Smith/a.jpg` |

## Left out

- Express routing, the CORS middleware, the root endpoint and `app.listen` (server.js:4-12, 21-23, 63-65): HTTP and process plumbing.
- Express decodes the route parameter before the handler sees it. The model starts from the value the handler receives, so that first decoding is not part of this model.
- The S3 client, its credentials and the network (server.js:14-18) are left out. `listObjectsV2` is the `Lister` parameter, and a rejected call is `None`.
- Only the first page of a listing is modelled, as the source uses it. `IsTruncated` and continuation tokens are ignored there too.
- `console.error` and the `res.json`/`res.status` writes: the model gives the value and status that would be sent, not the I/O.
- Async/await sequencing: each handler makes one awaited call, and nothing runs concurrently.
- A `TypeError` from a listing entry without `Prefix` or `Key` is not modelled; the store always sends both.
- `JsString.ReplaceFirst`: the replacement is inserted literally, and `$&`-style replacement patterns are not expanded. The source's replacement is always `""`, so the model is exact for it.
- `Uri.EncodeURI`: strings are sequences of Unicode scalar values, so the URIError `encodeURI` throws on an unpaired UTF-16 surrogate cannot happen in the model. Keys from S3 are UTF-8 and contain no unpaired surrogate.
- Lengths and indices count code points, not UTF-16 code units. Every pattern the handlers search for is ASCII, so the occurrences found are the same.
- Thumbnail generation, derivative keys, the existence-probe cache and bounded fan-out do not appear in the source and are not modelled.
- `JsString.IndexOfFrom`: JavaScript clamps a start position beyond the length to the length, so `"ab".indexOf("", 5)` is 2; the model answers `None` there. The handlers always search from 0.
