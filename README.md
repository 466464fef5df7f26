# Zenblog media hooks and SDK client, modelled in Dafny

This project models two parts of the Zenblog repository:

- **The media hooks of the web dashboard**
  (`apps/web/src/components/Images/Images.queries.ts`).
  - `useMediaQuery` reads two sources: the blog's objects in the `images` storage bucket and the rows of the `blog_images` table. It normalises both into one record shape, bucket objects first, and sorts the list newest first by the `created_at` text.
  - `useDeleteMediaMutation` splits a batch by the `supabase_hosted` flag and removes the bucket objects with one storage call. It then derives a file name for each externally hosted item and deletes those with one call to the blog's image API.
- **The Zenblog SDK client** (`packages/zenblog/dist/index.js`).
  - `createZenblogClient` fills in its defaults.
  - The fetcher builds `<base>/blogs/<blogId>/<path>` and merges the JSON content type under the caller's headers. It classifies the reply as one of: a body that does not parse, a failing HTTP status, or the parsed body.
  - The `posts`, `categories`, `tags` and `authors` endpoints build their paths and options on top of the fetcher.
  - `posts.list` writes its query with `URLSearchParams`. That is modelled as the application/x-www-form-urlencoded serializer of section 5.2 of the WHATWG URL Standard. The model also has its inverse, the parser of section 5.1 of the same standard.

The files:

- `wrappers.dfy`: `Option` and `Result`.
- `text.dfy`: the JavaScript string operations the code relies on:
  - `split` and `join`;
  - `pop` on the pieces;
  - `<` on strings;
  - integer-to-decimal rendering, with a parser as its inverse.
- `form_urlencoded.dfy`: UTF-8 encoding, the form-urlencoded serializer, and the parser up to its UTF-8 decoding step.
- `media_query.dfy`: the media list query. The in-place `sort` is an insertion sort on an `array`.
- `media_delete.dfy`: the delete mutation. The `for` loop that collects file names is a `method` with its invariants. Backend calls are recorded in a trace.
- `zenblog_client.dfy`: plain objects and spread, the fetcher, the client and its endpoints.

Foreign calls are parameters of the model:

- the Supabase table read and storage listing;
- `getPublicUrl`;
- the storage `remove`;
- the image API's status;
- `fetch`, which is `send: Request -> Reply`.

## Model

| member | source | states |
|---|---|---|
| MediaQuery.Merge | apps/web/src/components/Images/Images.queries.ts:31-73 | The list holds every bucket object and then every table row, in that order; a missing table answer counts as no rows. A bucket item gets the public URL of `<blogId>/<name>`, `supabase_hosted` true and no size. A row keeps its URL, name, timestamp and size, and its numeric id reads back from the string id. |
| MediaQuery.MayPrecedeTransitive | apps/web/src/components/Images/Images.queries.ts:75 | The comparator's "may come first" relation is transitive, so newest-first order is consistent. |
| MediaQuery.SortNewestFirst | apps/web/src/components/Images/Images.queries.ts:75 | The in-place sort leaves the array newest first by `created_at` text and a permutation of what it was. |
| MediaQuery.NewestFirstUnique | apps/web/src/components/Images/Images.queries.ts:75 | Two newest-first permutations of a list with distinct timestamps are equal, so the result does not depend on which sorting algorithm the runtime uses. |
| MediaQuery.QueryResultDetermined | apps/web/src/components/Images/Images.queries.ts:63-75 | With distinct timestamps, any two results of the query over the same merged list are identical. |
| MediaQuery.DistinctTimestampsPermuted | apps/web/src/components/Images/Images.queries.ts:75 | Reordering a list keeps its timestamps distinct. |
| MediaQuery.QueryMedia | apps/web/src/components/Images/Images.queries.ts:19-81 | When the listing has data, the result is the merged list, permuted, newest first. With no data, the listing's error message is thrown. With neither, the query settles with no result. |
| MediaDelete.BucketItems | apps/web/src/components/Images/Images.queries.ts:130-132 | The bucket batch holds only items of the input whose flag is true. |
| MediaDelete.ExternalItems | apps/web/src/components/Images/Images.queries.ts:139 | The external batch holds only items of the input whose flag is not true. |
| MediaDelete.BucketPaths | apps/web/src/components/Images/Images.queries.ts:130-132 | One path per bucket item, in order. |
| MediaDelete.PartitionIsExact | apps/web/src/components/Images/Images.queries.ts:130-139 | Together the two batches are exactly the input, as a multiset. |
| MediaDelete.PartitionKeepsOrder | apps/web/src/components/Images/Images.queries.ts:130-139 | Each batch distributes over concatenation, so it keeps the input order. |
| MediaDelete.RoutedByFlag | apps/web/src/components/Images/Images.queries.ts:130-139 | Each input item is in the batch its flag names and not in the other. |
| MediaDelete.BatchBlogId | apps/web/src/components/Images/Images.queries.ts:133-137 | The batch's blog id exists iff the batch is non-empty and its first item's blog id is non-empty; it is that id. |
| MediaDelete.FileNameIsLastSegment | apps/web/src/components/Images/Images.queries.ts:152 | The file name holds no `/` and ends the path. Whatever precedes it in the path ends in `/`. |
| MediaDelete.FileNameEmpty | apps/web/src/components/Images/Images.queries.ts:152-153 | The file name is empty iff the path is empty or ends in `/`. |
| MediaDelete.CollectFileNames | apps/web/src/components/Images/Images.queries.ts:149-157 | The loop succeeds iff every external item has a non-empty blog id and file name. On success it returns each item's non-empty file name, in order. On failure it returns "Blog ID is required". |
| MediaDelete.DeleteMedia | apps/web/src/components/Images/Images.queries.ts:121-175 | Outcome and call trace in each of four cases. (1) No blog id: rejected and nothing called. (2) Bucket error: rejected with that message after the single bucket call. (3) An unnameable external item: rejected before the API call. (4) Otherwise the API is called once with the first item's blog id and every file name, and status 200 decides success. |
| FormUrlEncoded.Utf8Char | packages/zenblog/dist/index.js:5-8 | One to four bytes. ASCII maps to itself, and every byte of a non-ASCII character is at least 0x80. |
| FormUrlEncoded.Utf8CharDecodes | packages/zenblog/dist/index.js:5-8 | The lead byte of a character's UTF-8 bytes gives their number, and decoding them gives back the character's scalar value. |
| FormUrlEncoded.Utf8CharInjective | packages/zenblog/dist/index.js:5-8 | Different characters have different UTF-8 bytes. |
| FormUrlEncoded.Utf8Injective | packages/zenblog/dist/index.js:5-8 | Different strings have different UTF-8 bytes. |
| FormUrlEncoded.EncodeInjective | packages/zenblog/dist/index.js:5-8 | Different strings are percent-encoded to different text. |
| FormUrlEncoded.SerializeInjective | packages/zenblog/dist/index.js:5-8 | Different lists of name/value pairs serialize to different query strings. |
| FormUrlEncoded.EncodeBytes | packages/zenblog/dist/index.js:5-8 | Encoded text uses only alphanumerics, `*-._`, `+` and `%`. |
| FormUrlEncoded.DecodeEncode | packages/zenblog/dist/index.js:5-8 | Percent-decoding an encoded name or value gives its UTF-8 bytes. |
| FormUrlEncoded.ParseSerialize | packages/zenblog/dist/index.js:5-8 | Parsing the serializer's output gives every pair back, in order, as the UTF-8 bytes of name and value. |
| FormUrlEncoded.CommaIsEscaped | packages/zenblog/dist/index.js:56 | The comma that joins tags is escaped. For a plain alphanumeric name and tags `a`, `b`, the pair `(name, "a,b")` serializes to `name=a%2Cb`. |
| FormUrlEncoded.EncodeAppend | packages/zenblog/dist/index.js:5-8 | Encoding works character by character: encoding a concatenation is concatenating the encodings. |
| FormUrlEncoded.PlainText | packages/zenblog/dist/index.js:5-8 | ASCII letters and digits are written unchanged. |
| Zenblog.Put | packages/zenblog/dist/index.js:13-19 | Setting a property makes it `v` and leaves other properties' values alone. An existing key keeps its position; a new key is appended. |
| Zenblog.LookupSpread | packages/zenblog/dist/index.js:13-19 | In `{...target, ...source}` each property comes from the source when the source has it, else from the target. |
| Zenblog.SpreadAppends | packages/zenblog/dist/index.js:51-58 | Spreading properties the target lacks appends them in order. |
| Zenblog.MergeHeaders | packages/zenblog/dist/index.js:13-19 | Content-Type is the caller's value if given, else `application/json`. Every other header is exactly the caller's. Content-Type is the first key. |
| Zenblog.MakeRequest | packages/zenblog/dist/index.js:12-19 | The URL is `<base>/blogs/<blogId>/<path>`. The method and cache are the caller's, and the headers are the merged ones. |
| Zenblog.UrlSegments | packages/zenblog/dist/index.js:12 | When the blog id has no `/`, the URL's `/`-segments are the base's, then `blogs` and the blog id, then the path's. |
| Zenblog.Settle | packages/zenblog/dist/index.js:22-37 | Four cases. (1) An unparsable body fails with the parse message whatever the status. (2) A parsed body with a status outside 200-299 fails with the HTTP message and the response. (3) A network error is rethrown unchanged. (4) Otherwise the parsed body is returned. |
| Zenblog.SettleOutcomes | packages/zenblog/dist/index.js:22-33 | An answered request succeeds iff the body parses and the status is ok. A failure is an API error whose message is the parse message iff the body did not parse. |
| Zenblog.CreateClient | packages/zenblog/dist/index.js:40-48 | The base URL is the caller's when non-empty, else the public API URL. The blog id is passed through. Debug is on only when `_debug` is true. |
| Zenblog.ListQueryFlat | packages/zenblog/dist/index.js:51-58 | The conditional spreads never meet an existing property: the query is base, category, tags and author parts concatenated. |
| Zenblog.ListQueryShape | packages/zenblog/dist/index.js:51-58 | `limit` (default 20) and `offset` (default 0) come first, in that order. `category` and `author` appear only when truthy. `tags` appears whenever given, even empty, joined with commas. Properties follow the object literal's order and nothing else appears. |
| Zenblog.DefaultListQuery | packages/zenblog/dist/index.js:51-58 | With nothing given and no truthy category or author, the query is `limit=20`, `offset=0`. |
| Zenblog.ListPathParses | packages/zenblog/dist/index.js:52-58 | The list path is `posts?` followed by text that parses back to the query's properties in order. |
| Zenblog.EndpointRequest | packages/zenblog/dist/index.js:49-101 | Every endpoint issues a GET to `<base>/blogs/<blogId>/<path>` with a JSON content type. `posts.get` and `authors.get` use the caller's cache when truthy, else `default`. `posts.list` uses the caller's cache when given, even empty, else `default`. The list endpoints of categories, tags and authors send no cache. |
| Zenblog.ListUrl | packages/zenblog/dist/index.js:51-61 | `posts.list` requests `<base>/blogs/<blogId>/posts?` followed by the serialized list query. |
| Zenblog.EndpointUrl | packages/zenblog/dist/index.js:64-101 | `posts.get` requests `<base>/blogs/<blogId>/posts/<slug>`, and `authors.get` requests `<base>/blogs/<blogId>/authors/<slug>`. |
| Zenblog.CollectionUrl | packages/zenblog/dist/index.js:72-94 | The list endpoints of categories, tags and authors request `<base>/blogs/<blogId>/categories`, `.../tags` and `.../authors`. |
| Zenblog.InvokeSettles | packages/zenblog/dist/index.js:10-38 | An endpoint call returns the parsed body iff the reply to its request is ok and parses. A network error passes through unchanged. |
| Text.IntRoundTrip | apps/web/src/components/Images/Images.queries.ts:57 | The decimal rendering of an integer id reads back as that id. |
| Text.LastPieceIsTail | apps/web/src/components/Images/Images.queries.ts:152 | The last piece of `split` is the text after the last separator. |
| Text.LessTotal | apps/web/src/components/Images/Images.queries.ts:75 | Two different strings are ordered by `<` one way or the other. |

## Left out

- `useUploadMediaMutation` and the `onSuccess` cache invalidations of both mutations are not modelled. They only forward to storage and to the query cache.
- Logging is not modelled: `console.log`, `console.error`, the SDK's debug logger and the warning when the SDK runs in a browser.
- MediaQuery.Merge: bucket objects keep only id, name and timestamp. The other storage metadata that `...item` copies is dropped, and so are any extra columns of a table row. The record shape the media list shows has no place for them.
- MediaQuery.SortNewestFirst: the runtime's `sort` is implementation-defined when the comparator is inconsistent, which happens when two items have equal timestamps. The model uses one insertion sort. NewestFirstUnique shows the order is fully determined when timestamps are distinct.
- Text.Less compares by `char` value. JavaScript compares UTF-16 code units, which differs only for characters outside the Basic Multilingual Plane.
- Text.IntToString covers integer ids only. The exponent notation JavaScript uses for numbers of 1e21 and above, and non-integer numbers, are not modelled.
- MediaDelete.DeleteMedia: when the API answers a status other than 200, the source reads the error body before throwing. A body that fails to parse would throw a different error, and this is not modelled.
- MediaDelete.DeleteMedia: exceptions thrown by the storage or API clients themselves, as opposed to the error they report, are not modelled.
- Zenblog.MergeHeaders: headers are a plain object with string values. `Headers` instances, arrays of pairs, and `fetch`'s case-insensitive treatment of header names are not modelled.
- FormUrlEncoded.Parse stops at the percent-decoded bytes. The UTF-8 decoding at the end of section 5.1 of the WHATWG URL Standard is not modelled, so the round trip is stated on bytes.
- The JSON body is an opaque value. JSON parsing is a foreign call whose result, a value or an exception, is part of the reply.
- The network is a parameter: concurrency, retries and timeouts of `fetch` are not modelled.
