# Thoth backend core, modelled in Dafny

Thoth is a paste service. A client posts a `multipart/related` request: a
JSON description of the application and its environment, followed by text
attachments. The backend stores the paste in SQLite and serves it back over
a small HTTP router. This project models three pieces of that backend as
pure functions over immutable data and proves what they promise.

- **The custom-metadata codec** (`DATA_CONVERTERS`, `metadataValueToNamed`,
  `convertTypeScriptDataToBlob`). It covers Buffer's big-endian 32-bit reads
  and writes, with their range errors, and UTF-8 encoding and decoding as
  `TextEncoder` and `TextDecoder` do them. Modules `Bytes`, `Utf8` and
  `Codec`.
- **The paste store.** The five tables are maps keyed by their primary keys.
  `getFreePasteId` draws from a supplied random source. `createPaste` is an
  all-or-nothing transaction that returns the new store, or the old store and
  an error. The file writes that follow the commit succeed or fail as the
  supplied file system says. The readers `getPaste`, `getPasteFiles` and `getPasteEnvironment`
  are functions of the store. Modules `Store` and `StoreProperties`.
- **The router** (`isSegmentParameter`, `indexSegments`, `compileRoute`,
  `compileAllRoutes`, and `fetch` and `error` from `newRouter`). It is also
  applied to the route table of `index.ts` and to the cases of the router's
  test file. Modules `Text`, `Http`, `Router` and `Routes`.
- **The create-paste endpoint.** This covers the boundary regular
  expression, the header checks, the loop over the multipart parts with its
  checks in source order, the `catch`, and the final `createPaste` call.
  Module `CreatePasteEndpoint`.

The multipart parser, `JSON.parse` with the zod schema, `Math.random`,
`Date.parse`, `path.extname`, the URL parser, the outcomes of the file
writes and the `ALLOWED_CONTENT_TYPES` environment setting are all
parameters.

The model follows the code as written, including where it misbehaves:
- The string[] and JVM read-backs are not exact round trips (see Findings).
- `no_multipart_data`, `no_content_type`, `content_too_large` and
  `malformed_json` are sent with the default status 200, not a 4xx.
- A GET with no route entry throws while iterating `undefined`; it does not
  reach the fallback.
- A method named after a member of `Object.prototype` with a non-zero
  `length` (such as `constructor`), or `__proto__`, passes the 404 guard and
  throws in the route loop, so it is answered with a bare 500.
- A JavaScript number is a real. `writeInt32BE` stores the truncation toward
  zero of a fractional number, and the schema lets fractional custom numbers
  through, so 1.5 reads back as 1 (see Findings).
- A paste is committed before its files are written. A failed write is
  answered with 500 `server_error`, and the paste stays stored. An
  attachment named by `name=""` gets the empty file name and causes exactly
  that (see Findings).
- Some environments the schema admits do not read back in full. The schema
  trims the JVM fields but does not require them to be non-empty, and the
  reader drops a JVM with any empty field. A custom member under the empty
  key is stored but skipped by the reader. A custom string that starts with
  U+FEFF loses that character to `TextDecoder`.

## Model

| member | source | states |
|---|---|---|
| Bytes.WriteUInt32BE | thoth-backend/src/paste/storage.ts:86 | `writeUint32BE` succeeds exactly for values in [0, 2^32) and then writes four bytes |
| Bytes.ReadUInt32BE | thoth-backend/src/paste/storage.ts:97 | `readUInt32BE` succeeds exactly when four bytes remain at the offset, and yields an unsigned 32-bit value |
| Bytes.WriteInt32BE | thoth-backend/src/paste/storage.ts:112 | `writeInt32BE` succeeds exactly for values in [-2^31, 2^31) and then writes four bytes |
| Bytes.Truncate | thoth-backend/src/paste/storage.ts:112 | the integer `writeInt32BE` stores for a number: its truncation toward zero, which lies within 1 of it on the side of 0 and equals it exactly when it is integral |
| Bytes.WriteNumberInt32BE | thoth-backend/src/paste/storage.ts:112 | writing a number succeeds exactly when it lies in [-2^31, 2^31 - 1], fractional numbers included, and stores four bytes of a signed 32-bit truncation |
| Bytes.ReadInt32BE | thoth-backend/src/paste/storage.ts:115 | `readInt32BE` succeeds exactly when four bytes remain, and yields a signed 32-bit value |
| Bytes.FromInt32 | thoth-backend/src/paste/storage.ts:112 | the two's-complement pattern of a signed value is unsigned, and reading it as signed gives the value back |
| Bytes.UInt32AtEmbedded | thoth-backend/src/paste/storage.ts:97 | a read at an offset sees exactly the four bytes written there, whatever surrounds them |
| Bytes.Int32RoundTrip | thoth-backend/src/paste/storage.ts:110-115 | reading a signed word back at its offset yields the value written, for every signed 32-bit value |
| Bytes.NumberInt32RoundTrip | thoth-backend/src/paste/storage.ts:110-115 | reading back a number written in range yields its truncation toward zero, whatever surrounds the word |
| Bytes.UInt32RoundTrip | thoth-backend/src/paste/storage.ts:119-129 | reading an unsigned word back at its offset yields the value written |
| Utf8.EncodeScalar | thoth-backend/src/paste/storage.ts:72 | a character encodes to 1 to 4 bytes: one byte exactly for ASCII, and continuation bytes after the first |
| Utf8.DecodeStepOfEncoded | thoth-backend/src/paste/storage.ts:73 | the decoder reads back exactly the character an encoding starts with, consuming exactly its bytes |
| Utf8.DecodeScalarsOfEncode | thoth-backend/src/paste/storage.ts:71-74 | decoding undoes encoding character for character, before byte-order-mark handling |
| Utf8.RoundTrip | thoth-backend/src/paste/storage.ts:71-74 | the string converter round-trips exactly the strings that do not start with U+FEFF; otherwise that first character is lost |
| Codec.TagOfName | thoth-backend/src/paste/storage.ts:65-70 | a stored type name denotes at most one tag, and every tag's name is recognised |
| Codec.EncodeStringArray | thoth-backend/src/paste/storage.ts:76-92 | the string[] encoder succeeds exactly when every UTF-8 length fits a 32-bit word; the blob is the sum of the lengths plus 4 per element, and the empty list gives the empty blob |
| Codec.FramesLength | thoth-backend/src/paste/storage.ts:81-82 | the framed blob is the sum of the element lengths plus one 4-byte word per element |
| Codec.SplitFramesOfFrames | thoth-backend/src/paste/storage.ts:96-105 | the decoder's do-while splits a buffer of framed elements back into exactly those elements |
| Codec.StringArrayDecodesEncoded | thoth-backend/src/paste/storage.ts:76-107 | decoding an encoded non-empty list gives each element as the text decoder reads it back |
| Codec.StringArrayRoundTrip | thoth-backend/src/paste/storage.ts:76-107 | every non-empty list whose elements do not start with U+FEFF decodes back to itself |
| Codec.TruncatedStringArrayFails | thoth-backend/src/paste/storage.ts:97-101 | a declared length longer than the bytes left is reported as an error and never read past |
| Codec.EmptyStringArrayDoesNotRoundTrip | thoth-backend/src/paste/storage.ts:77-98 | the empty list encodes to the empty blob, and the decoder as written fails on the empty blob |
| Codec.StringArrayIntendedRoundTrip | thoth-backend/src/paste/storage.ts:76-107 | with the empty blob read back as the empty list, every encodable list whose elements do not start with U+FEFF round-trips, the empty list included |
| Codec.EncodeNumber | thoth-backend/src/paste/storage.ts:110-114 | a number encodes exactly when it lies in the signed 32-bit range, fractional numbers included, to four bytes |
| Codec.DecodeNumber | thoth-backend/src/paste/storage.ts:115 | a number blob decodes exactly when it has at least four bytes |
| Codec.NumberRoundTrip | thoth-backend/src/paste/storage.ts:109-116 | every number in the signed 32-bit range decodes to its truncation toward zero, which is the number itself exactly when it is integral |
| Codec.EncodeNumberArray | thoth-backend/src/paste/storage.ts:118-127 | number[] encodes exactly when the count fits 32 bits and every element lies in the signed 32-bit range, fractional elements included, to 4·(n+1) bytes |
| Codec.DecodeNumberArray | thoth-backend/src/paste/storage.ts:128-131 | number[] decodes exactly when the count word and that many element words are present, giving that many elements |
| Codec.EncodeInt32sWords | thoth-backend/src/paste/storage.ts:122-124 | the i-th element word, read at offset 4·i wherever the words sit, is the truncation of the i-th element |
| Codec.NumberArrayRoundTrip | thoth-backend/src/paste/storage.ts:117-132 | every encodable number[] decodes to the truncations of its elements, in order |
| Codec.BooleanRoundTrip | thoth-backend/src/paste/storage.ts:133-136 | a boolean encodes to the single byte 1 or 0 and decodes back to itself |
| Codec.BooleanDecodeOnlyOneIsTrue | thoth-backend/src/paste/storage.ts:135 | a blob decodes to true exactly when its first byte is 1; any other byte, or no byte, is false |
| Codec.InferTag | thoth-backend/src/paste/storage.ts:302-320 | the tag in the source's order: all-string arrays (the empty one included) are string[], non-empty all-number arrays number[], other arrays none; booleans, numbers and strings get their own tags |
| Codec.ConvertToBlob | thoth-backend/src/paste/storage.ts:292-300 | a value without a tag is rejected rather than coerced |
| Codec.ConvertRoundTrip | thoth-backend/src/paste/storage.ts:65-137 | every convertible value other than the empty array, with no string starting with U+FEFF, decodes under its inferred tag to itself with its numbers truncated toward zero, and so to itself exactly when its numbers are integral |
| Codec.Truncated | thoth-backend/src/paste/storage.ts:109-132 | the value a custom value reads back as: the same shape with every number truncated, equal to the value exactly when all its numbers are integral |
| Codec.EmptyArrayDoesNotRoundTrip | thoth-backend/src/paste/storage.ts:75-107 | the empty array is tagged string[] and stored as the empty blob, and that blob does not decode |
| Codec.ConvertRoundTripIntended | thoth-backend/src/paste/storage.ts:65-137 | with the corrected string[] decoder, the same holds for every convertible value with no string starting with U+FEFF, the empty array included |
| Codec.FractionalNumberReadsTruncated | thoth-backend/src/paste/schema.ts:26 | as written, a fractional number the schema accepts is stored, and reads back as its truncation rather than itself |
| Codec.SchemaIntendedRoundTrip | thoth-backend/src/paste/schema.ts:25-29 | with integer-only number checks and the corrected string[] decoder, every value the schema admits and the converter stores reads back as itself |
| Store.Candidate | thoth-backend/src/paste/storage.ts:282-285 | every candidate has 32 characters, each from "abcdef0123456789" |
| Store.GetFreePasteId | thoth-backend/src/paste/storage.ts:279-290 | the id found is a well-formed paste id that is not a key of the pastes table, and it is the first free candidate; no result means every drawn candidate was taken |
| Store.InsertRow | thoth-backend/src/paste/storage.ts:234-237 | an INSERT succeeds exactly when the primary key is free, and then adds exactly that row |
| Store.DistinctNamesAt | thoth-backend/src/paste/storage.ts:151 | the recursive no-name-twice predicate is pairwise distinctness of the names |
| Store.InsertCustomMetadata | thoth-backend/src/paste/storage.ts:250-258 | the custom-metadata loop succeeds exactly when every value converts, no name repeats and no name is taken |
| Store.InsertCustomMetadataKeys | thoth-backend/src/paste/storage.ts:254-257 | a successful loop adds exactly one key per entry name |
| Store.InsertCustomMetadataKeeps | thoth-backend/src/paste/storage.ts:254-257 | a successful loop keeps every row already present |
| Store.InsertCustomMetadataRows | thoth-backend/src/paste/storage.ts:254-257 | a successful loop stores each entry's blob and inferred tag under its name |
| Store.DistinctFilenamesAt | thoth-backend/src/paste/storage.ts:148 | the recursive no-file-name-twice predicate is pairwise distinctness |
| Store.InsertFiles | thoth-backend/src/paste/storage.ts:261-268 | the file loop succeeds exactly when no file name repeats and none is taken for the paste |
| Store.InsertFilesKeys | thoth-backend/src/paste/storage.ts:265-267 | a successful file loop adds exactly one key per file name |
| Store.InsertFilesKeeps | thoth-backend/src/paste/storage.ts:265-267 | a successful file loop keeps every row already present |
| Store.InsertFilesRows | thoth-backend/src/paste/storage.ts:265-267 | each file's row records its byte length |
| Store.CustomEntries | thoth-backend/src/paste/storage.ts:249 | the custom keys are exactly the environment entries other than `operatingSystem` and `javaVirtualMachine` |
| Store.Transaction | thoth-backend/src/paste/storage.ts:233-269 | the transaction commits exactly when no insert hits a taken key and every custom value converts |
| Store.TransactionCustomRows | thoth-backend/src/paste/storage.ts:248-258 | after a commit the custom table is the old one plus one row per custom key, holding its blob and tag |
| Store.TransactionFileRows | thoth-backend/src/paste/storage.ts:260-268 | after a commit the file table is the old one plus one row per attachment, holding its size |
| Store.CreatePaste | thoth-backend/src/paste/storage.ts:230-269 | up to its commit: on failure the store is unchanged; on success the id is a fresh well-formed paste id and the new store is what the transaction leaves |
| Store.GetPaste | thoth-backend/src/paste/storage.ts:160-171 | no paste exactly when there is no paste row; otherwise the paste under that id |
| Store.JvmFields | thoth-backend/src/paste/storage.ts:205-211 | the JVM member is present exactly when its row exists with all three columns non-empty |
| Store.ReadEnvironment | thoth-backend/src/paste/storage.ts:190-228 | none exactly when there is no OS row; a failure exactly when a kept custom row does not decode; otherwise the predefined members overlaid by the custom ones |
| StoreProperties.FreshIdOwnsNothing | thoth-backend/src/paste/storage.ts:147-151 | in a consistent store, an id without a paste row owns no row in any child table |
| StoreProperties.CreatePasteCommits | thoth-backend/src/paste/storage.ts:230-269 | a successful `createPaste` is a commit of the transaction under a fresh id |
| StoreProperties.CreatePastePreservesConsistency | thoth-backend/src/paste/storage.ts:230-269 | every child row belongs to a paste and every paste has its OS row, before and after `createPaste` |
| StoreProperties.CreatePasteSucceedsIff | thoth-backend/src/paste/storage.ts:233-269 | once a free id is found, `createPaste` succeeds exactly for storable data, and otherwise leaves the store unchanged |
| StoreProperties.GetPasteAfterCreate | thoth-backend/src/paste/storage.ts:160-171 | a new paste reads back with its id, its creation time and its application |
| StoreProperties.GetPasteReadsPastesOnly | thoth-backend/src/paste/storage.ts:160-171 | `getPaste` does not depend on the file rows or any other table |
| StoreProperties.GetPasteFilesEmpty | thoth-backend/src/paste/storage.ts:173-178 | the file list is empty exactly when no file row belongs to the id, whether or not the paste exists |
| StoreProperties.GetPasteFilesAfterCreate | thoth-backend/src/paste/storage.ts:173-184 | a new paste's file list is exactly its attachments with their byte sizes |
| StoreProperties.CustomFieldMapAt | thoth-backend/src/paste/storage.ts:213-224 | with distinct names, each custom entry's value is found under its name |
| StoreProperties.KeptCustomNames | thoth-backend/src/paste/storage.ts:213-215 | the reader keeps exactly the custom rows written for the entries |
| StoreProperties.StoredCustomNames | thoth-backend/src/paste/storage.ts:213-215 | for a new paste, the kept custom names are exactly its custom keys |
| StoreProperties.RowDecodes | thoth-backend/src/paste/storage.ts:217-221 | with the corrected reader, the stored row of a convertible value with no string starting with U+FEFF decodes to the value with its numbers truncated, and to the value itself when they are integral |
| StoreProperties.StoredCustomDecode | thoth-backend/src/paste/storage.ts:213-224 | with the corrected reader and a readable environment (a JVM, if sent, with non-empty name, version and vendor; non-empty custom keys; no custom string starting with U+FEFF), a new paste's custom members read back under their names with their numbers truncated toward zero |
| StoreProperties.StoredPredefined | thoth-backend/src/paste/storage.ts:197-211 | with the corrected reader and a readable environment (a JVM, if sent, with non-empty name, version and vendor; non-empty custom keys; no custom string starting with U+FEFF), a new paste's OS and JVM members read back as sent, vendor included |
| StoreProperties.EnvironmentRoundTrip | thoth-backend/src/paste/storage.ts:190-228 | with the corrected reader and a readable environment (a JVM, if sent, with non-empty name, version and vendor; non-empty custom keys; no custom string starting with U+FEFF), a new paste's environment reads back as the client sent it, except that fractional custom numbers come back truncated |
| StoreProperties.EnvironmentRoundTripExact | thoth-backend/src/paste/storage.ts:190-228 | with the corrected reader and a readable environment (a JVM, if sent, with non-empty name, version and vendor; non-empty custom keys; no custom string starting with U+FEFF) whose custom numbers are integral, the environment reads back exactly as the client sent it |
| StoreProperties.EmptyJvmFieldDropped | thoth-backend/src/paste/storage.ts:205 | a JVM sent with an empty name, version or vendor is stored but never read back, by either reader |
| StoreProperties.EmptyCustomKeyDropped | thoth-backend/src/paste/storage.ts:215 | a custom member under the empty key is stored but skipped by the reader |
| StoreProperties.StoredJvmAsWritten | thoth-backend/src/paste/storage.ts:205-210 | as written, the JVM member reads back with the version in the vendor field |
| StoreProperties.JvmVendorReadBackAsVersion | thoth-backend/src/paste/storage.ts:209 | as written, a JVM whose vendor differs from its version never reads back as sent |
| StoreProperties.EmptyArrayMetadataUnreadable | thoth-backend/src/paste/storage.ts:213-224 | as written, a paste stored with an empty-array custom value has an unreadable environment |
| Text.Split | thoth-backend/src/router/index.ts:31 | `split` yields at least one part, no part contains the separator, and joining the parts gives the input back |
| Text.SplitJoin | thoth-backend/src/router/index.ts:31 | splitting undoes joining parts that do not contain the separator |
| Text.NonEmpty | thoth-backend/src/router/index.ts:75 | the filter keeps exactly the non-empty segments, and no empty one (their order is stated by Text.NonEmptyAppend) |
| Text.NonEmptyKeeps | thoth-backend/src/router/index.ts:75 | the filter changes nothing when no segment is empty |
| Text.TrimStart | thoth-backend/src/endpoints/create-paste.endpoint.ts:113 | trimming the start removes a whitespace prefix and leaves a string that starts with non-whitespace or is empty |
| Text.TrimEnd | thoth-backend/src/endpoints/create-paste.endpoint.ts:113 | trimming the end removes a whitespace suffix and leaves a string that ends with non-whitespace or is empty |
| Text.TrimPadded | thoth-backend/src/endpoints/create-paste.endpoint.ts:113 | `trim` removes exactly a whitespace padding in front of text with non-whitespace ends |
| Text.EqualIgnoringCaseAt | thoth-backend/src/router/index.ts:43 | two strings are equal after `toLowerCase` exactly when they agree position by position up to ASCII case |
| Router.IndexSegments | thoth-backend/src/router/index.ts:21-28 | position i maps to segment i, and no other key is present |
| Router.CompileRoute | thoth-backend/src/router/index.ts:30-60 | the compiled route keeps the path and the handler, and its template is slash-free parts that join back to the path, so by Text.SplitJoin it is the path split on '/' |
| Router.CompileAllRoutes | thoth-backend/src/router/index.ts:62-68 | every method keeps its routes, as many and in order, each with its path and handler |
| Router.CompiledAt | thoth-backend/src/router/index.ts:62-68 | each compiled route is its route compiled on its own |
| Router.CompileJoined | thoth-backend/src/router/index.ts:31 | a path of slash-free segments compiles to exactly those segments |
| Router.Matches | thoth-backend/src/router/index.ts:38-44 | a match means the same segment count, and at each position a parameter with a non-empty segment or equality up to ASCII case |
| Router.ExtractParams | thoth-backend/src/router/index.ts:45-52 | the extracted object has exactly one key per parameter name of the template |
| Router.ParamsFromKeys | thoth-backend/src/router/index.ts:32-37 | the keys of the extractor are the parameter names, and non-parameter positions contribute none |
| Router.ExtractParamsAt | thoth-backend/src/router/index.ts:45-52 | a parameter's value is the incoming segment at the last position with that name |
| Router.WithCors | thoth-backend/src/router/index.ts:90-91 | the response gains `Access-Control-Allow-Origin: *` and `Access-Control-Allow-Methods: <method>,HEAD,OPTIONS`, with nothing else changed |
| Router.StripTrailingSlash | thoth-backend/src/router/index.ts:74 | exactly one trailing '/' is dropped, and nothing else |
| Router.Segments | thoth-backend/src/router/index.ts:75 | the dispatched segments are exactly the non-empty pieces of the pathname after its first character split on '/'; none is empty or holds a '/' |
| Router.SegmentsOfJoin | thoth-backend/src/router/index.ts:75 | a pathname built from non-empty slash-free segments yields exactly those segments |
| Router.SegmentsTrailingSlash | thoth-backend/src/router/index.ts:74-75 | a trailing '/' does not change the segments |
| Router.DispatchFirstMatch | thoth-backend/src/router/index.ts:85-93 | the first matching route in declaration order is invoked with its parameters and decorated, and later routes are not consulted |
| Router.DispatchNoMatch | thoth-backend/src/router/index.ts:85-94 | with no matching route, the fallback gets the URL |
| Router.Fetch | thoth-backend/src/router/index.ts:70-95 | a non-GET method whose lookup yields no routes, an empty list or a zero-length inherited function gets a bare 404 and runs nothing; a GET without an entry, or a method naming an `Object.prototype` member with non-zero length or `__proto__`, throws |
| Router.FetchUnrouted | thoth-backend/src/router/index.ts:76-81 | a non-GET method without routes of its own throws, and is served a bare 500, exactly when it names an inherited member that passes the guard; otherwise it gets a bare 404 |
| Router.FetchDispatches | thoth-backend/src/router/index.ts:72-95 | a method with routes is dispatched over them with the segments of the stripped URL |
| Router.Serve | thoth-backend/src/router/index.ts:96-101 | a rejected `fetch` becomes a bare 500; a returned response is passed on |
| Routes.IsSegmentParameterExamples | thoth-backend/src/router/index.test.ts:4-7 | "segment" is not a parameter and ":segment" is |
| Routes.IndexSegmentsShort | thoth-backend/src/router/index.test.ts:10-14 | the three-segment case of the `indexSegments` test |
| Routes.IndexSegmentsLong | thoth-backend/src/router/index.test.ts:15-21 | the five-segment case of the `indexSegments` test |
| Routes.CompileRouteExample | thoth-backend/src/router/index.test.ts:24-30 | compiling "api/test/:parameter" keeps the path and the handler |
| Routes.TestTemplateBehaviour | thoth-backend/src/router/index.test.ts:31-36 | the test's extractor and matcher cases: `{parameter: "my_value"}`, one match and two rejections |
| Routes.TablePaths | thoth-backend/src/index.ts:53-64 | the table's templates join to the paths `index.ts` registers |
| Routes.CompiledGet | thoth-backend/src/index.ts:56-61 | the GET routes compile, in order, to the paste, metadata, file-list and file-content templates |
| Routes.CompiledHead | thoth-backend/src/index.ts:53-55 | the HEAD route compiles to the paste-id template |
| Routes.CompiledPost | thoth-backend/src/index.ts:62-64 | the POST route compiles to the `api/paste` template |
| Routes.OtherVerbsNotFound | thoth-backend/src/index.ts:65-67 | PUT, DELETE, OPTIONS and unknown verbs get a bare 404 with no handler or fallback run, except inherited `Object.prototype` names that pass the guard, which get a bare 500 |
| Routes.PrototypeNamesNotInTable | thoth-backend/src/index.ts:53-67 | no `Object.prototype` member name is a method of the route table, so such a lookup always falls through to the inherited member |
| Routes.GetPasteRoute | thoth-backend/src/index.ts:57 | `GET api/paste/<id>` reaches the paste endpoint with `{id}`, its literal segments compared up to ASCII case |
| Routes.GetMetadataRoute | thoth-backend/src/index.ts:58 | `GET api/paste/<id>/metadata` reaches the metadata endpoint with `{id}` |
| Routes.FileListTemplateMatches | thoth-backend/src/index.ts:57-59 | `api/paste/<id>/file` is rejected by the two earlier GET templates and matches the file-list one |
| Routes.GetFileListRoute | thoth-backend/src/index.ts:59 | `GET api/paste/<id>/file` reaches the file-list endpoint |
| Routes.GetFileContentRoute | thoth-backend/src/index.ts:60 | `GET api/paste/<id>/file/<name>` reaches the file-content endpoint with both parameters |
| Routes.HeadPasteRoute | thoth-backend/src/index.ts:54 | `HEAD api/paste/<id>` reaches the head endpoint |
| Routes.CreatePasteRoute | thoth-backend/src/index.ts:63 | `POST api/paste` reaches the create endpoint with no parameters |
| Routes.GetFallback | thoth-backend/src/index.ts:68-76 | a GET that no API template can match reaches the fallback with the stripped URL |
| Routes.TrailingSlashIrrelevant | thoth-backend/src/router/index.ts:74-75 | a request whose pathname has a trailing '/' dispatches on the same segments as one without |
| CreatePasteEndpoint.AllowedContentTypes | thoth-backend/src/endpoints/create-paste.endpoint.ts:12-17 | the default list when the setting is unset; otherwise the comma-free parts that join back to the setting |
| CreatePasteEndpoint.BoundaryRun | thoth-backend/src/endpoints/create-paste.endpoint.ts:8 | the greedy `[^="]+` takes the longest prefix of characters other than '=' and '"' |
| CreatePasteEndpoint.BoundaryRunOf | thoth-backend/src/endpoints/create-paste.endpoint.ts:8 | a run of boundary characters followed by a stop character is exactly what the greedy group takes |
| CreatePasteEndpoint.MatchValue | thoth-backend/src/endpoints/create-paste.endpoint.ts:8 | whatever `"?([^="]+)` finds is a match: an optional quote and a non-empty capture the greedy group cannot extend |
| CreatePasteEndpoint.ValueMatchUnique | thoth-backend/src/endpoints/create-paste.endpoint.ts:8 | every match of `"?([^="]+)` is the one found |
| CreatePasteEndpoint.MatchBoundary | thoth-backend/src/endpoints/create-paste.endpoint.ts:8 | a found boundary is a match of `^multipart\/related;\s*boundary="?([^="]+)"?` on the header |
| CreatePasteEndpoint.BoundaryMatchComplete | thoth-backend/src/endpoints/create-paste.endpoint.ts:8 | whenever the expression matches, that match is the one found: it is unique and never missed |
| CreatePasteEndpoint.ParseBoundary | thoth-backend/src/endpoints/create-paste.endpoint.ts:26-33 | a boundary exactly when the expression matches, and then capture group 1 |
| CreatePasteEndpoint.QuotedBoundary | thoth-backend/src/endpoints/create-paste.endpoint.ts:8 | `multipart/related; boundary="<b>"` yields `<b>`, without the quotes |
| CreatePasteEndpoint.PartContentType | thoth-backend/src/endpoints/create-paste.endpoint.ts:54 | a part's content type is the header's text before the first ';', and is absent exactly when the header is |
| CreatePasteEndpoint.FindFirst | thoth-backend/src/endpoints/create-paste.endpoint.ts:120-122 | `find` returns the first entry with the prefix, or none when no entry has it |
| CreatePasteEndpoint.EntryName | thoth-backend/src/endpoints/create-paste.endpoint.ts:120-122 | no name exactly when neither a `filename` entry nor a `name` entry exists |
| CreatePasteEndpoint.DropClosingQuote | thoth-backend/src/endpoints/create-paste.endpoint.ts:123-129 | a missing or empty name is rejected; otherwise the name loses exactly its last character |
| CreatePasteEndpoint.DropClosingQuoteIntended | thoth-backend/src/endpoints/create-paste.endpoint.ts:123-129 | with the quote dropped before the emptiness test, a name is accepted exactly when it is longer than its closing quote, and an accepted name is never empty |
| CreatePasteEndpoint.FormDataName | thoth-backend/src/endpoints/create-paste.endpoint.ts:112-129 | `form-data; name="<n>"` names the attachment `<n>` |
| CreatePasteEndpoint.FormDataFilename | thoth-backend/src/endpoints/create-paste.endpoint.ts:112-129 | `form-data; name="<n>"; filename="<f>"` names it `<f>`: the filename entry wins over the name entry |
| CreatePasteEndpoint.FormDataNameIntended | thoth-backend/src/endpoints/create-paste.endpoint.ts:120-129 | with the corrected order, `form-data; name="<n>"` names the attachment `<n>` when `<n>` is non-empty and is rejected when it is empty |
| CreatePasteEndpoint.StepRejects | thoth-backend/src/endpoints/create-paste.endpoint.ts:56-135 | every loop error has the default status exactly for `no_multipart_data`, `no_content_type`, `content_too_large` and `malformed_json`; every other loop error is 400 `invalid_request` |
| CreatePasteEndpoint.ValidateRejects | thoth-backend/src/endpoints/create-paste.endpoint.ts:53-142 | the same holds for the error that ends the whole loop |
| CreatePasteEndpoint.ValidateCounts | thoth-backend/src/endpoints/create-paste.endpoint.ts:48-142 | after the loop, `position` counts the parts and `readBytes` sums their bodies, within (0, 1,000,000]; data exists exactly when a part was read |
| CreatePasteEndpoint.ValidateFirst | thoth-backend/src/endpoints/create-paste.endpoint.ts:74-96 | an accepted first part is non-empty JSON that parses and validates, and the data holds its application and environment |
| CreatePasteEndpoint.ValidateFileParts | thoth-backend/src/endpoints/create-paste.endpoint.ts:104-129 | every later part has a body, a content type from the allowed list, and a name |
| CreatePasteEndpoint.ValidateFiles | thoth-backend/src/endpoints/create-paste.endpoint.ts:137-141 | the files are the later parts' attachments, in part order |
| CreatePasteEndpoint.ValidateDistinct | thoth-backend/src/endpoints/create-paste.endpoint.ts:130-141 | the file names are pairwise distinct |
| CreatePasteEndpoint.ValidateAcceptsIff | thoth-backend/src/endpoints/create-paste.endpoint.ts:53-142 | the loop accepts exactly the acceptable parts: JSON first, then allowed attachments under distinct names, all within the size limit |
| CreatePasteEndpoint.AcceptableSucceeds | thoth-backend/src/endpoints/create-paste.endpoint.ts:53-142 | acceptable parts pass every check of the loop |
| CreatePasteEndpoint.ValidateSucceedsAcceptable | thoth-backend/src/endpoints/create-paste.endpoint.ts:53-142 | parts that pass the loop are acceptable |
| CreatePasteEndpoint.ReadRequest | thoth-backend/src/endpoints/create-paste.endpoint.ts:20-46 | a missing or empty Content-Type gives 400 `missing_content_header`; the checks pass exactly with a header, a matching boundary and a body; every failure is 400 |
| CreatePasteEndpoint.CollectSucceedsIff | thoth-backend/src/endpoints/create-paste.endpoint.ts:51-154 | paste data exists exactly when the parser yields a non-empty acceptable list and does not throw, and it is what those parts describe |
| CreatePasteEndpoint.CollectRejects | thoth-backend/src/endpoints/create-paste.endpoint.ts:143-150 | the loop's error is passed on; a parser that throws gives 400 `invalid_request`; no parts gives 500 `server_error` |
| CreatePasteEndpoint.RequestData | thoth-backend/src/endpoints/create-paste.endpoint.ts:20-150 | paste data exists exactly when the header checks pass and the parser yields a non-empty acceptable list without throwing |
| CreatePasteEndpoint.Commit | thoth-backend/src/endpoints/create-paste.endpoint.ts:152-161 | `{id}` with status 200 exactly when `createPaste` commits and the folder and every file are written; the store is what the transaction leaves, even when a write fails; every other answer is 500 `server_error` |
| CreatePasteEndpoint.HandleCreatePaste | thoth-backend/src/endpoints/create-paste.endpoint.ts:19-162 | the answer is a fresh well-formed id with status 200, or the store is unchanged, or the paste was committed and a file write failed with 500 `server_error`; every answer other than an id is an error body |
| CreatePasteEndpoint.HandleHeaderErrors | thoth-backend/src/endpoints/create-paste.endpoint.ts:20-46 | missing header, a header the expression does not match, and a missing body give 400 `missing_content_header`, `invalid_content_type` and `missing_request_body`, in that order, with the store unchanged |
| CreatePasteEndpoint.HandleStoresIff | thoth-backend/src/endpoints/create-paste.endpoint.ts:19-161 | an id is returned exactly when the request data is accepted, `createPaste` commits and the files are written; the store is the transaction's result whenever the data is accepted and unchanged otherwise; the stored data is what the acceptable parts describe |
| CreatePasteEndpoint.EmptyNameStoredButRejected | thoth-backend/src/endpoints/create-paste.endpoint.ts:121-129 | as written, an accepted attachment with the empty name, whose write to the paste folder itself fails, leaves the paste stored under a fresh id and answers 500 `server_error` |

## Left out

- Store.GetFreePasteId: the source retries without bound. The model tries `fuel` candidates from the supplied random source and reports `NoFreeId` when they are all taken, because termination of the unbounded loop depends on randomness.
- Router.ExtractParams: requires at least as many segments as the template. The router calls the extractor only after a match, which guarantees equal counts.
- Text.Lower: `toLowerCase` is modelled on the ASCII letters only. Other letters are compared unchanged.
- Router.Fetch: URL parsing is the parameter `pathname`. The segments are computed from what it returns.
- Router.Fetch: the model assumes the server hands any method token to `fetch` unchanged, names of `Object.prototype` members included. Whether Bun rejects such tokens earlier is not modelled.
- Store.GetPasteFiles: the result is a set of entries, because the query has no ORDER BY. The row order of the returned list is not modelled.
- Store.ReadEnvironment: "later rows win" on a key clash. Custom names are unique per paste by the primary key, so among custom rows no clash arises. The overlay of custom members on `operatingSystem` and `javaVirtualMachine` is modelled.
- CreatePasteEndpoint.Render: the `details` text and the runtime's `Content-Type: application/json` header are not modelled. Only the `error` code and the status are.
- Codec.EncodeNumber: numbers are exact reals. Floating-point rounding is not modelled, and neither are NaN and the infinities, which `JSON.parse` cannot produce. Fractional numbers and the out-of-range error of `writeInt32BE` are modelled.
- Utf8.Encode: strings are sequences of Unicode scalar values. Lone surrogates, which `TextEncoder` replaces with U+FFFD, cannot occur.
- The line-ending rewrite (`TransformStream`) in front of the parser is not modelled. Its pattern tests for the letter 'n' where '\n' is meant, so as written it turns each CRLF into CR LF LF and each bare CR or LF into CRLF. It depends on chunk boundaries, and the parser that consumes its output is a parameter.
- `getPasteFile` and `setupDatabase` (DDL and the single-init guard) are not modelled: they are file-system and database I/O. The tables are abstract maps.
- `existsPaste` and the thin endpoints (`get-paste`, `get-paste-metadata`, `get-paste-files`) are not modelled: they only map a missing result to 404.
- The frontend, the build script and the server bootstrap around the route table are not modelled. The route table itself is modelled, with the paths written as joins of their segments.
- Concurrency between requests, asynchronous interleaving and the database's isolation are not modelled.
- The multipart parser and `JSON.parse` with the zod schema are the `Context` functions. `Date.parse`, `path.extname`, `Math.random` and `Bun.env` are parameters.
- CreatePasteEndpoint.View: each part's headers are read before the loop rather than inside it. The reads are pure, so the order of checks is unchanged.
- Store.FilesWritten: the outcomes of `mkdirSync` and of each `Bun.write` after the commit are the supplied `Context` functions `makeFolder` and `writeFile`. Which paths fail is left to them: names such as "." and ".." fail like "", and path resolution of names holding '/' is not modelled.
- CreatePasteEndpoint.Collect: a parser failure is modelled as a throw after the parts it yielded, whatever the point at which the real parser stops.
- The CORS preflight (`OPTIONS`) is answered 404 like any verb without routes. That is what the code does; no preflight handling is modelled.

## Findings

| source | as written | input that shows it | evidently intended | confidence | as-written member | corrected member |
|---|---|---|---|---|---|---|
| thoth-backend/src/paste/storage.ts:209 | the JVM `vendor` is filled from the `jvmVersion` column | a paste whose JVM has name "OpenJDK", version "17" and vendor "Eclipse" reads back with vendor "17" | `vendor: rows[0].jvmVendor` | high; not executed | StoreProperties.JvmVendorReadBackAsVersion | StoreProperties.EnvironmentRoundTrip |
| thoth-backend/src/paste/storage.ts:77-98 | the string[] encoder stores `[]` as a zero-length blob, and the decoder's do-while reads a length word before checking for bytes | a custom metadata value `[]` is tagged string[] and stored as the empty blob; reading the environment then throws a range error | an empty blob decodes to `[]` | high; not executed | Codec.EmptyArrayDoesNotRoundTrip | Codec.ConvertRoundTripIntended |
| thoth-backend/src/paste/schema.ts:26-27 | custom numbers are checked against the 32-bit bounds only, with no `.int()`, and `writeInt32BE` stores the truncation | a custom metadata value 1.5 passes the schema, is stored, and reads back as 1 | `zod.number().int().min(INT32_MIN).max(INT32_MAX)` | high; not executed | Codec.FractionalNumberReadsTruncated | Codec.SchemaIntendedRoundTrip |
| thoth-backend/src/endpoints/create-paste.endpoint.ts:120-129 | `!filename` is tested before the closing quote is dropped, so the name of `name=""` is the lone quote, passes, and becomes "" | an attachment with `Content-Disposition: form-data; name=""` is accepted with the empty name; the paste commits, writing the paste folder itself as a file fails, and the client gets 500 `server_error` for a stored paste | drop the quote, then reject the empty name with 400 `invalid_request` | medium; not executed | CreatePasteEndpoint.EmptyNameStoredButRejected | CreatePasteEndpoint.FormDataNameIntended |
