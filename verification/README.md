# web-static-pack, modelled in Dafny

web-static-pack packs a directory of static files into one binary "pack". A
loader reads the pack back, and an HTTP responder serves its files. The
responder supports conditional requests, content negotiation and cache
control. The repository holds three generations of this pipeline, and this
project models the logic of each as pure functions over bytes, strings and
maps:

- **The oldest generation** lives in `src/`.
  - `src/packer.rs` writes records with a u16-prefixed path, a u8-prefixed MIME
    type and a u32-prefixed content (module `LegacyFormat`).
  - `src/loader.rs` parses them back with a cursor (`LegacyLoader`).
  - `src/hyper_loader.rs` serves them. Only GET is served, with no content
    encoding, and the body is sent in chunks of at most 8 KiB (`LegacyHyper`).
- **The middle generation** has a five-field record: u16 path, u8 content type,
  u8 ETag, u32 content and u32 gzip, where a zero length means "no gzip".
  - `packer/src/packer.rs` writes it (`RecordFormat`, `RecordPacker`).
  - `examples/packer/packer.rs` is a copy with the same output (`ExamplePacker`).
  - `loader/src/loader.rs` reads it (`RecordLoader`).
  - `loader/src/hyper_loader.rs` serves it. Only GET is served, only gzip is
    offered, and there is no length comparison (`HyperResponder`).
  - The two directions are tied together by round-trip laws in `PackRoundTrip`.
- **The current generation** has these parts:
  - the common datatypes (`Common`);
  - the builder and the pack header (`PackBuilder`);
  - pack-path construction (`PackerPackPath`);
  - entry construction with compressed variants, ETag and content type
    (`PackerFile`);
  - the loader's `File`/`Pack` accessors over owned and archived packs
    (`LoaderFile`, `LoaderPack`);
  - cache control (`LoaderCacheControl`);
  - `Accept-Encoding` parsing and variant selection (`ContentEncoding`,
    following section 12.5.3 of RFC 9110);
  - the one-shot body (`OneShotBody`);
  - the responder state machine (`Responder`).

The responder's steps run in a fixed order:

1. a method gate (GET and HEAD);
2. an exact path lookup;
3. an `If-None-Match` check, by exact byte comparison, giving a 304 (sections
   13.1.2 and 15.4.5 of RFC 9110);
4. negotiation;
5. header assembly, including `Cache-Control` (section 5.2 of RFC 9111).

Shared building blocks:

- `Bytes`: fixed-width little-endian numbers.
- `Framing`: length-prefixed fields, with a writer and a bounds-checked reader.
- `Seqs`: searching, splitting and joining.
- `Http`: header maps, header-value validity and decimal rendering.
- `PathMap`: inserting into a map that refuses a duplicate key.
- `Wrappers`: `Option` and `Result`.

A pack path, an ETag, a MIME type and a header value are byte strings (UTF-8
where the source uses `str`). The source's native-endian integers are written
little-endian. A write that fails partway is modelled as `Written(bytes,
error)`: the bytes already written, plus the error that stopped the write.

Two behaviours of the code are stated as proved facts rather than hidden:

- `Accept-Encoding: gzip;q=0` still enables gzip in the current parser: any
  weight without `, ` is dropped unread (`ContentEncoding.WeightedGzipToken`).
- The middle generation's responder ignores a weighted `gzip;q=1` token
  entirely (`HyperResponder.WeightedGzipIgnored`).

The gzip/brotli compressors, the SHA3 digest and the MIME guesser are not
modelled. Each one is a function-valued parameter (`PackerFile.Collaborators`),
so every contract holds whatever those functions compute.

## Model

| member | source | states |
|---|---|---|
| Bytes.FromLittleEndianInverse | loader/src/loader.rs:60-75 | a number written in `width` little-endian bytes reads back as the same number whenever it fits |
| Bytes.LittleEndianInverse | loader/src/loader.rs:76-97 | reading any byte string as a number and writing it back at the same width gives the same bytes |
| Framing.Frame | packer/src/packer.rs:27-40 | a written field is its length prefix, which decodes to the data length, followed by the data itself |
| Framing.Encode | packer/src/packer.rs:23-96 | writing fields in order succeeds exactly when every length fits its prefix; on failure the bytes written are the frames of the fields before the first one that does not fit |
| Framing.ReadPrefixed | loader/src/loader.rs:44-97 | a length-prefixed read fails with a premature-length error exactly when fewer bytes than the prefix remain, and with a premature-data error exactly when the announced data is missing; otherwise it returns the data and the rest |
| Framing.ReadFrame | loader/src/loader.rs:44-97 | reading a frame back returns exactly the field's data and leaves any following bytes untouched |
| Framing.FirstUnfitUnique | packer/src/packer.rs:27-92 | the first field whose length does not fit is unique, so the error a writer reports is determined by the fields alone |
| Seqs.Find | loader/src/content_encoding.rs:80-85 | the search finds the first occurrence of a pattern, or reports that there is none |
| Seqs.JoinSplit | loader/src/content_encoding.rs:61 | splitting a value on a separator loses nothing: joining the pieces again gives the value back |
| Seqs.SplitJoin | packer/src/pack_path.rs:55-58 | joining parts that contain no separator and then splitting the result gives back the same parts |
| Http.DecimalRoundTrip | loader/src/responder.rs:143-146 | a length rendered as a `content-length` header parses back as the same number |
| Http.ToStr | loader/src/content_encoding.rs:46-50 | a header value converts to a string exactly when every byte is visible ASCII, and then it is unchanged |
| Http.HeaderGet | loader/src/responder.rs:139-150 | a header lookup finds a value exactly when a header with that name is present, and the value is the first such header's |
| PathMap.InsertSucceeds | loader/src/loader.rs:130-133 | inserting a list of entries without overwriting succeeds exactly when the keys are new and distinct |
| PathMap.InsertContents | loader/src/loader.rs:130-133 | after a successful insertion every entry is found under its key, old keys keep their values, and no other key appears |
| PathMap.Insert | loader/src/loader.rs:131-133 | a failed insertion names a key of the entries as the duplicate |
| Common.FromString | common/src/pack_path.rs:21-23 | constructing a pack path keeps the string unvalidated: deref and borrow give it back |
| Common.Deref | common/src/pack_path.rs:27-33 | a pack path is determined by the string it derefs to |
| Common.Borrow | common/src/pack_path.rs:34-38 | borrowing a pack path gives the same string as dereferencing it |
| Common.DerefArchived | common/src/pack_path.rs:40-46 | an archived pack path is determined by the string it derefs to |
| Common.BorrowArchived | common/src/pack_path.rs:47-51 | borrowing an archived pack path gives the same string as dereferencing it |
| Common.PackPathIsTransparent | common/src/pack_path.rs:11-51 | a pack path is its string with no validation: construction, deref and borrow are mutually inverse, borrowing is injective, and the archived form derefs and borrows to the same string |
| Common.LookupByStrAgrees | common/src/pack_path.rs:34-38 | looking a pack path up by its borrowed string finds an entry exactly when the map holds that pack path |
| Common.ArchivePack | common/src/pack.rs:22-25 | archiving a pack keeps exactly its set of paths |
| LoaderCacheControl.FromCommon | loader/src/cache_control.rs:25-32 | the loader's policy is NoCache or MaxCache exactly as the stored policy is |
| LoaderCacheControl.FromArchived | loader/src/cache_control.rs:33-40 | the archived policy converts to the same two cases |
| LoaderCacheControl.ConversionsAgree | loader/src/cache_control.rs:25-40 | converting a policy directly and through its archived form give the same result |
| LoaderCacheControl.Render | loader/src/cache_control.rs:18-23 | the header value is `no-cache` exactly for NoCache and `max-age=31536000, immutable` exactly for MaxCache, and is always valid |
| LoaderCacheControl.RenderedDirectives | loader/src/cache_control.rs:18-23 | NoCache renders as `no-cache`, MaxCache as `max-age=31536000, immutable`, the two differ, and both are valid header values |
| LoaderCacheControl.RenderedValid | loader/src/cache_control.rs:18-23 | every policy renders to a valid header value, so building the header never panics |
| LoaderFile.ViewOwned | loader/src/file.rs:35-55 | the accessors of an owned file return its content, both optional variants, content type and ETag unchanged, and its cache policy converted from the stored one |
| LoaderFile.ViewArchived | loader/src/file.rs:56-76 | the accessors of an archived file return its content, both optional variants, content type and ETag unchanged, and its cache policy converted from the archived one |
| LoaderFile.ContentTypeHeader | loader/src/file.rs:46-48 | the `content-type` header value is the stored content type, which must be a valid header value |
| LoaderFile.EtagHeader | loader/src/file.rs:49-51 | the `ETag` header value is the stored ETag, which must be a valid header value |
| LoaderFile.ViewsAgree | loader/src/file.rs:18-76 | an owned file and its archived form are indistinguishable through the accessors |
| LoaderPack.GetFileByPath | loader/src/pack.rs:29-50 | a lookup in an owned or archived pack finds a file exactly when that path is a key, and returns that file's view |
| LoaderPack.ArchivedLookupAgrees | loader/src/pack.rs:40-50 | looking a path up in the archived pack gives the same answer as in the owned pack |
| LoaderPack.LookupIsExact | loader/src/pack.rs:29-39 | the lookup is exact: there is no normalisation, prefix match or index fallback |
| OneShotBody.Data | loader/src/body.rs:38-40 | the remaining data is the held slice, and is empty exactly when nothing is held |
| OneShotBody.New | loader/src/body.rs:23-26 | a body made from a slice holds that slice, and empty data leaves nothing to send |
| OneShotBody.Empty | loader/src/body.rs:29-32 | the empty body holds no data |
| OneShotBody.PollFrame | loader/src/body.rs:46-57 | the first poll yields all of the data as one non-empty frame, or nothing when there is none, and the body is empty afterwards |
| OneShotBody.IsEndStream | loader/src/body.rs:59-61 | the stream has ended exactly when no data remains |
| OneShotBody.SizeHintOf | loader/src/body.rs:63-68 | the size hint is exact and equals the remaining data length |
| OneShotBody.DeliversDataOnce | loader/src/body.rs:14-68 | polling to the end delivers exactly the data, in at most one non-empty frame, and then ends |
| ContentEncoding.ExtractAlgorithm | loader/src/content_encoding.rs:80-85 | the algorithm is the prefix of the value before the first `;q=`, or the whole value when there is none |
| ContentEncoding.AcceptTokens | loader/src/content_encoding.rs:58-75 | gzip (brotli) is accepted exactly when some token's algorithm is `gzip` (`br`) |
| ContentEncoding.FromHeaderStr | loader/src/content_encoding.rs:57-76 | the flags are computed over the pieces of the value split on exactly `", "` |
| ContentEncoding.FromHeaderRaw | loader/src/content_encoding.rs:46-55 | a header value that is not visible ASCII is an error; otherwise the value is parsed as a string |
| ContentEncoding.FromHeaders | loader/src/content_encoding.rs:34-43 | a missing `accept-encoding` header accepts nothing; a present one is parsed raw |
| ContentEncoding.TokenOrderIrrelevant | loader/src/content_encoding.rs:58-75 | the flags depend only on which tokens occur, not on their order or repetition |
| ContentEncoding.EmptyValueAcceptsNothing | loader/src/content_encoding.rs:127-130 | an empty header value accepts neither encoding |
| ContentEncoding.PlainToken | loader/src/content_encoding.rs:131-143 | a single token with no separator and no weight enables gzip exactly when it is `gzip`, and brotli exactly when it is `br` |
| ContentEncoding.GzipToken | loader/src/content_encoding.rs:131-143 | `gzip` alone accepts gzip and not brotli |
| ContentEncoding.BrToken | loader/src/content_encoding.rs:131-143 | `br` alone accepts brotli and not gzip |
| ContentEncoding.WeightedGzipToken | loader/src/content_encoding.rs:56-85 | `gzip;q=<w>` is one token naming gzip and accepts gzip alone for every weight that does not hold `, `, `q=0` included |
| ContentEncoding.WeightedAlgorithmIsGzip | loader/src/content_encoding.rs:78-85 | the algorithm of `gzip;q=<w>` is `gzip` for every weight, as the test with `gzip;q=1.0` expects |
| ContentEncoding.WeightedGzipExample | loader/src/content_encoding.rs:127-150 | `gzip;q=1.0` extracts to `gzip` and accepts gzip alone |
| ContentEncoding.OnlyCommaSpaceSeparates | loader/src/content_encoding.rs:61 | `gzip,br` without the space is one unknown token and accepts nothing |
| ContentEncoding.EncodingValueValid | loader/src/content_encoding.rs:174-197 | every encoding label is a valid header value |
| ContentEncoding.Resolve | loader/src/content_encoding.rs:168-200 | the label matches the bytes returned; a variant is chosen only if accepted and present; the result is never longer than the identity or any offered variant; brotli wins ties |
| ContentEncoding.NothingAcceptedGivesIdentity | loader/src/content_encoding.rs:172-175 | with nothing accepted, the identity content labelled `identity` is returned whatever variants exist |
| ContentEncoding.NegotiationExamples | loader/src/content_encoding.rs:244-270 | when brotli is no longer than gzip, accepting both or only brotli selects brotli, and accepting only gzip selects gzip |
| Responder.StatusCode | loader/src/responder.rs:194-200 | the three respond errors map one-to-one onto 405, 404 and 400 |
| Responder.IntoResponse | loader/src/responder.rs:203-209 | an error response carries the error's status, no headers and an empty body |
| Responder.OkHeaders | loader/src/responder.rs:139-150 | a 200 carries exactly five headers: content type, ETag, cache control, content length and content encoding |
| Responder.OkHeadersValid | loader/src/responder.rs:139-150 | the five headers of a 200 are valid header values when their inputs are |
| Responder.FullResponse | loader/src/responder.rs:129-158 | a 200 carries the negotiated variant and its label, with a length equal to that variant's |
| Responder.Respond | loader/src/responder.rs:93-159 | the method is checked before the lookup and the lookup before the ETag; a 304 carries only the ETag; a 200 carries the negotiated bytes for GET and an empty body for HEAD; a bad `accept-encoding` is an error only after the ETag check |
| Responder.RespondFlatten | loader/src/responder.rs:166-176 | success yields 200 or 304 and is the response `respond` built, unchanged; each error turns into its own default response: its status, no headers and an empty body |
| Responder.HeadMirrorsGet | loader/src/responder.rs:100-158 | HEAD succeeds exactly when GET does, with identical status and headers, content length included, and an empty body |
| Responder.ArchivedRespondsAlike | loader/src/responder.rs:65-159 | serving from the archived form of a pack gives the same responses as serving from the owned pack |
| Responder.ConditionalBeforeNegotiation | loader/src/responder.rs:116-136 | with an unparsable `accept-encoding`, a matching ETag still gives 304, and only a non-matching one gives the 400 error |
| PackerFile.KeepIfShorter | packer/src/file.rs:199-215 | a compressed variant is kept exactly when the content is non-empty and the variant is strictly shorter |
| PackerFile.ContentGzipFromContent | packer/src/file.rs:199-215 | the gzip variant is present exactly when it is strictly shorter than non-empty content |
| PackerFile.ContentBrotliFromContent | packer/src/file.rs:220-243 | the brotli variant is present exactly when it is strictly shorter than non-empty content |
| PackerFile.EtagFromContent | packer/src/file.rs:267-273 | the ETag is the content's digest wrapped in double quotes |
| PackerFile.EtagTracksDigest | packer/src/file.rs:267-273 | two contents get the same ETag exactly when their digests agree |
| PackerFile.ContentTypeFromPath | packer/src/file.rs:250-265 | a guessed `application/javascript` becomes `text/javascript; charset=utf-8`, another guessed `text/` type gains `; charset=utf-8`, and any other guess is kept |
| PackerFile.ContentTypePostProcess | packer/src/file.rs:250-265 | `application/javascript` becomes `text/javascript; charset=utf-8`, other `text/` types gain `; charset=utf-8`, and the rest are unchanged |
| PackerFile.PostProcessedTypes | packer/src/file.rs:256-264 | no post-processed type is `application/javascript`, and every `text/` result ends with the UTF-8 charset |
| PackerFile.BuildFromContent | packer/src/file.rs:155-187 | an entry keeps the content and type; each variant is present only when enabled and strictly shorter; the ETag is the quoted digest; the cache policy is the override or MaxCache |
| PackerFile.BuildFromPath | packer/src/file.rs:72-98 | building from a path fails exactly when the read fails; otherwise the content type override, if any, wins over the guessed type |
| PackerFile.DefaultBuild | packer/src/file.rs:115-123 | by default both variants are attempted and the cache policy is MaxCache |
| PackBuilder.New | packer/src/pack.rs:29-33 | a new builder holds no files |
| PackBuilder.FilePackPathAdd | packer/src/pack.rs:36-50 | adding a path already present fails and changes nothing; otherwise the file is inserted and every other entry stays |
| PackBuilder.FilePackPathsAdd | packer/src/pack.rs:53-62 | a batch succeeds exactly when all its paths are new and distinct; a failed batch keeps everything added before the first clash |
| PackBuilder.InsertAllValues | packer/src/pack.rs:53-62 | after a successful batch each item's file is stored under its path |
| PackBuilder.DuplicateRefusedAtSecond | packer/src/pack.rs:53-59 | a batch with a repeated path fails at its second occurrence, leaving exactly the items before it inserted |
| PackBuilder.Finalize | packer/src/pack.rs:65-69 | finalising hands the map over unchanged |
| PackBuilder.BuiltPackServesEachItem | packer/src/pack.rs:53-69 | a pack built from distinct items holds each item's file under its path and nothing else |
| PackBuilder.StoreHeader | packer/src/pack.rs:72-89 | a stored pack is the 8-byte magic, the 8-byte version, then the payload unchanged |
| PackerPackPath.ComponentNames | packer/src/pack_path.rs:37-52 | components convert exactly when all are normal and valid UTF-8; otherwise the first bad one is reported |
| PackerPackPath.FromFileBaseRelativePath | packer/src/pack_path.rs:33-64 | the pack path is the component names, each preceded by `/`; it fails exactly when a component is refused |
| PackerPackPath.NoComponentsGiveEmptyPath | packer/src/pack_path.rs:54-58 | no components give the empty pack path |
| PackerPackPath.NonEmptyPathIsRooted | packer/src/pack_path.rs:54-58 | a path built from one or more components is `/` followed by the names joined with `/` |
| PackerPackPath.SplitRecoversComponents | packer/src/pack_path.rs:55-58 | splitting the pack path on `/` recovers the component names when none contains `/` |
| PackerPackPath.RefusedComponentFails | packer/src/pack_path.rs:40-52 | one refused component anywhere makes the whole conversion fail |
| PackerPackPath.Examples | packer/src/pack_path.rs:73-93 | `name` becomes `/name`, while a leading `.` or a trailing `..` is refused |
| RecordFormat.FitsLimitsFields | packer/src/packer.rs:27-92 | a descriptor is writable exactly when each of its five fields fits its prefix width |
| RecordFormat.RecordIsFrames | packer/src/packer.rs:27-92 | a record is the frames of path, content type, ETag, content and gzip, with absent gzip as an empty field |
| RecordFormat.RecordsAppend | packer/src/packer.rs:214-225 | storing one more descriptor appends exactly its record |
| RecordPacker.SerializeInto | packer/src/packer.rs:23-96 | writing fails exactly when a length overflows its prefix, naming the first field that overflows, after writing the fields before it; otherwise it writes the whole record |
| RecordPacker.FirstUnfitField | packer/src/packer.rs:27-92 | the error names the first field that overflows, and each field's error corresponds to its width |
| RecordPacker.AbsentGzipWritesZero | packer/src/packer.rs:80-92 | a descriptor with no gzip ends its record with a zero u32 length |
| RecordPacker.Store | packer/src/packer.rs:214-225 | storing succeeds exactly when every descriptor fits, and then writes their records in insertion order |
| RecordPacker.StoreStops | packer/src/packer.rs:214-225 | a failing store writes every record before the first bad descriptor, then that descriptor's partial record and error |
| RecordPacker.New | packer/src/packer.rs:103-107 | a new pack holds no descriptors |
| RecordPacker.ContentTypeFor | packer/src/packer.rs:137-144 | a guessed `text/` type gains `; charset=UTF-8` (upper case, unlike the current builder's `; charset=utf-8`), and any other type is unchanged |
| RecordPacker.GzipKept | packer/src/packer.rs:128-135 | the gzip variant is kept exactly when strictly shorter than the content |
| RecordPacker.GzipKeptAgreesWithBuilder | packer/src/packer.rs:128-135 | the packer's gzip rule and the current builder's agree for every content |
| RecordPacker.DescriptorFor | packer/src/packer.rs:119-169 | a descriptor keeps path and content, has a strictly shorter gzip if any, and its ETag is the quoted digest |
| RecordPacker.FileAdd | packer/src/packer.rs:108-172 | adding a file fails exactly when reading it fails; otherwise its descriptor is appended and earlier ones stay |
| RecordPacker.DuplicatePathsKept | packer/src/packer.rs:163-169 | the packer keeps two descriptors with the same pack path, leaving the duplicate to the loader |
| RecordPacker.WithoutRoot | packer/src/packer.rs:196-198 | stripping the root leaves a relative path drawn from the original components, and leaves a relative path as it is |
| RecordPacker.ComponentTexts | packer/src/packer.rs:199-206 | component texts convert exactly when each component has one |
| RecordPacker.DirectoryPackPath | packer/src/packer.rs:196-207 | a directory entry's pack path is its component texts, each preceded by `/`, after dropping the root |
| RecordPacker.DirectoryPackPathRooted | packer/src/packer.rs:196-207 | such a path is empty or starts with `/` |
| RecordPacker.RootDirIgnored | packer/src/packer.rs:196-198 | a leading root component does not change the pack path |
| RecordPacker.DirectoryPackPathAgrees | packer/src/packer.rs:196-207 | for normal components the middle packer's join and the current pack-path builder produce the same path |
| ExamplePacker.SerializeInto | examples/packer/packer.rs:21-67 | the example writer succeeds exactly when every length fits, writing the whole record |
| ExamplePacker.SameAsPackerCrate | examples/packer/packer.rs:21-67 | the example writer writes the same bytes as the packer crate's, and fails on the same descriptors |
| ExamplePacker.Store | examples/packer/packer.rs:173-179 | the example store writes the same bytes as the packer crate's store |
| ExamplePacker.StoreWritesRecords | examples/packer/packer.rs:173-179 | the example store succeeds exactly when all descriptors fit, writing their records in order |
| ExamplePacker.FileAdd | examples/packer/packer.rs:79-134 | adding a file fails exactly when reading it fails, and otherwise appends its descriptor |
| ExamplePacker.FileAddSameAsPackerCrate | examples/packer/packer.rs:79-134 | the example's file_add and the packer crate's produce the same pack |
| RecordLoader.Loaded | loader/src/loader.rs:115-120 | a zero-length gzip field loads as "no gzip", and any other gzip is kept |
| RecordLoader.LoadedFieldsExact | loader/src/loader.rs:115-128 | for a descriptor without an empty gzip, the loaded file has exactly the stored fields |
| RecordLoader.ReadField | loader/src/loader.rs:44-97 | each field read fails exactly when the framing read fails, and its error names the field being read |
| RecordLoader.ReadRecord | loader/src/loader.rs:105-128 | a record read consumes at least 12 bytes and never yields an empty gzip |
| RecordLoader.ReadRecordInverse | loader/src/loader.rs:105-128 | reading a written record gives back its path and fields and leaves the following bytes |
| RecordLoader.LoadFrom | loader/src/loader.rs:104-136 | loading only adds entries to those already loaded |
| RecordLoader.LoadFromStep | loader/src/loader.rs:130-133 | a path already loaded fails with a duplicated-path error; otherwise loading continues after inserting it |
| RecordLoader.Load | loader/src/loader.rs:102-137 | an empty buffer loads as an empty pack, and a buffer shorter than one record is truncated |
| RecordLoader.New | loader/src/loader.rs:102-137 | the cursor loop computes the same result as the recursive loader |
| PathMap.Get | loader/src/loader.rs:142-147 | the lookup returns the stored file exactly for a loaded path; the oldest loader's `get` (src/loader.rs lines 147-149) is the same lookup |
| RecordLoader.LoadRecords | loader/src/loader.rs:102-137 | loading a record stream is inserting its entries in order into an empty map |
| RecordLoader.EntriesInserted | loader/src/loader.rs:130-133 | inserting the entries succeeds exactly when paths are distinct, then holds every descriptor's file and only those |
| RecordLoader.RoundTrip | loader/src/loader.rs:102-137 | loading stored records succeeds exactly when their paths are distinct, fails only with a duplicated path, and then serves each descriptor's loaded file |
| RecordLoader.LoadedGzipNonEmpty | loader/src/loader.rs:115-120 | no loaded file carries an empty gzip variant |
| PackRoundTrip.StoreThenLoad | packer/src/packer.rs:214-225 | what the packer stores the loader loads back, exactly when paths are distinct, and otherwise refuses as a duplicate |
| PackRoundTrip.DuplicateRefusedOnlyAtLoad | loader/src/loader.rs:130-133 | two descriptors with one path are stored fine and then refused by the loader as a duplicate |
| PackRoundTrip.ExampleStoreThenLoad | examples/packer/packer.rs:173-179 | the example packer's output round-trips through the loader in the same way |
| LegacyFormat.RecordIsFrames | src/packer.rs:24-54 | an oldest-format record is the frames of path, MIME type and content |
| LegacyFormat.SerializeInto | src/packer.rs:17-56 | writing succeeds exactly when the file is regular, every length fits and the copy matches the metadata, and then writes the whole record |
| LegacyFormat.SerializeIntoFailures | src/packer.rs:17-56 | a non-regular file fails before writing; an overflow fails after the fields before it; a copy mismatch fails after the whole copy and reports both lengths |
| LegacyFormat.Store | src/packer.rs:116-122 | storing succeeds exactly when every descriptor is writable, writing records in insertion order |
| LegacyFormat.StoreStops | src/packer.rs:116-122 | a failing store writes the records before the first bad descriptor, then its partial record and error |
| LegacyFormat.New | src/packer.rs:63-67 | a new pack holds no descriptors |
| LegacyFormat.FileAdd | src/packer.rs:68-77 | adding fails exactly when opening fails; otherwise a descriptor with the guessed MIME type, no charset added, is appended |
| LegacyLoader.ReadAt | src/loader.rs:42-128 | a read at a cursor fails exactly when the length or the data runs past the buffer, naming which one and where |
| LegacyLoader.ReadRecordAt | src/loader.rs:42-128 | reading one record either fails with a premature-termination error at a position inside the buffer, or consumes at least its 7 length bytes and stays inside the buffer |
| LegacyLoader.LoadFrom | src/loader.rs:36-143 | loading the rest of the buffer only adds entries to those already loaded and never changes one |
| LegacyLoader.ReadRecordAtInverse | src/loader.rs:42-128 | reading a written record at its offset gives back its path, MIME type and content, and the offset after it |
| LegacyLoader.LoadFromStep | src/loader.rs:130-142 | a repeated path fails as a duplicate; otherwise loading continues after inserting it |
| LegacyLoader.Load | src/loader.rs:33-146 | loading a non-empty buffer too short for one record fails |
| LegacyLoader.New | src/loader.rs:33-146 | the cursor loop computes the same result as the recursive loader |
| LegacyLoader.LoadRecords | src/loader.rs:33-146 | loading a record stream is inserting its entries in order into an empty map |
| LegacyLoader.RoundTrip | src/loader.rs:33-146 | loading a stored pack succeeds exactly when paths are distinct, fails only with a duplicate, and then serves each descriptor's MIME type and content |
| LegacyLoader.TrailingByteRefused | src/loader.rs:37-49 | one extra byte after a stored pack fails as a premature path length at that offset |
| LegacyHyper.New | src/hyper_loader.rs:28-32 | a new body sends exactly its slice |
| LegacyHyper.Default | src/hyper_loader.rs:34-41 | the default body has ended and sends nothing |
| LegacyHyper.IsEndStream | src/hyper_loader.rs:73-75 | the stream has ended exactly when no chunk remains |
| LegacyHyper.SizeHintOf | src/hyper_loader.rs:78-80 | the size hint is exact and equals the bytes the remaining polls deliver |
| LegacyHyper.PollData | src/hyper_loader.rs:47-62 | a poll yields nothing exactly at the end; otherwise a non-empty chunk of at most 8 KiB, full unless it is the last, with the rest pending |
| LegacyHyper.ChunksRebuildContent | src/hyper_loader.rs:47-62 | the chunks concatenate to the content, all but the last are full, and their number is the length divided by 8 KiB, rounded up |
| LegacyHyper.Drain | src/hyper_loader.rs:47-62 | a consumer polling to the end collects exactly the content |
| LegacyHyper.Respond | src/hyper_loader.rs:95-143 | non-GET gives 405, an unknown path 404, a matching ETag a bare 304; otherwise a 200 with type, length and ETag whose chunks carry the content |
| LegacyHyper.OkHeaders | src/hyper_loader.rs:132-137 | a 200 carries the content type, the decimal content length and the ETag, and no content encoding |
| LegacyHyper.Ok | src/hyper_loader.rs:131-139 | a 200 names the file's type and ETag, announces a length that parses back to the content length, has no content encoding, and its body delivers exactly the content |
| LegacyHyper.OkHeadersValid | src/hyper_loader.rs:131-139 | every header of a 200 is a valid header value when the type and ETag are, so the builder's `unwrap` does not panic |
| LegacyHyper.OkLengthMatchesChunks | src/hyper_loader.rs:132-140 | a 200's announced length equals the bytes its chunks carry, sent in full-sized chunks except perhaps the last |
| LegacyHyper.HeadRefused | src/hyper_loader.rs:96-106 | HEAD is refused with a bare 405 even for a stored path |
| HyperResponder.AsHttpStatusCode | loader/src/hyper_loader.rs:25-31 | the three errors map one-to-one onto 405, 404 and 400 |
| HyperResponder.AsDefaultResponse | loader/src/hyper_loader.rs:34-39 | an error response carries the error's status, no headers and an empty body |
| HyperResponder.ScanFindsGzip | loader/src/hyper_loader.rs:108-116 | the token scan finds gzip exactly when a token equals `gzip` |
| HyperResponder.GzipAccepted | loader/src/hyper_loader.rs:98-117 | a non-visible `accept-encoding` is an error; otherwise gzip is accepted exactly when a `", "`-separated token is exactly `gzip` |
| HyperResponder.OkHeaders | loader/src/hyper_loader.rs:129-137 | a 200 carries type, length, encoding and ETag, and no cache control |
| HyperResponder.OkResponse | loader/src/hyper_loader.rs:119-137 | the gzip variant is sent whenever gzip is accepted and present, otherwise the content; the length always matches the body |
| HyperResponder.PartsRespondOrError | loader/src/hyper_loader.rs:64-138 | non-GET, unknown path and unparsable `accept-encoding` are the three errors in that order; a matching ETag gives a bare 304 before encoding is parsed |
| HyperResponder.PartsRespond | loader/src/hyper_loader.rs:154-164 | success yields 200 or 304 and is the response `parts_respond_or_error` built, unchanged; each error becomes its default response |
| HyperResponder.ConditionalBeforeEncoding | loader/src/hyper_loader.rs:87-117 | with an unparsable `accept-encoding`, a matching ETag still gives 304, and a non-matching one gives 400 |
| HyperResponder.NewerParserAgrees | loader/src/hyper_loader.rs:98-117 | this parser fails exactly when the current generation's does, and accepts gzip only when that one does too |
| HyperResponder.PlainGzip | loader/src/hyper_loader.rs:108-116 | a plain `gzip` token is recognised by both parsers |
| HyperResponder.WeightedGzipIgnored | loader/src/hyper_loader.rs:108-116 | `gzip;q=1` is not recognised here, although the current parser accepts it, so the plain content is served |
| HyperResponder.GzipSentWhateverItsLength | loader/src/hyper_loader.rs:119-126 | when gzip is accepted and present it is sent even if it is not shorter |
| HyperResponder.ServesStoredContent | loader/src/hyper_loader.rs:64-138 | after storing descriptors with distinct paths and loading them, a GET with no headers for any stored path gives a 200 carrying exactly the content written |

## Left out

- The rkyv payload of the current pack format is not modelled. Only its 16-byte magic-and-version header is (`PackBuilder.StoreHeader`). The archived pack is a map with the same entries (`Common.ArchivePack`), and the zero-copy view and alignment check of the current loader are not part of this model.
- Reading files, walking directories, `File::create`, `sync_all`, the command-line front ends and logging are I/O. A read or open becomes a `Result` parameter.
- The gzip and brotli compressors, SHA3 and `mime_guess` are function parameters. Their output is not modelled.
- Native endianness is fixed to little-endian.
- Writes to a sink are assumed to complete. A failing `write` of the sink itself is not modelled, only the packer's own errors.
- Header maps hold one value per name. Repeated headers are not modelled.
- The `Pin`/`Poll`/`Context` machinery of the body traits is reduced to pure step functions.
- `poll_trailers` always reports no trailers, so it is not modelled.
- `request_respond` and `request_respond_or_error` only split a request into its parts, so they are not modelled. The parts versions are.
- `LegacyHyper.Respond` is modelled against a file record that has an ETag and a content type. The oldest loader's descriptor has neither, so that responder does not fit it as written.
- `PackerPackPath.FromFileBaseRelativePath` requires a relative path, because the source asserts it and panics otherwise. The platform notion of "relative" is taken to mean "no root component", as on Unix; a prefix component (a Windows drive) is instead refused as a non-normal component.
- `RecordPacker.DirectoryPackPath` models the join of `directory_add` after `strip_prefix`. The directory walk and the prefix stripping are I/O on paths.
- The constructors `Responder::new` (in each generation) and `Loader`'s struct wrapper carry no logic, so they are not modelled.
- Concurrency and sharing are out of scope. Every modelled operation is a pure function.
- `PackerFile.ContentTypeFromPath`: the MIME guess from the file extension is a parameter, so only the post-processing of its answer is modelled.
- Panics on `unwrap` are modelled as preconditions: the `Responds` predicates of `Responder`, `HyperResponder` and `LegacyHyper` require that a 200's content type and ETag are valid header values, where the response builder's `unwrap` would panic, and `LoaderFile.ContentTypeHeader` and `LoaderFile.EtagHeader` require a valid header value where the source's `HeaderValue::from_str(..).unwrap()` would panic.
- `PackerFile.BuildFromPath`: the content-type and compression overrides are modelled, but the file read is a parameter.
