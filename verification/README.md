# tencent-cos-object-api, modelled in Dafny

This project models the core of `tencent-cos-object-api`, a Go client for
Tencent Cloud Object Storage (COS). It covers the logic the client adds on
top of HTTP:

- normalising a file id (`suitFileId`) and percent-encoding (`urlEncode`);
- the part size and the single-request / multipart choice (`getPartSize`,
  `useMultipart`), and the part-buffer pool (`makeBytes`, `rollbackBytes`);
- the request signature (`GenerateAuthorization`): canonical parameters and
  headers, the signed text and the layout of the `Authorization` value;
- building requests and classifying answers (`genReq`, `sendHttp`, `head`,
  `getFileSize`, `Ping`);
- downloads: the HEAD size probe, the two loops that cut `[0, size)` into
  ranged GETs, the per-part length check, and the clean-up of
  `DownloadToDisk`;
- uploads: the two loops that cut a source into numbered parts, and the life
  of a multipart session (initiate, hand parts to the pool, complete or
  abort);
- the multipart requests: initiate, upload a part, list the parts page by
  page, complete, abort;
- deleting one object, or many in batches of at most a thousand keys;
- `Info`, `Exist` and `ListFiles`.

Everything the client only talks to is a parameter. That covers the
transport's reply, the worker pool's answers, the reader's bytes, the
filesystem's results, the XML decoder's output, the clock, and the digest
functions. The model says what the client does with each possible answer.
Files and modules:

| file | module | covers |
|---|---|---|
| text.dfy | Text | bytes, `strings.Split/Join/TrimLeft/TrimRight/ToLower`, bytewise order, `strconv.Itoa/ParseInt` |
| sorting.dfy | Sorting | `sort.Strings` / `sort.Slice` as a sort over a total preorder |
| outcomes.dfy | Outcomes | the errors the client makes, `Result` and `Outcome` |
| urlencode.dfy | UrlEncoding | `urlEncode`, its closed form, and percent-decoding |
| paths.dfy | Paths | `filepath.Clean`, `filepath.Join`, `suitFileId` |
| signing.dfy | Signing | `GenerateAuthorization` |
| http.dfy | Http | `sendHttp`, `genReq`, `genReqForReader`, `head`, `getFileSize`, `Ping` |
| sizing.dfy | Sizing | `getPartSize`, `useMultipart`, `makeBytes`, `rollbackBytes` |
| ranges.dfy | RangePlan | the download range loops and `downloadPartToWriterAt` |
| download.dfy | Download | the five public download operations |
| cutting.dfy | Cutting | cutting a sequence into fixed-size pieces |
| upload.dfy | Upload | the upload loops and the multipart session automaton |
| parts.dfy | MultipartParts | the multipart requests and the part listing |
| delete.dfy | BatchDelete | `Delete` and `Deletes` |
| query.dfy | Query | `Info`, `Exist`, `ListFiles` |

Where the code and its documentation differ, the model follows the code.

- The documentation says a part size below 1 MiB means 1 MiB. `getPartSize`
  returns 8 MiB instead (`Sizing.PartSizeClamp`).
- `Info` reads its size from the `Content-Length` header, not from the
  response's length as `getFileSize` does. A header value past the int64
  range gives the clamped bound that `strconv.ParseInt` returns with its
  error, not 0 (`Query.InfoSize`).
- When the size is a positive multiple of the part size, the reader download
  loop plans one extra range past the end, `bytes=N-(N-1)`
  (`RangePlan.ReaderTilingShape`).
- `suitFileId` is not idempotent: `"../../a"` becomes `"../a"`, which
  becomes `"a"` (`Paths.SuitFileIdNotIdempotent`).

## Model

| member | source | states |
|---|---|---|
| Text.Split | base_impl.go:89-90 | splitting always gives at least one piece |
| Text.SplitJoin | base_impl.go:89-90 | splitting a `;`- or `&`-joined list gives back the pieces when none holds the separator |
| Text.JoinSplit | base_impl.go:89-90 | joining the pieces of a split gives back the string |
| Text.SplitPiecesFree | base_impl.go:89-90 | no piece of a split contains the separator |
| Text.SplitAround | base_impl.go:89-90 | splitting a concatenation at a separator splits each side on its own |
| Text.SplitPeel | base_impl.go:89-90 | a leading separator-free piece is peeled off by the split |
| Text.SplitWithoutSeparator | base_impl.go:89-90 | a string without the separator splits into itself alone |
| Text.ToLower | base_impl.go:72 | lower-casing keeps the length and maps each byte to its ASCII lower case |
| Text.TrimLeft | base_impl.go:209 | trimming never lengthens a string |
| Text.TrimLeftShape | base_impl.go:209 | `TrimLeft` removes exactly the longest prefix made of the byte |
| Text.TrimRightShape | common.go:170 | `TrimRight` removes exactly the longest suffix made of the byte |
| Text.LessOrEqualTotal | base_impl.go:78 | the bytewise order on keys is total |
| Text.LessOrEqualTransitive | base_impl.go:78 | the bytewise order on keys is transitive |
| Text.LessOrEqualAntisymmetric | base_impl.go:78 | two keys each ordered before the other are equal |
| Text.NatToDecimalDigits | base_impl.go:200 | a formatted number is a non-empty run of decimal digits |
| Text.ParseInt | base_impl.go:276 | a parsed value lies in the int64 range; a range error carries one of the two int64 bounds |
| Text.ScanNatToDecimal | base_impl.go:276 | scanning the digits of a formatted natural number gives the number back |
| Text.ParseItoa | multi_upload_impl.go:166-170 | parsing undoes formatting for every int64, so part numbers and sizes cross the wire intact |
| Sorting.Insert | base_impl.go:78 | inserting into a sorted sequence keeps it sorted and adds exactly the element |
| Sorting.Sort | multi_upload_impl.go:188 | the result is a permutation of the input, ascending by the order |
| UrlEncoding.UrlEncode | common.go:121-159 | the result holds only unreserved bytes, sub-delimiters and `%` |
| UrlEncoding.TwoPassesAreEscapeEach | common.go:124-156 | the first pass followed by the five replacements is the strict per-byte escape of section 2.3 of RFC 3986 |
| UrlEncoding.UrlEncodeAgrees | common.go:121-159 | the two passes as written equal the closed form; when anything is escaped the result is the strict escape, and nothing is escaped exactly when every byte is kept by the first pass |
| UrlEncoding.SubDelimPassOne | common.go:152-156 | the five replacements turn the first pass's output for one byte into that byte's strict escape |
| UrlEncoding.ReplaceAllAppend | common.go:152-156 | replacing a byte in a concatenation replaces it in each side |
| UrlEncoding.ReplaceAllAbsent | common.go:152-156 | replacing an absent byte changes nothing |
| UrlEncoding.EscapeEachSafe | common.go:121-159 | every byte of the strict escape is URL-safe |
| UrlEncoding.DecodeEscapeEach | common.go:121-159 | percent-decoding undoes the strict escape |
| UrlEncoding.DecodeNoPercent | common.go:145-146 | percent-decoding leaves a string without `%` unchanged |
| UrlEncoding.DecodeUrlEncode | common.go:121-159 | percent-decoding undoes `urlEncode` on every input |
| Paths.ResolveKeepsPieces | common.go:170 | cleaning keeps only non-empty, slash-free names other than "." |
| Paths.Clean | common.go:170 | Go's `path.Clean`: "." for the empty path, the root kept, names resolved against "." and ".."; stated by CleanFirst, CleanSegments and CleanNames |
| Paths.SuitFileId | common.go:169-171 | the id trimmed of '/', cleaned, then stripped of leading '.' and '/'; stated by SuitFileIdTidy, SuitFileIdCanonical and SuitFileIdNotIdempotent |
| Paths.JoinPath | query_impl.go:87-90 | Go's `path.Join` of two parts: the cleaned join, or the cleaned non-empty part, or ""; stated by CleanAbsorb and JoinPathNested |
| Paths.JoinTidy | common.go:170 | joining such names with '/' gives a non-empty string without a '/' at either end or a doubled '/' |
| Paths.CleanRelativeTidy | common.go:170 | a relative path cleans to "." or to a tidy join of names |
| Paths.SuitFileIdTidy | common.go:169-171 | a normalised file id has no '/' at either end and no empty segment |
| Paths.ResolveNames | common.go:170 | plain names resolve onto the stack unchanged |
| Paths.SuitFileIdCanonical | common.go:169-171 | an id already in canonical form is left unchanged |
| Paths.ResolveAppend | query_impl.go:83-90 | resolving two segment lists one after the other equals resolving them joined |
| Paths.ResolveClimbing | query_impl.go:83-90 | resolving a relative path always gives some ".." followed by names |
| Paths.ResolveAllNames | query_impl.go:83-90 | resolving a rooted path always gives names only |
| Paths.ResolveClimbingFixed | query_impl.go:83-90 | an already resolved relative stack resolves to itself |
| Paths.CleanFirst | query_impl.go:83-84 | `Clean` is never empty, and its result is rooted exactly when its input is |
| Paths.CleanSegments | query_impl.go:83-84 | a cleaned path resolves to the same segments as the path |
| Paths.CleanAbsorb | query_impl.go:87-90 | cleaning the left side of a join first does not change the cleaned join |
| Paths.JoinPathNested | query_impl.go:87-90 | joining the directory with the leading part of the name prefix, then with the rest from its last '/', gives the same path as one join with the whole name prefix |
| Paths.CleanNames | query_impl.go:83-84 | plain names separated by single slashes are already clean |
| Paths.CleanDoubleSlash | query_impl.go:87-90 | a doubled separator cleans like a single one |
| Paths.SuitFileIdEmptyCases | common.go:169-171 | "", "/", "." and ".." normalise to the empty id, which every operation rejects |
| Paths.CleanClimb | common.go:170 | `Clean` keeps leading ".." of a relative path |
| Paths.SuitFileIdNotIdempotent | common.go:169-171 | normalising twice can differ from normalising once: "../../a" gives "../a", which gives "a" |
| Signing.SetValue | base_impl.go:198-202 | after setting, the key is held only with exactly that value, and every entry with another key is kept and none added |
| Signing.Without | base_impl.go:198-202 | the entries left are exactly those with another key |
| Signing.SetValueDistinct | base_impl.go:198-202 | setting a key in a map keeps every key held once |
| Signing.Repeat | base_impl.go:74-76 | a key repeated once per value |
| Signing.BytesOrderIsTotal | base_impl.go:78 | the bytewise order is a total preorder, so sorting the keys is defined |
| Signing.KeyList | base_impl.go:68-78 | the key list is a sorted permutation of the canonical keys, one per value |
| Signing.Canonicalize | base_impl.go:64-91 | the `;`-joined sorted key list and the `&`-joined pairs; their shape is stated by KeyListRoundTrip, NoAmpersandInCanonical and CanonicalPairs |
| Signing.Pairs | base_impl.go:85-87 | one `key=urlEncode(value)` pair per value, in the values' order |
| Signing.RawKeysCanonical | base_impl.go:71-77 | every listed key is the canonical form of some entry's key |
| Signing.KeyListHas | base_impl.go:71-78 | every entry with at least one value has its canonical key in the list |
| Signing.CanonicalKeyPlain | base_impl.go:72 | a key of letters, digits and '-' is only lower-cased |
| Signing.CanonicalKeyLowerSafe | base_impl.go:72 | a canonical key holds only URL-safe bytes and no upper-case letter |
| Signing.KeyListShape | base_impl.go:72-78 | every key in the list is lower-case and URL-safe |
| Signing.SeparatorsAbsent | base_impl.go:89-90 | no canonical key contains `;`, `&` or `=` |
| Signing.KeyListRoundTrip | base_impl.go:89 | splitting `q-url-param-list` or `q-header-list` at ';' gives back the sorted key list |
| Signing.PairShape | base_impl.go:86 | a pair splits at '=' into the key and the encoded value, and decoding gives the value back |
| Signing.ParamListShape | base_impl.go:79-88 | each canonical pair splits into a listed key and the encoding of one of that key's values |
| Signing.ParamList | base_impl.go:79-88 | the pairs of the sorted keys with a repeat of the previous key (or of `pre`) skipped; stated by ParamListShape, ParamListComplete and ParamListBlocks |
| Signing.ParamListComplete | base_impl.go:79-88 | every value of every key other than the skipped `pre` appears as a `key=urlEncode(value)` pair |
| Signing.ParamListBlocks | base_impl.go:79-88 | the parameter text is, key by emitted key, the pairs of all that key's values in their order |
| Signing.RunHeadsOnce | base_impl.go:78-84 | over the sorted key list, every key except `pre` is emitted once, in strictly ascending order |
| Signing.CanonicalPairs | base_impl.go:64-91 | each distinct non-empty canonical key contributes its pairs exactly once, keys ascending, values in order; the empty key contributes none |
| Signing.HexLower | base_impl.go:127 | `%x` writes two lower-case hex digits per byte |
| Signing.NoAmpersandInCanonical | base_impl.go:89 | the joined key list holds no '&' |
| Signing.JoinAvoids | base_impl.go:89-90 | a joined list holds a byte only if a piece or the separator does |
| Signing.KeyTimeFree | base_impl.go:58-62 | the key time holds no '&' |
| Signing.KeyTime | base_impl.go:56-62 | `<now in seconds>;<now plus expiration in seconds>`, rounded down; it holds no '&' (KeyTimeFree) |
| Signing.HttpString | base_impl.go:130-135 | lower-cased method, '/' and the normalised id, parameters and headers, each line ended by a newline |
| Signing.Signature | base_impl.go:122-152 | hex HMAC-SHA1 keyed by the hex HMAC of the key time, over `sha1`, the key time and the hex SHA-1 of the signed text |
| Signing.FieldsRoundTrip | base_impl.go:154-156 | the seven fields come back from the joined value when no field holds '&' |
| Signing.AuthorizationLayout | base_impl.go:46-158 | the value splits at '&' into exactly seven fields in fixed order; sign time equals key time; the lists and the signature are those made from the canonical query and headers |
| Signing.GenerateAuthorization | base_impl.go:46-158 | the authorization value from key time, canonical query and headers and signature; its seven-field layout is stated by AuthorizationLayout |
| Http.SendHttp | base_impl.go:161-187 | success exactly on a 2xx response; a transport error passes through; a missing response, a 404 and any other status each give their own error |
| Http.SendHttpErrors | base_impl.go:169-184 | the client's own errors are of three kinds, and `ErrNotExists` comes from a 404 and nothing else |
| Http.SignedHeaderKeys | base_impl.go:198-201 | `Host`, and `Content-Length` for a non-empty body, are in the signed header list |
| Http.GenReqShape | base_impl.go:190-221 | the request carries the signed headers plus the authorization made over them, a path of one '/' and the id, and a length equal to the body's |
| Http.GenReq | base_impl.go:190-221 | sets `Host`, `Content-Length` for a body, then `Authorization` signed over them; path is '/' and the id; stated by GenReqShape and SignedHeaderKeys |
| Http.GenReqForReader | base_impl.go:224-257 | as GenReq with the caller's length; agrees with GenReq on an in-memory body (ForReaderAgrees) |
| Http.ForReaderAgrees | base_impl.go:224-257 | for an in-memory body, the reader variant builds the same request except for the body |
| Http.GetFileSize | base_impl.go:268-279 | the size probe fails exactly when the HEAD does, with its error; a positive response length is the size; otherwise the size is an int64 |
| Http.Head | base_impl.go:260-265 | a HEAD of the id, classified by `sendHttp` |
| Http.HeaderGet | base_impl.go:275 | the first value of the first entry holding the key, and "" when no entry holds it |
| Http.GetFileSizeFallback | base_impl.go:274-277 | with no positive length the header's decimal int64 is recovered, and a missing or unparsable header gives 0 |
| Http.PingCases | base_impl.go:37-43 | ping succeeds exactly on a 2xx or 404 answer (or a transport error that is `ErrNotExists`), otherwise it reports the request's error |
| Http.Ping | base_impl.go:37-43 | a HEAD of "ping" whose `ErrNotExists` is success; stated by PingCases |
| Sizing.PartSize | common.go:85-93 | the effective part size lies in [1 MiB, 5 GiB] |
| Sizing.PartSizeClamp | common.go:85-93 | an in-bound size is kept; below 1 MiB gives 8 MiB, not the minimum; above 5 GiB gives 5 GiB |
| Sizing.PartSizeStable | common.go:85-93 | configuring the effective part size changes nothing |
| Sizing.Wrap64 | common.go:176 | the wrapped value is in the int64 range and congruent to the input modulo 2^64 |
| Sizing.UseMultipart | common.go:174-177 | above the wrapped product of threshold and part size, or above 5 GiB; stated by UseMultipartBoundary, UseMultipartAboveLimit and UseMultipartMonotone |
| Sizing.UseMultipartBoundary | common.go:174-177 | without overflow, multipart is chosen exactly above the threshold product or above 5 GiB; a size of exactly the product stays single |
| Sizing.UseMultipartAboveLimit | common.go:176 | above 5 GiB multipart is chosen whatever the threshold |
| Sizing.UseMultipartMonotone | common.go:174-177 | the choice is monotone in the size |
| Sizing.MakeBytes | common.go:68-70 | an empty pool allocates a full part-size buffer; otherwise a pooled buffer is taken out |
| Sizing.RollbackBytes | common.go:73-82 | a buffer whose capacity is not the part size is dropped; a part-size buffer of length 0 panics at `&data[0]`; any other part-size buffer is pooled, restored to full length |
| Sizing.PoolStaysSized | common.go:68-82 | while the configuration is fixed the pool holds only full part-size buffers, so every buffer handed out has the part size |
| Sizing.StaleBufferDropped | common.go:74-77 | after reconfiguring the part size, a buffer of the old size is dropped |
| RangePlan.PartCount | download_impl.go:222-232 | at least one range; for a positive size, the fewest parts that reach the last byte |
| RangePlan.Cut | download_impl.go:222-232 | k ranges of part size from 0, the last ending at the last byte; stated by TilingShape and ContiguousLength |
| RangePlan.ReaderCount | download_impl.go:263-275 | the reader loop plans one range more than the whole parts before the size |
| RangePlan.Tiling | download_impl.go:222-232 | the `WriterAt` plan has `PartCount` ranges |
| RangePlan.ReaderTiling | download_impl.go:263-275 | the reader plan has `ReaderCount` ranges |
| RangePlan.ContiguousLength | download_impl.go:222-232 | contiguous ranges cover exactly the bytes from the first offset to the last end |
| RangePlan.TilingShape | download_impl.go:222-232 | for a positive size the plan starts at 0, is contiguous, has full parts but the last, ends at the last byte, and covers exactly the size |
| RangePlan.ReaderCountAgrees | download_impl.go:264 | the two loops plan the same count except at a positive multiple of the part size, where the reader loop plans one more |
| RangePlan.CutExtend | download_impl.go:264 | past an exact multiple, one more cut adds only the empty range just past the end |
| RangePlan.ReaderTilingShape | download_impl.go:263-275 | the reader plan is the `WriterAt` plan, plus the empty range past the end at a positive multiple; both cover exactly the file |
| RangePlan.EmptyFilePlan | download_impl.go:222-232 | a size of zero or less gives the single range `{0, size-1}` in both plans |
| RangePlan.FirstFailure | download_impl.go:228-230 | the index found is a refused submission with every earlier one accepted; none found means all accepted |
| RangePlan.Submit | download_impl.go:222-234 | the ranges handed over are a prefix of the plan; success means all of it was handed over and the pool succeeded |
| RangePlan.WriterAtLoop | download_impl.go:210-235 | the `>=` loop as written submits exactly what `Submit` of the `WriterAt` plan does |
| RangePlan.ReaderLoop | download_impl.go:238-280 | the `>` loop as written submits exactly what `Submit` of the reader plan does |
| RangePlan.FirstFailureAt | download_impl.go:228-230 | the first refused index is found |
| RangePlan.RangeHeaderParses | download_impl.go:286-288 | the `Range` header is `bytes=` then the offset and the end in decimal, which parse back |
| RangePlan.RangeHeader | download_impl.go:287 | `bytes=<offset>-<end>`; RangeHeaderParses shows the two bounds read back |
| RangePlan.DownloadPart | download_impl.go:283-305 | a part succeeds exactly when the GET is 2xx and the copy wrote the range's length; a short copy gives the length error, a failed GET its error |
| RangePlan.ExtraRangeNeedsEmptyBody | download_impl.go:299-302 | the extra range succeeds only with an empty 2xx body |
| Download.Download | download_impl.go:38-58 | an invalid id is rejected before any request; otherwise it probes, and a failed probe returns its error; it fetches exactly when the probe succeeds, with the probed size, ranged exactly when `useMultipart` holds; a whole GET succeeds exactly when the GET does, and returns its error otherwise |
| Download.ToStream | download_impl.go:73-83 | a stream fetch with the given size: ranged exactly when `useMultipart` holds, which always hands over a stream; otherwise the GET's success or its error |
| Download.ToWriterAt | download_impl.go:173-185 | ranged exactly when `useMultipart` holds, with the pool's outcome; otherwise success exactly when the GET and the copy succeed, the GET's error when it fails, and the copy's outcome when it does not |
| Download.DownloadToWriter | download_impl.go:61-88 | fetches as `Download` does, and a failed probe returns its error; success needs the copy; a ranged fetch succeeds exactly when the pool and the writer both do, and a failed range's error is returned when the writer did not fail; a whole GET returns the GET's error, or else the copy's outcome |
| Download.DownloadToWriterWithSize | download_impl.go:91-116 | no probe; a valid id fetches with the caller's size, ranged exactly when `useMultipart` holds; a failed range's error reaches the caller as in DownloadToWriter; a whole GET returns the GET's error, or else the copy's outcome |
| Download.DownloadToWriterAt | download_impl.go:161-186 | an invalid id is rejected; a failed probe returns its error; it fetches exactly when the probe succeeds; a ranged fetch's outcome is the pool's; a whole GET returns the GET's error, or else the copy's outcome |
| Download.DownloadToDisk | download_impl.go:119-158 | a failed probe, directory creation or file creation returns that error, in that order, with no file left; otherwise the file is created and the fetch starts; it is removed exactly when a created file's download fails |
| Download.WithSizeMatchesProbe | download_impl.go:91-116 | given the probed size, the sized variant fetches and returns as the probing one, without the probe |
| Download.RangedWriterAtCovers | download_impl.go:210-235 | with every range accepted, the ranges handed over start at 0, are contiguous and cover exactly the object |
| Download.DiskFailureRemovesFile | download_impl.go:139-144 | a failed download to disk never leaves its file behind |
| Cutting.ChunksFlatten | upload_impl.go:199-215 | the pieces put back together are the input |
| Cutting.ChunksCount | delete_impl.go:88-92 | there are ⌈n / size⌉ pieces |
| Cutting.ChunksSizes | upload_impl.go:199-207 | every piece but the last is full; the last has 1 to `size` elements |
| Cutting.ChunksAppend | upload_impl.go:199-215 | cutting after a whole number of pieces cuts each side on its own |
| Cutting.ChunksAvoid | delete_impl.go:55-62 | a value absent from the input is absent from every piece |
| Upload.ReadFull | upload_impl.go:72-82 | `io.ReadFull` fills the buffer exactly when enough bytes remain; a short read, EOF and a reader error are told apart |
| Upload.RunAppend | upload_impl.go:179-235 | running a trace in two halves equals running it whole |
| Upload.Next | upload_impl.go:179-235 | the session phases: initiation opens or fails, parts must come numbered from the expected one, completion and abort must name the open session; stated by OpenRuns and SessionShape |
| Upload.RunParts | upload_impl.go:199-215 | handing over parts numbered from the expected one keeps the session open and advances the number |
| Upload.ClosedStays | upload_impl.go:217-234 | a closed session accepts nothing more |
| Upload.AbandoningStays | upload_impl.go:227-232 | a session whose completion failed accepts only its abort |
| Upload.OpenRuns | upload_impl.go:199-234 | from an open session, parts are numbered consecutively, nothing initiates again, and completion and abort come only at the end, naming the session |
| Upload.SessionShape | upload_impl.go:179-235 | a session starts with initiation, numbers parts 1, 2, … and closes only at its end, so it is completed or aborted at most once |
| Upload.CloseLegal | upload_impl.go:217-234 | closing an open session always leaves a legal trace, whatever the pool and service answer |
| Upload.Close | upload_impl.go:217-234 | success exactly when waiting and completion succeed; completion is called exactly when waiting succeeded; a failure ends with the abort of the session and carries the first failure |
| Upload.PieceRead | upload_impl.go:199-211 | a piece read at a whole number of pieces extends the cut of what was read |
| Upload.UploadUnknownLength | upload_impl.go:48-106 | the trace is legal; with an EOF reader and accepted parts, the parts are the reader's bytes cut into part-size pieces, then the close; a reader error stops with its error after the whole parts |
| Upload.UploadKnownLength | upload_impl.go:179-235 | the trace is legal; with enough bytes and accepted parts, the parts are the first `contentLength` bytes cut into pieces; too few bytes leave the session open, and once the whole parts are accepted the call returns `io.ReadFull`'s error: the reader's own, `io.EOF` at a part boundary, `io.ErrUnexpectedEOF` inside a part |
| Upload.KnownShort | upload_impl.go:199-211 | a read that cannot fill its buffer comes only from a too-short source, after exactly its whole parts, and reports the reader's error, `io.EOF` or `io.ErrUnexpectedEOF` by where it starts |
| Upload.KnownStep | upload_impl.go:199-215 | a filled read extends the cut of the bytes read by the part, which stays within the parts the call promises |
| Upload.PartsOfSteps | upload_impl.go:212 | the parts handed over are the pieces, in order |
| Upload.CloseAddsNoParts | upload_impl.go:217-234 | closing hands over no part |
| Upload.SessionParts | upload_impl.go:179-235 | a session that hands over pieces and closes uploads exactly those pieces |
| Upload.SessionUploads | upload_impl.go:179-235 | a session over the cut of some bytes uploads exactly those bytes, in part-number order |
| Upload.StoppedUploads | upload_impl.go:208-211 | a session stopped after handing over the cut of some bytes has uploaded exactly those bytes |
| Upload.Put | upload_impl.go:155-176 | one PUT succeeds exactly when `sendHttp` does, with its error otherwise |
| Upload.SizedUpload | upload_impl.go:118-122 | a single PUT exactly when `useMultipart` fails, returning the PUT's result; a multipart upload with accepted parts sends exactly the first `contentLength` bytes and returns the close's result; a too-short source uploads its whole parts and returns the short-read error |
| Upload.KnownLengthSession | upload_impl.go:179-235 | the multipart branch: what it uploads and returns for a source with enough bytes and for one too short |
| Upload.Upload | upload_impl.go:32-45 | an invalid id is rejected, and a valid one always starts a transfer; a single PUT exactly when `useMultipart` fails for the body, returning the PUT's result; otherwise the parts are the body and the close's result is returned |
| Upload.UploadFromReaderWithSize | upload_impl.go:109-123 | an invalid id is rejected, and a valid one always starts a transfer; the caller's length decides the mode; a single PUT returns its result; a multipart upload sends exactly that many bytes and returns the close's result; too few bytes upload the whole parts and return the short-read error |
| Upload.UploadFromDisk | upload_impl.go:126-152 | an invalid id, a failing stat or open stop before any request, and otherwise a transfer starts; the file's size decides the mode; a single PUT returns its result; the parts are the file's bytes with the close's result; a file shorter than its stat uploads its whole parts and returns the short-read error |
| Upload.UploadFromReader | upload_impl.go:48-106 | always multipart; with an EOF reader and accepted parts the parts are the reader's bytes, none for an empty reader |
| MultipartParts.Fetch | multi_upload_impl.go:44-66 | success exactly when the send, the read and the decode all succeed; otherwise the first failure's error |
| MultipartParts.Send | multi_upload_impl.go:244-255 | success exactly when `sendHttp` does |
| MultipartParts.InitMultiUpload | multi_upload_impl.go:31-67 | an invalid id is rejected; otherwise the upload id is what the POST answered |
| MultipartParts.InitRequestSigned | multi_upload_impl.go:38-42 | the initiation carries `uploads`, a zero length, and signs `Content-Length` |
| MultipartParts.UploadPart | multi_upload_impl.go:70-92 | an invalid id is rejected with nothing sent; otherwise a PUT of the body to the id whose query holds exactly the upload id and the part number, and the outcome of FileCall |
| MultipartParts.FileCall | multi_upload_impl.go:73-91 | an invalid id is rejected; otherwise success exactly when `sendHttp` succeeds, and its error otherwise |
| MultipartParts.PartQueryCarries | multi_upload_impl.go:78-107 | the part query carries exactly the upload id and the part number, which parses back |
| MultipartParts.ParsePart | multi_upload_impl.go:165-179 | a part converts exactly when both numbers parse, keeping the entity tag; a bad part number is reported |
| MultipartParts.ParseParts | multi_upload_impl.go:165-179 | a page converts exactly when every part does, part for part |
| MultipartParts.ListQueryMarker | multi_upload_impl.go:127-134 | a listing request names the upload, and a marker exactly when it has one |
| MultipartParts.ListQuery | multi_upload_impl.go:130-134 | the upload id, and the marker when non-empty; stated by ListQueryMarker |
| MultipartParts.FirstEnd | multi_upload_impl.go:182-184 | the answer found ends the listing and no earlier one does |
| MultipartParts.NumberOrderIsTotal | multi_upload_impl.go:188 | ordering by part number is a total preorder |
| MultipartParts.Paginate | multi_upload_impl.go:120-191 | one request per answer up to the first that ends the listing, each after the first with the previous marker; the ending failure, or all parts sorted by number |
| MultipartParts.ListFileParts | multi_upload_impl.go:120-191 | an invalid id is rejected; otherwise the listing loop over the service's pages |
| MultipartParts.CompletionPartsRoundTrip | multi_upload_impl.go:215-221 | the completion body names each part by the number listed and its tag |
| MultipartParts.CompletionParts | multi_upload_impl.go:208-221 | one (decimal number, tag) entry per listed part, in the listing's order; CompletionPartsRoundTrip shows the numbers parse back |
| MultipartParts.GatheredInRange | multi_upload_impl.go:165-179 | every converted part number is an int64 |
| MultipartParts.ListedCompletion | multi_upload_impl.go:194-235 | after a successful listing, the completion body names each part by its listed number, in ascending order |
| MultipartParts.CompleteMultiUpload | multi_upload_impl.go:194-235 | the listing is the listing loop for the once-normalised id; a failed listing is returned as the call's error with nothing sent; otherwise exactly the listed parts are sent, in listing order with ascending numbers, and the POST's outcome is returned |
| MultipartParts.ListingPathDiffers | multi_upload_impl.go:195-201 | the listing normalises the id a second time, so for `../../a` it asks about `/a` while the POST goes to `/../a` |
| MultipartParts.AbortMultiUpload | multi_upload_impl.go:238-256 | an invalid id is rejected with nothing sent; otherwise a bodiless DELETE of the id whose query is the upload id alone, and the outcome of FileCall |
| BatchDelete.Delete | delete_impl.go:32-46 | an invalid id is rejected; otherwise success exactly when the DELETE does, with its error |
| BatchDelete.Normalise | delete_impl.go:55-62 | no sent id is empty and none is added |
| BatchDelete.NormaliseKeeps | delete_impl.go:55-62 | every id that normalises to something is sent, and only normalised input ids are |
| BatchDelete.BatchesShape | delete_impl.go:88-92 | every kept id goes in exactly one batch, in order, in ⌈m/1000⌉ batches of 1 to 1000; none are sent when nothing is kept |
| BatchDelete.Batches | delete_impl.go:88-92 | the kept ids cut into runs of at most a thousand; stated by BatchesShape |
| BatchDelete.FirstBatch | delete_impl.go:90-92 | each request takes the first thousand ids, or all that remain |
| BatchDelete.BatchRequestChecksum | delete_impl.go:95-105 | the `Content-MD5` value is computed over the exact body sent, and the header is signed (section 2 of RFC 1864) |
| BatchDelete.BatchRequest | delete_impl.go:94-105 | a POST to the bucket root with `delete`, the encoded keys and their `Content-MD5`; stated by BatchRequestChecksum |
| BatchDelete.Judge | delete_impl.go:108-134 | a batch is reported exactly when send, read and decode succeed; a send error passes through; a read or decode error carries the body |
| BatchDelete.RecordReports | delete_impl.go:137-141 | every key a report names ends with the error of the last entry naming it; every other key keeps its error |
| BatchDelete.LastReportIsLast | delete_impl.go:137-141 | the reference `LastReport` exists exactly for the named keys and is the report of the last entry naming the key |
| BatchDelete.Record | delete_impl.go:108-141 | a failed batch overwrites every id in it with the batch's error; a reported batch sets each named key to its last report; untouched keys keep their error |
| BatchDelete.ComplainedCases | delete_impl.go:108-141 | an id is in the map exactly when some batch failed with it or named it |
| BatchDelete.RecordStep | delete_impl.go:88-142 | recording one more batch keeps the map's keys equal to the blamed ids and each error equal to that of the last batch touching its key |
| BatchDelete.LastBlameIsLast | delete_impl.go:88-142 | the reference `LastBlame` is the error left by a batch touching the key that no later batch touches |
| BatchDelete.SendBatches | delete_impl.go:88-142 | the batches sent are the 1000-cut of the ids; the map holds exactly the blamed ids, each with the error of the last batch touching it |
| BatchDelete.Deletes | delete_impl.go:49-145 | no input sends nothing; the map holds exactly the ids of failed batches and the keys named, never the empty key, each with the error of the last batch that touched it |
| BatchDelete.EmptyNeverComplained | delete_impl.go:58-61 | the empty id is never reported |
| Query.Info | query_impl.go:33-57 | an invalid id is rejected; fails exactly when the HEAD does; the size is an int64, tag and checksum are their headers |
| Query.InfoSize | query_impl.go:46 | the size is the header's decimal int64, 0 when missing or unparsable, and the clamped bound on overflow |
| Query.Exist | query_impl.go:60-76 | true exactly on a 2xx HEAD, false exactly on `ErrNotExists`, and no error returned is `ErrNotExists` |
| Query.ExistMatchesInfo | query_impl.go:33-76 | an object exists exactly when `Info` succeeds, is absent exactly when `Info` fails with `ErrNotExists`, and otherwise both fail alike |
| Query.LastIndex | query_impl.go:86 | -1 exactly when the byte is absent, otherwise the position of its last occurrence |
| Query.ListPrefixJoins | query_impl.go:83-90 | the listed prefix is always the cleaned directory joined with the cleaned name prefix |
| Query.ListPrefixNames | query_impl.go:83-90 | a directory and a name prefix that are plain names are listed as the two joined by one '/' |
| Query.ListPrefix | query_impl.go:83-90 | the cleaned directory joined with the cleaned name prefix, whose directory part moves onto the directory; stated by ListPrefixJoins and ListPrefixNames |
| Query.ListQueryShape | query_impl.go:93-101 | the query carries prefix and delimiter always, max-keys exactly for a positive limit, marker exactly for an offset, and nothing else |
| Query.QueryEntries | query_impl.go:93-101 | the parameters appear in the order they are set (prefix, delimiter, then max-keys and marker when given), each once with a single value |
| Query.QueryOf | query_impl.go:93-101 | prefix, delimiter, max-keys for a positive limit and marker for an offset; stated by ListQueryShape and QueryEntries |
| Query.ListRequestShape | query_impl.go:102 | a bodiless signed GET of the bucket root carrying the query |
| Query.ListFiles | query_impl.go:79-145 | fails exactly when send, read or decode fails, with that error; otherwise one file per entry, in order, and the page's next marker |

## Left out

- The worker pool (`gu.NewRunner`) and goroutines. The pool's answer to each
  submission and its final answer are parameters, so concurrency, scheduling
  and the timing of background aborts are not modelled.
- The fan-in of ranged downloads into one stream and `CopyReaderToWriterAt`.
  The ranges planned, their order, and how the pool's and the writer's
  failures reach the caller are modelled. The bytes put back together are
  not.
- Upload.Upload, Upload.UploadFromReaderWithSize, Upload.UploadFromDisk,
  Upload.UploadFromReader: these normalise the id, and the multipart calls
  they make (`InitMultiUpload`, `UploadPart`, `CompleteMultiUpload`,
  `AbortMultiUpload`) normalise it a second time. Normalising is not
  idempotent (`Paths.SuitFileIdNotIdempotent`), so a multipart upload of
  "../../a" writes "a" where a single PUT writes "../a", and an id such as
  "../.." that normalises to ".." makes the initiation fail locally as an
  invalid id. The model does not carry the path into the multipart steps:
  the initiation's answer is a parameter, so neither the different target
  nor the local failure is modelled.
- Download.DownloadToWriter, Download.DownloadToWriterWithSize: when both
  a range and the writer fail, which error `io.Copy` sees first depends on
  goroutine timing. The model takes the writer's failure as the one
  returned, and a failed range's error otherwise.
- The transport, `url.Parse` and `query.Encode`. A request is a record of
  verb, path, query, headers, body and length, and a reply is a parameter.
- XML encoding and decoding: the decoder's result is a parameter
  (`Exchange`, `BatchAnswer`) and the delete body's encoding is a function
  parameter.
- MD5, base64, HMAC-SHA1 and SHA-1 are function parameters. Their hex
  rendering is modelled.
- Time. The clock is a parameter. `Last-Modified`, `Expires` and
  `LastModified` parsing (`Info`'s upload and expire times, `File`'s upload
  time) is left out because it depends on time-zone data.
- Signing.KeyTime: `time.Time.Add` saturation near the int64 limits is not
  modelled.
- `sync.Pool` for requests and its recycling (`requestPool`), and the
  `printError` and `closeRsp` side effects: output and resource release only.
- api.go and option.go: construction of the client and options only.
- `GetDownloadUrl`: it depends on `url.QueryEscape` and `url.URL.String`,
  which are not modelled.
- `UploadPartByReader`'s body: only its query and answer classification are
  modelled. The query is `MultipartParts.PartQueryCarries`, and the outcome
  is `MultipartParts.FileCall`, which `MultipartParts.UploadPart` shares.
- Text.ToLower: only ASCII is lower-cased. The client lower-cases method
  names and percent-encoded keys, which are ASCII.
- Sorting.Sort: `sort.Slice` is not stable; the model uses a stable
  insertion sort. The contract promises only sortedness and permutation,
  which is what Go promises.
- RangePlan.WriterAtLoop, RangePlan.ReaderLoop, Upload.UploadKnownLength:
  int64 overflow of the running offset near 2^63 is not modelled.
- MultipartParts.ListFileParts, MultipartParts.CompleteMultiUpload: require
  that the service's answers end the listing at some point. A service that
  pages forever makes the client loop forever, and that is not modelled.
- Query.Exist: `errors.Is` unwrapping is not modelled; only the sentinel
  itself counts as `ErrNotExists`, which is what `head` returns.
- Upload.UploadUnknownLength, Upload.UploadKnownLength: a refused part ends
  the call at once with the session left open; the background abort after a
  failed wait is recorded as a step, not run.
- Upload.UploadUnknownLength, Upload.UploadKnownLength: every buffer taken
  from the pool is assumed to hold `PartSize` bytes. `makeBytes` does not
  check the size of a pooled buffer. So if `PartSize` changes between
  calls while an old buffer is still pooled, one part may be cut at the old
  size. That is not modelled. Sizing.StaleBufferDropped shows that such a
  buffer is not put back once it is returned.
