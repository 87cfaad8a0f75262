# Verified model of s3armor

s3armor is a proxy that encrypts objects on their way to an S3 backend and decrypts them on
the way back. This project models its core in Dafny and proves what the core promises. Run
`dafny verify dfyconfig.toml` to check all of it.

The modules follow the program.

- Streaming codec (`Cipher`, `SizeMath`, `FrameSpec`, `FrameCodec`, `FrameTheorems`,
  `SealedStreams`, `EncryptingBody`). A plaintext is cut into chunks, each sealed as one frame whose
  associated data names its place. Encryptor and decryptor are classes with the buffers of
  the original; ghost history ties their state to the concatenation of their pushes.
- Ranges and multipart objects (`RangePlan`, `RangeReader`, `Layout`, `MultipartObject`,
  `Segments`, `RangeCursor`, `RangeService`, `MultipartCursor`). A plaintext range is planned
  as ciphertext of some parts and read by a cursor that gets the body in arbitrary frames.
- Footer (`FooterCodec`, `SealedFooter`, `FooterCache`). The record of part sizes at the end
  of a multipart object, the full read that starts from it, and the cache in front of it.
- Hostile backend (`UntrustedReads`, `HonestReads`). What a client is sent when stored bytes
  and answers are not the uploaded ones, that honest answers meet the assumption made, and
  exactly what a backend can serve without a forgery.
- Upload protocol (`Session`, `Upload`, `UploadSafety`, `UploadProgress`). Any number of UploadPart and Complete
  requests for one upload, interleaved step by step with each other, with removal of the
  session and with the backend, which may still act on what a failed request sent. The backend is assumed to accept a Complete only if every
  listed ETag is the one it holds, and to give every upload a new ETag.
- Session cap (`SessionCap`). Concurrent creates that scan for finished sessions and evict them.
- aws-chunked (`ChunkedWire`, `ChunkedCuts`, `Dechunker`, `ChunkedBody`, `ChunkedPrinter`). The
  incremental decoder as a class over a pure step function, its signature chain, and the grammar
  of the streams it reads.
- Path binding (`PathBinding`). The life of a store under writes, copies, key rotation and
  migration.
- Signature Version 4 (`CivilTime`, `AmzDate`, `UriCodec`, `CanonicalQuery`, `SigV4`, `SigV4Exact`,
  `SigningText`). Dates, canonical forms, signer and verifier, and the text that is signed.

`Bytes`, `Text`, `Numerals` and `Body` hold the shared vocabulary. A streamed body is a list of frames; what
is sent on is a byte string and a flag for an error frame.

Parameters stand for what the code takes from outside: the AEAD and its nonces, key wrapping
and its randomness, the chunk and request signatures, digests, UTF-8 decoding and the clock.
The laws asked of them are stated as predicates (`Lawful`, `Paired`, `Authentic`,
`Distinguishes`, `HexSigner`, `HexLaw`, `NoCollisions`, `DecodesAscii`,
`ReadsAscii`). The results about a
hostile backend assume one more thing, and only of the frames that the reader forms from the
bytes it is given: a frame that opens was sealed (`Genuine`, `FramesGenuine`, `RunGenuine`). That
gives the results about sealed chunks. Where a result speaks of the one uploaded plaintext it has
a second condition: the key sealed one content at each position (`SealsOnly`, `SealedObject`).
Single-part objects have a key of their own. A multipart upload has one key for all of its
requests, so there the condition is that no part number was uploaded again with other contents
and that one footer was sealed. Integers are unbounded except where a width is written out.

Six properties of the code hold only under a condition, which is stated exactly.

- Cutting an aws-chunked stream matters when a header or trailer line has 8192 bytes or more,
  because a pending line is capped before its CRLF is seen (`ChunkedCuts.EveryCut`,
  `ChunkedPrinter.CuttingMatters`).
- The 64-bit layout of a multipart object is right exactly when the ciphertexts of the parts
  before the last, together, and of the last part, alone, are below 2^64 bytes
  (`Layout.LayoutExact`, `Layout.LayoutWraps`). No object with a 64-bit length is affected.
- A backend that forges nothing can serve something else than the listed uploads exactly when
  another text of a listed size was sealed under the same part number, which uploading a part
  again does (`HonestReads.OnlyUploadIsServed`, `HonestReads.ReuploadsMix`).
- A ranged read of a single-part object passes on every frame that the backend sends. It delivers
  the requested range exactly when as many frames arrive as were planned
  (`UntrustedReads.UntrustedRangedSingle`, `HonestReads.OverlongBody`).
- A Complete that does not succeed gives its claim back, except when it is cancelled after it
  claimed: then the session stays claimed for as long as it lasts (`UploadProgress.ClaimExact`).
- Timestamps from the year 10000 on print with five-digit years and do not parse
  (`AmzDate.AmzDateRoundTrip`).

The comment in the footer decoder speaks of non-decreasing part numbers; the code demands
strictly ascending ones, and so does the model.

## Model

| member | source | states |
|---|---|---|
| `Cipher.FrameAadInjective` | crates/s3armor-format/src/v1/frame.rs:49-57 | two frames with the same associated data have the same algorithm, part number, chunk index and last flag |
| `Cipher.FrameAadLayout` | crates/s3armor-format/src/v1/frame.rs:49-57 | where each field of the associated data lies, and its byte order |
| `Cipher.OpenSeal` | crates/s3armor-format/src/v1/frame.rs:61-122 | opening a frame at the position it was sealed for returns the message; a frame is longer than its message by nonce and tag |
| `Cipher.OpensOnlySealed` | crates/s3armor-format/src/v1/frame.rs:95-122 | a frame that opens at a position is a sealing of the returned message for that position |
| `Cipher.OpenErrors` | crates/s3armor-format/src/v1/frame.rs:95-122 | too few bytes are told apart from bytes that do not authenticate |
| `SizeMath.PlaintextLenExact` | crates/s3armor-format/src/v1/frame.rs:128-168 | `plaintext_len(c) = Ok(n)` exactly when `c = ciphertext_len(n)`; it fails exactly when no length encodes to `c` |
| `SizeMath.CiphertextLenIncreasing` | crates/s3armor-format/src/v1/frame.rs:134-138 | `ciphertext_len` is strictly increasing |
| `SizeMath.CiphertextLenNoWrap` | crates/s3armor-format/src/v1/frame.rs:128-138 | for configured chunk sizes nothing wraps up to 2^63, and for every 64-bit length the 64-bit result is right exactly when the true one fits |
| `FrameSpec.EncryptAllLength` | crates/s3armor-format/src/v1/frame.rs:134-138 | a whole ciphertext has the length that `ciphertext_len` announces |
| `FrameCodec.Encryptor.Push` | crates/s3armor-format/src/v1/frame.rs:279-297 | all frames released so far are the frames of every full chunk strictly before the last one fed, whatever the pushes were; at most one chunk is held back |
| `FrameCodec.Encryptor.Finish` | crates/s3armor-format/src/v1/frame.rs:302-311 | everything released is the ciphertext of the concatenation of all pushes |
| `FrameCodec.Decryptor.Push` | crates/s3armor-format/src/v1/frame.rs:371-393 | a push succeeds exactly when every complete frame fed so far opens at its own index, and then everything released is their plaintext; a failure releases nothing |
| `FrameCodec.Decryptor.Finish` | crates/s3armor-format/src/v1/frame.rs:396-405 | the bytes held back are opened at the next index with the flag that the stream was started with |
| `FrameTheorems.EncryptPieces` | crates/s3armor-format/src/v1/frame.rs:279-311 | encrypting any cut of a plaintext gives one and the same ciphertext |
| `FrameTheorems.FrameByIndex` | crates/s3armor-format/src/v1/frame.rs:279-311 | frame `j` of a ciphertext seals slice `j` of the plaintext; exactly `n_chunks` frames, only the last one flagged, and it is empty only for an empty plaintext |
| `FrameTheorems.DecryptBody` | crates/s3armor/src/proxy/body.rs:450-510 | a streamed decryption ends without an error exactly when the body is clean and its payload decrypts as a whole; what was sent before a failure is the opened front of the payload |
| `FrameTheorems.RoundTrip` | crates/s3armor-format/src/v1/frame.rs:410-436 | decryption undoes encryption for every plaintext |
| `FrameTheorems.RoundTripAnyCut` | crates/s3armor-format/src/v1/frame.rs:279-405 | any cut of the plaintext, encrypted, cut again in any way and decrypted, gives the plaintext back |
| `FrameTheorems.SealedOnce` | crates/s3armor-format/src/v1/frame.rs:49-57 | one encryption seals every position at most once: its frames carry different associated data |
| `FrameTheorems.HonestIsGenuine` | crates/s3armor-format/src/v1/frame.rs:61-122 | for every lawful cipher and every plaintext, no frame of the real ciphertext counts as a forgery, so the tamper results below speak of that cipher |
| `FrameTheorems.OpensOnlyItsChunk` | crates/s3armor-format/src/v1/frame.rs:49-122 | a frame that is no forgery opens at a position and flag only if that is the position it was sealed for, and then to its chunk |
| `FrameTheorems.ReleasedIsPrefix` | crates/s3armor-format/src/v1/frame.rs:371-393 | whatever bytes are fed, reordered, cut or repeated frames included: if no frame among them is forged, everything released is a prefix of the sealed plaintext that consists of whole chunks |
| `FrameTheorems.AcceptedIsWhole` | crates/s3armor-format/src/v1/frame.rs:396-405 | any bytes without a forged frame either fail to decrypt or decrypt to the whole sealed plaintext |
| `FrameTheorems.DecryptUntrusted` | crates/s3armor/src/proxy/body.rs:450-510 | a body tampered with in any way short of forging a frame delivers a whole-chunk prefix of the plaintext, and all of it if the stream ends without an error, where the key sealed each position of the stream once |
| `SealedStreams.OpenedIsSealed` | crates/s3armor-format/src/v1/frame.rs:371-393 | however often positions were sealed: everything a decryptor releases consists of whole chunks, each sealed at its own part and index, unflagged |
| `SealedStreams.DeliveredIsSealed` | crates/s3armor-format/src/v1/frame.rs:371-405 | some bytes without a forged frame, of a length that the code accepts, decrypt to a text if and only if every chunk of it was sealed at its own part, index and flag |
| `SealedStreams.OnlyText` | crates/s3armor-format/src/v1/frame.rs:49-57 | where only the chunks of one plaintext were sealed under a part number, that plaintext is the only text that can be delivered for it |
| `EncryptingBody.Encrypting` | crates/s3armor/src/proxy/body.rs:336-425 | the upload ends cleanly exactly when the body is clean, has the declared length and the right digest; then exactly `ciphertext_len` bytes went out, and after any abort, whose reason is stated, strictly fewer |
| `RangePlan.PlanDescribes` | crates/s3armor-format/src/v1/frame.rs:195-238 | a plan names the run of frames that holds the range, where that run lies in the ciphertext, and trims that meet both ends of the range |
| `RangePlan.PlanYieldsRange` | crates/s3armor-format/src/v1/frame.rs:195-238 | decrypting and trimming the planned slice of any ciphertext gives exactly `plaintext[start..end]` |
| `RangePlan.Plan64Exact` | crates/s3armor-format/src/v1/frame.rs:195-238 | the plan that 64-bit arithmetic computes is the true one if and only if the planned stretch ends below 2^64 |
| `RangeReader.RangePart.Push` | crates/s3armor/src/proxy/body.rs:584-612 | what was sent is what has opened, less the leading trim, however the ciphertext was cut |
| `RangeReader.RangePart.Finish` | crates/s3armor/src/proxy/body.rs:619-642 | with the last frame cut to the window, the client has the text of the range exactly when all of it opens |
| `RangeReader.DecryptingRange` | crates/s3armor/src/proxy/body.rs:517-642 | a streamed range ends without an error exactly when its body is clean and readable, and then delivered exactly the trimmed text; before a failure it delivered the front of it |
| `Layout.PartLayout` | crates/s3armor-format/src/v1/multipart.rs:26-44 | the loop lays every part out, in wrapping 64-bit arithmetic, where the parts before it end, in the plaintext and in the ciphertext |
| `Layout.LayoutExact` | crates/s3armor-format/src/v1/multipart.rs:26-44 | the 64-bit layout is the true one if and only if the ciphertexts of all parts but the last, together, and that of the last part, alone, are below 2^64 bytes |
| `Layout.LayoutWraps` | crates/s3armor-format/src/v1/multipart.rs:26-44 | an input on which it is not: behind two parts of 2^63 bytes the third is laid out at the offset of the first |
| `Layout.LayoutOfObject` | crates/s3armor-format/src/v1/multipart.rs:26-44 | it is the true one for every object whose ciphertext length is a 64-bit number |
| `Layout.PlanMultipartRange` | crates/s3armor-format/src/v1/multipart.rs:54-81 | in wrapping 64-bit arithmetic: a range outside the 64-bit total is refused; for spans that fit in 64 bits exactly the satisfiable ranges are planned, and the plan holds every touched part in order with its own share of the range |
| `MultipartObject.LayoutTotals` | crates/s3armor-format/src/v1/multipart.rs:26-44 | the layout of the recorded sizes adds up to the lengths of the object and of its plaintext |
| `MultipartObject.RangeOfObject` | crates/s3armor-format/src/v1/multipart.rs:54-81 | for every part list and range, the planned slices are contiguous in the object, and reading that one stretch part by part gives exactly `plaintext[start..end]` |
| `RangeCursor.RangeCursor.Feed` | crates/s3armor/src/proxy/body.rs:978-1008 | a frame of any size is dealt out to the planned entries: the text of the finished entries and the front of the current one have been sent, or what has arrived can never be read |
| `RangeCursor.RangeCursor.StartNext` | crates/s3armor/src/proxy/body.rs:953-972 | the next entry begins with nothing read and all of its ciphertext due |
| `RangeService.DecryptingMultipartRange` | crates/s3armor/src/proxy/body.rs:838-905 | the stream ends without an error exactly when all planned bytes arrived before any transport error and can be read; then their text was sent, and otherwise only a front of it |
| `RangeService.ResolveRangeExact` | crates/s3armor/src/intercept/get.rs:429-445 | the resolved span holds exactly the bytes that section 14.1.2 of RFC 9110 selects, for every form of range |
| `RangeService.ServeSingle` | crates/s3armor/src/intercept/get.rs:352-405 | whatever length and body the backend returns: which lengths and ranges are refused, and that the stream ends without an error exactly when the body reads as the planned text |
| `RangeService.RangedGetSingle` | crates/s3armor/src/intercept/get.rs:352-405 | the announced span is the resolved one; when the backend serves the planned ciphertext in any framing, exactly `plaintext[start..end]` is delivered; 416 exactly for unsatisfiable ranges |
| `RangeService.ServeMultipart` | crates/s3armor/src/intercept/get.rs:275-351 | the same for listed parts with a ciphertext below 2^64 bytes, in the 64-bit arithmetic of the code |
| `RangeService.RangedGetMultipart` | crates/s3armor/src/intercept/get.rs:275-351 | for every multipart object with a 64-bit length the plan is one contiguous backend range, and serving it in any framing delivers exactly the resolved span; 416 exactly for unsatisfiable ranges |
| `Segments.CannotRead` | crates/s3armor/src/proxy/body.rs:793-815 | a part that cannot open makes every body that starts with the same bytes unreadable, so stopping at the first failure loses nothing |
| `MultipartCursor.WholeObject` | crates/s3armor/src/proxy/body.rs:701-775 | the part segments of an object read as the concatenated part plaintexts and own exactly the object up to the footer |
| `MultipartCursor.MultipartCursor.Feed` | crates/s3armor/src/proxy/body.rs:733-769 | a frame of any size is dealt out to the parts: more is wanted, or all parts were read and sent, or what has arrived can never be read |
| `MultipartCursor.MultipartCursor.FinishPart` | crates/s3armor/src/proxy/body.rs:751-766 | a part that has all of its ciphertext is finished and the next one begun; behind the last one the text of all parts has been sent |
| `MultipartCursor.DecryptingMultipart` | crates/s3armor/src/proxy/body.rs:651-696 | a full read ends without an error exactly when the bytes of all parts arrived and open; bytes behind the last part make no difference; before a failure only a front was sent |
| `FooterCodec.EncodeRecord` | crates/s3armor-format/src/v1/footer.rs:45-63 | the loop writes the record format |
| `FooterCodec.DecodeRecord` | crates/s3armor-format/src/v1/footer.rs:65-106 | accepts exactly the records of footers with strictly ascending numbers and a total equal to the 64-bit sum; what it accepts encodes to the bytes it was read from; every error is named |
| `FooterCodec.CheckRecord` | crates/s3armor-format/src/v1/footer.rs:86-105 | rejects exactly the records that are not well-formed |
| `FooterCodec.IsAscending` | crates/s3armor-format/src/v1/footer.rs:89-95 | comparing neighbours decides whether all part numbers ascend strictly |
| `FooterCodec.RecordInjective` | crates/s3armor-format/src/v1/footer.rs:45-63 | no two footers share a record |
| `FooterCodec.Cursor.Take` | crates/s3armor-format/src/v1/footer.rs:174-181 | a read succeeds exactly when the field lies within the record, and moves behind it |
| `FooterCodec.Cursor.Parts` | crates/s3armor-format/src/v1/footer.rs:72-78 | reads exactly the entries that encode to the bytes read |
| `FooterCodec.Cursor.Md5` | crates/s3armor-format/src/v1/footer.rs:80-85 | accepts exactly an absent or a 16-byte digest that ends the record |
| `SealedFooter.ParseTrailerExact` | crates/s3armor-format/src/v1/footer.rs:129-141 | the accepted trailers are the ones written for frames of 1 to 131072 bytes |
| `SealedFooter.OpenFooter` | crates/s3armor-format/src/v1/footer.rs:145-155 | opens exactly the sealed records whose own algorithm is the one they were opened with |
| `SealedFooter.LoadFooter` | crates/s3armor/src/intercept/footer.rs:61-97 | from any announced length and any answers to the two requests: loads a footer exactly when the first is a trailer that fits and the second, of whatever length, opens to a record; a gateway error exactly when no trailer fits or the second request fails |
| `SealedFooter.ServedLoads` | crates/s3armor/src/intercept/footer.rs:61-97 | from a backend that serves an object loads the footer that the object ends with, and no other |
| `FooterCache.Cache.Get` | crates/s3armor/src/intercept/footer.rs:45-57 | a hit becomes the most recent entry and no lookup changes |
| `FooterCache.Cache.Put` | crates/s3armor/src/intercept/footer.rs:91-97 | the new entry is found; of the others exactly those beyond the capacity, the least recently used, are gone |
| `FooterCache.WithoutExact` | crates/s3armor/src/intercept/footer.rs:45-97 | taking out an entry leaves the others in their order |
| `FooterCache.Cache.Load` | crates/s3armor/src/intercept/footer.rs:37-97 | as long as backend, path and ETag name one object and the backend serves it, loading through the cache gives what loading without it gives |
| `SealedFooter.FooterUnique` | crates/s3armor/src/intercept/footer.rs:61-97 | an object has at most one footer |
| `SealedFooter.CompletedFooterFits` | crates/s3armor-format/src/v1/footer.rs:16-20 | ascending numbers in 1..=10000 allow at most 10000 entries, so every footer a Complete seals is within the length cap |
| `SealedFooter.SealedLoads` | crates/s3armor-format/src/v1/footer.rs:111-155 | a sealed footer is found again behind whatever precedes it |
| `SealedFooter.FullGet` | crates/s3armor/src/intercept/get.rs:156-181 | the announced length is the footer total; the stream ends without an error exactly when the listed parts arrived and open, and then delivered their text |
| `SealedFooter.CompletedReads` | crates/s3armor/src/intercept/get.rs:156-181 | an object made of part ciphertexts and their sealed footer loads that footer and reads back as the part plaintexts |
| `UntrustedReads.ObjectIsSealed` | crates/s3armor-format/src/v1/footer.rs:8-10 | an upload with distinct part numbers, each uploaded once, and its footer seal every position of every part once, and the footer apart from all of them |
| `UntrustedReads.SliceIsSealed` | crates/s3armor/src/proxy/body.rs:584-642 | bytes without a forged frame, put in place of a planned slice, read as what the plan cuts out of consecutive chunks sealed at their own part, index and flag, or not at all |
| `UntrustedReads.RangeIsAuthentic` | crates/s3armor/src/proxy/body.rs:584-642 | where each position was sealed once, that is exactly `plaintext[start..end]` |
| `UntrustedReads.UntrustedRangedSingle` | crates/s3armor/src/intercept/get.rs:352-405 | a ranged read of a single-part object, from any announced length and any body without a forgery, sends bytes of the plaintext from the announced start on, up to the trim of the last frame that arrived; under the true length that is the requested range if and only if as many frames arrived as were planned |
| `UntrustedReads.SealedFullGet` | crates/s3armor/src/intercept/get.rs:156-181 | whatever was sealed how often: a full read without a forgery delivers, for each part that a sealed footer lists, a text of the listed size all of whose chunks were sealed at their own part, index and flag; one that fails has delivered a front of such |
| `UntrustedReads.SealedRangedGet` | crates/s3armor/src/intercept/get.rs:275-351 | the same for ranged reads: what the plan for a sealed footer cuts out of sealed chunks, or a front of it |
| `UntrustedReads.UntrustedFullGet` | crates/s3armor/src/intercept/get.rs:156-181 | where the key sealed one upload of each part and one footer: a full read from a backend that returns anything short of a forgery, footer included, sends a prefix of the uploaded plaintext, and all of it if no error ends the stream |
| `UntrustedReads.UntrustedRangedGet` | crates/s3armor/src/intercept/get.rs:275-351 | under the same condition a ranged read announces the resolved span of the uploaded plaintext, sends a prefix of its bytes, and exactly them if no error ends the stream |
| `HonestReads.HonestObject` | crates/s3armor/src/intercept/mpu.rs:688-731 | for every lawful cipher, an object stored as it was uploaded holds no forged frame of a part or of the footer |
| `HonestReads.HonestRange` | crates/s3armor/src/intercept/get.rs:275-351 | the same for the stretch of the object that serves a range |
| `HonestReads.ServedIsSealed` | crates/s3armor/src/intercept/get.rs:156-181 | answers without a forgery can make a full read deliver a text if and only if some sealed footer and one sealed text for each part that it lists make up that text |
| `HonestReads.OnlyUploadIsServed` | crates/s3armor/src/intercept/get.rs:156-181 | the uploaded plaintext is all that can be served under its footer if and only if no other text of a listed size was sealed under its part number |
| `HonestReads.ReuploadsMix` | crates/s3armor/src/intercept/mpu.rs:203-298 | the case that this leaves open: parts uploaded again with other contents of the same sizes, under the one key of the upload, can be mixed by the backend at will, without a forgery and without an error |
| `HonestReads.OverlongBody` | crates/s3armor/src/proxy/body.rs:517-575 | a single-part body with one frame too many is delivered beyond the requested range |
| `Session.Session.constructor` | crates/s3armor/src/mpu.rs:104-115 | a new session holds its key and nothing else |
| `Session.Session.RecordPart` | crates/s3armor/src/mpu.rs:140-152 | the last recording of a number replaces the older one and touches no other; its tail is buffered or forgotten; a finished session does not change |
| `Session.Session.BufferTail` | crates/s3armor/src/mpu.rs:156-164 | eviction from the lowest number up leaves exactly the entries that fit together with all higher ones |
| `Session.Session.Finish` | crates/s3armor/src/mpu.rs:126-132 | a finished session has its response and no key, parts or tails |
| `Session.KeptFits` | crates/s3armor/src/mpu.rs:156-164 | what is kept never exceeds 15 MiB |
| `Session.EvictionSparesThree` | crates/s3armor/src/mpu.rs:156-164 | with tails under 5 MiB, an evicted number has at least three buffered numbers above it |
| `Upload.ValidateClientParts` | crates/s3armor/src/intercept/mpu.rs:444-458 | accepts exactly the non-empty strictly ascending lists; the maximum it returns is the number of the last entry |
| `Upload.FinalizeParts` | crates/s3armor/src/intercept/mpu.rs:698-729 | the in-place rewrite changes exactly the last entry, or appends one entry with the next number |
| `UploadSafety.StorePartKeeps` | crates/s3armor/src/intercept/mpu.rs:214-298 | storing an encrypted part keeps every invariant, also with other uploads and a Complete in flight |
| `UploadSafety.RecordKeeps` | crates/s3armor/src/mpu.rs:140-164 | recording a part keeps tails and recordings of the same upload together |
| `UploadSafety.SnapKeeps` | crates/s3armor/src/intercept/mpu.rs:478-543 | a snapshot that passes the checks names uploads of the listed numbers, their sizes, and a tail that is the ciphertext of the last one |
| `UploadSafety.FinalBodies` | crates/s3armor/src/intercept/mpu.rs:688-731 | wherever the footer was placed, the final list names the part ciphertexts in order and then the footer |
| `UploadSafety.StrayKeeps` | crates/s3armor/src/intercept/mpu.rs:593-678 | a part, footer or Complete that reaches the backend after its request failed or was cancelled keeps the data invariant too |
| `UploadSafety.DataStep` | crates/s3armor/src/intercept/mpu.rs:177-412 | every step of every request, strays included, keeps the data invariant of session, requests and backend |
| `UploadSafety.HolderStep` | crates/s3armor/src/intercept/mpu.rs:549-672 | every step keeps the claim unique |
| `UploadSafety.RunKeeps` | crates/s3armor/src/intercept/mpu.rs:177-412 | both invariants hold in every state of every interleaving |
| `UploadSafety.AcceptedObject` | crates/s3armor/src/intercept/mpu.rs:593-731 | whenever the backend accepts a Complete, also one whose answer is lost, the object is the listed parts' ciphertexts in order and their sealed footer, and reads back as exactly the listed parts' plaintexts |
| `UploadSafety.FooterPlacement` | crates/s3armor/src/intercept/mpu.rs:522-543 | a Complete that passed its checks merges the footer with the very upload it lists last, or that upload has at least 5 MiB |
| `UploadSafety.BufferedTails` | crates/s3armor/src/mpu.rs:140-164 | in every run the tails total at most 15 MiB and belong to the recording of their number |
| `UploadSafety.CompletedOnce` | crates/s3armor/src/intercept/mpu.rs:593-678 | an upload is completed at most once, and the object never changes afterwards |
| `UploadSafety.OneClaim` | crates/s3armor/src/intercept/mpu.rs:549-571 | in every run at most one Complete holds the claim |
| `UploadSafety.FinishedStays` | crates/s3armor/src/intercept/mpu.rs:355-412 | a finished session never changes until it is removed and never comes back; it has no key, parts or tails; every later Complete gets its cached response or no upload |
| `UploadSafety.UndisturbedCompletes` | crates/s3armor/src/intercept/mpu.rs:593-678 | a Complete whose listed parts are still current and which meets no other claim can run to an accepted object and a finished session |
| `UploadProgress.RecordsAreLast` | crates/s3armor/src/mpu.rs:140-164 | in every run, an open session holds for each number the size and ETag of the last part recorded for it, and its ciphertext exactly when that is under 5 MiB and was not evicted since |
| `UploadProgress.RecordedMatches` | crates/s3armor/src/mpu.rs:140-144 | right after a part was recorded a Complete may list it under its new ETag only, and other numbers as before |
| `UploadProgress.SnapExact` | crates/s3armor/src/intercept/mpu.rs:444-543 | in every state of every run, a Complete passes its checks on an open session if and only if its list is non-empty and ascending, names the last upload of each number, and ends with one that has at least 5 MiB or is still buffered |
| `UploadProgress.RefusalExact` | crates/s3armor/src/intercept/mpu.rs:444-543 | a Complete that does not pass is told of a wrong order if its list does not ascend, and of an invalid part otherwise |
| `UploadProgress.UploadGoesOn` | crates/s3armor/src/intercept/mpu.rs:177-298 | in every run an UploadPart can begin exactly on an open session with a permitted number, and store and record its part whatever else goes on |
| `UploadProgress.CompleteGoesOn` | crates/s3armor/src/intercept/mpu.rs:549-672 | in every run a checked Complete can claim exactly an open session that is not claimed, and succeeds exactly when its list is current then |
| `UploadProgress.HighStaysBuffered` | crates/s3armor/src/mpu.rs:156-164 | in every run, a small part stays buffered as long as fewer than three higher numbers are recorded |
| `UploadProgress.HighestPasses` | crates/s3armor/src/intercept/mpu.rs:522-543 | so a Complete that lists the last uploads and leaves out fewer than three higher numbers always passes its checks |
| `UploadProgress.ClaimExact` | crates/s3armor/src/intercept/mpu.rs:549-672 | in every run, an open session is claimed if and only if some Complete holds the claim or one was cancelled that did; in the second case nobody holds it any more |
| `UploadProgress.EveryUploadCompletes` | crates/s3armor/src/intercept/mpu.rs:177-412 | for any parts with ascending numbers, of any sizes, there is a run of uploads and a Complete that stores exactly these parts, reads back as their plaintexts and leaves the cached response |
| `SessionCap.CapHolds` | crates/s3armor/src/mpu.rs:192-239 | with at most T creates at a time, sessions plus granted slots never exceed the cap minus one plus T; over the whole past evictions equal the slots granted at the cap, and sessions, open slots, slots given up and sessions removed add up to the slots granted below it |
| `SessionCap.GrantIsPaid` | crates/s3armor/src/mpu.rs:217-239 | a slot is granted below the cap, or by a step that removes one session |
| `SessionCap.GrantExact` | crates/s3armor/src/mpu.rs:217-239 | a create gets a slot at its look exactly when the map is below the cap, and at its removal exactly when the victim is still there and finished; otherwise it scans again |
| `SessionCap.OnlyAtCap` | crates/s3armor/src/mpu.rs:217-230 | in every run, a create that scans, and so every one that is turned away, found the map at the cap when it looked |
| `SessionCap.CreatesGoOn` | crates/s3armor/src/mpu.rs:192-239 | in every run each create can take its next step at once, and one with a slot can insert any session that is new |
| `SessionCap.EntryStays` | crates/s3armor/src/mpu.rs:192-239 | a session enters the map by an insert, and leaves it only by a removal or, finished, as a victim |
| `SessionCap.EntryExact` | crates/s3armor/src/mpu.rs:117-152 | in every run, a session is finished exactly when the last event that made it what it is was its finish, and its last activity is that of the last event that used it |
| `SessionCap.CreatesSpareOpen` | crates/s3armor/src/mpu.rs:217-239 | no step of a create removes or changes an open session |
| `SessionCap.TurnedAway` | crates/s3armor/src/mpu.rs:221-230 | while the map changes under the scan: a finished session that is there throughout keeps the create from being turned away, and where all sessions are open throughout it is turned away |
| `SessionCap.OldestIsChosen` | crates/s3armor/src/mpu.rs:222-227 | in a map that does not change meanwhile, the victim is a finished session that has been idle for longest |
| `ChunkedWire.FindCrlf` | crates/s3armor/src/chunked.rs:312-314 | the first CRLF, or none at all |
| `ChunkedWire.StepConsumes` | crates/s3armor/src/chunked.rs:180-309 | every step that goes on consumes bytes from the front, so the feed loop ends |
| `ChunkedCuts.OneFeed` | crates/s3armor/src/chunked.rs:180-309 | if any cutting of a stream decodes, one feed of all of it decodes to the same chunks, trailers and state |
| `ChunkedCuts.EveryCut` | crates/s3armor/src/chunked.rs:180-309 | a stream that decodes in one feed decodes alike under every cutting if and only if every terminated line has at most 8191 bytes |
| `ChunkedCuts.LongLineFails` | crates/s3armor/src/chunked.rs:46-50 | a longer line fails when it is cut before its line feed |
| `ChunkedPrinter.CuttingMatters` | crates/s3armor/src/chunked.rs:210-217 | a concrete stream, its header written with 8192 zeros, that decodes in one feed and fails in two |
| `ChunkedCuts.PendingBounded` | crates/s3armor/src/chunked.rs:180-309 | between feeds the pending bytes are within the bound of the state, and at most 32 trailers are held |
| `ChunkedCuts.EndsWithTerminator` | crates/s3armor/src/chunked.rs:210-236 | decoded chunks are non-empty but for one empty terminator behind them |
| `Dechunker.Dechunker.StepHeader` | crates/s3armor/src/chunked.rs:210-236 | takes the header step of the wire format |
| `Dechunker.Dechunker.StepData` | crates/s3armor/src/chunked.rs:240-256 | takes the data step of the wire format |
| `Dechunker.Dechunker.StepDataCrlf` | crates/s3armor/src/chunked.rs:264-274 | takes the CRLF step of the wire format |
| `Dechunker.Dechunker.StepTrailers` | crates/s3armor/src/chunked.rs:283-309 | takes the trailer step of the wire format |
| `Dechunker.Dechunker.Feed` | crates/s3armor/src/chunked.rs:180-200 | the loop takes every step that the bytes allow, and returns exactly the chunks that became complete |
| `Numerals.ParseExact` | crates/s3armor/src/chunked.rs:318-324 | a text parses as a number exactly when it consists of digits of that base in either case, with any leading zeros and an optional plus sign, and its positional value is below the limit |
| `ChunkedPrinter.HeaderExact` | crates/s3armor/src/chunked.rs:318-332 | a header line parses to a size and a signature exactly when it says them, in any spelling of the size, and the size is within the limit |
| `ChunkedPrinter.TooLargeExact` | crates/s3armor/src/chunked.rs:318-332 | a 64-bit size above the limit, and nothing else, is reported as too large; every other failure is a malformed header |
| `ChunkedPrinter.TrailerExact` | crates/s3armor/src/chunked.rs:305-309 | a trailer line parses exactly when it has a colon, to the trimmed texts before and behind the first one |
| `ChunkedWire.StepFails` | crates/s3armor/src/chunked.rs:210-309 | which error each state reports, and that a pending line fails exactly beyond 8192 bytes |
| `ChunkedPrinter.PrintParses` | crates/s3armor/src/chunked.rs:180-332 | the decoder inverts the wire printer for every list of non-empty chunks within the cap (data may hold CRLF), terminator and up to 32 trailers, in every spelling of their lines |
| `ChunkedPrinter.DecodesExactly` | crates/s3armor/src/chunked.rs:180-332 | a stream is read to its end, with these chunks and trailers, if and only if it is a printed stream of them |
| `ChunkedPrinter.PrintedEveryCut` | crates/s3armor/src/chunked.rs:180-332 | a printed stream decodes to what was printed under every cutting if and only if all of its header and trailer lines have at most 8191 bytes |
| `ChunkedBody.ChunkVerifier.VerifyAndAdvance` | crates/s3armor/src/chunked.rs:112-125 | accepts exactly the signature that is next in the chain; a rejected one leaves the chain where it was |
| `ChunkedBody.ForwardChunks` | crates/s3armor/src/proxy/body.rs:271-300 | forwards exactly the chunks up to the first that breaks the chain |
| `ChunkedBody.Dechunking` | crates/s3armor/src/proxy/body.rs:205-300 | what is forwarded is always the data of a prefix of verified chunks; the stream ends without an error exactly when it is whole, decodes to its end and every chunk is verified |
| `ChunkedBody.AcceptableIsWhole` | crates/s3armor/src/proxy/body.rs:205-300 | an accepted stream delivered what one feed of its payload decodes to, closed by a verified empty chunk |
| `CivilTime.DaysRoundTrip` | crates/s3armor/src/sigv4/time.rs:17-55 | for every integer, the date of a day number is real and has that number |
| `CivilTime.DateRoundTrip` | crates/s3armor/src/sigv4/time.rs:17-55 | every real date comes back from its day number |
| `CivilTime.TomorrowIsNext` | crates/s3armor/src/sigv4/time.rs:17-28 | the next day of the Gregorian calendar has the next number |
| `CivilTime.Epoch` | crates/s3armor/src/sigv4/time.rs:9-28 | 1970-01-01 has number 0 |
| `CivilTime.DaysIncrease` | crates/s3armor/src/sigv4/time.rs:17-28 | day numbers order real dates as the calendar does |
| `CivilTime.YearOfEraExact` | crates/s3armor/src/sigv4/time.rs:41-49 | the closed form finds the year of every day of an era |
| `AmzDate.AmzDateRoundTrip` | crates/s3armor/src/sigv4/time.rs:61-112 | parsing undoes printing if and only if the second lies before the year 10000 |
| `AmzDate.ParseAmzDateExact` | crates/s3armor/src/sigv4/time.rs:61-84 | a text is a timestamp exactly when its six numbers are a day not before 1970, an hour, a minute and a second up to 60 |
| `CivilTime.DaysOfMonth` | crates/s3armor/src/sigv4/time.rs:17-28 | every day from 1 to 31 is taken in every month and counted on from the first |
| `PathBinding.BindingInjective` | crates/s3armor-format/src/v1/wrap.rs:112-118 | paths whose buckets hold no NUL never share a binding |
| `PathBinding.WrapAadInjective` | crates/s3armor-format/src/v1/wrap.rs:120-128 | for one key, different bindings give different associated data, the empty one included |
| `PathBinding.WrapsBind` | crates/s3armor-format/src/v1/wrap.rs:63-128 | with an authenticated cipher under the binding label, a wrapped key opens under the binding it was wrapped for and under no other |
| `PathBinding.BoundElsewhereFails` | crates/s3armor/src/intercept/mod.rs:139-166 | a key that is bound to one path fails to resolve at every other path, strict or not |
| `PathBinding.MovedIsRefused` | crates/s3armor/src/tools/rewrap.rs:448-566 | after a rebind the object opens at its own path, and a copy of it made behind the proxy is refused everywhere else |
| `PathBinding.OwnedResolves` | crates/s3armor/src/intercept/mod.rs:139-166 | with binding on, an object that is unbound or bound to its own path resolves to its data key |
| `PathBinding.StepKeepsOwned` | crates/s3armor/src/intercept/copy.rs:110-233 | a write, copy, rewrap or rebind leaves every object unbound or bound to its own path |
| `PathBinding.RunStaysReadable` | crates/s3armor/src/tools/rewrap.rs:208-566 | every run of writes, copies, rewraps and rebinds keeps every encrypted object readable at its own path with its own data key |
| `PathBinding.RotationsStayReadable` | crates/s3armor/src/tools/rewrap.rs:208-299 | so does any number of rotations to other active keys, whatever happens between them, as long as no readable key is dropped |
| `PathBinding.OldKeysRetire` | crates/s3armor/src/tools/rewrap.rs:107-299 | once a listing of the whole store was rewrapped, every object is readable with the active key alone |
| `PathBinding.DataSurvives` | crates/s3armor/src/intercept/copy.rs:167-233 | only writes and deletions change data; rewraps leave it alone and copies carry it over |
| `PathBinding.RunIsSimple` | crates/s3armor/src/intercept/copy.rs:110-233 | every run of writes, copies, deletions, rewraps and rebinds leaves the contents that it would leave in a store without keys: writes and copies take effect and nothing else changes contents |
| `PathBinding.PutResolves` | crates/s3armor/src/intercept/mod.rs:100-166 | in every mode a written object is there, resolves at its path to its key, and is bound to it unless binding is off; nothing else changes |
| `PathBinding.CopyExact` | crates/s3armor/src/intercept/copy.rs:110-233 | in every mode a copy of an object that resolves takes effect and resolves at its destination; replacing the metadata of an encrypted object, a missing source or one that does not resolve changes nothing |
| `PathBinding.RewrapExact` | crates/s3armor/src/tools/rewrap.rs:208-299 | a rewrap moves an object onto the active key, bound to its path, exactly when it names another key id |
| `PathBinding.MissingKey` | crates/s3armor/src/intercept/mod.rs:139-166 | a key that is not configured is reported as such, and exactly then |
| `PathBinding.RebindBinds` | crates/s3armor/src/tools/rewrap.rs:448-566 | rebinding an object that is unbound, bound to its path or bound to the named old bucket leaves it bound to its path, with its data |
| `PathBinding.RebindIsIdempotent` | crates/s3armor/src/tools/rewrap.rs:474-484 | rebinding a bound object changes nothing |
| `PathBinding.RebindIsLocal` | crates/s3armor/src/tools/rewrap.rs:448-566 | a rebind depends on its own object and changes no other, so the order in which workers take objects makes no difference |
| `PathBinding.RebindAll` | crates/s3armor/src/tools/rewrap.rs:377-446 | the migration of what a checkpoint leaves of a listing: a dry run changes nothing and reports exactly what the real run reports; a real run changes no data, fails only on objects that no binding opens, makes every bindable object readable under strict binding, and checkpoints what opens, so that a later run can go on from there |
| `UriCodec.KeyPathRoundTrip` | crates/s3armor/src/proxy/route.rs:203-226 | decoding the request path of a key gives the key, so tools and requests bind alike |
| `UriCodec.KeyPathSegments` | crates/s3armor/src/proxy/route.rs:203-226 | the path has the segments of the key, each encoded |
| `UriCodec.DecodeEncode` | crates/s3armor/src/sigv4/canonical.rs:35-42 | percent-decoding undoes percent-encoding, for all bytes |
| `UriCodec.EncodeExact` | crates/s3armor/src/sigv4/canonical.rs:29-42 | the encoding is the one spelling in which unreserved bytes stand for themselves and all others are escaped in upper case |
| `UriCodec.UnreservedExact` | crates/s3armor/src/sigv4/canonical.rs:29-33 | the unreserved bytes are letters, digits, hyphen, period, underscore and tilde |
| `UriCodec.DecodesSpelled` | crates/s3armor/src/sigv4/canonical.rs:92-94 | every spelling, with escapes in digits of either case, decodes to what it spells |
| `UriCodec.DecodesLiterally` | crates/s3armor/src/sigv4/canonical.rs:92-94 | a text without a well-formed escape decodes to itself |
| `UriCodec.CanonicalUriExact` | crates/s3armor/src/sigv4/canonical.rs:83-101 | two paths have one canonical URI if and only if their decoded segments are equal |
| `UriCodec.CanonicalUriIdempotent` | crates/s3armor/src/sigv4/canonical.rs:83-101 | a canonical URI is its own canonical form |
| `CanonicalQuery.CanonicalPermutes` | crates/s3armor/src/sigv4/canonical.rs:107-133 | reordering the pairs of a query does not change its canonical form |
| `CanonicalQuery.CanonicalIdempotent` | crates/s3armor/src/sigv4/canonical.rs:107-133 | a canonical query is its own canonical form |
| `CanonicalQuery.CanonicalExact` | crates/s3armor/src/sigv4/canonical.rs:107-133 | two queries have one canonical form if and only if they hold the same decoded names and values, each as often, outside the excluded names |
| `CanonicalQuery.CanonicalReads` | crates/s3armor/src/sigv4/canonical.rs:107-133 | the canonical form says what the query says, but for the excluded names |
| `CanonicalQuery.CanonicalArranges` | crates/s3armor/src/sigv4/canonical.rs:124-132 | it prints the encoded pairs in ascending order of name and value |
| `CanonicalQuery.BytesLeExact` | crates/s3armor/src/sigv4/canonical.rs:126-127 | that order is byte order: one text begins the other or is smaller where they first differ |
| `CanonicalQuery.SplitParamExact` | crates/s3armor/src/sigv4/canonical.rs:114-115 | a piece is split at its first equals sign; without one it is a name with an empty value |
| `SigV4.SignedNamesSorted` | crates/s3armor/src/sigv4/canonical.rs:158-169 | the signed names are the given ones in lower case, strictly sorted |
| `SigV4.LessExact` | crates/s3armor/src/sigv4/canonical.rs:162-167 | the order of names: one begins the other or is smaller where they first differ |
| `SigV4.LowerExact` | crates/s3armor/src/sigv4/canonical.rs:162-165 | capital letters, and nothing else, become small ones |
| `SigV4.ParseFields` | crates/s3armor/src/sigv4/verify.rs:229-249 | the loop fails exactly when a field has no equals sign, and otherwise gives each name the value of its last field |
| `SigV4.Verify` | crates/s3armor/src/sigv4/verify.rs:185-425 | gives the verdict that the theorems below speak of, by query or by header, with the named error of every failed check in the order of the checks |
| `SigV4.ParseQueryPairs` | crates/s3armor/src/sigv4/verify.rs:155-166 | the loop collects the decoded pairs of a query, the last one of a name winning |
| `SigV4.CredentialParses` | crates/s3armor/src/sigv4/verify.rs:100-116 | a printed credential parses into its parts |
| `SigV4.SignedNamesParse` | crates/s3armor/src/sigv4/verify.rs:127-145 | a printed list of signed names validates as itself |
| `SigV4.AllAmzSigned` | crates/s3armor/src/sigv4/verify.rs:78-83 | no unsigned header is reported exactly when every x-amz header is among the signed names |
| `SigV4.FirstUnsigned` | crates/s3armor/src/sigv4/verify.rs:78-83 | the header that is reported is the first x-amz header outside the signed names |
| `SigV4.SignedVerifies` | crates/s3armor/src/sigv4/sign.rs:19-53 | the header that the signer builds passes every check on the request it was built for |
| `SigV4.SignedIsAccepted` | crates/s3armor/src/sigv4/sign.rs:19-53 | a request without a query signature is accepted once the signer's header has been put anywhere among its headers, in any spelling of its name, for a known key, clean names and a date within the skew |
| `SigV4.AcceptedIsSigned` | crates/s3armor/src/sigv4/verify.rs:217-315 | an accepted header carries the signature of this request under the resolved client's secret, over the host and every x-amz header, within the skew |
| `SigV4.PresignedIsSigned` | crates/s3armor/src/sigv4/verify.rs:317-425 | an accepted presigned request carries the signature of its canonical form without that signature, under the resolved client's secret, over the host and every x-amz header; it is at most as old as it says, at most seven days, and not from the future beyond the skew |
| `SigV4Exact.CredentialExact` | crates/s3armor/src/sigv4/verify.rs:100-116 | a credential parses exactly when it is four texts without slashes and the terminator |
| `SigV4Exact.NamesExact` | crates/s3armor/src/sigv4/verify.rs:127-145 | a list of names is valid exactly when it is made of different non-empty lowercase names with the host among them |
| `SigV4Exact.ResolveExact` | crates/s3armor/src/sigv4/verify.rs:168-173 | the client is the first one with that access key |
| `SigV4Exact.ValueExact` | crates/s3armor/src/sigv4/verify.rs:147-152 | the value of a header is that of the first one of its name in any spelling |
| `SigV4Exact.PairsExact` | crates/s3armor/src/sigv4/verify.rs:155-166 | the pairs of a query hold exactly the last value given for each name |
| `SigV4Exact.HeaderExact` | crates/s3armor/src/sigv4/verify.rs:217-315 | a header is accepted if and only if its fields name a known client, the host and every x-amz header, and carry that client's signature of this request, made on the day it says and at most fifteen minutes from now |
| `SigV4Exact.PresignedExact` | crates/s3armor/src/sigv4/verify.rs:317-425 | a presigned request is accepted if and only if its query does the same, and now is neither more than fifteen minutes before its date nor later than its lifetime of one second to seven days allows |
| `SigV4Exact.PresignedUrl` | crates/s3armor/src/sigv4/verify.rs:317-425 | a URL printed from credential, date, lifetime, names and signature among any other parameters in any order is accepted exactly then, where the signature is that of the request before it was added |
| `SigV4Exact.AgeExact` | crates/s3armor/src/sigv4/verify.rs:371-384 | when a presigned request is too early and when it has expired |
| `SigV4Exact.HeaderVerdict` | crates/s3armor/src/sigv4/verify.rs:252-301 | a header with a readable ticket gets the error of the first check that fails |
| `SigV4Exact.QueryVerdict` | crates/s3armor/src/sigv4/verify.rs:355-411 | so does a presigned query |
| `SigV4Exact.HeaderMalformed` | crates/s3armor/src/sigv4/verify.rs:227-255 | what is a malformed header and what are bad names |
| `SigningText.RequestTextInjective` | crates/s3armor/src/sigv4/canonical.rs:206-217 | the text of a canonical request determines verb, URI, query, header block, names and payload hash, whatever header values hold |
| `SigningText.RequestLines` | crates/s3armor/src/sigv4/canonical.rs:206-217 | the lines of that text and their order |
| `SigningText.SigningLines` | crates/s3armor/src/sigv4/canonical.rs:219-230 | the lines of the text that is signed and their order |
| `SigningText.SignedAlike` | crates/s3armor/src/sigv4/canonical.rs:135-151 | two header values are signed alike if and only if they have the same words between blanks |
| `SigningText.ValuesExact` | crates/s3armor/src/sigv4/canonical.rs:179-197 | the values of a name are signed in the order of its headers, each as its words |
| `SigningText.RecomputedIsPrinted` | crates/s3armor/src/sigv4/canonical.rs:206-226 | the text that the verifier signs again for a request that came over HTTP meets the condition of that |
| `SigningText.SignatureIsBound` | crates/s3armor/src/sigv4/canonical.rs:219-247 | as long as neither the digested texts nor the hashed pairs collide, a signature belongs to one secret, scope, date and canonical request |
| `SigningText.SuiteSigns` | crates/s3armor/src/sigv4/canonical.rs:238-247 | the signature of the real construction is one that the header round trip covers |
| `SigningText.OnlySecretSigns` | crates/s3armor/src/sigv4/verify.rs:217-315 | of all signings made, the one with the signature of an accepted header used the resolved client's secret for this very request and date |
| `SigningText.HeaderIsBound` | crates/s3armor/src/sigv4/verify.rs:217-315 | two requests accepted with one header agree in verb, decoded path, decoded query parameters, payload hash, date and the value of every signed header |
| `SigningText.PresignedIsBound` | crates/s3armor/src/sigv4/verify.rs:317-425 | two presigned requests accepted with one signature agree in verb, decoded path, decoded query parameters but for the signature, date and signed headers |

## Left out

- FrameTheorems.DecryptAll: names every failure of an unflagged frame `AuthFailed`; the streamed readers do not model which error text the client sees.
- SealedFooter.FullGet: takes the ciphertext lengths of the listed parts as unbounded integers; `Layout.LayoutExact` states when the 64-bit ones are the same.
- Layout.PlanMultipartRange: for spans whose sums pass 2^64 states the refusals by the wrapped total only, not what is planned.
- PathBinding.RebindAll: takes a listing without repetitions, and the backend's copy requests as never failing.
- UntrustedReads.SealedFullGet: loads the footer from the backend; a footer that a lying ETag takes from the cache is not covered.
- SigningText.PresignedIsBound: asks that the decoded credential, date and names of a presigned query are single lines, which the code does not check.
- The ciphers, hashes, key wrapping, base64, XML and UTF-8 themselves.
- Asynchronous tasks, channels, timeouts, TLS, connection handling, metrics and error rendering.
- Creating a multipart upload on the backend and parsing of its XML.
- Parsing the `Range` header text, conditional requests, and the classification of operations.
- Object metadata as headers, and the headers that copies and rewraps carry along.
- Expiry by clock: in the upload protocol a session may be removed at any step.
- The rate limiter, configuration, the benchmark and check tools.
