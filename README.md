# AirPlay RTSP client and receiver metadata, in Dafny

This project models the core of the `airplay` crate.

- **The RTSP control client** (`src/rtsp/mod.rs`). A `Request` is built with default headers and is normalised with a `CSeq` and a `Content-Length`. `Client::request` takes the next sequence number, registers the request as pending, and writes the encoded frame. The listener task reads the connection in pieces of at most 128 bytes. It cuts each read at its longest well-formed UTF-8 prefix and keeps an unfinished line ("hanging"). It takes the status line and the `name: value` headers up to a blank line. It then reads the `Content-Length` body and routes the response to the pending request that its `CSeq` names.
- **The AirPlay feature flags and the TXT decoders** (`src/lib.rs`). These are the 64-bit `features` word and its two-halves form, `is_sane`, and the decoding of an `_airplay._tcp.local` service instance into `AirPlayReceiverMeta` by `response_to_meta`.

Modules:

| file | module | what it holds |
|---|---|---|
| `wrappers.dfy` | `Wrappers` | `Option` and `Result` |
| `text.dfy` | `Text` | bytes, and the `str` operations the source uses: `find` (so `contains` is `Find(..).Some?`), `split_once`, `trim_start_matches`, `trim_end_matches` |
| `numbers.dfy` | `Numbers` | `from_str_radix` / `str::parse` for a given width, `to_string` and `{:X}` digit strings, and their round trips |
| `utf8.dfy` | `Utf8` | `Utf8Error::valid_up_to`: the longest well-formed prefix |
| `rtsp.dfy` | `Rtsp` | `Method`, `Body`, the `Request` class (`new`, `set_header`, `normalize`) and the request encoding |
| `frames.dfy` | `Frames` | the listener's reader: the line scanner, one read as a function (`Feed`), the `Reader` class that does it in place, and the body and response step |
| `client.dfy` | `RtspClient` | the `Client` class: the sequence counter, the pending table, the bytes written, and the listener's events |
| `features.dfy` | `AirPlayFeatures` | `is_bit_set`, `From<u64>` and `From<(u32, u32)>` |
| `receiver_meta.dfy` | `ReceiverMeta` | `AirPlayReceiverMeta`, `is_sane`, the TXT map and the field decoders, and `response_to_meta` |

The `Client` is one sequential object. The listener task becomes three events, one for each thing it waits on:

- `OnRead(chunk)`: `rx.read` returned bytes, or end of stream when the chunk is empty.
- `OnReadError`: `rx.read` failed.
- `OnBody(more)`: `read_exact` delivered the missing body bytes.

A panic of the listener task becomes `listening == false`. That covers a header line without `": "` and a `Content-Length` that is not a `usize`.

A plist is a value of an abstract type. A `PlistCodec` parameter supplies its `to_writer_binary` and `from_bytes`. A header map's iteration order is a parameter `order` that lists every key once.

The model follows the code in these places, where the intended protocol behaves differently:

- Every response gets the status 9 (`response_code = 9`) whatever its status line says. The exception is a header phase that a read error ends before the first line is complete: that response keeps the initial status -1.
- A response with `Content-Length: 0` has as its body whatever was buffered after the blank line (`Raw([])` when nothing was), or a plist if the response has `Content-Type: application/x-apple-binary-plist` and the codec decodes it. It is not `None`.
- The body is everything buffered after the blank line plus what `read_exact` adds. When one read reaches past the body, the extra bytes become part of this body and the next pass starts empty.
- A read that begins with a UTF-8 continuation byte, because the previous read cut a character, is set aside whole. None of its lines are scanned (`Frames.ContinuationReadSetAside`). So splitting a frame inside a multi-byte character changes what is read.
- `normalize` leaves a caller's own `Content-Length` in place when the body is empty.
- `response_to_meta` strips `0x` from `flags` and reads the rest in base 10 (see Findings). `ResponseToMeta` does the same, so `flags=0x1A` makes it fail and `flags=0x244` gives 244. `IntendedResponseToMeta` reads the value in base 16.

## Model

| member | source | states |
|---|---|---|
| Rtsp.MethodName | src/rtsp/mod.rs:19-33 | `to_string` of a method is a non-empty word of upper-case letters and underscores |
| Rtsp.MethodNameInjective | src/rtsp/mod.rs:19-33 | distinct methods are sent as distinct words |
| Rtsp.BodyBytes | src/rtsp/mod.rs:232-240 | the bytes a body is sent as: the codec's encoding of a plist, the raw bytes, or nothing; `Frames.BodyReadBack` states what they read back as |
| Rtsp.Request.constructor | src/rtsp/mod.rs:51-61 | a new request has the given method and path and no body; its only headers are `X-Apple-ProtocolVersion: 1` and `User-Agent: AirPlay/409.16` |
| Rtsp.Request.SetHeader | src/rtsp/mod.rs:63-65 | the map gets `name := value` (last write wins); the previous value comes back when there was one; method, path and body are unchanged |
| Rtsp.NormalizedHeaders | src/rtsp/mod.rs:67-83 | `CSeq` is the decimal sequence number; a non-empty body sets `Content-Length` to its decimal length; an empty body leaves `Content-Length` as the caller left it; every other header is kept |
| Rtsp.Request.Normalize | src/rtsp/mod.rs:67-83 | the headers become the normalised old headers for the serialised body's length and the sequence number; nothing else changes |
| Rtsp.EncodeHead | src/rtsp/mod.rs:222-228 | the text is the request line, one `name: value` line per header in iteration order, and a blank line, each ended by CRLF |
| Rtsp.EncodeRequest | src/rtsp/mod.rs:222-240 | the frame is that text followed by the body bytes: the encoded plist, the raw bytes, or nothing |
| Rtsp.Prepare | src/rtsp/mod.rs:220-240 | normalise, then encode: the frame is the encoding of the normalised request |
| Rtsp.ContentLengthMatchesBody | src/rtsp/mod.rs:78-80 | after normalisation, a non-empty body's `Content-Length` parses back to exactly the number of bytes after the blank line |
| Frames.ScanLines | src/rtsp/mod.rs:140-153 | scanning only moves the status from unset to 9, ends the header block only once a status is set, and never removes a header |
| Frames.ScanAppend | src/rtsp/mod.rs:140-155 | appending bytes keeps a malformed line malformed and an ended block ended, with the new bytes after what was left; otherwise the scan goes on from the hanging text |
| Frames.ScanLinesRest | src/rtsp/mod.rs:140-155 | what is left is a suffix of the text, and holds no CRLF unless the header block ended |
| Frames.Feed | src/rtsp/mod.rs:125-155 | one read adds to `leftover` exactly the bytes after the chunk's longest well-formed prefix; a block that ends has a status |
| Frames.FeedValid | src/rtsp/mod.rs:125-135 | a read of well-formed text sets nothing aside and scans the hanging text followed by it |
| Frames.FeedSplit | src/rtsp/mod.rs:135-155 | reading well-formed `a` and then `b` equals reading `a + b` while the block stays open: a line cut by a read boundary is completed |
| Frames.FeedPrefixOpen | src/rtsp/mod.rs:140-158 | if reading `a + b` leaves the block open, reading `a` alone does too |
| Frames.FeedAll | src/rtsp/mod.rs:120-160 | reading several chunks in turn only adds to `leftover`, and a block it ends has a status |
| Frames.FeedAllConcat | src/rtsp/mod.rs:120-160 | reading chunks one by one equals reading their concatenation at once, when every chunk but the last is well-formed and the header block is still open, with no malformed line, after all but the last chunk |
| Frames.HeaderLinesScan | src/rtsp/mod.rs:140-153 | header lines followed by a blank line are read back into the headers they were written from |
| Frames.ParseBack | src/rtsp/mod.rs:140-153 | a head is read back from a fresh state into status 9 and exactly the headers it was written from; what follows is left over |
| Frames.FeedAllHead | src/rtsp/mod.rs:120-160 | a head delivered over several reads ends the block with what the head alone gives, and keeps every later byte |
| Frames.ReadBack | src/rtsp/mod.rs:112-166 | from a fresh state, such a delivery gives status 9, exactly the head's headers, and every later byte buffered in stream order |
| Frames.Buffered | src/rtsp/mod.rs:162-166 | the bytes kept for the body are `hanging` followed by `leftover` |
| Frames.Plan | src/rtsp/mod.rs:168-169 | no body exactly when `Content-Length` is absent; failure exactly when it is present but not a `usize`; a length fits 64 bits |
| Frames.Missing | src/rtsp/mod.rs:173-177 | nothing is missing without a body; otherwise buffered plus missing reaches the length, and equals it when anything is missing |
| Frames.Classify | src/rtsp/mod.rs:179-189 | a plist exactly when `Content-Type` is the binary plist type and the bytes decode; otherwise the raw bytes; never `None` |
| Frames.Respond | src/rtsp/mod.rs:162-196 | the response exists exactly when the length parses; it has the scanned status and headers; its body is `None` exactly when `Content-Length` is absent, and is otherwise classified from the buffered bytes plus the bytes read after them, which number the greater of the length and what was buffered |
| Frames.PlanOfNormalized | src/rtsp/mod.rs:168-169 | the length a normalised request announces is read back as its body length |
| Frames.RespondBuffered | src/rtsp/mod.rs:171-177 | when the whole body was buffered, nothing more is read and the body is exactly those bytes |
| Frames.RespondCompleted | src/rtsp/mod.rs:173-177 | when only part was buffered, `read_exact` fetches exactly the rest and the body is the whole of it |
| Frames.BodyReadBack | src/rtsp/mod.rs:179-189 | a body's bytes are classified back into the same body: a plist under the binary plist type when the codec reads its own output back, raw bytes otherwise |
| Frames.CutCharacterSetAside | src/rtsp/mod.rs:125-131 | a read ending in the lead byte of a multi-byte character sets that byte aside and otherwise reads as the text before it |
| Frames.ContinuationReadSetAside | src/rtsp/mod.rs:125-135 | a read starting with a continuation byte is set aside whole, and no line of it is scanned |
| Frames.Reader.constructor | src/rtsp/mod.rs:113-117 | the locals start fresh: no status, no headers, nothing hanging or left over |
| Frames.Reader.Reset | src/rtsp/mod.rs:112-117 | each pass of the `'request` loop starts from the fresh state |
| Frames.Reader.Read | src/rtsp/mod.rs:125-160 | the in-place read succeeds exactly when `Feed` does, and then leaves the state `Feed` gives; on failure nothing changes |
| Utf8.ValidUpTo | src/rtsp/mod.rs:127-129 | `valid_up_to`: an index within the read; `Utf8.LongestValidPrefix` states that it is the longest well-formed prefix |
| Utf8.LongestValidPrefix | src/rtsp/mod.rs:127-129 | the prefix up to `valid_up_to` is well-formed and no longer prefix is |
| Numbers.DecimalRoundTrip | src/rtsp/mod.rs:198 | `str::parse::<usize>` reads back what `usize::to_string` writes |
| RtspClient.RouteKey | src/rtsp/mod.rs:198 | a key exists only when `CSeq` is present and parses as a `usize` |
| RtspClient.RouteKeyOfNormalized | src/rtsp/mod.rs:198 | a response that echoes a normalised request's `CSeq` is routed by that request's number |
| RtspClient.FrameReadBack | src/rtsp/mod.rs:222-240 | a normalised frame with a body, scanned in one pass by the line scanner and answered from the state that scan leaves, gives status 9, its headers, its body and its own sequence number as the route key |
| RtspClient.Route | src/rtsp/mod.rs:198-203 | a response goes to a request exactly when its key is pending, and then to that key |
| RtspClient.IssueKeepsTable | src/rtsp/mod.rs:213-218 | taking the next number keeps the table consistent, and that number is neither pending nor delivered |
| RtspClient.RegisterKeepsTable | src/rtsp/mod.rs:242 | inserting the number just taken into `pending_seqs` keeps the table consistent |
| RtspClient.DeliverKeepsTable | src/rtsp/mod.rs:199-200 | removing a pending number and delivering its response keeps the table consistent, so no number is delivered twice |
| RtspClient.Client.constructor | src/rtsp/mod.rs:105-111 | the counter is 0, nothing is pending, delivered or written, and the listener starts fresh |
| RtspClient.Client.Request | src/rtsp/mod.rs:212-246 | the request is normalised with the old counter; the counter moves on by one; that number joins `pending`; a successful write appends exactly the encoded frame and returns the number; a failed write gives `WriteFailed` |
| RtspClient.Client.TakeSeq | src/rtsp/mod.rs:213-218 | returns the old counter and increments it; the number is neither pending nor delivered |
| RtspClient.Client.Register | src/rtsp/mod.rs:242 | adds the number to `pending` and changes nothing else |
| RtspClient.Client.Dispatch | src/rtsp/mod.rs:198-206 | a routable response leaves `pending` and is appended to `delivered` with its number; any other response is logged as unrouted |
| RtspClient.Client.FinishHeaders | src/rtsp/mod.rs:162-196 | a bad `Content-Length` stops the listener; a body that is absent or fully buffered makes and routes the response and restarts the reader; otherwise the listener waits for the rest |
| RtspClient.Client.OnRead | src/rtsp/mod.rs:120-160 | an empty read or a malformed header stops the listener; a read that leaves the block open is one `Feed` step; one that ends it finishes the header phase |
| RtspClient.Client.OnReadError | src/rtsp/mod.rs:120 | a failed read ends the header phase with what was read |
| RtspClient.Client.OnBody | src/rtsp/mod.rs:173-177 | the missing bytes complete the response; it is routed; the next pass starts fresh |
| RtspClient.IssuedIncreasing | src/rtsp/mod.rs:213-218 | sequence numbers are handed out in strictly increasing order, so none is reused |
| AirPlayFeatures.IsBitSet | src/lib.rs:51-53 | `v & (1 << b) != 0`, computed on 64-bit words; `AirPlayFeatures.BitTest` states which bit it tests |
| AirPlayFeatures.BitTest | src/lib.rs:51-53 | `is_bit_set(v, b)` is bit `b` of `v` |
| AirPlayFeatures.PairBits | src/lib.rs:103-107 | bit `i` of the combined word is bit `i` of the low half below 32, and bit `i - 32` of the high half from 32 up |
| AirPlayFeatures.FromWord | src/lib.rs:55-101 | each flag is its bit of the word, or the OR of a few bits; `VolumeIsNotCarplay`, `MfiAuth`, `Coreutils` and `ZeroWord` state its properties |
| AirPlayFeatures.Combine | src/lib.rs:103-107 | the 64-bit word with `hi` as its upper half and `lo` as its lower; `AirPlayFeatures.PairBits` states it bit by bit |
| AirPlayFeatures.FromPair | src/lib.rs:103-107 | from two halves, CarPlay, volume and video v2 come from the high half, and MFi authentication from bit 26 of the low half or bit 19 of the high half |
| AirPlayFeatures.VolumeIsNotCarplay | src/lib.rs:78-79 | exactly one of `is_carplay` and `supports_volume` holds, decided by bit 32 |
| AirPlayFeatures.MfiAuth | src/lib.rs:67 | `mfi_auth` is bit 26 or bit 51, so unified MFi pairing implies it |
| AirPlayFeatures.Coreutils | src/lib.rs:90 | `supports_coreutils` is unified media control, system pairing, HomeKit or bit 48 |
| AirPlayFeatures.ZeroWord | src/lib.rs:55-100 | the zero word claims only volume control |
| ReceiverMeta.TxtMap | src/lib.rs:181-187 | the map exists exactly when every entry has `=`; otherwise the error names the first entry without one |
| ReceiverMeta.TxtKeys | src/lib.rs:187 | the map's keys are exactly the entries' keys |
| ReceiverMeta.LastWins | src/lib.rs:187 | a key's value is that of its last entry |
| ReceiverMeta.InstanceName | src/lib.rs:179 | the name is a prefix of the record name and does not end with `_airplay._tcp.local` |
| ReceiverMeta.InstanceNameRoundTrip | src/lib.rs:179 | an advertised name comes back from its service instance name |
| ReceiverMeta.HexNumber | src/lib.rs:225-226 | a decoded value fits the type's width |
| ReceiverMeta.HexNumberRoundTrip | src/lib.rs:225-226 | a number written in hexadecimal, with or without `0x`, reads back when it fits |
| ReceiverMeta.DecodeFeatures | src/lib.rs:221-228 | a `features` value decodes exactly when it splits at a comma into two 32-bit hexadecimal words |
| ReceiverMeta.FeaturesRoundTrip | src/lib.rs:221-228 | `0x<lo>,0x<hi>` decodes to the features of the word with those halves |
| ReceiverMeta.FeaturesNeedComma | src/lib.rs:222 | a `features` value without a comma is rejected |
| ReceiverMeta.DecodeRsf | src/lib.rs:229 | `rsf` decodes exactly when it is a 64-bit hexadecimal word |
| ReceiverMeta.RsfRoundTrip | src/lib.rs:229 | `0x<word>` decodes to the features of that word |
| ReceiverMeta.DecodeAcl | src/lib.rs:218 | a decoded `acl` fits an `i64` |
| ReceiverMeta.AclRoundTrip | src/lib.rs:218 | `acl` as `i64::to_string` writes it reads back |
| ReceiverMeta.FlagsAsWritten | src/lib.rs:230 | the `flags` reading as written: a decoded value fits a `u64` |
| ReceiverMeta.FlagsMisread | src/lib.rs:230 | as written, `0x244` reads as 244 and `0x1A` is rejected; the hexadecimal reading gives 0x244 |
| ReceiverMeta.DecodeFlags | src/lib.rs:230 | the corrected `flags` reading: a decoded value fits a `u64` |
| ReceiverMeta.FlagsRoundTrip | src/lib.rs:230 | with the corrected reading, `0x<word>` reads back as that word |
| ReceiverMeta.DecodePublicKey | src/lib.rs:247-253 | a decoded key has one byte per two characters, rounded up |
| ReceiverMeta.PublicKeyBytes | src/lib.rs:247-253 | byte `i` of a decoded key is the hexadecimal value of its piece `i` |
| ReceiverMeta.PublicKeyAccepted | src/lib.rs:247-253 | `pk` decodes exactly when every two-character piece is a hexadecimal byte |
| ReceiverMeta.PublicKeyRoundTrip | src/lib.rs:247-253 | a key written as two hexadecimal digits per byte decodes to those bytes |
| ReceiverMeta.Flag | src/lib.rs:232 | present exactly when the key is, and true exactly when the value is `1` |
| ReceiverMeta.Get | src/lib.rs:217 | present exactly when the key is, with its value |
| ReceiverMeta.Decoded | src/lib.rs:218 | an absent key gives `None`; a present one gives its decoded value, or an error naming the key and value the decoder rejects |
| ReceiverMeta.ReadMeta | src/lib.rs:170-259 | a TXT error is passed on; on success, name, port and addresses come from the records, `model` and `deviceid` from the map, `features` is present exactly when its key is and is its decoding, `flags` likewise under the given reader, a `flags` value the reader rejects is an error, and the key length follows `pk` |
| ReceiverMeta.DecodeValues | src/lib.rs:218-252 | the decoded values succeed exactly when every decoded key succeeds, in the source's order, and each is its decoder's value |
| ReceiverMeta.ReadMetaFields | src/lib.rs:218-252 | on success, `pk`, `acl` and `rsf` are their decoders' values when present, and `gcgl`, `igl` and `pgcgl` are `Some(v == "1")` when present and `None` otherwise |
| ReceiverMeta.ReadMetaCopies | src/lib.rs:217-255 | on success, each of the sixteen text fields (`fv`, `btaddr`, `gid`, `gpn`, `hgid`, `hmid`, `pgid`, `tsid`, `hkid`, `manufacturer`, `serialNumber`, `protovers`, `pi`, `psi`, `srcvers`, `osvers`) is `Some` of its key's value when the key is present and `None` otherwise |
| ReceiverMeta.ReadMetaRejects | src/lib.rs:218-252 | a present `acl`, `features`, `rsf` or `pk` value its decoder rejects makes the whole decoding fail, as each `unwrap` panics |
| ReceiverMeta.ResponseToMeta | src/lib.rs:170-259 | `response_to_meta` as written: `flags` is read by line 230's base-10 reading, and a value that reading rejects makes decoding fail |
| ReceiverMeta.IntendedResponseToMeta | src/lib.rs:170-259 | the same decoding with `flags` read in base 16 |
| ReceiverMeta.FlagsPanics | src/lib.rs:230 | as written, a TXT record `flags=0x1A` is rejected with an error naming `flags`; read in base 16 it decodes to 0x1A |
| ReceiverMeta.IsSane | src/lib.rs:161-167 | `is_sane`: `model`, `features` and `deviceid` present, a non-empty name not ending in `.local`; `ReceiverMeta.SaneIff` states it in terms of the TXT record |
| ReceiverMeta.SaneIff | src/lib.rs:161-167 | a decoded receiver is sane exactly when the TXT record has `model`, `features` and `deviceid` and the name is non-empty and does not end in `.local` |

## Left out

- Networking, `tokio` tasks, the `RwLock` and `Mutex` around the counter and the table, and the `oneshot` channels are left out. The client is one sequential object; a delivered response is recorded in `delivered` rather than sent.
- `entry.send(response).unwrap()` panicking when the caller dropped its receiver, and `read_exact` failing at end of stream, are left out: the body event always delivers the missing bytes.
- `TcpStream::connect(addr).await.unwrap()` and the split of the stream are left out; the constructor starts from a connected client.
- The `seq` counter is an unbounded `nat`, so `usize` overflow of `*sw += 1` is not modelled. Route keys are still parsed as `usize`.
- Frames.Plan and RtspClient.RouteKey take `usize` to be 64 bits wide. On a 32-bit target the source would also reject a `Content-Length` or `CSeq` of 2^32 or more.
- `write_all` is modelled as either writing the whole frame or failing with nothing written. A partial write before an error is not modelled.
- The `plist` encoder and decoder are not modelled; they are the `PlistCodec` parameter. The `unwrap` on encoding is taken to succeed.
- The `HashMap` iteration order is the `order` parameter, not a particular hash order.
- `println!` of unrouted responses becomes the `unrouted` log.
- AirPlayFeatures.IsBitSet: requires `b < 64`, where a larger `b` overflows the shift in Rust; every call passes a constant below 64.
- The mDNS side of `response_to_meta` (the PTR, TXT, SRV and A/AAAA lookups with `find` and `?`) and `find()` itself are left out. Their results are the inputs of `ResponseToMeta`.
- `media_remote` is always `None` and is left out of `Meta`.
- `str::from_utf8` on each `pk` piece is not a separate case. It fails only on a non-ASCII byte, which the hexadecimal reader rejects anyway.
- src/rtsp/ops.rs, src/bin/airplay.rs and the typed operations are not part of this model.
- A `Content-Length` that names more bytes than the peer ever sends is left out: it would block `read_exact` forever.

## Findings

| source | as written | input that shows it | evidently intended | confidence | as-written member | corrected member |
|---|---|---|---|---|---|---|
| src/lib.rs:230 | `flags` has `0x` stripped and is then read in base 10 | `flags=0x244` gives 244, not 580; `flags=0x1A` fails to parse, and the `unwrap` panics | read in base 16, like `features` and `rsf` on lines 225-229 | not executed | ReceiverMeta.FlagsMisread | ReceiverMeta.FlagsRoundTrip |
