# casperfpga_rs register-access core, modelled in Dafny

This project models the host side of casperfpga_rs. That library talks to CASPER FPGA boards (SNAP, SNAP2) over TAPCP. TAPCP is a register-access protocol carried by TFTP over UDP. The model covers these layers, from the wire up:

- **TFTP client** (`tapcp/src/tftp.rs`): packet `pack`/`unpack` for RRQ, WRQ, DATA, ACK and ERROR (section 5 of RFC 1350, error codes from its appendix); the lock-step `read` and `write` transfers with 512-byte blocks; and the bounded retry loops `backoff_read`/`backoff_write`. The socket is an object with a scripted queue of receive events, scripted send results and a log of sent datagrams.
- **TAPCP** (`tapcp/src/lib.rs`): the `/dev/NAME.OFF.N`, `/flash.OFF.N` and `/progdev` file names; the length check of `read_device`; `progdev`; and the `?key\tvalue…?end` user-flash metadata, both written (`set_metadata`) and read (`get_metadata` and its chunk loop). The unseen `tftp_client` crate's `download` and `upload` are an endpoint object with scripted replies and a request log.
- **The TAPCP transport** (`casperfpga/src/transport/tapcp.rs`): `flash_location`, `is_running` both as written and with its intended "not running" classification (see Findings), the word arithmetic of `read_n_bytes`, the alignment branch of `write_bytes`, and `listdev`.
- **Byte formats**: the Compact Sorted List reader (`casper_utils/src/csl.rs`); the FPG design-file grammar and device assembly (`casper_utils/src/design_sources/fpg.rs`, `casper_utils/src/bitstream/fpg.rs`, and the older fragment in `src/yellow_blocks/mod.rs`); and `md5_string` (`casper_utils/src/design_sources/mod.rs`).
- **Transports and serialisation**: the big-endian `Serialize`/`Deserialize` of every integer type, and the default `read`/`write` (`casperfpga/src/transport/mod.rs`, `src/transport/mod.rs`). Also the `Mock` transport, a byte memory updated in place (`casperfpga/src/transport/mock.rs`, `src/transport/mock.rs`).
- **Yellow blocks** on the mock transport:
  - software registers (`swreg.rs` of both crates);
  - BRAM;
  - snapshot;
  - the SNAP ADC: its clock switch, `from_fpg`, the ADC16 controller that bit-bangs the HMCAD1511 3-wire bus, and the HMCAD1511 register layouts;
  - the 10GbE core's memory map (`ten_gbe.rs` of both crates);
  - the device-kind table of the `fpga_from_fpg!` derive macro (`casperfpga_derive/src/fpg.rs`).

**How the Rust is represented.**
- Strings are their UTF-8 bytes. `from_utf8` is the well-formedness check `Bytes.ValidUtf8`.
- Fixed-width integers are `nat`s with explicit bounds.
- Every `panic!`, `unreachable!`, `expect`, failing slice or arithmetic underflow is an explicit error value. Each spec function's contract says which inputs reach it. Overflow of `usize` arithmetic is not modelled, except where a row says so (see Left out).
- Loops in the source are `method`s with `while` loops. Each is proved equal to a specification function, and the properties are proved about the function.
- State the source mutates is a `class`: the mock's memory, the TFTP socket, the TAPCP endpoint, the ADC16 controller's chip select, and the older crate's device map.

**Bit numbering.** The `packed_struct` layouts of `hmcad1511.rs`, `snapshot.rs` and both `ten_gbe.rs` files use `lsb0` numbering: bit 0 is the least significant bit of the last byte. The model reads `bytes = "k"` as bits 8k .. 8k + 7 of that numbering. The layouts of `controller.rs` (its lines 229, 291, 326, 348, 366 and 388) use `msb0` numbering instead: in a structure of `size` bytes, bit p is integer bit 8·size − 1 − p.

## Model

| member | source | states |
|---|---|---|
| TftpPacket.ModeNames | tapcp/src/tftp.rs:31-42 | the two `Display` texts are lowercase ASCII, contain no NUL and differ |
| TftpPacket.ParseModeCharacterised | tapcp/src/tftp.rs:44-54 | `from_str` succeeds exactly when the ASCII-lowercased text is "netascii" or "octet", gives the mode of that name, and otherwise fails with `BadMode` carrying the original text |
| TftpPacket.ParseModeText | tapcp/src/tftp.rs:31-54 | parsing the `Display` text of a mode gives the mode back |
| TftpPacket.ErrorCodeFromU16 | tapcp/src/tftp.rs:56-74 | `from_u16` is defined exactly on 0..7 and inverts the discriminant |
| TftpPacket.ErrorCodeRoundTrip | tapcp/src/tftp.rs:56-74 | converting an error code to its `u16` and back gives that code |
| TftpPacket.Opcode | tapcp/src/tftp.rs:170-194 | every payload's opcode is in 1..5 |
| TftpPacket.U16Be | tapcp/src/tftp.rs:171-188 | `to_be_bytes` of a `u16`: two bytes whose big-endian value is the number |
| TftpPacket.ReadU16 | tapcp/src/tftp.rs:212-216 | `from_be_bytes` of the first two bytes is the inverse of `to_be_bytes` |
| TftpPacket.Pack | tapcp/src/tftp.rs:168-203 | a packed datagram is at least 4 bytes long and begins with its payload's opcode |
| TftpPacket.CString | tapcp/src/tftp.rs:222-226 | a NUL-terminated field splits the input at its first NUL into NUL-free, UTF-8-checked text and the rest; a missing NUL is `Incomplete` and bad UTF-8 is a UTF-8 error |
| TftpPacket.Unpack | tapcp/src/tftp.rs:206-269 | under 4 bytes is `Incomplete`; an opcode outside 1..5 is `BadOpcode`; an error code above 7 is `BadErrorCode`; a parsed payload carries the opcode read |
| TftpPacket.UnpackBody | tapcp/src/tftp.rs:219-268 | the dispatch on the opcode: an unknown opcode is `BadOpcode`, an unknown error code `BadErrorCode`, and the payload's opcode is the one dispatched on |
| TftpPacket.UnpackRequest | tapcp/src/tftp.rs:221-241 | an RRQ/WRQ body gives a Read or Write payload whose filename is the text before the first NUL |
| TftpPacket.UnpackError | tapcp/src/tftp.rs:252-266 | an ERROR body gives an error payload whose code is the `u16` read and whose message is the text before the NUL |
| TftpPacket.UnpackHead | tapcp/src/tftp.rs:206-219 | `unpack` of an opcode followed by a body is the dispatch on that opcode with that body |
| TftpPacket.UnpackBodyPackBody | tapcp/src/tftp.rs:168-268 | the packed body of every payload whose strings are NUL-free UTF-8 parses back to that payload |
| TftpPacket.UnpackPack | tapcp/src/tftp.rs:168-269 | `unpack(pack(p)) == p` whenever the filename or message of p contains no NUL and is valid UTF-8 |
| TftpPacket.UnpackIdempotent | tapcp/src/tftp.rs:168-269 | whatever `unpack` accepts survives another `pack`/`unpack` cycle unchanged |
| TftpPacket.CanonicalRequestShape | tapcp/src/tftp.rs:221-241 | a canonical request body is filename, NUL, a lowercase mode name, NUL |
| TftpPacket.AcceptedRequestFilename | tapcp/src/tftp.rs:222-226 | the filename of an accepted request is the text before its first NUL |
| TftpPacket.PackBodyUnpackRequest | tapcp/src/tftp.rs:221-241 | an accepted request datagram that ends at the NUL after a lowercase mode packs back to itself |
| TftpPacket.PackBodyUnpackError | tapcp/src/tftp.rs:252-266 | an accepted ERROR body that ends at its NUL packs back to itself |
| TftpPacket.PackUnpack | tapcp/src/tftp.rs:437-469 | `pack(unpack(b)) == b` for every accepted datagram that has no trailing bytes and a lowercase mode |
| TftpPacket.PackVectors | tapcp/src/tftp.rs:384-435 | the five packing tests: RRQ and WRQ of "/foo" in octet mode, DATA 1 of DE AD BE EF, ACK 1, ERROR Full "Full" |
| TftpPacket.UnpackVectors | tapcp/src/tftp.rs:453-463 | the DATA and ACK round-trip vectors parse to the payloads that pack back to them |
| TftpTransfer.Truncate | tapcp/src/tftp.rs:279-295 | a received datagram as the 516-byte buffer keeps it: its first 516 bytes at most |
| TftpTransfer.BackoffReadSpec | tapcp/src/tftp.rs:119-142 | `backoff_read` consumes at most `retries - count` receive events and sends nothing; a datagram it returns fits the 516-byte buffer, and its only errors are `Timeout` and the propagated I/O error |
| TftpTransfer.BackoffWriteSpec | tapcp/src/tftp.rs:145-164 | `backoff_write` receives nothing; on success the datagram is logged as sent exactly once, on failure it is not sent, and the only errors are `Timeout` and the propagated I/O error |
| TftpTransfer.BackoffReadFirstOutcome | tapcp/src/tftp.rs:119-142 | after k retryable events, with attempts left, the first other event decides: a datagram is `Ok`, any other error propagates |
| TftpTransfer.BackoffReadGivesUp | tapcp/src/tftp.rs:122-138 | when every attempt left is retryable, `backoff_read` returns `Timeout`; with `retries == 0` it makes no attempt at all |
| TftpTransfer.BackoffWriteFirstOutcome | tapcp/src/tftp.rs:145-164 | after k retryable send results the first other result decides; the datagram reaches the wire once on success and never on failure |
| TftpTransfer.BackoffWriteGivesUp | tapcp/src/tftp.rs:147-160 | when every attempt left is retryable, `backoff_write` returns `Timeout` and sends nothing |
| TftpTransfer.ReadBlock | tapcp/src/tftp.rs:292-313 | one turn of `read` that gets a block consumes a received datagram, and the block is the last one exactly when it is shorter than 512 bytes |
| TftpTransfer.ReadBlockData | tapcp/src/tftp.rs:297-306 | a DATA block of at most 512 bytes arrives whole, is accepted and is acknowledged with its own number |
| TftpTransfer.ReadBlockError | tapcp/src/tftp.rs:308-311 | an ERROR reply ends `read` at once with its code and message, with no retry and no ACK |
| TftpTransfer.ReadBlocksFull | tapcp/src/tftp.rs:297-306 | a full 512-byte block keeps the loop going with the payload appended and its ACK sent |
| TftpTransfer.ReadBlocksLast | tapcp/src/tftp.rs:304-306 | a block shorter than 512 bytes ends the loop, its payload appended and its ACK sent |
| TftpTransfer.CompleteTransferTail | tapcp/src/tftp.rs:304-306 | after a full first block, the rest of a complete transfer is complete |
| TftpTransfer.ReadBlocksDelivers | tapcp/src/tftp.rs:292-315 | given full blocks then one short block, the loop returns the payloads in arrival order and sends one ACK per block with the block's own number, whatever the numbers are |
| TftpTransfer.ReadDelivers | tapcp/src/tftp.rs:273-316 | `read` from a well-behaved server sends the RRQ and one ACK per block and returns the concatenated payloads |
| TftpTransfer.ReadSpecStart | tapcp/src/tftp.rs:285-292 | once the RRQ is out, `read` is its loop from an empty output |
| TftpTransfer.ChunkIndex | tapcp/src/tftp.rs:351 | chunk i of `chunks(512)` exists exactly when it starts inside the data |
| TftpTransfer.ChunkSize | tapcp/src/tftp.rs:351 | every chunk holds 1 to 512 bytes, and every chunk but the last holds exactly 512 |
| TftpTransfer.JoinedChunks | tapcp/src/tftp.rs:351 | the chunks, concatenated in order, are the data |
| TftpTransfer.FitsBlocksChunks | tapcp/src/tftp.rs:355 | data of at most 65535 × 512 bytes has at most 65535 chunks, so `(i + 1).try_into()` cannot panic |
| TftpTransfer.DataLogLength | tapcp/src/tftp.rs:351-375 | `write` sends one DATA packet per chunk: none for empty data, and no empty block after a full last one |
| TftpTransfer.AcksFromFits | tapcp/src/tftp.rs:355 | a server that acknowledges every chunk acknowledges at most 65535 of them |
| TftpTransfer.Exchange | tapcp/src/tftp.rs:359-374 | a successful send-then-wait-for-`Ack(want)` consumes a received datagram |
| TftpTransfer.ExchangeReply | tapcp/src/tftp.rs:359-374 | the outcome of an exchange whose datagram goes out at once and whose first reply arrives whole |
| TftpTransfer.ExchangeAcked | tapcp/src/tftp.rs:363-368 | a reply that parses as `Ack(want)` completes the exchange; the packet went out once |
| TftpTransfer.ExchangeRejected | tapcp/src/tftp.rs:363-374 | any other reply ends the exchange: another block number is `BadBlock`, an ERROR is `ErrorResponse`, anything else a panic |
| TftpTransfer.WriteChunksAt | tapcp/src/tftp.rs:351-375 | one turn of the chunk loop is the exchange of DATA block i + 1, then the rest of the loop |
| TftpTransfer.WriteChunksStep | tapcp/src/tftp.rs:359-368 | an acknowledged chunk moves the loop to the next chunk |
| TftpTransfer.WriteChunksDone | tapcp/src/tftp.rs:376-377 | past the last chunk the loop ends with `Ok` and touches nothing |
| TftpTransfer.WriteChunksDelivers | tapcp/src/tftp.rs:351-377 | a server that acknowledges every chunk by number receives all chunks as DATA i + 1, i + 2, …, and nothing else |
| TftpTransfer.WriteChunksMore | tapcp/src/tftp.rs:351-375 | the inductive step of the chunk loop: one acknowledged chunk in front of the rest |
| TftpTransfer.WriteSpecStart | tapcp/src/tftp.rs:335-351 | once the WRQ is answered by ACK 0, `write` is its chunk loop from chunk 0 |
| TftpTransfer.WriteDelivers | tapcp/src/tftp.rs:319-378 | `write` to a well-behaved server sends the octet-mode WRQ, then every chunk as DATA 1, 2, …, and returns `Ok` |
| TftpTransfer.WriteRequestRejected | tapcp/src/tftp.rs:337-349 | a WRQ answered by anything but ACK 0 ends `write` before any data is sent: another ACK is `BadBlock`, an ERROR `ErrorResponse` |
| TftpTransfer.WriteChunkRejected | tapcp/src/tftp.rs:363-374 | a chunk answered by anything but its own ACK ends the loop; another block number is `BadBlock` |
| TftpClient.Socket.Recv | tapcp/src/tftp.rs:294-295 | one receive consumes the next scripted event and truncates a datagram to the 516-byte buffer |
| TftpClient.Socket.Send | tapcp/src/tftp.rs:302 | one send consumes the next scripted result and logs the datagram only when it went out |
| TftpClient.BackoffRead | tapcp/src/tftp.rs:119-142 | the retry loop, proved equal to `BackoffReadSpec` from a zero count |
| TftpClient.BackoffWrite | tapcp/src/tftp.rs:145-164 | the retry loop, proved equal to `BackoffWriteSpec` from a zero count |
| TftpClient.ReceiveBlock | tapcp/src/tftp.rs:294-313 | one turn of the `read` loop, equal to `ReadBlock` |
| TftpClient.Read | tapcp/src/tftp.rs:273-316 | the `read` loop, proved equal to its specification `ReadSpec` |
| TftpClient.SendAndAwaitAck | tapcp/src/tftp.rs:359-374 | one exchange of `write`, equal to `Exchange` |
| TftpClient.Write | tapcp/src/tftp.rs:319-378 | the `write` loop over the chunks, proved equal to its specification `WriteSpec` |
| Tapcp.DownloadStep | tapcp/src/lib.rs:122 | a download logs its request, leaves the uploads alone and consumes the first scripted reply; with none left it fails with a TFTP error |
| Tapcp.UploadStep | tapcp/src/lib.rs:144-151 | an upload logs its request, leaves the downloads alone and consumes the first scripted result; with none left it succeeds |
| Tapcp.Endpoint.Download | tapcp/src/lib.rs:122 | `download` changes the endpoint as `DownloadStep` says and returns its reply |
| Tapcp.Endpoint.Upload | tapcp/src/lib.rs:144-151 | `upload` changes the endpoint as `UploadStep` says and returns its result |
| Tapcp.LastDotOf | tapcp/src/lib.rs:121 | the last dot of `x.hex` is the one before the hex digits |
| Tapcp.DotHexInjective | tapcp/src/lib.rs:121 | `{x}.{n:x}` determines both `x` and `n` |
| Tapcp.DeviceReadNameInjective | tapcp/src/lib.rs:121 | two `/dev/NAME.OFF.N` names of one device are equal only for the same offset and word count |
| Tapcp.FlashReadNameInjective | tapcp/src/lib.rs:165 | two `/flash.OFF.N` names are equal only for the same offset and word count |
| Tapcp.DeviceWriteNameInjective | tapcp/src/lib.rs:142 | two `/dev/NAME.OFF` names are equal only for the same device and offset |
| Tapcp.CheckLength | tapcp/src/lib.rs:123-127 | the reply passes exactly when it is a success and `n` is 0 or the reply holds `4 * n` bytes; a passing reply is returned unchanged; a failing one gives the transfer's error or `Incomplete` |
| Tapcp.ReadDevice | tapcp/src/lib.rs:112-128 | one download of `/dev/NAME.OFF.N` whose result is the length check of the reply |
| Tapcp.WriteDevice | tapcp/src/lib.rs:133-152 | one upload of the data to `/dev/NAME.OFF` with the caller's retries |
| Tapcp.ReadFlash | tapcp/src/lib.rs:158-168 | one download of `/flash.OFF.N`, with no length check |
| Tapcp.WriteFlash | tapcp/src/lib.rs:174-189 | one upload of the data to `/flash.OFF` |
| Tapcp.Progdev | tapcp/src/lib.rs:195-209 | one upload of the four big-endian address bytes to `/progdev` with no retries, and success whatever the upload gave |
| Tapcp.Drop | tapcp/src/lib.rs:226-231 | after `n` downloads the replies left are the suffix from `n`, or none |
| Tapcp.MetadataFrom | tapcp/src/lib.rs:222-240 | the chunk loop stops after at most 129 reads, the bound `chunks > 128` |
| Tapcp.ChunkReads | tapcp/src/lib.rs:226-231 | `count` consecutive chunk reads make `count` requests |
| Tapcp.ChunkReadsSnoc | tapcp/src/lib.rs:226-231 | one more chunk read extends the requests by the next chunk's |
| Tapcp.LogChunkRead | tapcp/src/lib.rs:226-231 | a log of `chunks` chunk reads plus the next one is the log of `chunks + 1` reads |
| Tapcp.ChunkReadsAt | tapcp/src/lib.rs:226-231 | the k-th request reads chunk `from + k`: word `user_flash_loc / 4 + 256 * (from + k)`, 256 words |
| Tapcp.GetMetadataSpec | tapcp/src/lib.rs:214-246 | reading the metadata never uploads anything |
| Tapcp.DropNext | tapcp/src/lib.rs:226-231 | one more download drops one more reply |
| Tapcp.GetMetadata | tapcp/src/lib.rs:214-246 | the loop is proved equal to `GetMetadataSpec`: same result, same requests and replies used |
| Tapcp.MetadataChunk | tapcp/src/lib.rs:226-239 | one pass reads the next chunk, logs exactly that read, and either ends the loop with `MetadataFrom`'s answer or leaves a state from which `MetadataFrom` gives the same answer |
| Tapcp.SetMetadata | tapcp/src/lib.rs:252-272 | one upload of the padded `?k\tv…?end` image to flash word `user_flash_loc / 4` |
| Tapcp.AsciiSlice | tapcp/src/lib.rs:232 | every slice of ASCII text is ASCII, so each chunk passes `from_utf8` |
| Tapcp.ServesNext | tapcp/src/lib.rs:226-231 | replies serving the image give chunk `c` next and then serve from chunk `c + 1` |
| Tapcp.MetadataFromFound | tapcp/src/lib.rs:233-237 | a chunk that completes `?end` ends the loop with the text before it decoded |
| Tapcp.MetadataFromMissing | tapcp/src/lib.rs:238 | a valid chunk without `?end` moves the loop to the next chunk |
| Tapcp.ServedStep | tapcp/src/lib.rs:222-240 | one pass over a served image either returns the decoded entries or moves on with one more chunk of text |
| Tapcp.ServedFrom | tapcp/src/lib.rs:222-245 | from any chunk before the one that completes `?end`, the loop returns the decoding of the text before `?end` |
| Tapcp.GetMetadataServed | tapcp/src/lib.rs:214-246 | replies that serve `set_metadata`'s image make the loop return the map written |
| Tapcp.MetadataRoundTrip | tapcp/examples/rw_metadata.rs:23-33 | `get_metadata` after `set_metadata` returns the map written, when keys and values are clean ASCII, no key starts with "end", and the flash serves back the image |
| TapcpMetadata.Entry | tapcp/src/lib.rs:261 | an entry is `?`, the key, a tab and the value |
| TapcpMetadata.Padded | tapcp/src/lib.rs:267-269 | padding gives a multiple of 1024 bytes, keeps the text as a prefix, fills the rest with '0', adds less than 1024 bytes, and adds nothing to a multiple of 1024 |
| TapcpMetadata.Split | tapcp/src/lib.rs:242 | splitting gives at least one piece |
| TapcpMetadata.SplitOnceTab | tapcp/src/lib.rs:243 | `split_once('\t')` fails exactly when there is no tab; otherwise the two sides and the tab rebuild the piece and the left side has no tab |
| TapcpMetadata.SplitConcat | tapcp/src/lib.rs:242 | splitting `a ? b` is splitting `a` then splitting `b` |
| TapcpMetadata.SplitJoin | tapcp/src/lib.rs:242 | the same, for a text given as `a ? b` |
| TapcpMetadata.SplitFirst | tapcp/src/lib.rs:242 | splitting at the first '?' gives the text before it, then the pieces of the rest |
| TapcpMetadata.EntryPieces | tapcp/src/lib.rs:241-245 | a clean entry is one piece, and collecting it inserts its key and value |
| TapcpMetadata.DecodeBody | tapcp/src/lib.rs:241-261 | decoding the entries gives the entries inserted in order |
| TapcpMetadata.CollectedContents | tapcp/src/lib.rs:241-245 | those inserted entries hold exactly the listed keys, each with its own value |
| TapcpMetadata.DecodeEncodedBody | tapcp/src/lib.rs:241-263 | for any enumeration of the keys, decoding the encoded entries gives back the map |
| TapcpMetadata.EntryNoTag | tapcp/src/lib.rs:233 | no `?end` starts inside an entry whose key does not start with "end" |
| TapcpMetadata.BodyNoTag | tapcp/src/lib.rs:233 | no `?end` starts inside the entries, whatever follows them |
| TapcpMetadata.FindEndInImage | tapcp/src/lib.rs:233-235 | in each prefix of the image, `find("?end")` gives the end of the entries once the prefix holds all of `?end`, and nothing before that |
| TapcpMetadata.FindEndWhole | tapcp/src/lib.rs:233-235 | a text starting with the encoding holds `?end` right after the entries |
| TapcpMetadata.FindEndPartial | tapcp/src/lib.rs:233 | a prefix of the encoding that ends before `?end` is whole holds no `?end` |
| TapcpMetadata.ImageAscii | tapcp/src/lib.rs:232-269 | the image of ASCII metadata is ASCII |
| TapcpMetadata.BodyAscii | tapcp/src/lib.rs:260-263 | the entries of ASCII metadata are ASCII |
| TapcpMetadata.EndKeyLost | tapcp/src/lib.rs:233-235 | the key "endx" puts `?end` at byte 0, so its entry is not read back |
| TapcpTransport.FlashLocation | casperfpga/src/transport/tapcp.rs:31-36 | the user flash is at 0x800000 on SNAP and 0xC00000 on SNAP2; it fits 32 bits and is 1024-aligned |
| TapcpTransport.Running | casperfpga/src/transport/tapcp.rs:71-89 | the intended classification: a successful read means running; the server's "file not found" means not running; every other failure is passed on |
| TapcpTransport.SliceReply | casperfpga/src/transport/tapcp.rs:141-142 | the slice succeeds exactly when the read succeeded and holds `start + n` bytes, and then it is those n bytes; otherwise it is the read's error or a slice panic |
| TapcpTransport.ListDev | casperfpga/src/transport/tapcp.rs:104-118 | the listing succeeds exactly when the client's does, with the same names and each name's address and length |
| TapcpTransport.TapcpConnection.constructor | casperfpga/src/transport/tapcp.rs:51-65 | a connected transport keeps its endpoint and platform and uses `DEFAULT_RETRIES` = 7 retries |
| TapcpTransport.TapcpConnection.IsRunning | casperfpga/src/transport/tapcp.rs:71-89 | one read of one word of `sys_clkcounter`, classified by `Running` |
| TapcpTransport.TapcpConnection.WriteBytes | casperfpga/src/transport/tapcp.rs:91-102 | aligned data is written at word `offset % 4`; anything unaligned is the `todo!` and nothing is sent |
| TapcpTransport.TapcpConnection.WriteBytesAtWord | casperfpga/src/transport/tapcp.rs:91-102 | the corrected write: aligned data goes to word `offset / 4` |
| TapcpTransport.TapcpConnection.ReadNBytes | casperfpga/src/transport/tapcp.rs:128-143 | one read of `(offset + n) / 4 - offset / 4` words from word `offset / 4`, then the n bytes from `offset % 4` |
| TapcpTransport.TapcpConnection.ReadNBytesSpanned | casperfpga/src/transport/tapcp.rs:128-143 | the corrected read: every word the bytes touch is read, and the only failures left are the client's |
| TapcpTransport.TapcpConnection.Deprogram | casperfpga/src/transport/tapcp.rs:124-126 | `progdev(0)`: always success, and one upload of four zero bytes to `/progdev` |
| TapcpTransport.TapcpConnection.Metadata | casperfpga/src/transport/tapcp.rs:158-164 | `get_metadata` at the platform's flash location |
| TapcpTransport.WordCountCovers | casperfpga/src/transport/tapcp.rs:136-142 | when some words are read, they hold the last byte asked for exactly when `offset + n` ends on a word boundary |
| TapcpTransport.ShortReadPanics | casperfpga/src/transport/tapcp.rs:136-142 | offset 2 and 3 bytes read one word, so even a full reply makes the slice panic |
| TapcpTransport.WordsSpanned | casperfpga/src/transport/tapcp.rs:136-139 | the words touched hold the bytes asked for, with less than one word to spare |
| TapcpTransport.SpannedCovers | casperfpga/src/transport/tapcp.rs:136-142 | a reply of that many words is long enough for the slice |
| TapcpTransport.WritesGoToWordZero | casperfpga/src/transport/tapcp.rs:97 | every aligned write goes to word 0, so offset 4 does not reach word 1 |
| Csl.FromBytes | casper_utils/src/csl.rs:17-62 | `from_bytes` is proved equal to its specification `Decode` |
| Csl.DecodeLoop | casper_utils/src/csl.rs:36-59 | the loop, with the cursor advancing and the vector growing, is proved equal to `DecodeRest` |
| Csl.DecodeRestEntry | casper_utils/src/csl.rs:37-44 | a header pair other than (0, 0) starts an entry just after it |
| Csl.DecodeEntryNext | casper_utils/src/csl.rs:45-58 | an entry that passes every check is the previous key's first `header_n` bytes then the tail, with the next `payload_n` bytes, and the loop goes on after it |
| Csl.DecodeRestWellFormed | casper_utils/src/csl.rs:36-59 | a successful loop keeps what was decoded before as a prefix and adds only entries with `payload_n`-byte payloads and UTF-8 keys |
| Csl.DecodeEntryWellFormed | casper_utils/src/csl.rs:45-58 | the same, from inside one entry |
| Csl.DecodeWellFormed | casper_utils/src/csl.rs:20-56 | a successful decode is never empty, and every payload is as wide as the first byte says and every key is UTF-8 |
| Csl.CommonPrefix | casper_utils/src/csl.rs:46 | the shared prefix of two keys: the keys agree up to it and differ right after it |
| Csl.Header | casper_utils/src/csl.rs:46 | the header byte of a key: below 256, within both keys, and a prefix the two share |
| Csl.DecodeRestStep | casper_utils/src/csl.rs:45-58 | one compressed entry is read back as the key rebuilt from the previous key and the tail |
| Csl.DecodeRestEnd | casper_utils/src/csl.rs:42-44 | the (0, 0) pair ends the list with what was decoded |
| Csl.DecodeRestEncoded | casper_utils/src/csl.rs:36-59 | compressed entries followed by (0, 0) are all read back, in order |
| Csl.DecodeFirst | casper_utils/src/csl.rs:20-33 | the first entry is the payload width, the key length, the key in full and the payload |
| Csl.DecodeLayout | casper_utils/src/csl.rs:17-62 | bytes laid out as the first entry and the compressed rest decode to the list |
| Csl.EncodeDecode | casper_utils/src/csl.rs:17-62 | decoding the compact form of an encodable list gives the list |
| Csl.TestVectorIsEncoding | casper_utils/src/csl.rs:70-76 | the test's bytes are the compact form of its six keys with one-byte payloads 1 to 6 |
| Csl.TestVectorDecodes | casper_utils/src/csl.rs:68-89 | `test_from_csl`: those bytes decode to the six keys and payloads |
| Csl.HeaderTooLong | casper_utils/src/csl.rs:46 | a header longer than the previous key makes the slice panic |
| Csl.Truncated | casper_utils/src/csl.rs:37-54 | input that ends inside a payload, or before the (0, 0) end, is a `Parse` error |
| Fpg.SpacesEnd | casper_utils/src/design_sources/fpg.rs:107 | the run of spaces and tabs from i: all of it is whitespace, and the byte after it is not |
| Fpg.TokenEnd | casper_utils/src/design_sources/fpg.rs:107 | `take_till(is_space)`: the run from i holds no space or tab, and it stops at one or at the end |
| Fpg.HexEnd | casper_utils/src/design_sources/fpg.rs:97 | `hex_digit1`'s run: hex digits only, stopping at the first other byte |
| Fpg.LineEnd | casper_utils/src/design_sources/fpg.rs:123 | the first CR or LF at or after i, with none before it |
| Fpg.Tag | casper_utils/src/design_sources/fpg.rs:83-87 | `tag(t)` succeeds exactly when the input starts with t, and leaves what follows it |
| Fpg.LineEnding | casper_utils/src/design_sources/fpg.rs:83 | `line_ending` accepts exactly "\n" or "\r\n" and consumes it |
| Fpg.Space1 | casper_utils/src/design_sources/fpg.rs:107 | `space1` accepts exactly input starting with a space or tab, and consumes the whole run |
| Fpg.Field | casper_utils/src/design_sources/fpg.rs:107 | a field is non-empty input consumed, a UTF-8 token with no spaces or tabs, followed by whitespace or the end |
| Fpg.HexNumber | casper_utils/src/design_sources/fpg.rs:90-98 | `hex_number` consumes "0x" and hex digits and gives a value that fits in 32 bits |
| Fpg.HexField | casper_utils/src/design_sources/fpg.rs:108-109 | the same after separating whitespace |
| Fpg.NotLineEnding | casper_utils/src/design_sources/fpg.rs:123 | `not_line_ending` splits the input into a part with no CR or LF and the rest |
| Fpg.TagLine | casper_utils/src/design_sources/fpg.rs:82-88 | `shebang`, `uploadbin` and `quit` consume the tag and a line ending |
| Fpg.RegisterP | casper_utils/src/design_sources/fpg.rs:105-111 | `register` gives a UTF-8 name without whitespace and an address and size that fit in 32 bits |
| Fpg.MetaFields | casper_utils/src/design_sources/fpg.rs:115-121 | the three fields of a meta line consume input |
| Fpg.LineValue | casper_utils/src/design_sources/fpg.rs:122-125 | a meta value is UTF-8 with no CR or LF |
| Fpg.MetaP | casper_utils/src/design_sources/fpg.rs:115-132 | `meta` consumes input |
| Fpg.Registers | casper_utils/src/design_sources/fpg.rs:143 | `many0(register)` stops exactly at the first input that is no register line |
| Fpg.Metas | casper_utils/src/design_sources/fpg.rs:144 | `many0(meta)` stops exactly at the first input that is no meta line |
| Fpg.RegistersCons | casper_utils/src/design_sources/fpg.rs:143 | a register line followed by more: `many0` gives that line, then the lines of the rest |
| Fpg.MetasCons | casper_utils/src/design_sources/fpg.rs:144 | the same for meta lines |
| Fpg.Grammar | casper_utils/src/design_sources/fpg.rs:140-145 | the bitstream is a suffix of the input |
| Fpg.QuitLineBefore | casper_utils/src/design_sources/fpg.rs:145 | the bitstream is the input right after a `?quit` line |
| Fpg.AddMeta | casper_utils/src/design_sources/mod.rs:24-28 | `add_meta` sets key k to v and changes no other key, nor the kind or register |
| Fpg.AssembleSnoc | casper_utils/src/design_sources/fpg.rs:154-170 | one more meta line is one more turn of the `for` loop |
| Fpg.FpgFile | casper_utils/src/design_sources/fpg.rs:140-173 | `fpg_file` is proved equal to its specification `Parse` |
| Fpg.BuildDevices | casper_utils/src/design_sources/fpg.rs:147-170 | the `HashMap` loop, with the register map shrinking, is proved equal to `Assemble` of the register map |
| Fpg.AssembleDomain | casper_utils/src/design_sources/fpg.rs:154-170 | exactly the names of meta lines become devices |
| Fpg.AssembleKind | casper_utils/src/design_sources/fpg.rs:159-166 | a device's kind is that of the first meta line of its name, and its register is the register declared under its name |
| Fpg.MetadataLastSets | casper_utils/src/design_sources/fpg.rs:154-170 | the last meta line's key of its device holds that line's value |
| Fpg.MetadataLastOther | casper_utils/src/design_sources/fpg.rs:154-170 | the last meta line leaves every other device's keys, and the other keys of its own device, as they were |
| Fpg.MetadataLastCreates | casper_utils/src/design_sources/fpg.rs:159-166 | a device that the last line created holds no key but that line's |
| Fpg.AssembleMetadata | casper_utils/src/design_sources/fpg.rs:154-170 | a device holds key k exactly when a meta line of its name sets k, and then with the value of the last such line |
| Fpg.RegisterMapLast | casper_utils/src/design_sources/fpg.rs:147-150 | a name is in the register map exactly when a line declares it, and with duplicates the last line wins |
| Fpg.ParsedDevices | casper_utils/src/design_sources/fpg.rs:140-173 | in a parsed file there is one device per meta name, a device has a register exactly when one is declared under its name, and the bitstream is the input after `?quit` |
| Fpg.LoadAsWritten | casper_utils/src/design_sources/fpg.rs:190-203 | as written: a failed parse and a bitstream shorter than 3 bytes are errors; otherwise the design is kept and gzip is chosen by the first 3 bytes |
| Fpg.ShortBitstreamPanics | casper_utils/src/design_sources/fpg.rs:198 | a file with an empty bitstream makes the magic check panic |
| Fpg.Load | casper_utils/src/design_sources/fpg.rs:190-203 | corrected: only a failed parse is an error, and gzip is chosen only when there are 3 bytes 1F 8B 08 |
| Fpg.LoadAgrees | casper_utils/src/design_sources/fpg.rs:198 | the two agree whenever the bitstream has at least 3 bytes |
| Fpg.AllNormalised | casper_utils/src/design_sources/fpg.rs:130 | every meta path with '/' replaced by '_', line by line |
| Fpg.FieldOntoParses | casper_utils/src/design_sources/fpg.rs:107 | a good token written after a tab is read back, with the rest untouched |
| Fpg.HexOntoParses | casper_utils/src/design_sources/fpg.rs:108-109 | a `u32` written as "0x" and lowercase hex is read back |
| Fpg.RegisterOntoParses | casper_utils/src/design_sources/fpg.rs:105-111 | `register` reads back a written register line |
| Fpg.MetaOntoParses | casper_utils/src/design_sources/fpg.rs:115-132 | `meta` reads back a written meta line, with the path normalised |
| Fpg.NotRegister | casper_utils/src/design_sources/fpg.rs:106 | text whose second byte is not 'r' is no register line |
| Fpg.NotMeta | casper_utils/src/design_sources/fpg.rs:116 | text whose second byte is not 'm' is no meta line |
| Fpg.RegistersOntoParse | casper_utils/src/design_sources/fpg.rs:143 | `many0(register)` reads back every written register line and stops before the meta lines |
| Fpg.MetasOntoParse | casper_utils/src/design_sources/fpg.rs:144 | `many0(meta)` reads back every written meta line and stops before `?quit` |
| Fpg.GrammarRoundTrip | casper_utils/src/design_sources/fpg.rs:140-145 | a file written from well-formed lines reads back as exactly those lines, with the paths normalised, and the bytes after `?quit` untouched |
| Fpg.FileRoundTrip | casper_utils/src/design_sources/fpg.rs:140-173 | such a file parses to the device table of its lines and its bitstream |
| Fpg.ShebangVector | casper_utils/src/design_sources/fpg.rs:211-225 | `test_shebang` and `test_uploadbin` |
| Fpg.RegisterVector | casper_utils/src/design_sources/fpg.rs:227-235 | `test_register`: name fft_overflow_cnt, address 0x3510C, size 4 |
| Fpg.MetaVector | casper_utils/src/design_sources/fpg.rs:237-246 | `test_meta`: the path comes back as gbe0_txs_ss_bram |
| Fpg.TestAssemble | casper_utils/src/design_sources/fpg.rs:263-281 | the devices of `test_fpg_file`: SNAP has no register, tx_en takes its register |
| Fpg.FpgFileVector | casper_utils/src/design_sources/fpg.rs:248-283 | `test_fpg_file` parses to those devices and the bitstream DE AD BE EF |
| FpgLegacy.Shebang | src/yellow_blocks/mod.rs:37-39 | this fragment's shebang accepts exactly "#!/bin/kcpfg" and a line ending |
| FpgLegacy.UploadbinOnto | src/yellow_blocks/mod.rs:41-43 | `uploadbin` reads "?uploadbin" and a line ending, and refuses a bare line ending |
| FpgLegacy.ShebangOnto | src/yellow_blocks/mod.rs:37-39 | "#!/bin/kcpfg" and LF is read, leaving what follows |
| FpgLegacy.LiveShebangRejected | src/yellow_blocks/mod.rs:37-39 | a file with the live shebang "#!/bin/kcpfpg" is refused |
| FpgLegacy.HexU32Prefix | src/yellow_blocks/mod.rs:48-49 | `hex_u32` needs a leading hex digit, reads one to eight of them, gives a value below 2^32, and stops early only at a non-digit |
| FpgLegacy.HexU32Onto | src/yellow_blocks/mod.rs:48-49 | a run of one to eight digits is read in full, with its value |
| FpgLegacy.HexU32Long | src/yellow_blocks/mod.rs:48-49 | of a longer run, only the first eight digits are read and the rest stays in the input |
| FpgLegacy.LowerHexDigits | src/yellow_blocks/mod.rs:48-49 | a number below 16^k has at most k lowercase hex digits, so a `u32` has at most eight |
| FpgLegacy.HexField | src/yellow_blocks/mod.rs:48-49 | a number field starts with whitespace, consumes input and fits 32 bits |
| FpgLegacy.NameField | src/yellow_blocks/mod.rs:47 | a name is a run without spaces or tabs, followed by whitespace or the end, and empty only at the end |
| FpgLegacy.NameFieldOnto | src/yellow_blocks/mod.rs:47 | a non-empty name after a tab is read back |
| FpgLegacy.RegisterP | src/yellow_blocks/mod.rs:46-50 | a register line gives a non-empty name without whitespace, and an address and size below 2^32 |
| FpgLegacy.NewDevice | src/yellow_blocks/mod.rs:54-59 | a register line's device has no kind and no metadata, and the line's address and size |
| FpgLegacy.RegisterOntoParses | src/yellow_blocks/mod.rs:45-66 | a register line as the live writer writes it also reads back under this parser |
| FpgLegacy.HexFieldOnto | src/yellow_blocks/mod.rs:48-49 | a `u32` written as tab, "0x" and lowercase hex reads back |
| FpgLegacy.LongAddressRejected | src/yellow_blocks/mod.rs:48-49 | an address with a ninth digit makes the whole line fail: the ninth digit sits where the whitespace before the size must be |
| FpgLegacy.LongHexField | src/yellow_blocks/mod.rs:48-49 | a nine-digit field reads eight digits, and what is left is no number field |
| FpgLegacy.HexDigitNoField | src/yellow_blocks/mod.rs:48-49 | input that starts with a hex digit holds no number field |
| FpgLegacy.DeviceTable.constructor | src/yellow_blocks/mod.rs:17 | the device map starts empty |
| FpgLegacy.DeviceTable.Register | src/yellow_blocks/mod.rs:45-66 | a parse failure and the panic of the name's `from_utf8(..).unwrap()` leave the map alone; otherwise the name maps to the new device, replacing any earlier one, and the input after the line is returned |
| Md5.Md5StringLength | casper_utils/src/design_sources/mod.rs:44-46 | `md5_string` emits one or two lowercase hex digits per byte |
| Md5.DigestStringLength | casper_utils/src/design_sources/mod.rs:44-46 | a 16-byte digest gives between 16 and 32 digits |
| Md5.Md5StringConcat | casper_utils/src/design_sources/mod.rs:44-46 | the text of two byte strings joined is their texts joined |
| Md5.SmallByteOneDigit | casper_utils/src/design_sources/mod.rs:45 | a byte below 0x10 gives a single digit |
| Md5.Md5StringCollision | casper_utils/src/design_sources/mod.rs:44-46 | the digests 01 23 00 … and 12 03 00 … differ but give the same text |
| Md5.Hex2 | casper_utils/src/design_sources/mod.rs:45 | two lowercase digits whose value is the byte |
| Md5.Md5Hex | casper_utils/src/design_sources/mod.rs:44-46 | the zero-padded text: two digits per byte, at position 2i for byte i |
| Md5.Md5HexInjective | casper_utils/src/design_sources/mod.rs:44-46 | equal zero-padded texts come from equal digests |
| Md5.Md5HexAgrees | casper_utils/src/design_sources/mod.rs:44-46 | where every byte is at least 0x10 the padded and unpadded texts agree |
| Serde.Width | casperfpga/src/transport/mod.rs:26 | `size_of` of every integer type is between 1 and 16 bytes |
| Serde.Serialize | casperfpga/src/transport/mod.rs:23-32 | `serialize` gives a chunk exactly as wide as the type |
| Serde.Deserialize | casperfpga/src/transport/mod.rs:34-43 | `deserialize` accepts every chunk of the right width and gives a value of the type |
| Serde.RawRoundTrip | casperfpga/src/transport/mod.rs:28 | two's complement and back gives the raw value |
| Serde.DeserializeSerialize | casperfpga/src/transport/mod.rs:23-68 | `deserialize(serialize(x)) == x` for every integer type |
| Serde.SerializeDeserialize | casperfpga/src/transport/mod.rs:23-68 | `serialize(deserialize(c)) == c`: every chunk encodes exactly one value |
| Serde.SerializeVectors | casperfpga/src/transport/mod.rs:28 | most significant byte first: 0xDEADBEEF as a `u32` is DE AD BE EF, and -42 as an `i8` is D6 |
| Serde.ReadArray | src/transport/mod.rs:55-64 | `read::<N>` succeeds exactly when `read_vec` gives N bytes, and then gives them; otherwise the transport's error or the size mismatch |
| Serde.ReadNum | src/transport/mod.rs:11-20 | `read_<int>` succeeds exactly on a reply as wide as the type, and gives the value whose encoding the reply is |
| Serde.WriteNumReadNum | src/transport/mod.rs:22-32 | reading back the bytes `write_<int>` hands on gives the number |
| MockTransport.ZeroFilled | casperfpga/src/transport/mock.rs:19-30 | the memory of `new` holds exactly the addresses of the registers, each zero |
| MockTransport.CoveredIsMapped | casperfpga/src/transport/mock.rs:24-28 | the addresses the fill loop covers are those some register holds |
| MockTransport.Slice | casperfpga/src/transport/mock.rs:45-53 | the n bytes from an address, in order |
| MockTransport.ReadSpec | casperfpga/src/transport/mock.rs:38-55 | a read succeeds exactly when the device exists and all n addresses are in memory, and then gives those bytes; otherwise "Device not found" or "Out of bounds indexing" |
| MockTransport.Overwrite | casperfpga/src/transport/mock.rs:74-76 | the bytes of the data at their addresses, every other address unchanged |
| MockTransport.WriteSpec | casperfpga/src/transport/mock.rs:65-78 | a write succeeds exactly when the device exists and the data fits between the offset and the device's length; an offset past the length is the subtraction's underflow; otherwise the data overwrites its range and nothing else |
| MockTransport.OverwriteStep | casperfpga/src/transport/mock.rs:74-76 | one more turn of the loop stores one more byte |
| MockTransport.Store | casperfpga/src/transport/mock.rs:74-76 | the loop of `write_bytes` stores the data as `Overwrite` says |
| MockTransport.ZeroRange | casperfpga/src/transport/mock.rs:25-27 | the inner loop of `new` adds a zero at each address of one register and keeps every other byte |
| MockTransport.FilledAll | casperfpga/src/transport/mock.rs:24-28 | once every register is filled the memory is `ZeroFilled` |
| MockTransport.FilledOne | casperfpga/src/transport/mock.rs:24-28 | filling one more register extends the filled set by it |
| MockTransport.Mock.constructor | casperfpga/src/transport/mock.rs:19-30 | `new` keeps the table and zero-fills every register's addresses |
| MockTransport.Mock.IsRunning | casperfpga/src/transport/mock.rs:34-36 | the mock is always running |
| MockTransport.Mock.IsConnected | src/transport/mod.rs:46-48 | `is_connected` asks `is_running`, so the mock is always connected |
| MockTransport.Mock.ReadNBytes | casperfpga/src/transport/mock.rs:38-55 | the read loop gives what `ReadSpec` says |
| MockTransport.Mock.WriteBytes | casperfpga/src/transport/mock.rs:65-78 | the write changes memory as `WriteSpec` says, or not at all on failure, and leaves the table alone |
| MockTransport.Mock.Read | casperfpga/src/transport/mock.rs:57-63 | `read`: the type's width of bytes, deserialized |
| MockTransport.Mock.Write | casperfpga/src/transport/mock.rs:80-91 | `write`: the serialized value written with `write_bytes` at the same device and offset |
| MockTransport.Mock.ListDev | casperfpga/src/transport/mock.rs:93-95 | `listdev` gives the table unchanged |
| MockTransport.NewReadsZero | casperfpga/src/transport/mock.rs:133-151 | every range inside a device of a fresh mock reads as zeros |
| MockTransport.WriteThenRead | casperfpga/src/transport/mock.rs:153-165 | reading back a written range gives the written bytes |
| MockTransport.ReadWithinWrite | casperfpga/src/transport/mock.rs:167-181 | a read inside a written range gives the matching part of the written bytes |
| MockTransport.WriteThenReadNum | casperfpga/src/transport/mock.rs:114-131 | writing and reading back an integer of any type gives the integer |
| MockTransport.ReadElsewhere | casperfpga/src/transport/mock.rs:74-76 | reads of a range the write did not touch see the old bytes |
| MockTransport.ScratchpadRoundTrip | casperfpga/src/transport/mock.rs:197-206 | `test_rw_<int>`: a scratchpad as wide as the type reads back any value written |
| MockTransport.ScratchpadVectors | casperfpga/src/transport/mock.rs:143-181 | `test_read_offset` and `test_write_read_offset`, and an offset past the length underflows |
| SoftwareRegister.BitsType | casperfpga/src/yellow_blocks/swreg.rs:3-5 | the raw bits of a 32-bit fixed-point type are a 4-byte integer, signed exactly when the type is |
| SoftwareRegister.ParseDirection | casperfpga/src/yellow_blocks/swreg.rs:109-113 | "To\_Processor" and "From\_Processor" pick the two directions, and every other text is `BadDirection` |
| SoftwareRegister.FixedFromFpg | casperfpga/src/yellow_blocks/swreg.rs:104-123 | succeeds exactly when the direction and the `usize` bit width parse, keeping both; a bad direction is `BadDirection` and then a bad width `BadBitwidth` |
| SoftwareRegister.BooleanFromFpg | casperfpga/src/yellow_blocks/swreg.rs:174-190 | succeeds exactly when the direction parses, and every failure is `BadDirection` |
| SoftwareRegister.OverflowBound | casperfpga/src/yellow_blocks/swreg.rs:147-149 | with no fraction bits the write refuses exactly the values from 2^width up; with fraction bits it refuses only values above 2^width |
| SoftwareRegister.WideNeverOverflows | casperfpga/src/yellow_blocks/swreg.rs:147-149 | a register 32 or more bits wide accepts every value of its 32-bit type |
| SoftwareRegister.ReadFixed | casperfpga/src/yellow_blocks/swreg.rs:129-134 | the 4 bytes at offset 0 as the type's raw bits, or the transport's error |
| SoftwareRegister.WriteFixed | casperfpga/src/yellow_blocks/swreg.rs:141-154 | a ToProcessor register is `ReadOnly`, a width of 64 or more panics in `pow`, and an overflowing value is `Overflow`, each leaving the transport untouched; otherwise the 4 big-endian bytes go to offset 0 |
| SoftwareRegister.ReadBool | casperfpga/src/yellow_blocks/swreg.rs:196-202 | `true` exactly when the `u32` at offset 0 is 1 |
| SoftwareRegister.BoolWord | casperfpga/src/yellow_blocks/swreg.rs:215 | `u32::from(bool)` is 1 for `true` and 0 for `false` |
| SoftwareRegister.WriteBool | casperfpga/src/yellow_blocks/swreg.rs:208-216 | a ToProcessor register is `ReadOnly` and untouched; otherwise the `u32` 1 or 0 goes to offset 0 |
| SoftwareRegister.FixedRoundTrip | casperfpga/src/yellow_blocks/swreg.rs:129-154 | the raw bits a write stored read back unchanged |
| SoftwareRegister.BoolRoundTrip | casperfpga/src/yellow_blocks/swreg.rs:196-216 | a boolean written reads back as itself |
| SoftwareRegister.UnsignedFixedVector | casperfpga/src/yellow_blocks/swreg.rs:233-249 | `test_fixed_readwrite`: 2.75 as U27F5 is written and read back unchanged |
| SoftwareRegister.SignedFixedVector | casperfpga/src/yellow_blocks/swreg.rs:251-267 | `test_ufixed_readwrite`: 3.15625 as I25F7 is written and read back unchanged |
| SoftwareRegister.Classify | src/yellow_blocks/swreg.rs:35-68 | the kind must be `xps:sw_reg`; a missing `io_dir`, `bin_pts` or `arith_types` is the "Missing" error, a bad `io_dir` "Malformed", a bad `bin_pts` a parse error, and an `arith_types` other than "0", "1", "2" "Missing"; on success "2" is boolean and "0"/"1" unsigned/signed fixed point with `bin_pts` fraction bits |
| SoftwareRegister.ClassifyVector | src/yellow_blocks/swreg.rs:79-98 | `test_from_fpg`: a FromProcessor unsigned register with no fraction bits |
| Bram.FromFpg | casperfpga/src/yellow_blocks/bram.rs:57-71 | succeeds exactly when `addr_width` parses as a `usize` below 64, with the size 2^addr_width; text that does not parse is `BadAddrWidth` |
| Bram.WordsFlatten | casperfpga/src/yellow_blocks/bram.rs:96-126 | laying words out big-endian and chunking them back gives the same words |
| Bram.FlattenWords | casperfpga/src/yellow_blocks/bram.rs:96-126 | chunking n·N bytes into words and laying them out again gives the same bytes |
| Bram.ReadAddr | casperfpga/src/yellow_blocks/bram.rs:83-89 | as written: an index of `size` or more is `OutOfBounds`; otherwise one word read at byte offset `addr` |
| Bram.ReadWord | casperfpga/src/yellow_blocks/bram.rs:83-89 | corrected: the same bounds check, then word `addr` read at byte offset `addr`·N |
| Bram.Read | casperfpga/src/yellow_blocks/bram.rs:96-106 | all `size`·N bytes from offset 0, as `size` words in order |
| Bram.Write | casperfpga/src/yellow_blocks/bram.rs:112-126 | data that is not exactly `size` words is `BadSize` and writes nothing; otherwise the words are laid out at offset 0 |
| Bram.WriteAddr | casperfpga/src/yellow_blocks/bram.rs:133-138 | no bounds check: one word at byte offset `addr` |
| Bram.WriteThenReadAll | casperfpga/src/yellow_blocks/bram.rs:96-126 | `write` then `read` gives back the words written |
| Bram.WriteThenReadWord | casperfpga/src/yellow_blocks/bram.rs:83-126 | after `write`, word i read at byte offset i·N is `data[i]` |
| Bram.ReadAddrStraddles | casperfpga/src/yellow_blocks/bram.rs:89 | a two-word `u32` BRAM holding 0x01020304, 0x05060708 reads 0x02030405 at `read_addr(1)`, not the second word |
| Snapshot.FromFpg | casperfpga/src/yellow_blocks/snapshot.rs:86-105 | a bad `nsamples` is `BadSampleN`; succeeds exactly when it parses as a `u32` and `offset` is "on" or "off", with "on" meaning an offset register; any other offset is `unreachable!()` |
| Snapshot.UnpackPack | casperfpga/src/yellow_blocks/snapshot.rs:39-51 | the four control flags read back from their packed word |
| Snapshot.RepackKeepsLowBits | casperfpga/src/yellow_blocks/snapshot.rs:39-51 | rewriting a control word through `Control` keeps its bits 0 to 3 and clears the rest |
| Snapshot.StatusDone | casperfpga/src/yellow_blocks/snapshot.rs:53-59 | `done` is bit 31 of the status word |
| Snapshot.Arm | casperfpga/src/yellow_blocks/snapshot.rs:111-120 | the clear control and then the control with only `arm` set, both to `{name}_ctrl`; only the first write can fail |
| Snapshot.ArmLeavesArmed | casperfpga/src/yellow_blocks/snapshot.rs:111-120 | after `arm` the control reads back with `arm` set and nothing else |
| Snapshot.Read | casperfpga/src/yellow_blocks/snapshot.rs:128-139 | the status is read, its error passed on and its value ignored; then exactly 2^samples_n bytes of `{name}_bram` from offset 0; a `samples_n` of 32 or more panics in `pow` |
| Snapshot.TriggerSetsBitOne | casperfpga/src/yellow_blocks/snapshot.rs:145-153 | the word `trigger` writes is the read word's low four bits with bit 1 set |
| Snapshot.Trigger | casperfpga/src/yellow_blocks/snapshot.rs:145-153 | reads `{name}_ctrl`, sets `trig_override` and writes it back; a failed read writes nothing |
| Snapshot.SetOffset | casperfpga/src/yellow_blocks/snapshot.rs:159-169 | without an offset register `NoOffsets`, touching nothing; otherwise the `u32` goes to `{name}_trig_offset` |
| Hmcad1511.PdPinCfgFromCode | casperfpga/src/yellow_blocks/snapadc/hmcad1511.rs:39-46 | `from_primitive` inverts the discriminant and is `None` on every other code |
| Hmcad1511.DriveFromCode | casperfpga/src/yellow_blocks/snapadc/hmcad1511.rs:63-75 | the same for the eight drive strengths |
| Hmcad1511.JitterFromCode | casperfpga/src/yellow_blocks/snapadc/hmcad1511.rs:232-253 | the same for the nine jitter settings |
| Hmcad1511.SignedRoundTrip | casperfpga/src/yellow_blocks/snapadc/hmcad1511.rs:306-347 | a signed field's two's complement pattern reads back as its value |
| Hmcad1511.Address | casperfpga/src/yellow_blocks/snapadc/hmcad1511.rs:10-532 | every register's `#[address]` fits the 8-bit address of the 3-wire bus |
| Hmcad1511.LayoutWellFormed | casperfpga/src/yellow_blocks/snapadc/hmcad1511.rs:10-532 | every register's fields lie within its 16 bits and do not overlap |
| Hmcad1511.Word | casperfpga/src/yellow_blocks/snapadc/hmcad1511.rs:10-532 | `pack` gives a 16-bit word |
| Hmcad1511.Packed | casperfpga/src/yellow_blocks/snapadc/hmcad1511.rs:10-532 | into exactly two bytes |
| Hmcad1511.PackedWord | casperfpga/src/yellow_blocks/snapadc/controller.rs:121-122 | `u16::from_be_bytes` of the packed bytes is the word |
| Hmcad1511.WordFields | casperfpga/src/yellow_blocks/snapadc/hmcad1511.rs:10-532 | the word holds each field's value at its declared bits, and every other bit is clear |
| Hmcad1511.Decode | casperfpga/src/yellow_blocks/snapadc/hmcad1511.rs:10-532 | `unpack` at an address gives a register of that address with values its type can hold |
| Hmcad1511.DecodeWord | casperfpga/src/yellow_blocks/snapadc/hmcad1511.rs:10-532 | unpacking a register's word at its address gives the register back |
| Hmcad1511.WordDetermines | casperfpga/src/yellow_blocks/snapadc/hmcad1511.rs:10-532 | two registers with the same address and word are the same register |
| Hmcad1511.WordIsUnique | casperfpga/src/yellow_blocks/snapadc/hmcad1511.rs:10-532 | the packed word is the only 16-bit word with the register's field values and every other bit clear |
| Hmcad1511.JitterThermometer | casperfpga/src/yellow_blocks/snapadc/hmcad1511.rs:232-253 | jitter setting k is the code 2^k − 1 |
| Hmcad1511.InputSelectOneHot | casperfpga/src/yellow_blocks/snapadc/hmcad1511.rs:390-401 | input k of the cross-point switch is the code 2^k, for k from 1 to 4 |
| Hmcad1511.ChannelNumOneHot | casperfpga/src/yellow_blocks/snapadc/hmcad1511.rs:267-278 | the channel-count code is 2^k for 2^k channels |
| Hmcad1511.DefaultInputSelect12Word | casperfpga/src/yellow_blocks/snapadc/hmcad1511.rs:360-367 | by default ADC 1 and 2 take inputs 1 and 2, and that word unpacks to them |
| Hmcad1511.DefaultInputSelect34Word | casperfpga/src/yellow_blocks/snapadc/hmcad1511.rs:380-387 | by default ADC 3 and 4 take inputs 3 and 4, and that word unpacks to them |
| Hmcad1511.SleepPdDefaultWord | casperfpga/src/yellow_blocks/snapadc/hmcad1511.rs:19-37 | the default sleep register packs to 0 |
| Hmcad1511.SleepPdPowerDownWord | casperfpga/src/yellow_blocks/snapadc/hmcad1511.rs:19-37 | the sleep register with `pd` set packs to 0x0200, bit 9 alone |
| Hmcad1511.ResetWord | casperfpga/src/yellow_blocks/snapadc/hmcad1511.rs:10-17 | the reset register with `reset` set packs to 1 |
| Adc16.LanesRoundTrip | casperfpga/src/yellow_blocks/snapadc/controller.rs:229-247 | a chip select's 8-bit lane code decodes back to the same chip select |
| Adc16.ByNumber | casperfpga/src/yellow_blocks/snapadc/controller.rs:250-286 | chip v alone for v up to 7; every other number is `unreachable!()` |
| Adc16.PackWireSerialized | casperfpga/src/yellow_blocks/snapadc/controller.rs:290-306 | the 3-wire word crosses the transport as its 4 big-endian bytes |
| Adc16.WireWordFields | casperfpga/src/yellow_blocks/snapadc/controller.rs:290-306 | each field of the 3-wire word sits at its `msb0` bits: bit p is integer bit 31 − p |
| Adc16.UnpackPackWire | casperfpga/src/yellow_blocks/snapadc/controller.rs:290-306 | unpacking a packed 3-wire word gives it back |
| Adc16.DemuxFromCode | casperfpga/src/yellow_blocks/snapadc/controller.rs:317-323 | the demux codes 0, 1 and 2 and no other |
| Adc16.UnpackControl | casperfpga/src/yellow_blocks/snapadc/controller.rs:347-363 | `unpack` of the control word fails exactly on the demux code 3 |
| Adc16.ControlWordFields | casperfpga/src/yellow_blocks/snapadc/controller.rs:347-363 | each field of the control word sits at its `msb0` bits |
| Adc16.UnpackPackControl | casperfpga/src/yellow_blocks/snapadc/controller.rs:347-363 | unpacking a packed control gives it back |
| Adc16.ClockedAt | casperfpga/src/yellow_blocks/snapadc/controller.rs:88-112 | bus state k of the clocked bits has the clock low on even k and high on odd k, with bit k / 2 on the data line |
| Adc16.WordFramesSelect | casperfpga/src/yellow_blocks/snapadc/controller.rs:115-140 | between its two idle states `send_reg` keeps the chip select and toggles the clock |
| Adc16.LatchedWord | casperfpga/src/yellow_blocks/snapadc/controller.rs:115-140 | a chip latches, on the rising clock edges, exactly the 8 address bits and then the 16 data bits, most significant first |
| Adc16.LatchedRegister | casperfpga/src/yellow_blocks/snapadc/controller.rs:115-140 | so the chip decodes the register `send_reg` was given |
| Adc16.PowerUpAt | casperfpga/src/yellow_blocks/snapadc/controller.rs:217-221 | the i-th power-up command goes to chip i alone |
| Adc16.PowerCycleFirst | casperfpga/src/yellow_blocks/snapadc/controller.rs:208-213 | `power_cycle` first sends 0x0200 to register 0x0F through the current chip select |
| Adc16.PowerCycleSlice | casperfpga/src/yellow_blocks/snapadc/controller.rs:217-221 | then the default sleep word to each chip 0 .. 7 alone, one 50-state block each |
| Adc16.PowerCycleUp | casperfpga/src/yellow_blocks/snapadc/controller.rs:217-221 | so chip i latches the word 0 for register 0x0F |
| Adc16.ProbeReadsBack | casperfpga/src/yellow_blocks/snapadc/controller.rs:145-160 | on a transport that keeps every bit the probe sticks, so `supports_demux` is false there |
| Adc16.SetDemuxReadsBack | casperfpga/src/yellow_blocks/snapadc/controller.rs:187-200 | after `set_demux` the control reads back with the new mode and every other field as before |
| Adc16.HaltsAtRelock | casperfpga/src/yellow_blocks/snapadc/controller.rs:88-90 | a thread that holds the mutex, writes, and locks it again halts there |
| Adc16.SendRegHalts | casperfpga/src/yellow_blocks/snapadc/controller.rs:115-140 | as written `send_reg` makes its first idle write and never returns |
| Adc16.SendRegOneLockReturns | casperfpga/src/yellow_blocks/snapadc/controller.rs:115-140 | with one lock it returns, having made the writes `SendWord` makes |
| Adc16.GetDemuxHalts | casperfpga/src/yellow_blocks/snapadc/controller.rs:163-171 | as written `get_demux` never returns and writes nothing |
| Adc16.SetDemuxReturns | casperfpga/src/yellow_blocks/snapadc/controller.rs:187-200 | `set_demux` takes its lock after `supports_demux` has dropped its own, so it returns with both writes made |
| Adc16.Adc16Controller.constructor | casperfpga/src/yellow_blocks/snapadc/controller.rs:44-49 | no chip selected |
| Adc16.Adc16Controller.SupportedChips | casperfpga/src/yellow_blocks/snapadc/controller.rs:52-57 | the 4-bit chip count of the 3-wire word, or the read's error |
| Adc16.Adc16Controller.Revision | casperfpga/src/yellow_blocks/snapadc/controller.rs:60-65 | the 2-bit revision of the 3-wire word, or the read's error |
| Adc16.Adc16Controller.Locked | casperfpga/src/yellow_blocks/snapadc/controller.rs:68-80 | locked exactly when the line lock is 3, or 1 on at most 4 chips; the `unreachable!()` is never reached |
| Adc16.Adc16Controller.ChipSelect | casperfpga/src/yellow_blocks/snapadc/controller.rs:83-85 | the chip select of the bits sent from now on |
| Adc16.Adc16Controller.Send3WireBit | casperfpga/src/yellow_blocks/snapadc/controller.rs:88-112 | the clock low and then high with the bit on the data line; only the first write can fail |
| Adc16.Adc16Controller.SendBits | casperfpga/src/yellow_blocks/snapadc/controller.rs:129-136 | each bit in turn clocked out, once the first write has reached the register |
| Adc16.Adc16Controller.SendWord | casperfpga/src/yellow_blocks/snapadc/controller.rs:127-139 | idle, the 24 bits, idle; without a reachable 3-wire word only the first write is tried, it fails, and memory is unchanged |
| Adc16.Adc16Controller.SendReg | casperfpga/src/yellow_blocks/snapadc/controller.rs:115-140 | the register's address and packed word sent to the selected chips, with the lock taken once |
| Adc16.Adc16Controller.ReadCtl | casperfpga/src/yellow_blocks/snapadc/controller.rs:157 | the control's 4 bytes at offset 4, unpacked |
| Adc16.Adc16Controller.SupportsDemux | casperfpga/src/yellow_blocks/snapadc/controller.rs:145-160 | write the probe, read the control back; support is a write-enable bit that did not stick |
| Adc16.Adc16Controller.GetDemux | casperfpga/src/yellow_blocks/snapadc/controller.rs:163-171 | with one lock: the demux mode when the probe finds support, `None` otherwise, or the transport's error |
| Adc16.Adc16Controller.SetDemux | casperfpga/src/yellow_blocks/snapadc/controller.rs:187-200 | without support `Unsupported`; otherwise the control rewritten with the new mode and every other field as read |
| Adc16.Adc16Controller.Reset | casperfpga/src/yellow_blocks/snapadc/controller.rs:203-205 | the word 1 sent to register 0x00 |
| Adc16.Adc16Controller.PowerDown | casperfpga/src/yellow_blocks/snapadc/controller.rs:210-213 | the word 0x0200 sent to register 0x0F |
| Adc16.Adc16Controller.PowerUp | casperfpga/src/yellow_blocks/snapadc/controller.rs:220 | the word 0 sent to register 0x0F |
| Adc16.Adc16Controller.PowerCycle | casperfpga/src/yellow_blocks/snapadc/controller.rs:208-225 | power down through the current chip select, power up chips 0 to 7 one by one, and restore the chip select |
| Adc16.Adc16Controller.PowerUpChips | casperfpga/src/yellow_blocks/snapadc/controller.rs:217-221 | the power-up command to chip 0, 1, … 7 in turn, leaving chip 7 selected |
| SnapAdc.SourceWord | casperfpga/src/yellow_blocks/snapadc/clockswitch.rs:41-42 | 1 for the internal synthesizer, 0 for the external clock |
| SnapAdc.DecodeSource | casperfpga/src/yellow_blocks/snapadc/clockswitch.rs:54-58 | 1 and 0 decode to the two sources and are their words; any other value is `unreachable!()` |
| SnapAdc.ClockSwitch.constructor | casperfpga/src/yellow_blocks/snapadc/clockswitch.rs:29-31 | the switch drives the given transport |
| SnapAdc.ClockSwitch.SetSource | casperfpga/src/yellow_blocks/snapadc/clockswitch.rs:37-44 | the source's `u32` written to `adc16_use_synth` at offset 0, and nothing else |
| SnapAdc.ClockSwitch.GetSource | casperfpga/src/yellow_blocks/snapadc/clockswitch.rs:50-59 | the `u32` at offset 0, decoded |
| SnapAdc.SourceRoundTrip | casperfpga/src/yellow_blocks/snapadc/clockswitch.rs:37-59 | after `set_source(s)` succeeds, `get_source` reads s |
| SnapAdc.ClockSwitchTest | casperfpga/src/yellow_blocks/snapadc/clockswitch.rs:74-86 | `test_clock_switch`: External and then Internal both read back |
| SnapAdc.ModeOf | casperfpga/src/yellow_blocks/snapadc/mod.rs:61-66 | "12", "6" and "3" are the quad, dual and single modes, and no other text is a mode |
| SnapAdc.Classify | casperfpga/src/yellow_blocks/snapadc/mod.rs:54-82 | a bad `snap_inputs`, then a resolution other than "8", then a bad `sample_rate` fail, in that order; otherwise the name, rate and mode are kept |
| SnapAdc.ClassifyText | casperfpga/src/yellow_blocks/snapadc/mod.rs:54-82 | metadata written the way a design tool writes it is accepted and read back exactly |
| SnapAdc.SnapAdc.constructor | casperfpga/src/yellow_blocks/snapadc/mod.rs:70-81 | the clock switch and the controller are new and share the one transport |
| SnapAdc.FromFpg | casperfpga/src/yellow_blocks/snapadc/mod.rs:54-82 | the checks of `Classify`, then the components built on the transport |
| TenGbe.EthernetFromCode | casperfpga/src/yellow_blocks/ten_gbe.rs:47-54 | `from_primitive` inverts the speed's discriminant: codes 1 to 5 and no other |
| TenGbe.OffsetsApart | casperfpga/src/yellow_blocks/ten_gbe.rs:56-169 | no two sub-registers of the core share a byte |
| TenGbe.Packed | casperfpga/src/yellow_blocks/ten_gbe.rs:56-169 | each sub-register packs to its declared number of bytes |
| TenGbe.Unpacked | casperfpga/src/yellow_blocks/ten_gbe.rs:56-169 | `unpack` gives a value of the type at that address, and fails exactly for a CoreType whose type byte is no speed |
| TenGbe.UnpackPacked | casperfpga/src/yellow_blocks/ten_gbe.rs:56-169 | `unpack(pack(r)) == r`, and `pack` leaves every undeclared bit clear |
| TenGbe.PackedUnpacked | casperfpga/src/yellow_blocks/ten_gbe.rs:56-169 | `pack(unpack(b)) == b` exactly when every undeclared bit of b is clear |
| TenGbe.HalvesWord | casperfpga/src/yellow_blocks/ten_gbe.rs:70-86 | the two `u16` fields read as one big-endian `u32` put the first in the high half |
| TenGbe.HalvesRoundTrip | casperfpga/src/yellow_blocks/ten_gbe.rs:70-86 | two `u16`s read back from their bytes |
| TenGbe.OctetsRoundTrip | casperfpga/src/yellow_blocks/ten_gbe.rs:106-130 | an IP register's four octets and its address convert both ways |
| TenGbe.CoreTypeBytes | casperfpga/src/yellow_blocks/ten_gbe.rs:56-68 | a packed CoreType is the tx flag, the rx flag, the revision and the speed's code, in that order |
| TenGbe.PromiscRstEnBytes | casperfpga/src/yellow_blocks/ten_gbe.rs:141-151 | a packed PromiscRstEn is three zero bytes, then enable + 4·promisc + 16·soft_rst |
| TenGbe.StatusBytes | casperfpga/src/yellow_blocks/ten_gbe.rs:162-169 | a packed Status is seven zero bytes, then link_up |
| TenGbe.FlagValuesRoundTrip | casperfpga/src/yellow_blocks/ten_gbe.rs:56-169 | the field values of a flag register and the register convert both ways |
| FpgDerive.FixedType | casperfpga_derive/src/fpg.rs:31-44 | `bin_pts` as a `u32` is the number of fraction bits, and "0" and "1" are unsigned and signed; anything else panics |
| FpgDerive.SwRegType | casperfpga_derive/src/fpg.rs:46-57 | "2" is a boolean register and every other `arith_types` goes to `fixed_type` |
| FpgDerive.SampleType | casperfpga_derive/src/fpg.rs:59-75 | the unsigned type whose bit width is the given one, if any |
| FpgDerive.SnapshotType | casperfpga_derive/src/fpg.rs:59-75 | `data_width` as a `u32` picks u8 to u128; any other width panics |
| FpgDerive.KindToType | casperfpga_derive/src/fpg.rs:77-86 | `None` exactly for the kinds other than the four mapped ones; 10GbE and SNAP ADC have fixed types, and the others are typed from their metadata |
| FpgDerive.SwRegText | casperfpga_derive/src/fpg.rs:46-57 | a software register as a design tool writes it gets the type its `arith_types` and `bin_pts` name |
| FpgDerive.SnapshotText | casperfpga_derive/src/fpg.rs:59-75 | a snapshot whose `data_width` is a type's bit width samples that type |
| FpgDerive.MetaArgs | casperfpga_derive/src/fpg.rs:101-104 | the metadata values at the keys, in order, failing exactly when one is missing |
| FpgDerive.DevToConstructor | casperfpga_derive/src/fpg.rs:88-157 | a kind that panics panics; an unmapped kind or a name that is not an identifier gives nothing; otherwise the constructor of that type with its metadata arguments in order, and for a SNAP ADC the `snap` device's `clk_src` after them |
| FpgDerive.StructFieldsPanic | casperfpga_derive/src/fpg.rs:159-176 | the struct fields panic exactly when some listed device's type panics or a typed name is not an identifier |
| FpgDerive.StructFieldsHas | casperfpga_derive/src/fpg.rs:159-176 | every listed name has a type, and one with a type has a field |
| FpgDerive.StructFieldsFrom | casperfpga_derive/src/fpg.rs:159-176 | every field comes from a listed name and carries that device's type |
| FpgDerive.StructFieldsExactly | casperfpga_derive/src/fpg.rs:159-176 | a listed name has a field exactly when its device has a type, and with that type |
| FpgDerive.StructFieldsNotIn | casperfpga_derive/src/fpg.rs:159-176 | a name that is not listed has no field |
| FpgDerive.FieldNamesOfFields | casperfpga_derive/src/fpg.rs:178-189 | the field names are the struct fields' names, in order, failing together |
| FpgDerive.ConstructorsMatchFields | casperfpga_derive/src/fpg.rs:159-198 | when both succeed, the constructors and the struct fields match one to one, in order |
| FpgDerive.BadIdentifier | casperfpga_derive/src/fpg.rs:99-169 | a typed device whose name is no identifier is skipped by `dev_to_constructor` but makes `generate_struct_fields` panic |
| TapcpTransport.RunningAsWritten | casperfpga/src/transport/tapcp.rs:78-87 | as written: the downcast finds nothing, so a successful read means running and every error is passed on |
| TapcpTransport.NotFoundPassedOn | casperfpga/src/transport/tapcp.rs:78-87 | a "file not found" reply fails as written but means "not running" in `Running` |

## Left out

- TftpClient.Socket: the socket timeouts, the `thread::sleep` before each attempt and its `powf` backoff (tapcp/src/tftp.rs:126-128 and 151-153) are left out; only the retry count is kept. Once its receive script is used up a `recv` is `WouldBlock`, and once its send script is used up a `send` succeeds.
- TftpClient: tapcp/src/lib.rs:4 declares only `mod csl`, so tapcp/src/tftp.rs is not compiled into the `tapcp` crate, whose `read_device` and the rest call the external `tftp_client` crate instead. The model still models tftp.rs, as the client that crate stands for.
- Tapcp.Endpoint: stands in for the `tftp_client` crate's `download` and `upload`, whose source is not part of this model. Once its download script is used up a download fails with `Tftp(None)`, and once its upload script is used up an upload succeeds. The error shape `Tftp(Option<ErrorCode>)`, the server's TFTP error code if any, stands in for `tftp_client::Error`.
- Tapcp.SetMetadata: Rust's `HashMap` iteration order is not specified, so the order of the entries is the parameter `order`. The same holds for TapcpMetadata.DecodeEncodedBody, Fpg.BuildDevices, FpgDerive.StructFields and FpgDerive.Constructors.
- Tapcp: the foreign-function `listdev`, `temp` and `help` wrappers (tapcp/src/lib.rs:60-105) and their `f32` temperature are not modelled. They are foreign code over floating point.
- TapcpTransport: the Python bindings (casperfpga/src/transport/tapcp.rs:167-297) and the `f32`/`f64` serde impls are not modelled. They are foreign code and floating point.
- TapcpTransport.TapcpConnection.Deprogram: the source calls `tapcp::progdev(0, &mut self.socket, self.retries)` with three arguments (casperfpga/src/transport/tapcp.rs:124-126), but `progdev` takes two (tapcp/src/lib.rs:195). The model uses the two-argument `progdev`.
- TapcpTransport.TapcpConnection: `program` is a `todo!()` stub (casperfpga/src/transport/tapcp.rs:120-122) and is not modelled.
- Fpg.Load: the file I/O of `read_fpg_file`, `md5::compute`, the `GzDecoder` and `file_name().unwrap()` (casper_utils/src/design_sources/fpg.rs:183-203) are left out. The model takes the parse's outcome as its input, reports a failed parse as `ParseMatch`, and only decides whether the bitstream is to be decompressed.
- Fpg: casper_utils/src/bitstream/fpg.rs:59-153 is the same grammar as casper_utils/src/design_sources/fpg.rs and is modelled by the same `Fpg` members. Its `read_fpg_file` (lines 157-167) has no gzip check, so it is `Parse` alone.
- MockTransport.Mock: `Weak::upgrade().unwrap()` and `Mutex::lock().unwrap()` on the shared transport are dropped. The yellow blocks are specialised to the mock transport, although the source is generic over any `T: Transport`.
- TapcpTransport.TapcpConnection.ReadNBytes: `offset + n` can overflow `usize` (casperfpga/src/transport/tapcp.rs:137), and this is not modelled. Neither is the overflow of `n * 4` in `read_device` (tapcp/src/lib.rs:123) or of `size * N` in Bram.Read and Bram.Write (casperfpga/src/yellow_blocks/bram.rs:100 and 116).
- FpgDerive.DevToConstructor: `syn::parse_str::<Ident>` is the parameter `isIdent`, because the Rust identifier grammar is not modelled.
- FpgDerive.DevToConstructor: the generated SNAP ADC call passes six arguments (casperfpga_derive/src/fpg.rs:148), but `SnapAdc::from_fpg` takes five. The model keeps the six arguments as generated.
- TenGbe: `from_fpg` stores only the name (casperfpga/src/yellow_blocks/ten_gbe.rs:32-37); the model covers the core's memory map, not a driver.
- TenGbe: the CasperSerde derive that carries each sub-register over the transport at its address is not modelled; each register's `pack`/`unpack` is.
- TenGbe: the MacAddress of the older src/yellow_blocks/ten_gbe.rs has no PackedStruct impl and is not modelled.
- SnapAdc: `LmxSynth` (casperfpga/src/yellow_blocks/snapadc/lmx.rs) has only a constructor and a register name, no operation, and is not modelled.
- Adc16: the `AdcDelayAStrobe` and `AdcDelayBStrobe` layouts (casperfpga/src/yellow_blocks/snapadc/controller.rs:365-406) are not modelled, because no function of the controller uses them.
- Adc16.Adc16Controller.SendBits: `SendBits` and `SendWord` are a split of `send_reg` into its shift loop and its frame. They are not functions of the source.
- Adc16.Adc16Controller.PowerCycle: it is split into `PowerDown` and `PowerUpChips` for the proof. Neither is a function of the source.
- Adc16.PackWire: `PackWire` and `PackControl` spell out the `packed_struct` derive for one layout each, instead of modelling the derive macro.
- TftpPacket.UnpackVectors: the round-trip tests of the RRQ, WRQ and ERROR datagrams (tapcp/src/tftp.rs:437-451 and 465-469) are not written out as vectors; each is an instance of TftpPacket.PackUnpack.
- casperfpga/src/transport/local.rs is not part of this model: it is a transport to a local device file.
- FpgLegacy: the older crate's src/yellow_blocks/clockswitch.rs and src/yellow_blocks/snapadc.rs are `todo!()` stubs, and its src/transport/tapcp.rs has `todo!()` for everything but `new`, `connect` and `is_running`, which the newer transport supersedes. None of them is modelled.

## Findings

| source | as written | input that shows it | evidently intended | confidence | as-written member | corrected member |
|---|---|---|---|---|---|---|
| casperfpga/src/transport/tapcp.rs:136-142 | `last_word = (offset + n) / 4` leaves out the word holding the last bytes when `offset + n` is not a multiple of 4, and the slice then panics | offset 2, n = 3: one word is read and bytes 2..5 of 4 are sliced | read every word the bytes touch | not executed | TapcpTransport.TapcpConnection.ReadNBytes + TapcpTransport.ShortReadPanics | TapcpTransport.TapcpConnection.ReadNBytesSpanned + TapcpTransport.WordsSpanned + TapcpTransport.SpannedCovers |
| casperfpga/src/transport/tapcp.rs:97 | an aligned write is sent to word `offset % 4`, which is always 0 | offset 4: the data lands in word 0 instead of word 1 | word `offset / 4` | not executed | TapcpTransport.TapcpConnection.WriteBytes + TapcpTransport.WritesGoToWordZero | TapcpTransport.TapcpConnection.WriteBytesAtWord |
| casper_utils/src/design_sources/fpg.rs:198 | `bitstream[..3]` panics on a bitstream shorter than 3 bytes | an FPG file whose bitstream is empty | only a 3-byte gzip magic selects decompression; a short bitstream is kept as it is | not executed | Fpg.LoadAsWritten + Fpg.ShortBitstreamPanics | Fpg.Load + Fpg.LoadAgrees |
| casper_utils/src/design_sources/mod.rs:44-46 | `{v:x}` writes bytes below 0x10 as one digit, so different digests can give the same text | digests 01 23 00 … and 12 03 00 … both begin "123" | two zero-padded digits per byte (`{v:02x}`) | not executed | Md5.Md5StringCollision | Md5.Md5Hex + Md5.Md5HexInjective |
| casperfpga/src/yellow_blocks/bram.rs:83-89 | `read_addr` passes the word index as a byte offset | a two-word `u32` BRAM holding 0x01020304, 0x05060708: `read_addr(1)` gives 0x02030405 | byte offset `addr * N` | not executed | Bram.ReadAddr + Bram.ReadAddrStraddles | Bram.ReadWord + Bram.WriteThenReadWord |
| casperfpga/src/yellow_blocks/snapadc/controller.rs:115-140 | `send_reg` holds the transport's mutex while each `send_3wire_bit` locks it again (lines 89-90), so `send_reg`, `reset` and `power_cycle` never return | any register: the first idle write is made, then the thread halts at the next lock | take the lock once for the whole register | not executed | Adc16.SendRegHalts | Adc16.Adc16Controller.SendReg + Adc16.LatchedRegister + Adc16.SendRegOneLockReturns |
| casperfpga/src/yellow_blocks/snapadc/controller.rs:163-171 | `get_demux` holds the mutex while `supports_demux` locks it again | any call: nothing is written and the thread halts | take the lock once | not executed | Adc16.GetDemuxHalts | Adc16.Adc16Controller.GetDemux |
| casperfpga/src/transport/tapcp.rs:78-81 | the error is downcast to `tapcp::tftp::Error`; `read_device` returns `tapcp::Error` wrapping `tftp_client::Error` (tapcp/src/lib.rs:25-28), so the "file not found" branch never matches | a board without `sys_clkcounter`: the reply `Tftp(Some(NotFound))` fails `is_running` | "file not found" means not running | not executed | TapcpTransport.RunningAsWritten + TapcpTransport.NotFoundPassedOn | TapcpTransport.Running |
