# Verified models of the C library's storage, mail, codec, hash and queue code

Eight components of the repository, modelled in Dafny in the form of their C code and proved against independent
specifications. Arrays, structs, chunk lists and linked blocks are updated in place by methods; what they amount to is
stated by functions, and the promises are theorems about those functions.

* **scdb** (`scdb_*.dfy`): a constant database. The writer (`ScdbMake.Maker`) turns additions into a byte image through
  a flushing buffer and a file that writes what it likes; the reader (`ScdbReader.Scdb`) is a resumable cursor over the
  mapped image. `ScdbFormat.Image` gives the bytes of the file as a function of the list of additions, and
  `ScdbLookup` proves that a finished file answers every lookup with the values added, in order. `ScdbRoundTrip` runs
  all of it, from the empty file to the last lookup.
* **SMTP client** (`smtp_*.dfy`): the dot-stuffing loops of `blast` against a transducer that does not know how the
  file is divided into reads, that transducer and the loops against a receiver as in section 4.5.2 of RFC 5321, and the
  reply-driven stage loop, with every byte it writes, against the script of the conversation and the lines that a
  server has to read.
* **Codecs** (`quote_print*.dfy`, `base64.dfy`, `mail_lines.dfy`): quoted-printable and base64, both directions, with
  round trips, sizes, line lengths and the shape of what is written, and the 76-column folding of the mail generator.
* **Hashes** (`blocks.dfy`, `sha1*.dfy`, `md5*.dfy`): the streaming contexts against "pad, divide into blocks, fold".
  The compressions are those of FIPS 180-4 and RFC 1321, written out from the standards, and the example digests of the
  standards are proved of them.
* **CRC-32** (`crc32*.dfy`): the table is computed from the polynomial, the checksum is the remainder of the message,
  and every burst of up to 32 bits is detected.
* **mfile** (`mfile*.dfy`): a file in memory as a doubly linked list of blocks, against one flat byte sequence, and the
  repository's sample program for it.
* **Process pool** (`multiprocess.dfy`): the fork loop, its SIGCHLD handler and the kernel as a transition system.
* **Priority queue** (`prioq*.dfy`): a growing binary heap with a moving hole.

Outcomes of system calls are parameters: `File` and `Socket` carry a plan of what the next writes do (a partial write,
an interruption, a failure), reads of a file are given as their chunks, replies of the SMTP server as a list. A byte
read one past a string's end is the parameter `beyond`. `unsigned int` and `uint32_t` arithmetic that can wrap is
written with `Wrap32` or `% TWO_32`; the hash of scdb, CRC-32, SHA-1 and MD5 work on `bv32`.

Where code and documentation disagree, the model follows the code:

* `match` compares with strncmp (`c/lib/scdb/scdb.c:99`), so keys that contain a NUL can be mixed up:
  `ScdbLookup.SameKeyIs` gives the comparison in closed form, `ScdbLookup.AnswersExactWhen` says exactly when lookups
  are right, and `ScdbLookup.NulKeysMixedUp` gives a lookup that is not.
* blast drops CRs, but doubles a dot only directly behind a line end or at the start of a chunk
  (`c/app/mail/smtp.c:182`). With nothing but CRs between the beginning of a line and a dot, what is sent depends on
  where the reads divide the file, and it is not received: `SmtpBlast.WireIsStuffed` and `SmtpDelivery.WireDelivered`
  say exactly when this happens, and `SmtpDelivery.ReadsMatter` gives a file.
* The block loop of S_SHA1Update tests `i + 63 < inputLen` in 32 bits (`c/src/code/sha1.c:118`). Just below 4 GB the
  sum wraps: `Sha1.GuardExact` says exactly when the loop stops where it must, `Sha1.GuardWraps` gives an input.
* mseek_pos compares with `<=` (`c/lib/mfile/mfile.c:114`): at the boundary of two blocks the cursor stays at the end
  of the first one and mread delivers nothing. `Mfile.Mfile.SeekPos` states exactly when that happens, and
  `MfileSample.StuckAtBoundary` makes such a call.
* mread_line, documented to return the size read, returns 0 for a line that does not fit the buffer and drops what it
  has read of it. `MfileLines.Fits` says which lines fit, `Mfile.Mfile.ReadLines` what calls until 0 deliver, and
  `MfileSample.LostLine` makes such a call.
* The quoted-printable encoder never breaks a line in front of a byte above 0xf4 (`c/src/code/quote_print.c:165`), so a
  line can pass 76 characters: `QuotePrint.LinesFitExactly` says exactly when none does, `QuotePrint.LongLine` gives
  texts for which one does.
* The guard of s_base64_encode_alloc tests `str_len + 2`, but the number of characters overflows an `int` already for
  shorter inputs; malloc then fails, and `Base64.EncodeAlloc` states the exact length from which the call is refused.

## Model

| member | source | states |
|---|---|---|
| `ScdbUtils.UnpackPack` | c/lib/scdb/utils.c:9-36 | unpacking anywhere in a byte string undoes packing, for all 32-bit numbers |
| `ScdbUtils.PackUnpack` | c/lib/scdb/utils.c:9-36 | packing undoes unpacking, for all four bytes |
| `ScdbUtils.Uint32Pack` | c/lib/scdb/utils.c:9-17 | the shifts write the little-endian bytes and nothing else |
| `ScdbUtils.ScdbHash` | c/lib/scdb/utils.c:67-77 | the loop computes the hash of the whole key |
| `ScdbUtils.HashIs` | c/lib/scdb/utils.c:62-77 | the hash begins with 5381, and each byte joins 33 times what there is, modulo 2^32 |
| `ScdbTable.FindFree` | c/lib/scdb/scdb_make.c:162-165 | probing stops at the first free slot, every slot before it being taken |
| `ScdbTable.FillHolds` | c/lib/scdb/scdb_make.c:156-167 | a filled table holds every entry exactly once, the other slots being blank |
| `ScdbTable.FillHasRoom` | c/lib/scdb/scdb_make.c:162-165 | with fewer entries than slots the probing loop of finish always finds a free slot |
| `ScdbTable.InsertKeepsReachable` | c/lib/scdb/scdb_make.c:162-166 | after any insertion no slot between an entry's home and the entry is free |
| `ScdbTable.InsertHits` | c/lib/scdb/scdb.c:132-143 | an insertion adds the new position at the end of what a probe for its hash finds, and changes no other probe |
| `ScdbTable.FillHits` | c/lib/scdb/scdb.c:132-143 | a probe finds exactly the positions stored with its hash, in the order in which they were stored |
| `ScdbFormat.LayoutHeader` | c/lib/scdb/scdb_make.c:153-154 | each header pair of the file unpacks to the address and the slot count of its table |
| `ScdbFormat.LayoutSlot` | c/lib/scdb/scdb_make.c:169-177 | slot s of a table is at the table's address plus 8 * s |
| `ScdbFormat.ImageRecord` | c/lib/scdb/scdb_make.c:51-60 | each remembered position is where the file has the record of that addition |
| `ScdbFormat.BucketPositions` | c/lib/scdb/scdb_make.c:141-146 | partitioning by h & 255 keeps, for each hash, the order of the entries |
| `ScdbFormat.TableShows` | c/lib/scdb/scdb_make.c:148-178 | the table of a hash's bucket shows a probe the positions of all additions with that hash, oldest first |
| `ScdbFormat.ImageSize` | c/lib/scdb/scdb_make.c:148-178 | the tables take sixteen bytes per addition, so the size of the file is known from the additions |
| `ScdbBuffer.OverwriteTwice` | c/lib/scdb/buffer.c:15-34 | two writes in a row have the effect of one, which makes partial writes harmless |
| `ScdbBuffer.AllWrite` | c/lib/scdb/buffer.c:15-34 | whatever the partial writes, success means that all bytes are in the file at the offset; without a failure it succeeds |
| `ScdbBuffer.Buffer.Flush` | c/lib/scdb/buffer.c:36-44 | the buffered bytes are in the file and the buffer is empty |
| `ScdbBuffer.Buffer.PutAlign` | c/lib/scdb/buffer.c:46-63 | the bytes join those put so far, wherever flushes fall |
| `ScdbBuffer.Buffer.PutFlush` | c/lib/scdb/buffer.c:65-71 | everything put so far and the new bytes are in the file |
| `ScdbScatter.CountBuckets` | c/lib/scdb/scdb_make.c:104-112 | the counters are the sizes of the buckets of the list's entries |
| `ScdbScatter.PrefixSums` | c/lib/scdb/scdb_make.c:134-139 | each start is the end of its bucket |
| `ScdbScatter.PlaceOne` | c/lib/scdb/scdb_make.c:141-146 | one step of the backward walk keeps the scattered part in place |
| `ScdbScatter.AllInPlace` | c/lib/scdb/scdb_make.c:141-146 | after the scatter each bucket's entries are together, in the order they were added |
| `ScdbScatter.Scatter` | c/lib/scdb/scdb_make.c:141-146 | walking the chunk list from its end is a stable partition by h & 255 |
| `ScdbMake.StoreEntry` | c/lib/scdb/scdb_make.c:162-166 | the probing loop ends and has the effect of one insertion, inside the table |
| `ScdbMake.FillTable` | c/lib/scdb/scdb_make.c:156-167 | clearing and filling yields the table of the bucket, and the entries themselves are untouched |
| `ScdbMake.MemoryNeverWraps` | c/lib/scdb/scdb_make.c:114-122 | for all additions that the writer accepts, whatever the size of the finished file, neither the doubled counts nor memsize wrap |
| `ScdbMake.FileBoundsMemory` | c/lib/scdb/scdb_make.c:122-126 | when the file stays below 4 GB, the test of memsize passes |
| `ScdbMake.Maker.constructor` | c/lib/scdb/scdb_make.c:12-27 | a new writer has no additions, an empty chunk list, and writes from offset 2048 on |
| `ScdbMake.Maker.PosPlus` | c/lib/scdb/scdb_make.c:29-36 | posplus refuses exactly the sums that do not fit in 32 bits |
| `ScdbMake.Maker.AddEnd` | c/lib/scdb/scdb_make.c:38-62 | the entry is remembered in the chunk list; it fails exactly when the position would pass 32 bits |
| `ScdbMake.Maker.AddBegin` | c/lib/scdb/scdb_make.c:64-77 | the two lengths join the bytes put |
| `ScdbMake.Maker.Add` | c/lib/scdb/scdb_make.c:79-90 | a successful addition joins the list of additions; without write failures it succeeds exactly when the next position fits in 32 bits |
| `ScdbMake.Maker.EmitBucket` | c/lib/scdb/scdb_make.c:148-178 | header pair, table and position of one bucket; fails exactly when the position would wrap |
| `ScdbMake.Maker.Finish` | c/lib/scdb/scdb_make.c:92-186 | success leaves exactly the image of the additions in the file; without write failures it succeeds if and only if the image is below 4 GB |
| `ScdbReader.Scdb.MatchKey` | c/lib/scdb/scdb.c:87-108 | the 32-byte blocks compare like one comparison of the key |
| `ScdbReader.Scdb.FindStart` | c/lib/scdb/scdb.c:21-24 | the next lookup starts anew, and nothing else changes |
| `ScdbReader.Scdb.FindNext` | c/lib/scdb/scdb.c:110-166 | the loop makes the step of the specification on the whole cursor |
| `ScdbReader.Scdb.Find` | c/lib/scdb/scdb.c:168-172 | a lookup from the start, whatever the cursor was |
| `ScdbReader.GetAlloc` | c/lib/scdb/scdb.c:182-214 | the data of the first match |
| `ScdbLookup.SameKeyIs` | c/lib/scdb/scdb.c:87-108 | the comparison in closed form: in every block of 32 bytes the keys agree up to the first NUL |
| `ScdbLookup.SameKeyExact` | c/lib/scdb/scdb.c:87-108 | for a key without NULs the comparison by strncmp is equality |
| `ScdbLookup.AnswersAreValues` | c/lib/scdb/scdb.c:87-108 | for a key without NULs the answers are exactly the values added under it, in order |
| `ScdbLookup.FindNextRuns` | c/lib/scdb/scdb.c:110-166 | one call on a finished file delivers the next of the remaining answers, or 0 when none is left |
| `ScdbLookup.LookupAnswers` | c/lib/scdb/scdb.c:110-172 | for every file, key and call number: the call delivers that answer, or 0 from the end on; none fails, and the slots consumed never exceed the table |
| `ScdbLookup.LookupValues` | c/lib/scdb/scdb.c:110-172 | for every key without NULs, scdb_find and then scdb_findnext deliver exactly the values added under it, in insertion order, then 0 |
| `ScdbLookup.FirstMatchIsFirstValue` | c/lib/scdb/scdb.c:182-214 | scdb_get_alloc gives the oldest value of a key without NULs, and nothing when there is none |
| `ScdbLookup.AnswersExactWhen` | c/lib/scdb/scdb.c:99-100 | for any key, lookups are right exactly when no other stored key with its hash and length differs from it only behind a NUL of the same block |
| `ScdbLookup.NulKeysMixedUp` | c/lib/scdb/scdb.c:99-100 | a lookup of a key that was never added returns 1 and the value of another key |
| `ScdbRoundTrip.Store` | c/lib/scdb/scdb_make.c:12-186 | from scdb_make_start through all additions to scdb_make_finish: success leaves the image of the pairs in the file; without write failures it succeeds if and only if that is below 4 GB |
| `ScdbRoundTrip.PairsAreLines` | c/lib/scdb/scdb_make.c:218-224 | a pair is a line up to a NUL, without its first separator; its key has neither a separator nor a NUL |
| `ScdbRoundTrip.LinesHavePairs` | c/lib/scdb/scdb_make.c:217-227 | every line with a separator in front of its first NUL has its pair, in the order of the lines, and there are no others; a pair is the text of its line, divided at the first separator |
| `ScdbRoundTrip.GenFile` | c/lib/scdb/scdb_make.c:195-258 | scdb_make_gen_file returns the number of lines with a separator and leaves the image of their pairs, one for each of them and in their order; without write failures, if and only if the input was read to its end and the image is below 4 GB |
| `ScdbRoundTrip.AllMatches` | c/lib/scdb/scdb.c:110-172 | scdb_find and then scdb_findnext until there is no match collect exactly the answers; for a key without NULs, the values added under it in order |
| `ScdbRoundTrip.StoreAndLookUp` | c/lib/scdb/scdb.c:168-172 | the whole chain: what was stored under a key without NULs is found, in the order in which it was stored |
| `SmtpBlast.StuffedAppend` | c/app/mail/smtp.c:163-230 | what the transducer sends for a file is what it sends for its parts, the state being carried over |
| `SmtpBlast.CodedSize` | c/app/mail/smtp.c:151-208 | at most two bytes out for each byte in, so 8192 bytes suffice for 4095 |
| `SmtpBlast.LastByteTells` | c/app/mail/smtp.c:203-206 | outside chunks of CRs only, the last byte written tells whether the wire is at the beginning of a line |
| `SmtpBlast.CodedIs` | c/app/mail/smtp.c:175-207 | for one chunk the loops write what the transducer does exactly when no CRs stand between the beginning of a line and a dot; otherwise they write less |
| `SmtpBlast.EncodeChunk` | c/app/mail/smtp.c:172-208 | the loops write exactly the bytes for the chunk up to a NUL, inside the buffer, and leave the right state |
| `SmtpBlast.SendAll` | c/app/mail/smtp.c:210-227 | partial and interrupted writes send everything exactly once |
| `SmtpBlast.Blast` | c/app/mail/smtp.c:145-243 | success means that the bytes for all chunks were sent; it fails only if a write does, and then a beginning of them has been sent |
| `SmtpBlast.WireIsStuffed` | c/app/mail/smtp.c:163-230 | what is sent is what the transducer makes of the text, however the reads divide it, exactly when no read has a dot hidden by CRs |
| `SmtpBlast.FileSent` | c/app/mail/smtp.c:163-230 | for a file without NULs and hidden dots that holds of all divisions |
| `SmtpBlast.PiecesAreChunks` | c/app/mail/smtp.c:163 | reads of 4095 bytes yield the file; if every CR is followed by LF, none yields only CRs unless the last one is a lone CR |
| `SmtpBlast.RegularFileSent` | c/app/mail/smtp.c:163-230 | a file whose CRs all begin line ends meets all of these conditions when read 4095 bytes at a time |
| `SmtpReceiver.Delivered` | c/app/mail/smtp.c:539-545 | of the transducer: a receiver fed its output and CRLF . CRLF stops only at that terminator and has the file with line ends normalised, plus one CRLF |
| `SmtpReceiver.DeliveredAny` | c/app/mail/smtp.c:188-192 | of the transducer: for any file the receiver has it without its CRs, line ends normalised |
| `SmtpReceiver.DeliveredExactly` | c/app/mail/smtp.c:188-192 | of the transducer: it has the file with line ends normalised exactly when every CR of the file begins a line end |
| `SmtpDelivery.ReceivedAtMost` | c/app/mail/smtp.c:175-207 | of what the loops write, a receiver that gets as far as the terminator has at most the text, and all of it only if every dot at the beginning of a line has been doubled |
| `SmtpDelivery.WireDelivered` | c/app/mail/smtp.c:163-230 | for every file and every division into reads, what blast sends is received as the text without its CRs, up to the terminator, if and only if no read has a dot hidden by CRs |
| `SmtpDelivery.FileDelivered` | c/app/mail/smtp.c:163-230 | for every file and every division into reads, what blast sends is received as the file with line ends normalised if and only if every CR of its text begins a line end |
| `SmtpDelivery.ReadsMatter` | c/app/mail/smtp.c:182 | a file for which two divisions into reads are sent differently, and for one of them the receiver stops inside the file |
| `SmtpSession.SmtpCode` | c/app/mail/smtp.c:251-324 | accepted are exactly the replies with the code that the stage wants |
| `SmtpSession.AtoiExact` | c/app/mail/smtp.c:266 | atoi of at most three characters gives a three-digit code only for its three digits |
| `SmtpSession.LastLineDecides` | c/app/mail/smtp.c:255-266 | of a reply of several lines the code of the last one counts; only behind a single LF nothing is accepted |
| `SmtpSession.RecipientsJoin` | c/app/mail/smtp.c:520-534 | the recipients named, joined by commas, are the argument; none contains a comma |
| `SmtpSession.Respond` | c/app/mail/smtp.c:489-553 | each stage wants the code and sends the command of the script's next step |
| `SmtpDialogue.LinesRead` | c/app/mail/smtp.c:489-537 | a server that reads lines up to CR LF gets exactly the lines that were meant, if and only if no string put into a command has a line end in it |
| `SmtpConversation.CommandLine` | c/app/mail/smtp.c:489-537 | the lines in order: EHLO with the host name, AUTH LOGIN, user and password, or else HELO with the host name; MAIL FROM with the sender, RCPT TO with each recipient, DATA; each with its end, or cut to 4095 bytes |
| `SmtpConversation.LinesWritten` | c/app/mail/smtp.c:491-534 | lines are written in full exactly when each of them has room, with its end, in a buffer of 4096 bytes |
| `SmtpConversation.WireIs` | c/app/mail/smtp.c:481-557 | over a connection that loses nothing, after any number of steps, the wire has the first lines of that dialogue, then the message and its terminator, then QUIT, byte for byte, exactly when each line fits in the buffer |
| `SmtpConversation.Act` | c/app/mail/smtp.c:539-556 | a round writes the message, if it is its turn, and the command behind it; only the message's failure ends the session |
| `SmtpConversation.Session` | c/app/mail/smtp.c:481-557 | for all replies: exactly the commands of the script that the replies satisfy are written, with the message in its place, and success is reported exactly when all replies came, the last being 221 to QUIT; if the file cannot be opened or a write of the message fails, a beginning of it is on the wire and the session ends there; over a connection that loses nothing the wire is the conversation byte for byte, exactly if its lines fit in their buffer |
| `SmtpConversation.ServerReceives` | c/app/mail/smtp.c:535-549 | in a complete session over a connection that loses nothing, the stream behind DATA is received as the text followed by QUIT if and only if no read hides a dot, and as the whole file if and only if every CR begins a line end |
| `SmtpConversation.Mail` | c/app/mail/smtp.c:481-557 | a run of the loop over such a connection, which succeeds exactly when the replies complete the script: its wire as above, of which a server reads the lines of the dialogue if and only if no string has a line end in it; and behind the bytes of DATA the message and QUIT are received if and only if every CR begins a line end |
| `SmtpSession.SatisfiedCodes` | c/app/mail/smtp.c:486-487 | every reply behind which the session goes on has the code of its step |
| `SmtpSession.BodyOnlyWhenAccepted` | c/app/mail/smtp.c:520-545 | in every session, also a complete one, the body goes out only after one RCPT for each recipient, in order, each answered 250, and DATA answered 354 |
| `QuotePrint.RoundTrip` | c/src/code/quote_print.c:76-190 | decoding undoes encoding, for every byte string and every line position |
| `QuotePrint.EncodedSize` | c/src/code/quote_print.c:151-188 | a bound on the output: each soft-broken line has taken at least 22 bytes |
| `QuotePrint.EncodedFits` | c/src/code/quote_print.c:145 | output and NUL fit in the allocation |
| `QuotePrint.LinesFitExactly` | c/src/code/quote_print.c:151-188 | no line is longer than the 76 characters of RFC 2045 section 6.7 if and only if every escape of a byte above 0xf4 ends by column 75, or in column 76 with a line end or the end of the text behind it |
| `QuotePrint.EncodedLines` | c/src/code/quote_print.c:165-185 | so it is for every text without bytes above 0xf4, at any line position |
| `QuotePrint.LongLine` | c/src/code/quote_print.c:165 | a run of bytes 0xff that passes column 76 has a longer line |
| `QuotePrintShape.EncodedBegins` | c/src/code/quote_print.c:151-188 | which bytes stand for themselves, how the others are written, and in front of which one the line is broken: exactly where 75 columns have no room for it and what belongs to it |
| `QuotePrintShape.EncodedSound` | c/src/code/quote_print.c:151-188 | whatever the text, only printable characters and whole line ends are written, every equals sign begins an escape of two digits or a soft line break, and no line ends in a blank (RFC 2045 section 6.7) |
| `QuotePrintShape.PlainText` | c/src/code/quote_print.c:162-186 | a text that fits in the line is written as it is if it has only printable characters other than the equals sign, and blanks with no CR behind them |
| `QuotePrint.EncodeAlloc` | c/src/code/quote_print.c:139-195 | the loop writes the encoding and a NUL, inside a buffer of the size that malloc is asked for |
| `QuotePrint.BufferSize` | c/src/code/quote_print.c:52-65 | the sizing pass computes the size of the specification |
| `QuotePrint.RoundPaid` | c/src/code/quote_print.c:52-125 | what a round writes is covered by what the sizing pass counted for the bytes it takes, also in malformed input |
| `QuotePrint.SkipBreak` | c/src/code/quote_print.c:97-113 | a soft break is accepted exactly when it is well formed, and skipped |
| `QuotePrint.DecodeRound` | c/src/code/quote_print.c:76-125 | one round keeps what decoding will yield, and the room for it |
| `QuotePrint.DecodeAlloc` | c/src/code/quote_print.c:67-130 | for any input the loop decodes exactly as specified or fails, and never writes outside the buffer |
| `QuotePrintShape.HexValIs` | c/src/code/quote_print.c:29-47 | the table has a value below 16 exactly for the digits, in upper and lower case, 16 for CR and LF, 32 for blanks, and 64 for all else |
| `QuotePrintShape.DecodeDigits` | c/src/code/quote_print.c:83-95 | an equals sign and two digits in either case are decoded to the byte that they stand for |
| `Base64.LetterIs` | c/src/code/base64.c:5-10 | the encoder's table is the alphabet of RFC 4648, character by character |
| `Base64.ReverseIs` | c/src/code/base64.c:14-30 | the decoder's table has the place of each character of that alphabet, -1 for the white space that it skips, and -2 for all else |
| `Base64.EncodedShape` | c/src/code/base64.c:58-92 | the encoding has 4 * ceil(n / 3) characters, none of them NUL or CR |
| `Base64.EncodedDigits` | c/src/code/base64.c:58-92 | the characters of every group have, as digits to the base 64, the value of its one to three bytes as digits to the base 256, with padding where no byte reaches |
| `Base64.EncodeAlloc` | c/src/code/base64.c:39-96 | the encoding with its NUL fills the buffer exactly; refused exactly from the length on for which its size is not an int; `*ret_length` is then 0 or untouched, depending on which test refuses |
| `Base64.RoundTrip` | c/src/code/base64.c:39-182 | decoding undoes encoding, for every byte string |
| `Base64.DecodeIgnoresLineEnds` | c/src/code/base64.c:129-134 | CR and LF anywhere do not change what is decoded |
| `Base64.FoldedRoundTrip` | c/app/mail/s_generate_eml.c:289-310 | decoding undoes encoding and folding to lines of 76 characters |
| `Base64.FoldedLines` | c/app/mail/s_generate_eml.c:292-300 | folded lines have at most 76 characters |
| `Base64.FoldedAt` | c/app/mail/s_generate_eml.c:292-308 | every line but the last has exactly 76 characters and CR LF behind them |
| `Base64.DecodeAlloc` | c/src/code/base64.c:105-182 | the in-place OR-ing of bits decodes exactly as specified, inside the buffer |
| `Base64.Fold` | c/app/mail/s_generate_eml.c:287-310 | the loop with its buffer, strncat and memset writes the folded text |
| `Crc32.TableIsRemainder` | c/src/code/crc32.h:18-82 | all 256 constants are the remainders of the reflected polynomial 0xedb88320 |
| `Crc32.TopsDistinct` | c/src/code/crc32.h:18-82 | the top bytes of the constants are pairwise distinct |
| `Crc32.StepBack` | c/src/code/crc32.c:25-28 | results that agree in their top bytes come from the same table index and from states that agree in one byte more |
| `Crc32.StepInjective` | c/src/code/crc32.c:25-28 | for a fixed byte the step is injective in the state |
| `Crc32.RunInjective` | c/src/code/crc32.c:25-28 | so is any number of steps over the same bytes |
| `Crc32.WindowShows` | c/src/code/crc32.c:25-28 | from one state, up to four bytes lead to the same state only if they are the same |
| `Crc32.BurstDetected` | c/src/code/crc32.c:13-31 | messages of any length that differ only within four consecutive bytes have different CRCs |
| `Crc32Bursts.TableLinear` | c/src/code/crc32.h:18-82 | the table is linear: the sum of two entries is the entry of the sum |
| `Crc32Bursts.EntryReaches` | c/src/code/crc32.h:18-82 | the entry of a byte other than 0 whose lowest b bits are zero has a bit from 24 + b on |
| `Crc32Bursts.FourSteps` | c/src/code/crc32.c:25-28 | four steps depend on the sum of the state and the four bytes alone |
| `Crc32Bursts.BitBurstDetected` | c/src/code/crc32.c:13-31 | messages of any length that differ, and only within 32 successive bits wherever these begin, have different CRCs |
| `Crc32.Compute` | c/src/code/crc32.c:13-31 | the loop computes the CRC of the whole message |
| `Crc32Division.StepDivides` | c/src/code/crc32.c:25-28 | a step with the table is eight steps of the division by the polynomial, the lowest bit of the byte first |
| `Crc32Division.CrcDivides` | c/src/code/crc32.c:13-31 | the CRC of every message is the remainder of that division, begun with ones and inverted at its end |
| `Crc32Division.CheckValue` | c/src/code/crc32.c:13-31 | the CRC of the digits 1 to 9 is cbf43926, the check value of this CRC |
| `Blocks.FoldAppend` | c/src/code/sha1.c:112-122 | folding in two parts divided at a block boundary is folding at once |
| `Blocks.FoldJoined` | c/src/code/md5.c:222-241 | a buffered tail and new bytes up to the end of a block count as whole blocks |
| `Sha1.MacroFIsCh` | c/src/code/sha1.c:35 | the macro F is Ch of FIPS 180-4 |
| `Sha1.MacroHIsMaj` | c/src/code/sha1.c:37 | the macro H is Maj of FIPS 180-4 |
| `Sha1.NextWord` | c/src/code/sha1.c:46-47 | the ring of sixteen words yields word t of the 80-word schedule and still holds the last sixteen |
| `Sha1.FiveSteps` | c/src/code/sha1.c:51-74 | five role-rotated in-place steps are five steps of FIPS 180-4 section 6.1.2 |
| `Sha1.Decode` | c/src/code/sha1.c:303-313 | the words of the block, most significant byte first |
| `Sha1.Transform` | c/src/code/sha1.c:171-276 | the transform is the compression of FIPS 180-4 section 6.1.2 |
| `Sha1.CountAdds` | c/src/code/sha1.c:103-106 | the two-word counter with its carry counts the bits modulo 2^64 |
| `Sha1.GuardExact` | c/src/code/sha1.c:118-119 | the 32-bit loop guard stops where it must exactly when the stated sum does not wrap |
| `Sha1.GuardWraps` | c/src/code/sha1.c:118-119 | an input on which it does not |
| `Sha1.Context.constructor` | c/src/code/sha1.c:79-89 | an empty message |
| `Sha1.Context.Absorb` | c/src/code/sha1.c:112-121 | the state is that of all complete blocks so far |
| `Sha1.Context.Update` | c/src/code/sha1.c:96-130 | the context of the message with the input appended, for every split that the guard allows |
| `Sha1.CountBytesAre` | c/src/code/sha1.c:141-149 | the eight count bytes are the length in bits, big-endian |
| `Sha1.Context.Final` | c/src/code/sha1.c:136-166 | the digest is that of the padded message (FIPS 180-4 section 5.1.1), and the context is cleared |
| `Sha1.Encode` | c/src/code/sha1.c:283-296 | the five words, most significant bytes first |
| `Sha1.HashFile` | c/src/code/sha1.c:356-375 | however the reads divide the file, the digest is that of the whole file |
| `Sha1Vectors.ConstantsAreRoots` | c/src/code/sha1.c:51-74 | the constants of the steps are the square roots of 2, 3, 5 and 10 times 2^30, rounded down |
| `Sha1Vectors.InitialBytes` | c/src/code/sha1.c:79-89 | the bytes of the initial state |
| `Sha1Vectors.AbcDigest` | c/src/code/sha1.c:136-166 | the digest of "abc" is that of the example of FIPS 180 |
| `Sha1Vectors.LongDigest` | c/src/code/sha1.c:136-166 | so is that of the message of 56 bytes, which takes two blocks |
| `Md5.MacroIsFunc` | c/src/code/md5.c:47-50 | the optimised macros are the functions of RFC 1321 section 3.4 |
| `Md5.Step` | c/src/code/md5.c:55-58 | the macro STEP with rotated operands is one operation of RFC 1321 section 3.4 |
| `Md5.Steps0To7` | c/src/code/md5.c:109-116 | steps 1 to 8 as written out, with their words, constants and rotations |
| `Md5.Steps8To15` | c/src/code/md5.c:117-124 | steps 9 to 16 |
| `Md5.Steps16To23` | c/src/code/md5.c:127-134 | steps 17 to 24 |
| `Md5.Steps24To31` | c/src/code/md5.c:135-142 | steps 25 to 32 |
| `Md5.Steps32To39` | c/src/code/md5.c:145-152 | steps 33 to 40 |
| `Md5.Steps40To47` | c/src/code/md5.c:153-160 | steps 41 to 48 |
| `Md5.Steps48To55` | c/src/code/md5.c:163-170 | steps 49 to 56 |
| `Md5.Steps56To63` | c/src/code/md5.c:171-178 | steps 57 to 64 |
| `Md5.Context.Body` | c/src/code/md5.c:88-194 | the do-while loop folds the compression over all blocks given |
| `Md5.CountAdds` | c/src/code/md5.c:212-217 | the 29-bit and 32-bit counter with its carry counts the bytes modulo 2^61 |
| `Md5.CountBits` | c/src/code/md5.c:266-274 | shifting the low word gives the number of bits modulo 2^64 |
| `Md5.Context.constructor` | c/src/code/md5.c:196-205 | an empty message |
| `Md5.Context.Update` | c/src/code/md5.c:207-244 | the context of the message with the data appended, for every split |
| `Md5.Context.PadBuffer` | c/src/code/md5.c:250-264 | the tail, 0x80 and zeros up to the last eight bytes, one block being folded if they do not fit |
| `Md5.Context.Final` | c/src/code/md5.c:246-296 | the digest is that of the message padded as in RFC 1321 sections 3.1 and 3.2, and the context is cleared |
| `Md5.HashFile` | c/src/code/md5.c:338-358 | however the reads divide the file, the digest is that of the whole file |
| `Md5Vectors.InitialBytes` | c/src/code/md5.c:196-205 | the bytes of the initial state, as in RFC 1321 section 3.3 |
| `Md5Vectors.AbcDigest` | c/src/code/md5.c:246-296 | the digest of "abc" is that of the test suite of RFC 1321 |
| `Mfile.Mfile.constructor` | c/lib/mfile/mfile.c:22-58 | an empty file |
| `Mfile.Mfile.LinkTail` | c/lib/mfile/queue.h:535-543 | the new block is last, and the list is linked in both directions |
| `Mfile.Mfile.LinkHead` | c/lib/mfile/queue.h:522-533 | the new block is first, and the list is linked in both directions |
| `Mfile.Mfile.Write` | c/lib/mfile/mfile.c:132-195 | the data is appended to the flat content; blocks stay non-empty and within their size; an unread file stays unread, and the cached character stays |
| `Mfile.Mfile.WriteHead` | c/lib/mfile/mfile.c:205-238 | the data is put in front of the content, or refused exactly when it is longer than a block |
| `Mfile.Mfile.Seek` | c/lib/mfile/mfile.c:89-105 | the cursor is at the start and every block is unread |
| `Mfile.Mfile.SeekPos` | c/lib/mfile/mfile.c:107-122 | the cursor is at the position, or at the start if that is behind the end; it is stuck exactly at the boundary of two blocks or at the end |
| `MfileFlat.BoundaryIs` | c/lib/mfile/mfile.c:113-121 | where the walk stops, a boundary is exactly the end of a block that is not the last |
| `MfileFlat.ChunkAt` | c/lib/mfile/mfile.c:289-308 | the bytes of a block are those of the flat file at its start offset |
| `Mfile.Mfile.NextBlock` | c/lib/mfile/mfile.c:268-280 | going on to the next block keeps the position |
| `Mfile.Mfile.Read` | c/lib/mfile/mfile.c:248-312 | mread delivers the bytes of the flat file at the cursor, as many as asked for or left, and moves behind them; -1 exactly for a file without blocks, 0 where the cursor is stuck |
| `Mfile.Mfile.Getc` | c/lib/mfile/mfile.c:320-362 | mgetc delivers the byte at the cursor and moves behind it, 0 at the end |
| `Mfile.Mfile.ReadMix` | c/lib/mfile/mfile.c:248-362 | any mix of mread and mgetc calls from the start delivers the content once, in order, as far as it was asked for |
| `Mfile.Mfile.Size` | c/lib/mfile/mfile.c:476-480 | msize is the length of the content |
| `Mfile.Mfile.LineStep` | c/lib/mfile/mfile.c:385-419 | one turn of the loop, with its one-character cache |
| `Mfile.Mfile.ReadLine` | c/lib/mfile/mfile.c:372-425 | all writes stay in the n-byte buffer; of a text the next line is delivered exactly if the loop has enough turns, and the cache is back at its sentinel |
| `MfileLines.FitsIs` | c/lib/mfile/mfile.c:384-420 | the loop has enough turns exactly for lines of up to n - 1 bytes that end in CR LF, n - 2 that end in LF, and n - 3 without an end |
| `MfileLines.LineLenIs` | c/lib/mfile/mfile.c:411-414 | the first line of a text ends with its first LF |
| `MfileLines.TurnsAre` | c/lib/mfile/mfile.c:384-420 | the turns that a line takes, in terms of its length and its end |
| `MfileLines.LinesJoin` | c/lib/mfile/mfile.c:372-425 | the lines, one after the other, are the text |
| `MfileLines.NextLine` | c/lib/mfile/mfile.c:372-425 | a call hands out the first line of what is left exactly if it fits; otherwise n - 2 bytes of it are lost |
| `MfileLines.NoMoreLines` | c/lib/mfile/mfile.c:415-418 | at the end of the text the result is 0 |
| `Mfile.Mfile.ReadLines` | c/lib/mfile/mfile.c:372-425 | calls until 0 hand out the lines of the text one by one up to the first that does not fit, so all of them exactly if all fit; and what is left then |
| `MfileLines.ShortLinesFit` | c/lib/mfile/mfile.c:384-420 | lines shorter than the buffer by three bytes all fit, whatever their ends are |
| `Mfile.Copy` | c/lib/mfile/mfile.c:488-512 | what is appended is the part of the source from the start position on, up to the end position or the end of the content, whatever the block sizes; nothing from a block boundary; the files stay apart; and the exact result |
| `MfileSample.Sample` | c/lib/mfile/sample.c:9-43 | the sample program prints the size of its input, and its lines up to the first that does not fit: all of the input exactly if all lines fit |
| `MfileSample.Duplicate` | c/lib/mfile/mfile.c:488-512 | a file copied twice into another one with other blocks is read back twice |
| `MfileSample.StuckAtBoundary` | c/lib/mfile/mfile.c:107-122 | mseek_pos to the boundary of two one-byte blocks, and mread reads nothing although a byte follows |
| `MfileSample.LostLine` | c/lib/mfile/mfile.c:372-425 | mread_line with a buffer of four bytes returns 0 for a line of four and leaves its end |
| `Multiprocess.InvStep` | c/example/multiprocess.c:30-155 | every step of parent, children and kernel keeps the invariant, SIGCHLD from a stopped child included |
| `Multiprocess.Bounded` | c/example/multiprocess.c:82-101 | in every reachable state there are at most `limit` children, and at the loop head the counter is the number of running and unreaped ones |
| `Multiprocess.NoLostWakeup` | c/example/multiprocess.c:84-85 | a suspended parent with an exited child has SIGCHLD pending, however many exits were merged |
| `Multiprocess.DecrementsAreSafe` | c/example/multiprocess.c:34-38 | neither decrement of the counter ever meets zero |
| `Multiprocess.HandlerReopens` | c/example/multiprocess.c:30-40 | a parent woken by an exited child finds the counter below the limit when the handler returns |
| `Multiprocess.LimitZero` | c/example/multiprocess.c:84-85 | with limit 0 the parent sleeps and never forks |
| `Multiprocess.ForklessRunsEnd` | c/example/multiprocess.c:82-116 | between forks only a bounded number of steps is possible, and four more for each interruption or stopped child |
| `Multiprocess.PoolKeepsForking` | c/example/multiprocess.c:82-116 | from every reachable state, with any interruptions and stopped children among the steps, when the other steps are over the parent is about to fork again |
| `PrioqHeap.RootIsLeast` | c/src/prioq/prioq.c:98-108 | the first element of a heap is a smallest one |
| `PrioqHeap.HoleUp` | c/src/prioq/prioq.c:80-88 | moving the hole up keeps all but the hole in order |
| `PrioqHeap.ChildTaken` | c/src/prioq/prioq.c:127-141 | moving the hole to the lesser child does so on the way down, also when the second child is the last element itself |
| `PrioqHeap.TakeLeast` | c/src/prioq/prioq.c:206-217 | taking a least element keeps what was taken sorted and before everything that is left |
| `Prioq.AllocatedEnough` | c/src/prioq/prioq.c:9-16 | the rounded number of bytes holds the elements if and only if it does not wrap |
| `Prioq.PrioQ.ReadPlus` | c/src/prioq/prioq.c:44-65 | there is room for the new elements and the stored ones are kept; a new array is made exactly when the old one is full or missing |
| `Prioq.PrioQ.Add` | c/src/prioq/prioq.c:73-92 | the element joins the stored ones, in heap order |
| `Prioq.PrioQ.SiftUp` | c/src/prioq/prioq.c:79-89 | the loop restores the heap with the new element in it |
| `Prioq.PrioQ.Min` | c/src/prioq/prioq.c:98-108 | a least element, or failure exactly when there is none |
| `Prioq.PrioQ.SiftDown` | c/src/prioq/prioq.c:125-142 | the loop restores the heap with the last element in the place of the first |
| `Prioq.PrioQ.DelMin` | c/src/prioq/prioq.c:115-144 | exactly the first element is gone |
| `Prioq.PrioQ.Get` | c/src/prioq/prioq.c:206-217 | a least element is taken out, exactly when there is one |
| `Prioq.PrioQ.Drain` | c/src/prioq/prioq.c:206-217 | calls of spq_get until it fails yield what was stored, sorted by dt, and leave the queue empty |
| `Prioq.AddAndGet` | c/src/prioq/prioq.c:237-280 | elements added to a new queue come out of it, each once, sorted by dt |

## Left out

- Failures of malloc: allocation is successful, except where a size wraps (base64, and the bound in `Prioq.PrioQ.Add`).
- open, lseek, mmap, fstat, sockets, TLS and select: files and connections are byte sequences with a plan of outcomes.
- The unmapped branch of scdb_read, fsync and rename in scdb_make_gen_file, scdb_free: only the mapped reader is modelled.
- Parameters of main, getopt, printing, the test mains; the strings in SMTP commands are C strings without NULs.
- writev in mwrite_file, mclose, mfile_new_header_size, and the `data_len` copy of the write counter.
- uint32_pack_big and uint32_unpack_big, which nothing in the database uses.
- Wrapping of the `unsigned int` and `int` copies of lengths in quoted-printable, s_crc32, s_sha1 and s_md5: the loops run over the given bytes.
- ScdbMake.Maker.Finish: its loops are separate methods; the values that main memory has after a failure are not stated.
- SmtpBlast.EncodeChunk: chunks whose text is CRs only are excluded, for which the source reads the byte in front of its buffer.
- SmtpSession.SmtpCode: a reply of one byte, for which the source starts its search in front of the buffer, is read from the start.
- SmtpConversation.Session: one whole reply of at most 4095 bytes per read; replies divided over reads, and one that fills all 4096 bytes, for which the source writes a NUL behind its buffer, are not modelled.
- Sha1.Transform: the 80 written-out steps are sixteen rounds of `Sha1.FiveSteps`.
- Sha1.Context.Update: inputs for which the loop guard wraps are excluded; there the source reads behind its input.
- Md5.Context.Body: the words of a block are read where they are needed; the copy in `ctx->block` on other machines is not modelled.
- Mfile.Mfile.constructor: negative block sizes are excluded, for which malloc is asked for a wrapped size.
- Mfile.Mfile.Write: negative lengths are excluded, as is a content of 2 GB or more, for which `total_size` overflows.
- Mfile.Mfile.WriteHead: an empty block, which stops every later mread, is excluded.
- Mfile.Mfile.Getc: a cursor stuck at a block boundary is excluded, for which the source reads behind the block's data.
- Mfile.Mfile.Read: reading on after a write to a block that was used up is not modelled; writes keep an unread file unread.
- Mfile.Mfile.LinkTail: a pointer to a link is the node that has the link, or null for the head's first link.
- Mfile.Mfile.ReadLine: buffers of one byte are excluded, since the source writes behind them; a CR outside a line end is covered only by the bounds of the buffer.
- Multiprocess.Bounded: SIGTERM, which ends the parent, SIGCHLD sent by other processes, and children inherited from before the program started are not modelled.
- Prioq.PrioQ.Add: growth for which the number of bytes wraps at 32 bits is excluded; prioq_free, spq_clean and null arguments are not modelled.
- RSA chunking, tgrep, iniparser, the dictionary, trim, the database and network wrappers: no part of this model.
