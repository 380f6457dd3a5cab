# Verified models of c_sourcecode

A Dafny model of the components of this repository whose behaviour is hardest to get right, with
proofs about them. Every claim is a `lemma` or the contract of a method over all inputs, all runs or
all reachable states. `dafny verify dfyconfig.toml` checks the whole project.

**cJSON.** `JsonValue` holds JSON values and the text a printer must give for them. `JsonGrammar` is
the concrete syntax of RFC 8259 (sections 2 to 7), with every layout and spelling a text may have, and
the meaning of each. `JsonParse` is the parser of `cJSON.c` as functions over positions, and
`JsonComplete` proves that it accepts every text of the grammar, and when with its meaning. `JsonSafe`
has the two passes of the string reader and when the second stays inside what the first allocates.
`JsonRoundTrip` proves that printing and parsing are inverse. `JsonMinify` is the in-place minifier,
when it stays in its text, and what it does to every text of the grammar. The heap side is `JsonHeap`
(nodes in doubly linked sibling lists, and the list operations), `JsonParser` (the parser that builds
nodes), `JsonBuffer` and `JsonPrintBuffered` (the growing-buffer printer), `JsonPrintAlloc` (the
allocate-per-node printer) and `JsonSession` (all of them used together). `Bits` has the bit arithmetic
that `pow2gt` and the byte packing need.

**Worker pool.** `PrimerPool` is `primer_pool.c` as a step system: one producer, any number of
workers, the mutex, the wait set of the condition variable (with spurious wakeups) and the mailbox.

**File transfer.** `FileTransfer` is the sender and the receiver of `socket_app` as two state machines
over a channel, on a little-endian or a big-endian host.

**XXTEA.** `Xxtea` is the block cipher in place, in both forms of the repository; `XxteaBytes` is the
byte interface with its length word.

**SHA-256 and HMAC.** `Sha256Words` and `Sha256` have the compression function of FIPS 180-4 and the
two implementations of it. `Sha256Stream` has padding and chaining and the two streaming contexts,
`Hmac` the keyed hash of RFC 2104, and `DigestSession` whole uses: any split into pieces, both
implementations side by side, a keyed context used again.

**AES, DES and CRC.** `AesField`, `AesTables` and `Aes` have the layers of AES-128 (sections 5.1 and
5.3 of FIPS 197) and their inverses, `AesState` the layers in place, and `AesCbc` chaining (section 6.2
of NIST SP 800-38A), padding (section 6.3 of RFC 5652) and the buffers. `Des` is triple DES (FIPS 46-3)
for any boxes. `CrcRegister` and `Crc32` are the CRC of MPEG sections (Annex A of ISO/IEC 13818-1).

**Token buckets.** `TokenBucket` is the table of `mytbf.c`, as a step system and in memory, with the overflow of
its sums; `TokenInterrupts` lets the timer's signal in between any two accesses of a call.

**Wire formats.** `Coap` and `CoapBuffer` are CoAP messages (RFC 7252, sections 3 and 3.1); `Mqtt`,
`MqttDecode` and `MqttBuffer` are MQTT 3.1.1 packets (sections 2.2.3, 3.3 and 3.8), on the common
vocabulary of `Wire`. `TopicMatch` is the wildcard matching of the MQTT client.

Text is a sequence of bytes, written `char`. A JSON number is a decimal mantissa and exponent. A C
string in memory is an array with a terminator; a read at or after the terminator of a parsed text
gives the terminator. Words are 32 bits wide and wrap as in C, and so do the tokens of
a bucket; other integers have no bound unless it is stated.

## Model

| member | source | states |
|---|---|---|
| `JsonComplete.ParseComplete` | cJSON/cJSON.c:323-337 | Completeness of the parser against RFC 8259: every text of the grammar, with any insignificant white space and any spelling of strings and numbers, is accepted and read inside the text, and the end position is the end of the text (with the terminator required) or of the value (without). The value is its meaning but for `\u0000` and lone halves of surrogate pairs, which are lost, a first half taking a Unicode escape behind it along |
| `JsonComplete.ParseRight` | cJSON/cJSON.c:323-337 | The value is the meaning of the text if and only if none of its strings and names has a `\u0000` or a lone half of a surrogate pair |
| `JsonComplete.ReadIffKept` | cJSON/cJSON.c:357-369 | The same for any value, through arrays and objects |
| `JsonComplete.ValueComplete` | cJSON/cJSON.c:357-369 | Completeness for a value anywhere in a text, whatever follows it, by induction over the whole grammar |
| `JsonComplete.LiteralComplete` | cJSON/cJSON.c:192-249 | Every string literal of the grammar is read up to its closing quote, inside the text and the allocation, as what is left when the lost escapes are dropped |
| `JsonComplete.LiteralRight` | cJSON/cJSON.c:219-226 | A literal is read as the bytes it denotes if and only if it has no `\u0000` and no lone half of a surrogate pair |
| `JsonComplete.NulLost` | cJSON/cJSON.c:219 | The literal of one `\u0000` is read as the empty string |
| `JsonComplete.DecodedNulFree` | cJSON/cJSON.c:192-249 | Decoding a C string inside its bounds gives a string without a terminator in it |
| `JsonComplete.NumeralComplete` | cJSON/cJSON.c:96-115 | A numeral of the grammar with sign, fraction and exponent is read as its decimal value |
| `JsonComplete.TranscodeIsUtf8` | cJSON/cJSON.c:231-237 | The byte-by-byte transcoder with its fall-through switch gives the UTF-8 encoding of RFC 3629 for every code point |
| `JsonSafe.BodyFits` | cJSON/cJSON.c:197-243 | For any text: when no escape reaches past the end that the counting pass found, the decoded string and its terminator fit the allocation, also where the two passes fall out of step |
| `JsonSafe.FitsIff` | cJSON/cJSON.c:197-243 | The decoded string fits, for every memory that reads the same up to the end of the literal, if and only if no escape reaches past that end |
| `JsonSafe.WithinIsEnd` | cJSON/cJSON.c:203-243 | That no escape reaches past a position means that decoding ends no later |
| `JsonSafe.Overflow` | cJSON/cJSON.c:217 | An escape that jumps over the closing quote decodes two characters where one was counted |
| `JsonSafe.WholeValue` | cJSON/cJSON.c:192-249 | A text in which no backslash is last and each `\u` has four characters that are neither quote, backslash nor terminator is read inside its bounds, whatever value begins where |
| `JsonRoundTrip.RoundTrip` | cJSON/cJSON.c:342-343 | Parsing the printed text of any tree, formatted or not, gives the same tree, consumes the whole text and stays inside it |
| `JsonRoundTrip.PrintInjective` | cJSON/cJSON.c:372-403 | Trees that print alike, in either format, are equal |
| `JsonRoundTrip.PrintIsText` | cJSON/cJSON.c:434-658 | What the printers write is a text of the RFC 8259 grammar, laid out explicitly with its white space |
| `JsonRoundTrip.LayoutCorrect` | cJSON/cJSON.c:434-658 | That text is well formed, means the printed tree and has nothing that the parser loses |
| `JsonRoundTrip.SpellCorrect` | cJSON/cJSON.c:252-307 | Each byte is written as an escape or a raw character that denotes that byte |
| `JsonMinify.Minify` | cJSON/cJSON.c:735-750 | In place, where every opened string and comment is closed: the buffer ends up holding the minified string and its terminator, nothing beyond the old terminator is written, and writing never overtakes reading |
| `JsonMinify.ClosesIff` | cJSON/cJSON.c:738-748 | Every turn of the loop ends in the text or at its terminator if and only if each string and block comment that is opened is closed |
| `JsonMinify.NotClosed` | cJSON/cJSON.c:745-746 | An open string and an open comment whose first turn ends behind the terminator |
| `JsonMinify.TurnCorrect` | cJSON/cJSON.c:735-750 | One turn of the loop on any text: it advances, writes at most what it reads, and writes what the rest of the minified text needs |
| `JsonMinify.MinifyText` | cJSON/cJSON.c:735-750 | On every text of the grammar the result is that text with exactly its insignificant white space removed; strings keep every byte |
| `JsonMinify.MinifyPreservesMeaning` | cJSON/cJSON.c:735-750 | The minified text denotes and parses to the same value as the original, and minifying again changes nothing |
| `JsonMinify.MinifyPrint` | cJSON/cJSON.c:735-750 | Minifying the formatted print of any tree gives exactly its unformatted print |
| `JsonHeap.Node.DenotesUnique` | cJSON/cJSON.c:73-78 | A heap node denotes at most one JSON value |
| `JsonHeap.Node.HoldsDenotes` | cJSON/cJSON.c:406-431 | An array or object node denotes a value exactly when its sibling list is well linked, its children are disjoint trees and each denotes its element (for objects, under its name) |
| `JsonHeap.Node.GetArraySize` | cJSON/cJSON.c:661 | The number of children in the linked list |
| `JsonHeap.Node.GetArrayItem` | cJSON/cJSON.c:662 | The child at the index, null when out of range; a negative index gives the first |
| `JsonHeap.Node.LinkLast` | cJSON/cJSON.c:671 | Appending relinks the list: head has no prev, next and prev are mutually inverse, the last has no next |
| `JsonHeap.Node.LinkBefore` | cJSON/cJSON.c:684-685 | The relinking of an insertion, at the head or inside |
| `JsonHeap.Node.Unlink` | cJSON/cJSON.c:677-678 | The relinking of a removal; the removed node has both links null |
| `JsonHeap.Node.Relink` | cJSON/cJSON.c:686-688 | The relinking of a replacement; the old node has both links null |
| `JsonHeap.Node.AddItemToArray` | cJSON/cJSON.c:671 | Append on the children and on the denoted sequence, with every subtree still denoting its value; null is ignored |
| `JsonHeap.Node.InsertItemInArray` | cJSON/cJSON.c:684-685 | Insertion before the index, or append when it is out of range, on the children and on the denoted sequence |
| `JsonHeap.Node.DetachItemFromArray` | cJSON/cJSON.c:677-678 | Removal on the children and on the denoted sequence; the detached item is unlinked, disjoint from the rest and still denotes its value; out of range changes nothing |
| `JsonHeap.Node.ReplaceItemInArray` | cJSON/cJSON.c:686-688 | Replacement on the children and on the denoted sequence; out of range changes nothing |
| `JsonHeap.Node.Survives` | cJSON/cJSON.c:671-688 | A subtree whose nodes are untouched denotes what it denoted before |
| `JsonParser.ParseWithOpts` | cJSON/cJSON.c:323-337 | The heap parser, on every text whose strings are read inside their bounds: null and the error position when the text is rejected, otherwise a fresh tree of linked nodes that denotes the parsed value, and the end position |
| `JsonParser.ParseValue` | cJSON/cJSON.c:357-369 | Fills a blank node so that it denotes what the parser function gives at this position, or fails where it fails |
| `JsonParser.ParseArray` | cJSON/cJSON.c:406-431 | The children are linked in the order of the elements; failure positions as in the source |
| `JsonParser.ParseObject` | cJSON/cJSON.c:514-547 | The children are linked in the order of the members, each with its name |
| `JsonParser.ParseString` | cJSON/cJSON.c:192-249 | Counts, allocates and decodes: the new array has exactly the counted size, every write is inside it, and it holds the decoded string with its terminator |
| `JsonParser.Count` | cJSON/cJSON.c:197 | The counting pass stays in the text and gives the count |
| `JsonParser.Unescape` | cJSON/cJSON.c:206-241 | One escape, written behind what is already there |
| `JsonParser.ParseNumber` | cJSON/cJSON.c:96-115 | The digit loops give the mantissa and exponent of the numeral |
| `JsonParser.Transcode` | cJSON/cJSON.c:229-237 | In place: moving behind the encoding and writing backwards leaves the transcoded bytes |
| `JsonBuffer.Pow2gtCorrect` | cJSON/cJSON.c:117 | For 1 <= x <= 2^32 the bit smearing gives a power of two p with x <= p < 2x |
| `JsonBuffer.IntSized` | cJSON/cJSON.c:117-129 | For x within an int the result is one if and only if x <= 2^30 |
| `JsonBuffer.PrintBuffer.Ensure` | cJSON/cJSON.c:121-136 | The buffer then has room for the request; its text is kept; a new size is a power of two below twice the need; with room already there nothing changes |
| `JsonBuffer.PrintBuffer.Update` | cJSON/cJSON.c:138-144 | Measuring from the offset finds the end of the text written so far |
| `JsonRender.NumberFits` | cJSON/cJSON.c:147-175 | The text of every 32-bit integer and its terminator fit the 21 bytes that are reserved |
| `JsonRender.RenderNumber` | cJSON/cJSON.c:147-175 | Size and text of an integer for both printers |
| `JsonRender.RenderString` | cJSON/cJSON.c:252-307 | The escaped string and a size that is exactly its length and terminator, on the fast path and on the escaping path |
| `JsonRender.EscapedLength` | cJSON/cJSON.c:278-280 | The counting pass gives the length of what the writing pass writes |
| `JsonPrintBuffered.PrintValue` | cJSON/cJSON.c:372-403 | Appends exactly the print of the node to the buffer, every write within the capacity granted |
| `JsonPrintBuffered.PrintArray` | cJSON/cJSON.c:434-464 | The array branch with its brackets and separators |
| `JsonPrintBuffered.PrintObject` | cJSON/cJSON.c:550-606 | The object branch with its indentation; the returned pointer is wrong for a formatted non-empty object, as the code computes it |
| `JsonPrintBuffered.PrintBuffered` | cJSON/cJSON.c:345-353 | For every tree, format and initial size the buffer holds the print and its terminator |
| `JsonPrintAlloc.PrintValue` | cJSON/cJSON.c:372-403 | A fresh buffer that holds exactly the print of the node as a C string |
| `JsonPrintAlloc.PrintArray` | cJSON/cJSON.c:466-511 | The entries are printed, measured and composed; every write is inside the buffer of the summed size |
| `JsonPrintAlloc.PrintObject` | cJSON/cJSON.c:608-658 | The same with names and values, and the indentation counted |
| `JsonPrintAlloc.PrintEntries` | cJSON/cJSON.c:476-484 | The sum computed while printing is enough for the composed array |
| `JsonPrintAlloc.PrintMemberEntries` | cJSON/cJSON.c:619-627 | The sum computed while printing is enough for the composed object |
| `JsonSession.PrintBoth` | cJSON/cJSON.c:342-353 | Both printers give the same text for every tree, format and initial size |
| `JsonSession.Reparse` | cJSON/cJSON.c:323-343 | Printing a heap tree and parsing the text builds a fresh heap tree that denotes the same value |
| `JsonSession.PrintMinified` | cJSON/cJSON.c:735-750 | Formatted printing followed by minifying in place leaves the unformatted print in the buffer |
| `PrimerPool.Mark` | priv_test/coder88/thread/posix/primer_pool.c:37-45 | The division loop that stops at i/2 marks exactly the primes, 4 and every number below 2 |
| `PrimerPool.MarkedPrime` | priv_test/coder88/thread/posix/primer_pool.c:37-45 | The same of the loop condition as a predicate |
| `PrimerPool.StepInv` | priv_test/coder88/thread/posix/primer_pool.c:14-98 | Every step of every thread keeps the invariant: mutual exclusion, the mailbox protocol, who carries which number, what was printed, and that no wakeup is lost |
| `PrimerPool.RunInv` | priv_test/coder88/thread/posix/primer_pool.c:14-98 | The invariant holds after every schedule |
| `PrimerPool.ExactlyOnce` | priv_test/coder88/thread/posix/primer_pool.c:20-34 | In every schedule the numbers are taken in order, each by exactly one worker, none twice and none skipped |
| `PrimerPool.FinalOutput` | priv_test/coder88/thread/posix/primer_pool.c:90-97 | When main is done every number was taken, and the printed numbers are, each once, the primes of the range, and 4 and what is below 2 if it holds them |
| `PrimerPool.OnlyPrimes` | priv_test/coder88/thread/posix/primer_pool.c:37-47 | The output is exactly the primes of the range if and only if the range holds neither 4 nor a number below 2 |
| `PrimerPool.NoDeadlock` | priv_test/coder88/thread/posix/primer_pool.c:71-85 | In every reachable unfinished state some thread can step without a spurious wakeup |
| `PrimerPool.Terminates` | priv_test/coder88/thread/posix/primer_pool.c:52-98 | A schedule is no longer than a bound plus a constant for each spurious wakeup, and when nothing is left to do main is done |
| `PrimerPool.AllTakenIff` | priv_test/coder88/thread/posix/primer_pool.c:20-86 | Over every range: some schedule hands out all of its numbers if and only if it holds neither 0 nor -1, and then every schedule that finishes does |
| `PrimerPool.NeverTaken` | priv_test/coder88/thread/posix/primer_pool.c:20-34 | No schedule over any range hands out 0 or -1 |
| `PrimerPool.NeverDone` | priv_test/coder88/thread/posix/primer_pool.c:71-97 | With -1 in the range no schedule ever ends |
| `PrimerPool.Finishes` | priv_test/coder88/thread/posix/primer_pool.c:52-98 | From every reachable state some schedule brings main to its end |
| `FileTransfer.ShortChunk` | priv_test/peixun/socket_app/src/share.c:334-353 | The byte-swapped chunk length is below TEST exactly when the chunk is empty on a little-endian host, and exactly when it is short on a big-endian one |
| `FileTransfer.NetLongTwice` | priv_test/peixun/socket_app/src/share.c:80-123 | htonl and ntohl undo each other |
| `FileTransfer.StepInv` | priv_test/peixun/socket_app/src/server.c:14-84 | Every step of the sender and the receiver keeps the invariant over both states, both channels and both files |
| `FileTransfer.RunInv` | priv_test/peixun/socket_app/src/server.c:14-84 | The invariant holds after every run |
| `FileTransfer.StopAndWait` | priv_test/peixun/socket_app/src/share.c:404-426 | In every run the received file is a prefix of the sent file and at most one data packet is unacknowledged |
| `FileTransfer.FilesEqual` | priv_test/peixun/socket_app/src/share.c:428-440 | At the end of a transfer the files are equal if and only if the host is little-endian or the length is a multiple of TEST; otherwise the short last chunk is missing |
| `FileTransfer.CounterOvershoots` | priv_test/peixun/socket_app/src/share.c:80-123 | The byte counter is right during the transfer; at the end it is too large except in the one case stated |
| `FileTransfer.NoDeadlock` | priv_test/peixun/socket_app/src/server.c:14-84 | In every reachable unfinished state one side can step |
| `FileTransfer.Terminates` | priv_test/peixun/socket_app/src/server.c:14-84 | A run on n bytes has at most 6n + 6 steps, and when no step is left the transfer is finished |
| `Xxtea.DecryptEncrypt` | encrypt/encrypt_realize/xxtea_string.c:104-186 | Decryption inverts encryption for every vector and key, round by round and word by word |
| `Xxtea.EncryptDecrypt` | encrypt/encrypt_realize/xxtea_string.c:104-186 | Encryption inverts decryption, so with any key the cipher is a bijection |
| `Xxtea.SumNonZero` | encrypt/encrypt_realize/xxtea_string.c:165 | The running sum is 0 after j < 2^32 additions of delta only for j = 0, because delta is odd |
| `Xxtea.RawEncrypt` | encrypt/encrypt_realize/xxtea_string.c:104-143 | In place, on the first vlen words only: the encryption of the words |
| `Xxtea.RawDecrypt` | encrypt/encrypt_realize/xxtea_string.c:145-186 | In place: the loop that only tests the sum ends after exactly 6 + 52/vlen rounds with the decryption of the words |
| `Xxtea.Btea` | encrypt/encrypt_realize/xxtea.c:7-50 | The counted form computes the same two functions; lengths -1, 0 and 1 change nothing |
| `XxteaBytes.UnpackPacked` | encrypt/encrypt_realize/xxtea_string.c:56-100 | Unpacking gives back the packed bytes, whatever follows |
| `XxteaBytes.PackUnpacked` | encrypt/encrypt_realize/xxtea_string.c:56-100 | Packing the bytes of whole words gives back the words |
| `XxteaBytes.ToIntArray` | encrypt/encrypt_realize/xxtea_string.c:56-74 | Merging bytes into zeroed words with `|=` packs them little-endian, with the length behind when asked for |
| `XxteaBytes.ToByteArray` | encrypt/encrypt_realize/xxtea_string.c:76-100 | Unpacks all bytes, or as many as the last word says, or none when that is too many |
| `XxteaBytes.OpenSealed` | encrypt/encrypt_realize/xxtea_string.c:188-235 | Decryption recovers the encrypted bytes for every content, length and non-empty key |
| `XxteaBytes.XxteaEncrypt` | encrypt/encrypt_realize/xxtea_string.c:188-210 | The result buffer holds the sealed bytes; nothing for empty data or key |
| `XxteaBytes.XxteaDecrypt` | encrypt/encrypt_realize/xxtea_string.c:212-235 | In place: the buffer holds the opened bytes and is unchanged behind them |
| `Sha256Words.SelectIsCh` | encrypt/encrypt_realize/hmac_sha256.c:130 | The three-operation choice function is the Ch of FIPS 180-4 |
| `Sha256Words.MajorityIsMaj` | encrypt/encrypt_realize/hmac_sha256.c:129 | Both files' majority functions are the Maj of FIPS 180-4 |
| `Sha256Words.SwapLoad` | encrypt/encrypt_realize/sha256.c:60-61 | A little-endian load and BYTESWAP give the big-endian word |
| `Sha256Words.SwapStore` | encrypt/encrypt_realize/sha256.c:60-70 | BYTESWAP and a little-endian store give the big-endian bytes |
| `Sha256.P` | encrypt/encrypt_realize/hmac_sha256.c:138-143 | One line of the unrolled code is one round, with the registers in rotated roles |
| `Sha256.GivenRounds` | encrypt/encrypt_realize/hmac_sha256.c:154-161 | After eight lines every register has its first role again |
| `Sha256.DerivedRounds` | encrypt/encrypt_realize/hmac_sha256.c:170-177 | The same while the schedule is extended in the macro argument |
| `Sha256.Process` | encrypt/encrypt_realize/hmac_sha256.c:98-226 | sha2_process computes the compression function of FIPS 180-4 section 6.2.2 |
| `Sha256.Guts` | encrypt/encrypt_realize/sha256.c:118-242 | SHA256Guts, with shifting registers and byte-swapped words, computes the same function |
| `Sha256Stream.AddBlock` | encrypt/encrypt_realize/hmac_sha256.c:248-263 | Completing a block chains one compression of what was left over and what was added |
| `Sha256Stream.LengthWords` | encrypt/encrypt_realize/hmac_sha256.c:287-289 | The two length words shifted out of the byte counters are the halves of the 64-bit bit count |
| `Sha256Stream.PadBytes` | encrypt/encrypt_realize/hmac_sha256.c:294-298 | The pad count formula gives the padding of FIPS 180-4 section 5.1.1 |
| `Sha256Stream.Sha2Context.Count` | encrypt/encrypt_realize/hmac_sha256.c:242-246 | The 64-bit count in two words grows by the low 32 bits of the length, right across the carry |
| `Sha256Stream.Sha2Context.Update` | encrypt/encrypt_realize/hmac_sha256.c:231-269 | The context has absorbed the old message followed by the input, for every length of both; its count is right again if and only if the input is shorter than 2^32 |
| `Sha256Stream.Sha2Context.Finish` | encrypt/encrypt_realize/hmac_sha256.c:281-309 | The output is the FIPS 180-4 digest of everything absorbed, SHA-256 or SHA-224 |
| `Sha256Stream.Sha256Context.Update` | encrypt/encrypt_realize/sha256.c:245-278 | The copying loop of the other context absorbs the same message |
| `Sha256Stream.Sha256Context.Final` | encrypt/encrypt_realize/sha256.c:282-310 | With its own pad formula and byte-swapped length, the same digest |
| `Hmac.Sha2` | encrypt/encrypt_realize/hmac_sha256.c:314-324 | The one-shot call gives the digest of its input |
| `Hmac.HmacStarts` | encrypt/encrypt_realize/hmac_sha256.c:361-388 | Long keys are hashed, short ones padded, both masks are stored and the inner one absorbed |
| `Hmac.HmacFinish` | encrypt/encrypt_realize/hmac_sha256.c:399-414 | The output is H((K^opad) || H((K^ipad) || text)) and the masks are kept |
| `Hmac.HmacReset` | encrypt/encrypt_realize/hmac_sha256.c:419-423 | The context is as after the start with the same key |
| `DigestSession.Sha2File` | encrypt/encrypt_realize/hmac_sha256.c:330-356 | For every split of a message into pieces the streamed digest is the one-shot digest of the concatenation |
| `DigestSession.Agree` | encrypt/encrypt_realize/sha256.c:245-310 | Both implementations give equal digests on every message, each with its own split |
| `DigestSession.MacTwice` | encrypt/encrypt_realize/hmac_sha256.c:361-423 | Two texts under one key with a reset between them, in any pieces, get the HMAC of RFC 2104 each |
| `AesTables.RsboxSbox` | encrypt/encrypt_realize/aes.c:72-107 | The second substitution table inverts the first, for all 256 bytes |
| `AesField.XtimeXor` | encrypt/encrypt_realize/aes.c:270-273 | Multiplication by x in GF(2^8) is linear |
| `AesField.MultiplyXor` | encrypt/encrypt_realize/aes.c:292-299 | So is multiplication by each factor of the inverse matrix |
| `AesField.UnmixMix` | encrypt/encrypt_realize/aes.c:276-328 | The two column mixings are inverse: both are linear, and the product of the matrices is the identity |
| `AesField.MixByte` | encrypt/encrypt_realize/aes.c:276-289 | The mixing as the code computes it, with the sum of the column, is the matrix product |
| `Aes.UnsubSub` | encrypt/encrypt_realize/aes.c:227-342 | The byte layers are inverse |
| `Aes.UnshiftShift` | encrypt/encrypt_realize/aes.c:242-370 | The row layers are inverse |
| `Aes.UnmixMixColumns` | encrypt/encrypt_realize/aes.c:276-328 | The column layers are inverse |
| `Aes.InvRoundsMeet` | encrypt/encrypt_realize/aes.c:374-422 | Decryption passes the same states between the layers of every round as encryption, backwards |
| `Aes.DecipherCipher` | encrypt/encrypt_realize/aes.c:374-422 | InvCipher inverts Cipher for every block and any round keys |
| `AesState.SubBytes` | encrypt/encrypt_realize/aes.c:227-237 | The nested loops substitute every byte of the state in place and nothing else |
| `AesState.ShiftRows` | encrypt/encrypt_realize/aes.c:242-268 | The moves through a temporary rotate each row of the state by its number |
| `AesState.MixColumns` | encrypt/encrypt_realize/aes.c:276-289 | Each column is mixed in place, although its first byte is overwritten before its last use |
| `AesState.InvMixColumns` | encrypt/encrypt_realize/aes.c:311-328 | Each column is unmixed in place |
| `AesState.Cipher` | encrypt/encrypt_realize/aes.c:374-397 | The cipher in place on 16 bytes of a buffer; the rest of the buffer is unchanged |
| `AesState.InvCipher` | encrypt/encrypt_realize/aes.c:399-422 | The inverse cipher in place |
| `AesCbc.CbcInverse` | encrypt/encrypt_realize/aes.c:544-623 | Chaining cancels block by block for every message of whole blocks, round keys and vector |
| `AesCbc.DecryptEncrypt` | encrypt/encrypt_realize/aes.c:544-657 | With padding, for every message: the decrypted bytes start with the message and the last byte gives its length |
| `AesCbc.Padding` | encrypt/encrypt_realize/aes.c:436-444 | 1 to 16 bytes with their own count are appended in place |
| `AesCbc.CbcEncryptBuffer` | encrypt/encrypt_realize/aes.c:544-582 | The buffers after encryption of any length, with the Iv pointer into the output; when the length ends within a block, as many bytes from behind the covered blocks are padded with zeros and encrypted too, without chaining, as the code does |
| `AesCbc.CbcDecryptBuffer` | encrypt/encrypt_realize/aes.c:584-623 | The same for decryption, with the Iv pointer into the input |
| `AesCbc.Cs5Encrypt` | encrypt/encrypt_realize/aes.c:625-640 | The wrapper pads and encrypts, and returns the padded length |
| `AesCbc.Cs5Decrypt` | encrypt/encrypt_realize/aes.c:642-657 | The wrapper decrypts any length but 0 and returns it less the value of the last byte |
| `AesCbc.EncryptThenDecrypt` | encrypt/encrypt_realize/aes.c:625-657 | On three separate buffers: the message and its length come back for every length |
| `Des.RoundTwice` | encrypt/encrypt_realize/des3.c:34-45 | One Feistel step done twice with the same key words changes nothing, whatever the boxes hold |
| `Des.BackwardMeets` | encrypt/encrypt_realize/des3.c:659-710 | The decryption loop on the swapped result goes back over the pairs of the encryption loop |
| `Des.Encrypt2Inverse` | encrypt/encrypt_realize/des3.c:659-710 | Sixteen rounds in one direction undo those in the other, with the rotations and the exchange of halves |
| `Des.SidesTwice` | encrypt/encrypt_realize/des3.c:47-49 | Each masked swap is its own inverse |
| `Des.InitialFinal` | encrypt/encrypt_realize/des3.c:51-69 | The final permutation with exchanged arguments inverts the initial one, and conversely |
| `Des.Decrypt3Encrypt3` | encrypt/encrypt_realize/des3.c:712-750 | Triple decryption inverts triple encryption for every block, any three key schedules and any boxes |
| `Des.DesEncrypt2` | encrypt/encrypt_realize/des3.c:659-710 | The two loops in place |
| `Des.DesEncrypt3` | encrypt/encrypt_realize/des3.c:712-730 | Triple encryption in place |
| `Des.DesDecrypt3` | encrypt/encrypt_realize/des3.c:732-750 | Triple decryption in place |
| `Des.Ecb3` | encrypt/encrypt_realize/des3.c:576-598 | Eight bytes in, eight bytes out, through little-endian words |
| `Des.Ecb3Back` | encrypt/encrypt_realize/des3.c:576-598 | A block encrypted and decrypted again is the same eight bytes |
| `CrcRegister.StepXor` | encrypt/encrypt_realize/ts_crc32.c:26 | The shift register is linear |
| `CrcRegister.StepInjective` | encrypt/encrypt_realize/ts_crc32.c:26 | The shift register loses no bit, because the polynomial is odd |
| `Crc32.FeedByte` | encrypt/encrypt_realize/ts_crc32.c:26 | Feeding the bits of a byte is adding it at the top and stepping eight times |
| `Crc32.TableStep` | encrypt/encrypt_realize/ts_crc32.c:37 | One table-driven step is eight steps of the register, for every register and byte |
| `Crc32.MakeEntry` | encrypt/encrypt_realize/ts_crc32.c:24-27 | The loop that ends by its sentinel bit shifts exactly eight times and gives the entry |
| `Crc32.MakeTable` | encrypt/encrypt_realize/ts_crc32.c:20-31 | All 256 entries |
| `Crc32.Calculate` | encrypt/encrypt_realize/ts_crc32.c:33-40 | The table-driven CRC is the bit-by-bit division by 0x04c11db7 with an all-ones start, for every message |
| `Crc32.CheckBytes` | encrypt/encrypt_realize/ts_crc32.c:33-40 | Four more bytes make the CRC 0 if and only if they are the CRC of the message in big-endian order |
| `Crc32.Residue` | encrypt/encrypt_realize/ts_crc32.c:33-40 | A message followed by its CRC has CRC 0 |
| `TokenBucket.StepRange` | priv_test/coder88/signal/mytbf/mytbf.c:24-149 | Every tick and every call, whatever overflows, keeps each bucket in the slot it knows, with at most its burst |
| `TokenBucket.RunRange` | priv_test/coder88/signal/mytbf/mytbf.c:24-149 | So does every interleaving |
| `TokenBucket.StepInv` | priv_test/coder88/signal/mytbf/mytbf.c:33-138 | A tick or call keeps 0 <= token <= burst if and only if its sum, token + cps or token + size, does not overflow |
| `TokenBucket.BoundsIff` | priv_test/coder88/signal/mytbf/mytbf.c:24-149 | Over all runs in which returns do not overflow and other buckets have room, 0 <= token <= burst holds if and only if burst + cps of the new bucket is an int |
| `TokenBucket.Overflows` | priv_test/coder88/signal/mytbf/mytbf.c:33-136 | Two ticks, and a return, that leave a bucket negative |
| `TokenBucket.RunInv` | priv_test/coder88/signal/mytbf/mytbf.c:24-149 | With room in every bucket and returns that do not overflow, every interleaving keeps 0 <= token <= burst |
| `TokenBucket.Balance` | priv_test/coder88/signal/mytbf/mytbf.c:24-38 | Over any run: tokens left and tokens taken are at most those at the start and the refills of the ticks |
| `TokenBucket.RateLimit` | priv_test/coder88/signal/mytbf/mytbf.c:111-140 | Net tokens taken in any window with k ticks are at most burst + cps * k, whatever overflows |
| `TokenBucket.RateFromCreation` | priv_test/coder88/signal/mytbf/mytbf.c:71-102 | From its creation they are at most cps * k |
| `TokenBucket.WaitEnds` | priv_test/coder88/signal/mytbf/mytbf.c:119-120 | A fetch that waits, on an empty or a negative bucket, can go on after some ticks if and only if rate and burst are positive; on an empty one after the next |
| `TokenBucket.Table.AlrmHandler` | priv_test/coder88/signal/mytbf/mytbf.c:24-38 | The timer refills every bucket in memory, up to its burst, with the sum as it wraps around |
| `TokenBucket.Table.GetFreePos` | priv_test/coder88/signal/mytbf/mytbf.c:60-69 | The first free slot, or -1 when there is none |
| `TokenBucket.Table.Init` | priv_test/coder88/signal/mytbf/mytbf.c:71-102 | A new bucket without tokens in the first free slot; null exactly when the table is full |
| `TokenBucket.Table.FetchToken` | priv_test/coder88/signal/mytbf/mytbf.c:111-127 | Waits for as many ticks as the bucket needs to have a token, and takes what there is then, up to the size; negative sizes are refused |
| `TokenBucket.Table.ReturnToken` | priv_test/coder88/signal/mytbf/mytbf.c:129-140 | Gives back up to the burst, with the sum as it wraps around |
| `TokenBucket.Table.Remove` | priv_test/coder88/signal/mytbf/mytbf.c:142-149 | Frees the slot of the bucket and no other |
| `TokenInterrupts.StepMoves` | priv_test/coder88/signal/mytbf/mytbf.c:111-140 | With the signal between any two accesses to a bucket and sums that may overflow: what a step takes and what the program can still take are at most what it could, and the refill of a signal |
| `TokenInterrupts.TraceMoves` | priv_test/coder88/signal/mytbf/mytbf.c:24-149 | So over every interleaving |
| `TokenInterrupts.TraceCalm` | priv_test/coder88/signal/mytbf/mytbf.c:111-140 | A bucket in which burst + cps is an int never holds more than its burst except between the two stores of a return, nor less than a fetch has seen, in every interleaving and whatever is returned |
| `TokenInterrupts.InterruptedRateLimit` | priv_test/coder88/signal/mytbf/mytbf.c:111-140 | Net tokens taken from such a bucket in any window with k signals, wherever it begins and they fall, are at most burst + cps * k |
| `TokenInterrupts.InterruptedRateIff` | priv_test/coder88/signal/mytbf/mytbf.c:71-140 | That holds of every window of every interleaving from the creation of a bucket on if and only if burst + cps is an int |
| `TokenInterrupts.InterruptedFromCreation` | priv_test/coder88/signal/mytbf/mytbf.c:71-140 | From its creation at most cps * k are taken, whatever overflows |
| `TokenInterrupts.AboveBurst` | priv_test/coder88/signal/mytbf/mytbf.c:136-138 | A state with more than the burst in a bucket |
| `TokenInterrupts.RefillLost` | priv_test/coder88/signal/mytbf/mytbf.c:124 | A run that loses a refill |
| `TokenInterrupts.OverflowBetween` | priv_test/coder88/signal/mytbf/mytbf.c:136-138 | A signal that overflows between the stores of a return, though neither sum does alone |
| `TopicMatch.MatchedIffLevels` | mqtt_paho/MQTTClient.c:129-157 | For every well-formed filter and every name: matched if and only if the levels match one by one, where `+` needs a level that is not empty and a final `#` needs the first of the remaining levels to be there and not empty |
| `TopicMatch.MatchedIffStandard` | mqtt_paho/MQTTClient.c:129-157 | Against section 4.7.1 of MQTT 3.1.1: matched if and only if the standard matches and no wildcard stands on an empty or missing level |
| `TopicMatch.AgreeIffNoWildcard` | mqtt_paho/MQTTClient.c:129-157 | A filter is matched as in the standard for every name if and only if it has no wildcard |
| `TopicMatch.IsTopicMatched` | mqtt_paho/MQTTClient.c:132-157 | The two cursors, for all strings |
| `TopicMatch.JoinLevels` | mqtt_paho/MQTTClient.c:129-131 | Splitting into levels and joining them again loses nothing |
| `TopicMatch.LevelsJoin` | mqtt_paho/MQTTClient.c:129-131 | Joining levels and splitting them again loses nothing |
| `TopicMatch.NotMatched` | mqtt_paho/MQTTClient.c:140-150 | Names that the standard matches and the code does not: an empty level under `+`, the parent of a final `#`, and an empty level under `#` |
| `Coap.ParseBuild` | coap_priv/coap.c:216-232 | Parsing undoes building, for every packet of version 1 with at most 16 options in order, if and only if no option value is longer than 268 bytes |
| `Coap.ReadLenRight` | coap_priv/coap.c:320-330 | The extended length that is written is read back if and only if it is at most 268 |
| `Coap.OptionsRead` | coap_priv/coap.c:155-188 | Written options are read back, with their numbers and values, up to the payload marker or the end |
| `Coap.OptionsMisread` | coap_priv/coap.c:294-336 | With a longer value among them they are not |
| `Coap.ParseInside` | coap_priv/coap.c:216-232 | On any bytes: token, options and payload of a successful parse are slices of the message, in order and without overlap |
| `Coap.OptionsConsecutive` | coap_priv/coap.c:155-188 | Each option starts behind its head and ends where the next head starts, so every step advances |
| `CoapBuffer.ReadOption` | coap_priv/coap.c:83-148 | One option with extended fields and every error return |
| `CoapBuffer.ReadOptions` | coap_priv/coap.c:155-174 | The loop with its limit of 16 options |
| `CoapBuffer.CoapParse` | coap_priv/coap.c:216-232 | The whole parser |
| `CoapBuffer.PutOption` | coap_priv/coap.c:301-335 | The head and value of one option behind what is already written |
| `CoapBuffer.CoapBuild` | coap_priv/coap.c:267-348 | Each error return, or the bytes and the length of the packet in the buffer, whenever the writes stay in the buffer |
| `CoapBuffer.ExtentInside` | coap_priv/coap.c:275-336 | The writes stay in the buffer if and only if the header or the token is refused or everything before the payload has room; the test inside the option loop never helps |
| `CoapBuffer.Overrun` | coap_priv/coap.c:294-335 | A packet whose options end eleven bytes behind the buffer |
| `CoapBuffer.BuildThenParse` | coap_priv/coap.c:267-348 | A packet written to a buffer and parsed from it is the same packet |
| `Mqtt.DecodeLenRight` | mqtt_paho/MQTTPacket/MQTTPacket.c:54-81 | The remaining length is decoded as it was encoded, for every length of up to four bytes, wherever it stands |
| `Mqtt.PacketLenBound` | mqtt_paho/MQTTPacket/MQTTPacket.c:84-98 | MQTTPacket_len is at least the real size if and only if the length needs at most four bytes, and then exceeds it by at most 1 |
| `Mqtt.ConsistentLength` | mqtt_paho/MQTTPacket/MQTTPacket.c:194-252 | A string is as long as MQTTstrlen says if and only if its two forms do not disagree |
| `Mqtt.BodyLength` | mqtt_paho/MQTTPacket/MQTTSerializePublish.c:31-39 | Each serializer writes exactly 1 + |enc(rem)| + rem bytes |
| `Mqtt.ReadOne` | mqtt_paho/MQTTPacket/MQTTPacket.c:290-316 | MQTTPacket_read at a serialized packet returns its type and exactly its bytes |
| `Mqtt.ReadAll` | mqtt_paho/MQTTPacket/MQTTPacket.c:290-316 | Repeated reading of a concatenation returns exactly the packets, in order, and stops with the stream |
| `MqttDecode.PublishBack` | mqtt_paho/MQTTPacket/MQTTDeserializePublish.c:36-70 | Every field of a PUBLISH comes back: flags, QoS, identifier when there is one, topic and payload |
| `MqttDecode.SubscribeBack` | mqtt_paho/MQTTPacket/MQTTSubscribeServer.c:35-70 | Every field of a SUBSCRIBE comes back, with all topic filters and QoS values |
| `MqttDecode.AckBack` | mqtt_paho/MQTTPacket/MQTTDeserializePublish.c:82-106 | Type, flag and identifier of an acknowledgement come back |
| `MqttDecode.AckCode` | mqtt_paho/MQTTPacket/MQTTDeserializePublish.c:92-105 | For every complete buffer: success is returned without an identifier if and only if the remaining length is 0 or 1 |
| `MqttDecode.PublishCode` | mqtt_paho/MQTTPacket/MQTTDeserializePublish.c:46-69 | For every complete buffer: success is returned without topic and payload if and only if it is a PUBLISH with a length of one byte that ends within its topic |
| `MqttDecode.PublishInside` | mqtt_paho/MQTTPacket/MQTTDeserializePublish.c:56-65 | After a successful reading the topic is in the buffer, and the payload is the rest of it if and only if QoS is 0 or two bytes follow the topic |
| `MqttDecode.SubscribeCode` | mqtt_paho/MQTTPacket/MQTTSubscribeServer.c:43-69 | For every complete buffer: success is returned without all filters if and only if it is a SUBSCRIBE with a length of one byte and an identifier, whose rest is not the serialization of any list of filters |
| `MqttDecode.SubscribeInside` | mqtt_paho/MQTTPacket/MQTTSubscribeServer.c:50-63 | After a successful reading every filter is in the buffer |
| `MqttDecode.FiltersIff` | mqtt_paho/MQTTPacket/MQTTSubscribeServer.c:53-63 | The filter loop succeeds if and only if the bytes serialize some list of filters |
| `MqttDecode.ShortAck` | mqtt_paho/MQTTPacket/MQTTDeserializePublish.c:95-102 | Such an acknowledgement |
| `MqttDecode.ShortPublish` | mqtt_paho/MQTTPacket/MQTTDeserializePublish.c:53-65 | Such a PUBLISH, and one with a payload of length -2 |
| `MqttDecode.ShortSubscribe` | mqtt_paho/MQTTPacket/MQTTSubscribeServer.c:50-66 | Such a SUBSCRIBE |
| `MqttDecode.StreamBack` | mqtt_paho/MQTTPacket/MQTTPacket.c:290-316 | Any packets serialized one after the other: repeated reading finds each in order, every field of each comes back, and the stream ends there |
| `MqttBuffer.PacketEncode` | mqtt_paho/MQTTPacket/MQTTPacket.c:29-45 | The do-while loop writes the encoded length |
| `MqttBuffer.PacketDecode` | mqtt_paho/MQTTPacket/MQTTPacket.c:54-81 | The decoding loop over a source, with its limit of four bytes and its end of data |
| `MqttBuffer.PacketRead` | mqtt_paho/MQTTPacket/MQTTPacket.c:290-316 | Header, length and body from a source into a buffer that holds at least header and length, with every failing case |
| `MqttBuffer.DeliversComplete` | mqtt_paho/MQTTPacket/MQTTPacket.c:290-316 | Whatever the stream: each buffer that is delivered holds one whole packet with its length |
| `MqttBuffer.FiveBytes` | mqtt_paho/MQTTPacket/MQTTPacket.c:297-307 | A buffer holds header and length of every stream if and only if it has at least five bytes |
| `MqttBuffer.SerializePublish` | mqtt_paho/MQTTPacket/MQTTSerializePublish.c:55-92 | The packet in the buffer and its length, or the buffer untouched when it is too short, whenever the bytes written have room |
| `MqttBuffer.RoomAlways` | mqtt_paho/MQTTPacket/MQTTSerializePublish.c:63-67 | The test against the buffer length is enough for every buffer if and only if the counted length covers the written bytes, and it does for strings whose forms agree and lengths of at most four bytes |
| `MqttBuffer.Overrun` | mqtt_paho/MQTTPacket/MQTTPacket.c:194-252 | A topic with a shorter C string: ten bytes into a buffer of five |
| `MqttBuffer.SerializeAck` | mqtt_paho/MQTTPacket/MQTTSerializePublish.c:104-127 | The four bytes, or the buffer untouched |
| `MqttBuffer.SerializeSubscribe` | mqtt_paho/MQTTPacket/MQTTSubscribeClient.c:50-86 | The packet in the buffer and its length, or the buffer untouched when it is too short, whenever the bytes written have room |
| `MqttBuffer.SubscribeLength` | mqtt_paho/MQTTPacket/MQTTSubscribeClient.c:28-36 | The loop that adds up the remaining length |
| `MqttBuffer.ReadSubscribe` | mqtt_paho/MQTTPacket/MQTTSubscribeServer.c:54-63 | The loop over the topic filters, with its error returns |

## Left out

- Non-integer JSON numbers in the printers and the rounding of `double` in the parser: the model keeps mantissa and exponent exactly, and printable numbers are 32-bit integers. `valueint` is not modelled.
- The meaning of a lone half of a surrogate pair, which RFC 8259 leaves open, is taken to be the three bytes of its code unit.
- JsonMinify.Minify: requires that strings and block comments are closed; what the code does with the memory behind the terminator otherwise is not modelled.
- JsonParser.ParseWithOpts: requires that no string makes the code leave its text or its allocation, as `JsonSafe.TextSafe` says; the other calls of the parser require it at their position.
- JsonParser.ParseNumber: keeps the decimal number, not the `double` the code computes from it.
- JsonBuffer.PrintBuffer.Ensure: a buffer that must grow does so for at most 2^30 bytes, the most that `pow2gt` has an `int` for by `JsonBuffer.IntSized`. An allocation of no bytes is taken not to be null.
- JsonPrintBuffered.PrintBuffered: bounds the text by 2^30, as above.
- JsonPrintAlloc.PrintArray, JsonPrintAlloc.PrintObject: the running length has no bound, where it is an `int` in the code.
- Allocation failure, custom allocation hooks, reference and constant-string flags, deletion and duplication of trees, and the object operations that look up names without regard to case.
- PrimerPool: failures of thread creation, and the meaning of `exit`. State is a value and a step is a function, since the order of steps is the subject.
- FileTransfer: opening files and exchanging paths, errors, cancelling, partial and failed writes, and lost packets. State is a value and a step is a function, as for the pool.
- Hmac.Sha2: takes fewer than 2^32 bytes, as `Sha2Context.Update` counts no more; digests are for messages below 2^61 bytes, the limit of FIPS 180-4.
- Sha256.Process: the 64 unrolled lines are two loops over eight lines, which is the period of the register names.
- Stack burning, clearing of contexts after use, and the self tests.
- XxteaBytes: the hexadecimal wrappers around encryption and decryption.
- Aes and Des: the key schedules; the results hold for any round keys and any schedules. Overlapping buffers, a null key or vector that continues an earlier call, and the ECB wrappers of AES are left out.
- AesTables: a table is a search tree over its 16 rows, with the entries of the source in their order.
- AesCbc.Cs5Decrypt: the result is an integer, where a last byte above the length makes the code wrap around.
- Des: words are 32 bits wide; on machines with 64-bit longs the code carries 32-bit values in them.
- Crc32: reading transport streams from files.
- TokenBucket: a signed sum that overflows is taken to wrap around, which C leaves open; negative rates and bursts, signals other than the timer, and use of a bucket after it was destroyed. Waiting on a bucket that never refills does not return and has no model.
- CoapBuffer.CoapBuild: requires that the writes stay in the buffer, under the condition of `CoapBuffer.ExtentInside`. Options out of order and values above 65804 bytes are left out, and so are the endpoints and responses built on top.
- MqttDecode: buffers hold a whole packet, as MQTTPacket_read delivers them; bytes behind it, which a short packet makes the code read, count as 0. Arrays for topic filters are large enough: the code does not compare with its maximum.
- MqttBuffer.SerializePublish, MqttBuffer.SerializeSubscribe: require that the bytes written have room, which the code does not always see to.
- TopicMatch: section 4.7.2 of MQTT 3.1.1, on names that begin with `$`, binds servers and is not part of the comparison.
- Connecting, the client loop, CONNECT, UNSUBSCRIBE and SUBACK packets, and the non-blocking reader.
- Sockets, timers, TLS, generated protobuf code, SHA-1, MD5, TEA, base64, and the exercises that only call the operating system.
