# A Dafny model of the sunela firmware core

sunela is firmware for a small hardware password manager. It keeps account
records in encrypted flash blocks, guards them with a PIN, shows HOTP codes
and BIP39 mnemonics, and talks to a host over USB through mailboxes. This
project models the core of that firmware as pure Dafny functions and
methods, and proves what the code promises about them.

One module per source component:

- `Span` (`span.dfy`): the free-block lists of the database, as a sequence
  of `(start, len)` spans. Freeing a range, taking one block, taking an
  aligned erase block.
- `Db` (`db.dfy`): an entry's field list. Adding and changing fields,
  finding one, the TLV records of a payload, reading a payload back, the
  16-bit sequence numbers that pick the newer copy, directory and account
  tests, the path in an ID.
- `TSort` (`tsort.dfy`): `db_tsort`, Kahn's algorithm over the entries'
  `prev` links.
- `DbCrypt` (`dbcrypt.dfy`): the layout of an encrypted block, the reader
  list, and decryption. NaCl is a parameter (`NaCl`), and `Sound` states
  what the model needs of it.
- `Pin` (`pin.dfy`): PIN encoding, validation, the cooldown and PIN change.
- `Base32` (`base32.dfy`) and `Hotp` (`hotp.dfy`): base32 codec, HOTP
  truncation and counter encoding. HMAC-SHA-1 is a parameter.
- `Bip39`, `Bip39Enc`, `Bip39Dec`, `Bip39In` (`bip39*.dfy`):
  - the BIP39 table;
  - mnemonic generation word by word, and decoding with the checksum test;
  - keypad matching of words.

  SHA-256 and the word list are parameters.
- `Fmt` (`fmt.dfy`): `print_number`.
- `IMath` (`imath.dfy`): the bit-by-bit integer square root.
- `Mbox` (`mbox.dfy`): the single-message mailboxes.
- `Rmt` (`rmt.dfy`): the remote-control link built on two mailboxes that
  share one buffer.
- `Timer` (`timer.dfy`): the sorted timer list and its tick.
- `Accenc` (`accenc.dfy`): the host tool that encodes a JSON account list
  into a flash image.

Shared modules:

- `Bits` (`bits.dfy`): powers of two, shifts and ors on naturals, and
  big-endian bit strings packed into groups.
- `Bytes` (`bytes.dfy`): bytes and 32-bit words.
- `Results` (`results.dfy`): `Option` and `Result`.

C integer widths are written out where they matter:

- `uint32_t` and `unsigned` wrap modulo 2^32 (`U32Mod`);
- `uint16_t` sequence numbers wrap modulo 2^16;
- `uint8_t` lengths truncate modulo 256;
- `int32_t` mailbox lengths convert as two's complement.

Walks over linked lists are modelled as recursion over sequences.
C loops that do real bit work are methods with loop invariants. These are
the base32 codec, the BIP39 encoder and decoder, keypad matching,
`print_number`, `isqrt` and `db_tsort`.

Where the code and its documented behaviour differ, the model follows the
code in the points below:

- The key tuple of `tools/accenc.py` has nine keys. It has no `pw2`.
- A record key the tool does not know is skipped by its main loop. It raises
  no error.
- `db_encrypt` wraps the record key for every reader with the same nonce. It
  does not perturb the nonce per reader.
- The wrap of the record key is a stream cipher (`crypto_stream_xor`), not
  an authenticated box.
- `bip39_match` fills the global `bip39_matches` array. It does not take the
  `matches` and `max_matches` arguments that its header declares.

Where the code has a defect (see "## Findings"), the model gives both
variants and a parameter picks one. The as-written variant is the model of
the code; the corrected one states what was evidently intended:

- `Mbox.Retrieval`: `AsWritten` is `mbox_retrieve` as coded, `Corrected`
  answers -1 for a disabled box, as `mbox.h` describes. `Rmt.Request` and
  `Rmt.Query` take it as a parameter.
- `Pin.Wait`: `WaitAsWritten` is `PIN_WAIT_S` as coded, `WaitCapped`
  never exceeds `PIN_WAIT_MAX_S`. `Pin.Revalidate` and `Pin.Change` take it
  as a parameter.
- `Accenc.Lengths`: `CharCount` is the script's `len(v)` length byte,
  `ByteCount` counts UTF-8 bytes. `Accenc.Payload` and `Accenc.Image` take
  it as a parameter.

## Model

| member | source | states |
|---|---|---|
| `Mbox.Int32` | sys/mbox.c:50 | storing the size_t total in the int32_t length keeps it modulo 2^32, and keeps any total up to INT32_MAX unchanged |
| `Mbox.DepositV` | sys/mbox.c:18-53 | a deposit succeeds exactly when the box is enabled and empty; on success the buffer starts with the parts one after the other, and the rest of the buffer and the box's other fields are unchanged; on failure nothing changes |
| `Mbox.Deposit` | sys/mbox.c:68-71 | the single-part deposit succeeds under the same condition as the variadic one |
| `Mbox.DepositParts` | sys/mbox.c:56-71 | depositing several parts has the same effect as depositing their concatenation as one part |
| `Mbox.RetrieveAsWritten` | sys/mbox.c:74-89 | as written, the result is 0 exactly when the box is disabled or holds an empty message |
| `Mbox.Retrieve` | sys/mbox.c:74-89 | the corrected retrieval, as the header describes it: the result is negative exactly when no message is pending, and then nothing changes; otherwise the result is the message length, the caller gets the message bytes, and the box is empty afterwards |
| `Mbox.Enable` | sys/mbox.c:92-97 | enabling a disabled box leaves it enabled and empty with its size |
| `Mbox.EnableBuf` | sys/mbox.c:100-107 | enabling with a new buffer leaves the box enabled and empty, with the new size |
| `Mbox.Disable` | sys/mbox.c:110-115 | disabling drops any message and keeps the size |
| `Mbox.Init` | sys/mbox.c:118-124 | a new box is disabled and empty |
| `Mbox.DepositRetrieve` | sys/mbox.c:18-89 | a deposit into an empty box followed by a retrieval hands back exactly the deposited bytes and their count, and leaves the box empty |
| `Mbox.OneMessage` | sys/mbox.c:27-28 | while a message is pending, a second deposit is refused and changes nothing |
| `Mbox.ValidPreserved` | sys/mbox.c:18-124 | deposit, retrieve, enable and disable keep the length between -1 and the buffer size |
| `Mbox.EnableDisableClear` | sys/mbox.c:92-124 | after enable, disable or init nothing can be retrieved, and a disabled box refuses deposits |
| `Mbox.RetrieveAsWrittenAmbiguous` | sys/mbox.c:78-79 | as written, a disabled box and an enabled box holding an empty message both answer 0; the corrected retrieval tells them apart |
| `Mbox.RetrieveAgrees` | sys/mbox.c:74-89 | the as-written and corrected retrievals agree on every enabled box; on a disabled box they answer 0 and -1 |
| `Rmt.Request` | rmt/rmt.c:81-99 | with either retrieval: a pending non-empty block is returned with its length and the link is in the request state; the empty end-of-request block gives a negative result and the response state. With nothing pending, the corrected retrieval gives a negative result when idle and 0 in the request state, and changes nothing; the as-written retrieval on a disabled mailbox gives -1 and moves the link to the response state |
| `Rmt.ResponseV` | rmt/rmt.c:102-113 | a response is accepted exactly when the outgoing mailbox is enabled and empty; the state and the incoming side are unchanged |
| `Rmt.Response` | rmt/rmt.c:116-120 | the single-buffer response is accepted under the same condition |
| `Rmt.End` | rmt/rmt.c:123-136 | ending succeeds exactly when the outgoing mailbox is free; it then queues an empty block and returns the link to idle; otherwise nothing changes |
| `Rmt.Query` | rmt/rmt.c:148-158 | the host gets a block exactly when a response is pending, and gets its bytes; with the as-written retrieval a disabled mailbox hands the host an empty block instead; the state, the incoming side and the buffer are unchanged, and nothing is pending afterwards |
| `Rmt.Arrival` | rmt/rmt.c:161-179 | a host block is accepted exactly when the incoming mailbox is free, and is then the pending message; the state is the one that the reset callback leaves |
| `Rmt.Open` | rmt/rmt.c:185-194 | opening leaves the link idle with no reset callback and both mailboxes enabled |
| `Rmt.SetReset` | rmt/rmt.c:197-200 | installing or removing the reset callback changes nothing else |
| `Rmt.Close` | rmt/rmt.c:203-215 | closing disables the mailbox of the current direction, leaves the other alone, and makes the link idle |
| `Rmt.OpenProtocol` | rmt/rmt.c:185-194 | an opened link satisfies the protocol invariant, and nothing is pending in either direction; this holds for both retrievals |
| `Rmt.ProtocolPreserved` | rmt/rmt.c:81-179 | request, response, end, query and arrival without a reset keep the link well formed and the protocol invariant true; this holds for both retrievals |
| `Rmt.ArrivalRequest` | rmt/rmt.c:81-99 | a non-empty host block that arrives is the next thing the application's request returns, and the link is then in the request state; this holds for both retrievals |
| `Rmt.EmptyBlockEndsRequest` | rmt/rmt.c:91-98 | an empty host block ends the request: the application's request returns a negative number and the link moves to the response state; this holds for both retrievals |
| `Rmt.ResponseQuery` | rmt/rmt.c:148-158 | a response that was queued is exactly what the host's next query returns; this holds for both retrievals |
| `Rmt.EndQuery` | rmt/rmt.c:123-136 | after the end of a response the host's query gets an empty block and the link is idle; this holds for both retrievals |
| `Rmt.CloseIdle` | rmt/rmt.c:203-215 | the corrected variant: after close, the link is idle and well formed; a request over the corrected retrieval finds nothing and keeps it idle, and a query hands the host nothing |
| `Rmt.ClosedRequestAsWritten` | rmt/rmt.c:86-98 | as written, after close in the idle or request state the disabled in-mailbox answers 0, and rmt_request returns -1 and moves the link to the response state with no request received; after close in the response state the host is handed an empty block, the end-of-response marker |
| `Rmt.ResetOverwritesResponse` | rmt/rmt.c:173-176 | a reset arrival while a response is pending in the shared buffer overwrites it, and the host then reads the new request bytes as the response; this holds for both retrievals |
| `Timer.Before` | sys/timer.c:28-30 | the insertion loop passes exactly the entries due no later than the new one |
| `Timer.Unlink` | sys/timer.c:43-45 | unlinking never lengthens the list; `Timer.UnlinkSplit` states what it removes |
| `Timer.Set` | sys/timer.c:20-36 | setting a timer leaves the clock unchanged; its effect on the list is stated by `Timer.SetUnlinks` and `Timer.SetValid` |
| `Timer.Cancel` | sys/timer.c:39-49 | cancelling leaves the clock unchanged; its effect on the list is stated by `Timer.CancelOthers` |
| `Timer.Flush` | sys/timer.c:52-67 | a flush fires a callback exactly when the timer is armed, and fires that timer's entry; the list afterwards is that of a cancel |
| `Timer.Due` | sys/timer.c:79 | the tick loop pops exactly the leading entries due by now |
| `Timer.Tick` | sys/timer.c:76-88 | a tick sets the clock, and the fired entries followed by the remaining list are the old list |
| `Timer.InsertSplit` | sys/timer.c:28-32 | insertion puts the entry right after the entries due no later than it, with the list otherwise unchanged |
| `Timer.InsertSorted` | sys/timer.c:28-32 | insertion keeps the list sorted by due time |
| `Timer.InsertMembers` | sys/timer.c:28-32 | after insertion the list holds the new entry and the old ones, nothing else |
| `Timer.InsertValid` | sys/timer.c:28-35 | inserting a timer that is not armed keeps the list sorted, without duplicates and with callbacks set |
| `Timer.UnlinkSplit` | sys/timer.c:43-48 | unlinking a timer that is not armed changes nothing, and unlinking an armed one removes just its entry |
| `Timer.CancelOthers` | sys/timer.c:39-49 | cancelling disarms the timer, keeps the list valid, and leaves every other timer as it was |
| `Timer.SetUnlinks` | sys/timer.c:26-27 | setting inserts into the list without the timer, whether or not it was armed |
| `Timer.SetValid` | sys/timer.c:20-36 | after a set the list is valid, the timer is armed once with its due time, callback and argument, and every other timer is as before |
| `Timer.LaterNotDue` | sys/timer.c:79 | in a sorted list, every entry the tick stops at or after is not yet due, and every entry before it is due |
| `Timer.TickFires` | sys/timer.c:76-88 | a tick fires exactly the timers due by the new time, earliest first, and keeps exactly the later ones, still valid and sorted |
| `Timer.TickIdempotent` | sys/timer.c:76-88 | a second tick at the same time fires nothing |
| `Timer.SetNearWrapFiresEarly` | sys/timer.c:23 | the due time wraps modulo 2^32: a timer set 0x200 ms before the clock wraps is due at 0x100 and fires at the next tick |
| `Hotp.Offset` | crypto/hotp.c:51 | the offset leaves room for four bytes in the 20-byte hash |
| `Hotp.TruncateValue` | crypto/hotp.c:51-53 | the truncated value is the big-endian number in the four bytes at the offset, with its top bit cleared, so it is below 2^31 |
| `Hotp.TruncateRfcExample` | crypto/hotp.c:51-53 | the example of section 5.4 of RFC 4226 gives offset 10 and value 0x50ef7f19 |
| `Hotp.CounterBytes` | crypto/hotp.c:65-66 | the counter is written in the requested number of bytes |
| `Hotp.CounterValue` | crypto/hotp.c:59-68 | the counter bytes read back big-endian as the counter modulo 256 to the power of the byte count |
| `Hotp.Counter64` | crypto/hotp.c:71-74 | eight counter bytes read back as the whole 64-bit counter |
| `Hotp.Hotp64Value` | crypto/hotp.c:71-74 | hotp64 truncates the MAC of the counter's eight big-endian bytes, and the code is below 2^31 |
| `Base32.CharValue` | crypto/base32.c:73-74 | a character's value is its position in the alphabet, below 32 |
| `Base32.CharValueOfSymbol` | crypto/base32.c:22-23 | every alphabet position reads back as itself, and no alphabet character is one of the skipped characters |
| `Base32.SymbolCount` | crypto/base32.h:20-23 | symbols plus '=' fill make eight characters per started group of five bytes |
| `Base32.PadFits` | crypto/base32.c:47-48 | the zero bits that fill the last symbol complete it and are fewer than five |
| `Base32.EncodeSizeExact` | crypto/base32.h:20-23 | base32_encode_size is exactly the encoding's length plus the NUL |
| `Base32.RoundTrip` | crypto/base32.c:26-90 | decoding the encoding of any byte string gives it back, and the encoding passes the decoder's test on trailing bits |
| `Base32.EncoderPrefix` | crypto/base32.c:33-44 | whatever the encoder has written so far is a prefix of the encoding |
| `Base32.FailedPrefix` | crypto/base32.c:39-55 | when the buffer fills, what was written is the start of the encoding and its NUL |
| `Base32.LastSymbol` | crypto/base32.c:47-48 | at the end of the data the zero-filled last symbol completes the symbols |
| `Base32.FillEnds` | crypto/base32.c:49-53 | the '=' loop stops exactly at the first multiple of eight |
| `Base32.EncodeSymbols` | crypto/base32.c:33-48 | the symbol loop writes the symbols of the data, or stops with a full buffer holding a prefix of the encoding |
| `Base32.Encode` | crypto/base32.c:26-58 | the result is -1 exactly when the buffer is smaller than base32_encode_size; otherwise it is the encoding's length, and the buffer holds the encoding and a NUL; on failure the buffer holds as much of them as fits |
| `Base32.DecodeChar` | crypto/base32.c:67-86 | one character is skipped, or its five bits are shifted in and a whole byte is taken out; a full buffer stops the loop only when the text has more bytes |
| `Base32.DecodeBytes` | crypto/base32.c:67-86 | the loop writes or counts the decoded bytes, or stops with a full buffer holding their prefix |
| `Base32.Finish` | crypto/base32.c:87-88 | after the loop the bytes written are all the text's bytes, and the trailing-bits test passes exactly when the text is canonical |
| `Base32.Decode` | crypto/base32.c:61-90 | the result is -1 exactly when the buffer is too small or the bits after the last byte are not zero; otherwise it is the number of decoded bytes, which are written when there is a buffer |
| `Bip39.EntShape` | lib/bip39/bip39dec.c:27-38 | every accepted word count has whole bytes of entropy, one checksum bit per 32 entropy bits, and 11 bits per word |
| `Bip39.HashTop` | lib/bip39/bip39dec.c:68 | the shift of the hash byte gives its top checksum bits |
| `Bip39.MnemonicShape` | lib/bip39/bip39enc.c:54-57 | the mnemonic of 16 to 32 bytes of entropy has a valid word count, and its last word ends n/4 bits into the hash byte |
| `Bip39.MnemonicEntropy` | lib/bip39/bip39dec.c:22-70 | decoding the mnemonic of valid entropy gives the entropy back and passes the checksum test |
| `Bip39.EntropyMnemonic` | lib/bip39/bip39dec.c:68-69 | a word list passes the checksum test exactly when it is the mnemonic of the entropy it carries |
| `Bip39Dec.ShiftWord` | lib/bip39/bip39dec.c:48-49 | shifting a word into the 32-bit register appends its 11 bits |
| `Bip39Dec.TakeWordByte` | lib/bip39/bip39dec.c:51-52 | the byte written is the register's eight oldest bits |
| `Bip39Dec.FlushBytes` | lib/bip39/bip39dec.c:50-53 | the inner loop writes whole bytes until fewer than eight bits are pending or the entropy is complete, losing no bit |
| `Bip39Dec.DecodeWords` | lib/bip39/bip39dec.c:47-56 | after the word loop the buffer holds the entropy bytes and the register holds exactly the checksum bits |
| `Bip39Dec.DecodeEnd` | lib/bip39/bip39dec.c:55-69 | the bytes written are the entropy, and the C comparison with the hash decides the checksum test |
| `Bip39Dec.Decode` | lib/bip39/bip39dec.c:22-70 | an unsupported word count is unrecognized, and a buffer that is too small in 32-bit arithmetic is an overflow; otherwise the buffer holds the entropy, and the result is its length or a checksum error, as the checksum test decides |
| `Bip39Enc.TableCovered` | lib/bip39/bip39enc.c:54-57 | the table's entropy lengths never need more checksum bits than the hash byte holds |
| `Bip39Enc.CoversLen` | lib/bip39/bip39enc.c:54-57 | the encoder's condition is exactly that the checksum fits the hash byte |
| `Bip39Enc.Begin` | lib/bip39/bip39enc.c:21-33 | the encoder starts at bit 0 of the data with the hash's first byte |
| `Bip39Enc.RoomForWord` | lib/bip39/bip39enc.c:53-54 | a word started inside the data ends inside the hash byte |
| `Bip39Enc.TakeChecksum` | lib/bip39/bip39enc.c:54-58 | at the end of the data the rest of the word is the top of the hash byte |
| `Bip39Enc.TakePart` | lib/bip39/bip39enc.c:60-66 | a word that ends inside the current byte takes the wanted bits from it |
| `Bip39Enc.TakeRest` | lib/bip39/bip39enc.c:69-72 | otherwise the rest of the byte goes into the word and the next byte starts |
| `Bip39Enc.GatherStep` | lib/bip39/bip39enc.c:46-73 | one pass of the gathering loop either completes the word or takes more bits |
| `Bip39Enc.NextWord` | lib/bip39/bip39enc.c:36-77 | the result is -1 once the data is used up; otherwise it is the next 11 bits of the data followed by the hash byte, and the position advances by 11 or to the end of the data |
| `Bip39Enc.ProgressEnd` | lib/bip39/bip39enc.c:42-43 | when the data is used up, the words returned cover the data and the checksum bits exactly |
| `Bip39Enc.WordsCover` | lib/bip39/bip39enc.c:54-57 | whole words that reach past the data by fewer than 11 bits end exactly the checksum length past it |
| `Bip39Enc.Mnemonic` | lib/bip39/bip39enc.c:36-77 | calling bip39_next_word until it returns -1 yields the mnemonic of the data and its hash byte |
| `Bip39In.DigitChar` | lib/bip39/bip39in.c:65 | the key digit written for a key reads back as that key |
| `Bip39In.SetFrom` | lib/bip39/bip39in.c:81-85 | the set search finds the first key whose letters hold the character, or none |
| `Bip39In.SetOfUnique` | lib/bip39/bip39in.c:20-21 | a letter is on a key exactly when the search finds that key |
| `Bip39In.LettersCovered` | lib/bip39/bip39in.c:20-21 | the keys hold exactly the letters a to z |
| `Bip39In.Keys` | lib/bip39/bip39in.c:80-85 | a word's key string has one key digit per letter |
| `Bip39In.SpellsKeys` | lib/bip39/bip39in.c:35-44 | a word matches a key string exactly when the keys are those of its first letters |
| `Bip39In.SpellsOwnKeys` | lib/bip39/bip39in.c:35-44 | every word matches its own keys |
| `Bip39In.MatchList` | lib/bip39/bip39in.c:30-46 | the matches are exactly the matching words' indices, ascending |
| `Bip39In.Scan` | lib/bip39/bip39in.c:35-42 | the inner loop consumes every key exactly when the word matches |
| `Bip39In.NextKeyStep` | lib/bip39/bip39in.c:47-55 | the next-letter flags after a word are those before it plus the key of its next letter |
| `Bip39In.ListKeys` | lib/bip39/bip39in.c:58-69 | the next string lists exactly the flagged keys, ascending |
| `Bip39In.MarkNext` | lib/bip39/bip39in.c:47-55 | one word's step keeps the flags equal to the keys of letters that can follow among the words seen |
| `Bip39In.Match` | lib/bip39/bip39in.c:24-72 | the matches are exactly the indices of the words that match the keys, ascending, and their count is returned; when asked for, the next string lists the keys of the letters that can follow, ascending |
| `Bip39In.WordToSets` | lib/bip39/bip39in.c:75-91 | the result is -1 exactly when one of the first max_len letters is on no key; otherwise the output is the keys of those letters and the result is its length |
| `Span.ExtendCount` | db/span.c:27-38 | extending a span that ends at the freed range adds exactly the freed blocks |
| `Span.AddFromCount` | db/span.c:25-50 | the corrected walk of span_add adds every freed block once and changes nothing else |
| `Span.AddCount` | db/span.c:21-51 | after freeing a range, each of its blocks is held once more, no other block changes, and no span is empty |
| `Span.AddFromAsWrittenLoses` | db/span.c:40-43 | as written, span_add either agrees with the corrected version or loses blocks |
| `Span.AddAsWrittenExample` | db/span.c:40-50 | freeing blocks 8 and 9 in front of the span 10 to 14 leaves only blocks 8 and 9 listed |
| `Span.PullOneStep` | db/span.c:54-69 | taking one block from a non-empty first span removes exactly its first block |
| `Span.PullOneCount` | db/span.c:54-69 | span_pull_one returns -1 exactly when no block is free; otherwise the block was free and is now held once fewer, and nothing else changes |
| `Span.RoundUpLeast` | db/span.c:72-76 | round_up gives the least multiple of the modulus that is not below n |
| `Span.FitsHolds` | db/span.c:86-88 | the test of the search loop holds exactly when the span contains an aligned erase block |
| `Span.FirstFit` | db/span.c:84-90 | the search stops at the first span that holds an aligned erase block |
| `Span.EraseRestCount` | db/span.c:93-115 | what is left of the span is everything but the taken erase block, in non-empty spans |
| `Span.PullEraseShape` | db/span.c:91-116 | the erase block is taken from the first span that holds one, and that span is replaced by what is left of it |
| `Span.PullEraseFound` | db/span.c:84-92 | the result is -1 exactly when no span holds an aligned erase block; otherwise it is such a block in the first span that holds one |
| `Span.PullEraseStep` | db/span.c:93-116 | the taken block's blocks are held once fewer, nothing else changes, and no span becomes empty |
| `Span.PullEraseCount` | db/span.c:79-117 | taking an erase block removes exactly its blocks from the free list, or changes nothing when there is none |
| `Span.PullEraseAsWrittenRepeats` | db/span.c:94-97 | as written, the result differs from the corrected one exactly when the chosen span is one aligned erase block, and the next call then hands out the same block again |
| `Span.PullEraseAsWrittenExample` | db/span.c:95-97 | with the one span 0 to 3 and erase size 4, the block is taken but stays listed |
| `Db.Stored` | db/db.h:59 | a field keeps at most 255 bytes, the first bytes of its value, and the whole value when it fits |
| `Db.Above` | db/db.c:118-120 | add_field's anchor is the first field of a greater type |
| `Db.AddFieldSplice` | db/db.c:118-127 | add_field inserts the new field at that anchor and changes nothing else |
| `Db.AddFieldSorted` | db/db.c:112-129 | add_field keeps the field list sorted by type |
| `Db.AddFieldOf` | db/db.c:118-127 | the new field comes after every field of its own type, and other types' fields are unchanged |
| `Db.AtLeast` | db/db.c:149-151 | db_change_field's anchor is the first field whose type is at least the new one |
| `Db.ChangeFieldSplice` | db/db.c:149-163 | db_change_field replaces the field at the anchor when it has the type, and otherwise inserts there |
| `Db.ChangeFieldSorted` | db/db.c:149-163 | changing a field keeps the list sorted |
| `Db.ChangeFieldOther` | db/db.c:149-163 | changing a field leaves the fields of every other type unchanged |
| `Db.ChangeFieldSame` | db/db.c:152-163 | the first field of the type now holds the new value, and later fields of that type are kept |
| `Db.FindOf` | db/db.c:295-303 | db_field_find finds the first field of the type, or nothing when there is none |
| `Db.ChangeFieldFind` | db/db.c:132-163 | after a change, db_field_find returns the new value |
| `Db.LastNul` | db/db.c:169 | memrchr finds the last NUL, and none exactly when there is no NUL |
| `Db.FirstNul` | db/db.c:971 | memchr finds the first NUL, and none exactly when there is no NUL |
| `Db.SplitJoin` | db/db.c:968-997 | splitting an ID into directories and a name undoes joining them with NULs |
| `Db.SplitName` | db/db.c:169-181 | the name after the last NUL, as db_change_field takes it, is the name that process_payload reaches by walking the path |
| `Db.TlvItem` | db/db.c:922-937 | an item needs two header bytes and a type other than ft_end, and must end within the payload |
| `Db.ItemsRecord` | db/db.c:922-937 | a record written for a field reads back as that field |
| `Db.ItemsSerialize` | db/db.c:318-328 | reading back written records gives the fields, then whatever follows |
| `Db.ItemsZeros` | db/db.c:929-930 | the zero padding after the records ends the read |
| `Db.WriteEntry` | db/db.c:309-328 | write_entry succeeds exactly when the records fit in the payload buffer, and then writes them |
| `Db.AddAllSortedResult` | db/db.c:1022-1027 | adding the items one by one gives a sorted list |
| `Db.AddAllOf` | db/db.c:1022-1027 | the fields of each type are those already there, then the items of that type in payload order |
| `Db.AddAllSorted` | db/db.c:1022-1027 | items that are already sorted are kept as they are |
| `Db.NextSeq` | db/db.c:344 | the next sequence number is one more, modulo 2^16 |
| `Db.StaleDistance` | db/db.c:1008-1009 | a copy is skipped exactly when its number is at most half the sequence space behind and differs |
| `Db.StaleOrder` | db/db.c:1008-1009 | a copy never supersedes itself, and of two copies whose numbers are not half the space apart exactly one is skipped |
| `Db.NextSeqWins` | db/db.c:337-345 | the copy update_entry writes next supersedes the current one, across the 16-bit wrap too |
| `Db.WriteRead` | db/db.c:951-1029 | what write_entry stores, padded with zeros, is read back as the same entry: its path, its name, its number and its sorted fields |
| `Db.IsAccountAt` | db/db.c:781-798 | an entry is an account exactly when it has no children and its first field other than ID and prev is not ft_dir |
| `Db.FirstContentAt` | db/db.c:787-797 | the account test stops at the first field that is not an ID or prev |
| `Db.AccountNotDir` | db/db.c:770-798 | an entry with children is a directory and no account; an entry that is not a directory is an account exactly when it has a field other than ID and prev |
| `TSort.NameIndex` | db/db.c:537-542 | the link resolves to the first entry whose name equals the prev value, or to none |
| `TSort.Link` | db/db.c:533-542 | an entry's link is an entry or none |
| `TSort.Links` | db/db.c:528-545 | every entry gets one link, and each is an entry or none |
| `TSort.Release` | db/db.c:565-567 | placing an entry clears exactly the links to it |
| `TSort.Place` | db/db.c:562-568 | placing a free entry appends it to the order, marks it done, and keeps the sort's invariant |
| `TSort.FirstWaiting` | db/db.c:575-580 | the cycle breaker picks the first remaining entry that still waits on a link |
| `TSort.Advance` | db/db.c:561-568 | placing the entry visited keeps the pass's invariant and records progress |
| `TSort.Visit` | db/db.c:556-569 | visiting an entry keeps the pass's invariant |
| `TSort.Pass` | db/db.c:556-570 | a pass places every entry that is free at its turn; without progress nothing changes; when no entry had to wait, none remains |
| `TSort.AllPlaced` | db/db.c:582 | when no entry remains, the output holds as many entries as there are, as the assertion says |
| `TSort.Sort` | db/db.c:508-592 | the order is a permutation of the entries; each entry follows the one it links to, unless its link was dropped to break a cycle; the count is the number of entries; without links the order is unchanged |
| `DbCrypt.Init` | db/dbcrypt.c:323-342 | the context is our key pair, and we are its only reader |
| `DbCrypt.AddReader` | db/dbcrypt.c:345-359 | the new reader goes at the end of the list, with its key, and the rest is unchanged |
| `DbCrypt.FitsCount` | db/dbcrypt.c:151-157 | a layout that fits has at most 14 readers, so the count byte holds it |
| `DbCrypt.Encrypt` | db/dbcrypt.c:135-212 | an encrypted block is exactly one storage block |
| `DbCrypt.EntriesLayout` | db/dbcrypt.c:186-203 | the reader list has one slot per reader, each holding the reader's public key and the record key wrapped for it |
| `DbCrypt.EncryptLayout` | db/dbcrypt.c:147-203 | the block holds the writer's public key, the nonce, the reader count, the reader list, and then the sealed, zero-padded content up to the block's end |
| `DbCrypt.FindReader` | db/dbcrypt.c:250-258 | the search finds the first entry with our public key, or none |
| `DbCrypt.DecryptUsing` | db/dbcrypt.c:225-258 | decryption fails unless the reader list ends inside the block with room for the authenticator, and lists our key |
| `DbCrypt.EncryptedEntry` | db/dbcrypt.c:186-202 | entry j of an encrypted block holds reader j's key and the record key wrapped for it |
| `DbCrypt.DecryptEncrypted` | db/dbcrypt.c:262-307 | decrypting unwraps the record key of our first entry and opens the sealed part with it |
| `DbCrypt.DecryptEncrypt` | db/dbcrypt.c:218-317 | a reader listed by the writer decrypts the block to the content followed by its zero padding |
| `DbCrypt.DecryptAsWrittenOwn` | db/dbcrypt.c:268 | as written, the writer can still read its own blocks |
| `DbCrypt.DecryptAsWrittenExample` | db/dbcrypt.c:268 | as written, a second reader cannot open a block that the corrected decryption opens for it |
| `Pin.ShiftDigit` | db/pin.c:32 | one step shifts the code up a nibble in 32 bits and adds the digit |
| `Pin.PinEncodeDigits` | db/pin.c:27-36 | a PIN of up to eight digits is encoded as its digits in the low nibbles, under all-ones padding |
| `Pin.PinDecodeEncode` | db/pin.c:27-36 | decoding undoes pin_encode on PINs of up to eight digits |
| `Pin.PinEncodeDecode` | db/pin.c:27-36 | every code that decodes is the encoding of the PIN it decodes to |
| `Pin.PinEncodeInjective` | db/pin.c:27-36 | different PINs of up to eight digits get different codes |
| `Pin.DummyPinIs1234` | db/pin.c:16 | the default secret is the code of "1234" |
| `Pin.PinWaitAsWrittenExample` | db/pin.h:26-29 | as written, the wait after the ninth failure is 3840 s, longer than the maximum and longer than after the tenth |
| `Pin.PinWaitAsWrittenBounded` | db/pin.h:20-29 | as written, the wait is zero exactly for the free attempts and never exceeds 3840 s |
| `Pin.PinWaitSteps` | db/pin.h:20-29 | the corrected wait is zero exactly for the free attempts and 60 s at the first paid one; it doubles from one failure to the next until it reaches the maximum |
| `Pin.PinWaitBounded` | db/pin.h:23-29 | the corrected wait never exceeds the maximum |
| `Pin.PinWaitMonotone` | db/pin.h:26-29 | with the corrected wait, more failures never mean a shorter wait |
| `Pin.Revalidate` | db/pin.c:39-52 | a PIN is accepted exactly when it is the secret, and then clears the failures and the cooldown; a refusal counts one more failure, modulo 2^32, and leaves the cooldown alone while the failures are still free; this holds for both waits; `Pin.RevalidateLocks` states the cooldown after a paid failure |
| `Pin.CooldownMs` | db/pin.c:62-67 | the remaining cooldown is zero exactly when its end has passed, and otherwise reaches its end |
| `Pin.RevalidateClears` | db/pin.c:42-45 | after a correct PIN there is no cooldown at any time |
| `Pin.RevalidateLocks` | db/pin.c:46-50 | after a paid failure, the cooldown lasts exactly the wait for that many failures, PIN_WAIT_S as written or the corrected wait, when the clock does not wrap |
| `Pin.RevalidateAsWrittenExample` | db/pin.c:46-50 | as written, a wrong PIN after eight failures at time 0 locks until 3 840 000 ms; the corrected wait locks until 3 600 000 ms |
| `Pin.Change` | db/pin.c:70-78 | a change succeeds exactly when the old PIN is right and the new one differs; the old PIN is checked as pin_revalidate does, with the same wait |
| `Pin.ChangeThenValidate` | db/pin.c:70-78 | after a change the new PIN is accepted and the old one is refused |
| `Fmt.FixedRender` | lib/fmt.c:54-59 | filling exactly as many places as v has digits gives v's rendering |
| `Fmt.DigitRoundTrip` | lib/fmt.c:66 | every digit of the alphabet below the base reads back as its value |
| `Fmt.ParseRender` | lib/fmt.c:35-61 | the rendered digits read back as the number |
| `Fmt.ParsePad` | lib/fmt.c:50-53 | leading zeros do not change the value |
| `Fmt.RenderLength` | lib/fmt.c:42-47 | the digit count is the fewest digits that can hold v, one for zero |
| `Fmt.CountBound` | lib/fmt.c:38-47 | a 64-bit number has at most 64 digits, so the uint8_t count cannot wrap |
| `Fmt.CountDigits` | lib/fmt.c:42-47 | the counting loop gives the number of digits of v |
| `Fmt.Pad` | lib/fmt.c:50-53 | the padding loop writes one '0' for each place the width exceeds the digits |
| `Fmt.FillDigits` | lib/fmt.c:54-59 | the digit loop writes v's digits from the right |
| `Fmt.PrintNumber` | lib/fmt.c:64-67 | print_number writes v in the base, zero-padded to the width and ended by a NUL; the result is the longer of the width and the digit count, and the text reads back as v |
| `IMath.RootUnique` | lib/imath.c:22-44 | a number has only one integer square root |
| `IMath.StartDigit` | lib/imath.c:28-31 | the starting test value is at most n, zero only when n is zero, and otherwise more than a quarter of n; it is the square of half a power of two above the root, so the loop invariant holds with an empty root |
| `IMath.Step` | lib/imath.c:35-41 | one root bit is set exactly when the remainder covers the growth of the square, and c + d cannot wrap |
| `IMath.SumFits` | lib/imath.c:35 | c + d stays below 2^32 |
| `IMath.RootBit` | lib/imath.c:34-41 | one pass of the loop keeps the invariant, quarters the test value and never increases the remainder |
| `IMath.Finish` | lib/imath.c:43 | when the test value reaches zero, c is the root |
| `IMath.ISqrt` | lib/imath.c:22-44 | isqrt returns the largest c with c * c <= n |
| `Accenc.Utf8Char` | tools/accenc.py:30 | a character takes one to four UTF-8 bytes, and one exactly when it is ASCII |
| `Accenc.Utf8Length` | tools/accenc.py:30 | UTF-8 has at least one byte per character, and exactly one each when the text is ASCII |
| `Accenc.EncodeField` | tools/accenc.py:27-36 | a field is written as its code, its length and its value, and fails exactly when the key is unknown, the value is refused, or the value is too long for the length byte |
| `Accenc.KeysKnown` | tools/accenc.py:23-24 | the key tuple holds exactly the keys the encoder knows |
| `Accenc.CounterBytes` | tools/accenc.py:34-35 | a counter is written as eight little-endian bytes that read back as its value |
| `Accenc.EncodeAsWrittenAscii` | tools/accenc.py:28-30 | the as-written text field agrees with the corrected one exactly when the text is ASCII |
| `Accenc.EncodeAsWrittenExample` | tools/accenc.py:30 | a user name "é" is written with length 1, and the device reads back one byte of it |
| `Accenc.EncodeWithAscii` | tools/accenc.py:27-36 | when every text is ASCII, the script's character-counted field is the byte-counted one |
| `Accenc.Values` | tools/accenc.py:53-55 | a value exists for a key of the tuple exactly when the record has the key |
| `Accenc.FieldsWritable` | tools/accenc.py:50-56 | the fields can be written: no ft_end, and values the length byte holds |
| `Accenc.FieldsShape` | tools/accenc.py:50-56 | the fields come in increasing code order, each for a key the record has |
| `Accenc.FieldsCover` | tools/accenc.py:50-56 | every key of the tuple the record has gets its field |
| `Accenc.FieldsKeys` | tools/accenc.py:50-56 | the fields are exactly one for each key of the tuple that the record holds |
| `Accenc.PayloadAscii` | tools/accenc.py:50-56 | a record whose texts are all ASCII gets the same payload from the script as from the corrected encoder |
| `Accenc.PayloadFields` | tools/accenc.py:50-56 | the corrected variant: the payload with byte-counted lengths is the device's serialisation of the fields, and fails with the same error |
| `Accenc.PayloadReadBack` | tools/accenc.py:57-60 | the corrected variant: the device reads the zero-padded payload with byte-counted lengths back as the record's fields, sorted by type |
| `Accenc.BlockLayout` | tools/accenc.py:57-60 | a block holds the nonce, its padding, the block header, the payload, zeros, and then the hash filler; it has exactly the block size when the payload fits |
| `Accenc.BlocksFromFit` | tools/accenc.py:50-60 | when every payload fits, each record gets exactly one block, in order |
| `Accenc.ImageSize` | tools/accenc.py:50-61 | with at most 2048 fitting records, the image is exactly the storage: the records' blocks, then 0xff filler |
| `Accenc.ImageOversized` | tools/accenc.py:59 | a payload over 956 bytes makes a block longer than 1024 bytes |
| `Accenc.ImageTooMany` | tools/accenc.py:61 | with more than 2048 records no filler is written, and the image is longer than the storage |
| `Accenc.ImageAscii` | tools/accenc.py:50-61 | a database whose texts are all ASCII gets the same image from the script as from the corrected encoder |
| `Accenc.FirstBadNone` | tools/accenc.py:59 | the capacity check finds nothing exactly when every payload fits |
| `Accenc.CheckedImageSize` | tools/accenc.py:50-61 | the checked image is refused exactly when the records do not fit the storage; otherwise it is the storage image with the records' blocks in order |

## Left out

- I/O and the host environment: reading and writing files and stdout, the
  JSON parser, `os.urandom` (nonces are a parameter), `base64.b32decode`
  and `int()` (parameters of `Accenc.Env`).
- Cryptography: SHA-256, HMAC-SHA-1 and NaCl are function parameters.
  `DbCrypt.Sound` states only the properties that the round trip needs.
  `rnd_bytes` is replaced by a caller-chosen nonce and record key.
- The English word list of BIP39 is a parameter.
- `lib/bip39/bip39.c` repeats the encoder of `bip39enc.c` with words for
  indices. It is not modelled separately.
- `pin_validate` only calls `pin_revalidate`.
- `pin_shuffle_pad` draws random numbers.
- `vformat`, `format` and the string helpers of `lib/fmt.c` are left out.
  They are varargs formatting for output only; `print_number` is modelled.
- `isin` in `lib/imath.c` is a table lookup of sines for graphics.
- `timer_init` only zeroes the record, which `Cancel` models as unlinking.
- Callbacks run by `timer_flush` and `timer_tick` are not modelled. They may
  re-enter the timer code, so the model only records which timers fire, in
  which order.
- `rmt_poll` always returns 1.
- The USB stack calling `rmt_query` and `rmt_arrival` from an interrupt is
  modelled as interleaved calls. Real concurrency is not modelled.
- The `db` directory tree is left out: virtual directory entries,
  `db_move_*`, `db_rename`, `db_delete_*` and flash block allocation.
  Of `db.c` only the field lists, payload encoding and parsing,
  sequence numbers, `db_tsort` and the account and directory tests are
  modelled.
- `ft_dir` is used by `db.c` but missing from the enumeration in `db.h`.
  The model gives it the value 11, and no property depends on that value.
- `Timer.Set`: the due time wraps modulo 2^32 as in the code.
  `Timer.SetNearWrapFiresEarly` shows the consequence. No corrected variant
  is given, because the fix needs a different clock comparison throughout.
- `Span.PullOneCount` requires spans that are not empty. The code would wrap
  the length of an empty span, but its own lists never hold one.
- `Bip39In.Match`: the assertions on the size of `next` are left to the
  caller. The model returns the string without a size bound.
- `Base32.Decode` requires every character to be in the alphabet or
  skipped. For any other character `strchr` returns NULL and the code
  computes with an invalid pointer.
- `Mbox.Valid`: `MBOX_INIT_BUF` in `mbox.h` starts a box with length 0
  instead of -1. The model starts boxes through `Init`.
- `TSort.Sort` does not prove that no link is dropped when the links have
  no cycle. It proves the permutation, and the order for every link that
  is kept.
- `Fmt.PrintNumber` requires a base from 2 to 16. The code divides by
  zero for base 0, never ends for base 1 (lib/fmt.c:45) and reads past its
  digit alphabet above 16. Its callers use bases 10 and 16 only.
- `Bip39Enc.Mnemonic` and `Bip39Enc.Begin` require data whose last word
  needs at most eight bits of the hash byte (`ChecksumCovers`). For other
  lengths the code shifts by a negative amount (lib/bip39/bip39enc.c:56).
  Its one caller (ui/ui_show_master.c:121) passes the 32-byte master
  secret, whose last word takes eight hash bits.
- `Accenc.PayloadFields` and `Accenc.PayloadReadBack` are proved for the
  corrected, byte-counted payload only. The script's payload differs
  whenever a text is not ASCII, as `Accenc.EncodeAsWrittenExample` shows;
  `Accenc.PayloadAscii` ties the two together otherwise.
- `Rmt.Arrival` requires that the reset callback leaves the link outside
  the response state, as the code's assertion demands. The case where
  the assertion fails is left out.

## Findings

| source | as written | input that shows it | evidently intended | confidence | as-written member | corrected member |
|---|---|---|---|---|---|---|
| db/span.c:40-43 | when the freed range ends where a span starts, the span is extended downward, but `break` then falls into the code that replaces the list tail with a new span of just the freed range | spans [10..14], free 8 with size 2: the list becomes [8..9], and blocks 10 to 14 are lost | return after extending the span | high, not executed | `Span.AddFromAsWrittenLoses` | `Span.AddCount` |
| db/span.c:95-97 | when the chosen span is exactly one aligned erase block, `*spans = this` leaves it linked and then frees it | spans [0..3], erase size 4: block 0 is handed out and stays listed, so the next call hands it out again | `*spans = this->next` | high, not executed | `Span.PullEraseAsWrittenRepeats` | `Span.PullEraseCount` |
| tools/accenc.py:30 | the length byte is `len(v)`, the number of characters, but the bytes written are UTF-8 | user "é": length 1 followed by 2 bytes, so the device reads a one-byte name and then parses 0xA9 as a field type | `len(v.encode())` | high, not executed | `Accenc.EncodeAsWrittenExample` | `Accenc.EncodeField` |
| tools/accenc.py:59-61 | no capacity check: a payload over 956 bytes makes the zero fill negative and the block too long; more than 2048 records make the filler count negative | one record with a 1000-byte payload: the block has 1068 bytes, and every later block is misplaced | refuse payloads over 956 bytes and more than 2048 records | high, not executed | `Accenc.ImageOversized` | `Accenc.CheckedImageSize` |
| db/dbcrypt.c:268 | the shared key is derived from `b`, the public key in our own reader entry, not from the writer's public key at the start of the block | writer w lists itself and reader r: r derives beforenm(pk_r, sk_r) while w wrapped with beforenm(pk_r, sk_w), so r cannot open the block | `crypto_box_beforenm(shared, wpk, c->sk)` | medium, not executed | `DbCrypt.DecryptAsWrittenExample` | `DbCrypt.DecryptEncrypt` |
| db/pin.h:26-29 | the shift applies up to attempts = 3 + PIN_WAIT_LOG2, where 60 << 6 = 3840 exceeds PIN_WAIT_MAX_S | 9 failures wait 3840 s, and 10 failures wait 3600 s | cap at PIN_WAIT_MAX_S: use `>=` in the second test, or take the minimum | high, not executed | `Pin.RevalidateAsWrittenExample` | `Pin.PinWaitMonotone` |
| sys/mbox.c:78-79 | a disabled mailbox makes `mbox_retrieve` return 0, while `mbox.h` promises a negative number when no operation was performed | after `rmt_close` in the idle state, `rmt_request` gets 0, takes it for the end-of-request block and moves to the response state | return -1 | high, not executed | `Rmt.ClosedRequestAsWritten` | `Rmt.CloseIdle` |
