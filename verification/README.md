# A verified model of two

`two` is a single-threaded HTTP/2 server in C for constrained devices. This project models its four
cores and proves what they are for:

- **HPACK** (RFC 7541): prefix integers, the canonical Huffman code and its string codec, the dynamic
  table in a circular byte buffer, the block encoder and decoder. Main results: the table refines a FIFO
  of entries over every run, the Huffman string codec and the block codec round-trip, and an encoder and a
  decoder stay in lockstep over every run of header lists and size updates. What the two sides mean on the
  wire is fixed octet by octet: both appendices of RFC 7541, every representation of its section 6, the one
  that is written for a header, and its examples.
- **The HTTP/2 connection** (RFC 7540): every handler of `src/http2.c` as a step on a connection with a log
  of what it did. Main results, over every run of events: conservation of both flow-control windows by what
  the peer's frames grant, the life of a stream, reassembly of header blocks, responses whose DATA is their
  body and whose last octet ends the stream; and, for every way of cutting the incoming bytes into reads,
  delivery of exactly the frames that were sent, up to a whole exchange after which the next request arrives.
- **The event layer**: the write queue, the intrusive linked lists, and the static pools of sockets, events
  and write operations, with callbacks that may call back into the loop. Main result: over every pass of the
  loop the bytes in the write rings are those that the queued operations of the pool have still to send. A
  walk over the timers passes none over, whatever the callbacks do to the lists it walks.
- **Byte containers**: the ring buffer as a bounded FIFO, the packed header list as a list of pairs.

Sizes (tables, buffers, pools) are parameters throughout. Code that changes memory in place is modelled by
classes and arrays (`HeaderTable`, `RingBuffer`, `HeaderList`, `Http2Context`, `WriteQueue`, `LinkedList`,
`EventLoop`), each method proved against a function on values; the theorems are about those functions.
`dafny verify dfyconfig.toml` checks everything.

Where the code and what is written about it disagree, the model follows the code:

- `hpack_tables_dynamic_compare_string` is documented as equality but never looks at the stored terminator;
  `TableSearch` states exactly when the searches are searches by equality, and `HpackLockstep` when a
  header survives.
- An entry larger than the dynamic table leaves it unchanged, where section 4.4 of RFC 7541 empties it.
- Decoded headers with an empty value are dropped (`HpackLockstep.Visible`), and the others go through
  `header_list_add`, which joins a header with a stored one whose name it begins with (`HpackDelivery`).
- The encoder compares each string with the whole buffer, wherever in it the string is written, writes the
  Huffman form before it decides for the plain one, and adds up return codes without looking at them.
  Memory is a map from positions to octets there (`Stores`), so that writes outside of the buffer are
  modelled, and `HpackEncoder.EncodeHeaders` says exactly when there are none.
- The Huffman decoder takes a last code that is cut short for its symbol when ones complete it, and counts
  the bits left in eight bits, so that it takes 256 bits of padding (`HuffmanExact`).
- A decoded string of exactly the size of its buffer is left without a terminator and measured with strlen all the
  same, unless the header is dropped, and a Huffman-coded one is counted only after each character is stored: memory
  behind the buffer is read or written (`HpackSizes`; two blocks that do it are in `HpackInstance`). The model stops
  there with the error Overrun.
- In the event API a read callback that was set to NULL is called when its ring has ended and the reader stops only
  then (`Http2Context.HandleRead`); the server's connection never gets there (`ReadEnd`).
- Once a stream has had trailers, later header blocks of the connection are not stored
  (`Http2Runs.BlocksLostAfterTrailers`).
- `http2_close_gracefully` clears the flags that say which ends are awaited, and a completed write or a
  WINDOW_UPDATE can send a header block back as DATA (`Http2Steps`, `Http2Limits`).
- The position in the stream's buffer is not set back for a response, so that a response lacks as many octets at its
  front as DATA went out on its stream before (`Http2Response.SkippedResponse`, `Http2Limits.CreditCutsResponse`).
- A SETTINGS frame without a known setting is not acknowledged (`Http2Octets.EmptySettingsOctets`).
- An integer of five continuation octets wraps around in 32 bits and is taken for a small one
  (`PrefixInt.LargeIntegerWraps`).
- A close callback that accepts a connection on the socket being closed can lose a write operation
  (`EventCalls`).
- A WINDOW_UPDATE that leaves a stream window negative is refused, one for an older stream is credited to
  the current one, CONTINUATION frames are not checked for their stream identifier.
- `header_list_add` compares only as much of a name as the stored one is long, and can lose a pair.
- A frame of at most the read buffer's size whose header does not fit beside it is neither handled nor
  refused (`ReceivePath.TakenIffFits`).

## Model

| member | source | states |
|---|---|---|
| PrefixInt.Log128 | src/hpack/utils.c:16-29 | for every argument up to 2^28 the result is the largest k with 128^k at most x; for 0 it is 2^32 - 1 |
| PrefixInt.EncodedSize | src/hpack/utils.c:91-103 | the size computed by cases is the number of octets the encoder writes, and 2 + floor(log128(n - p)) above the prefix maximum p |
| PrefixInt.EncodeInteger | src/hpack/encoder.c:87-120 | refuses exactly the integers above the limit, otherwise writes the octets of section 5.1 of RFC 7541 |
| PrefixInt.DecodeInteger | src/hpack/decoder.c:20-62 | the loop with 32-bit accumulation computes the recursive decoding, errors included |
| PrefixInt.RoundTrip | src/hpack/decoder.c:20-62 | for every prefix, integer up to the limit, preamble or-ed into the first octet and bytes that follow, decoding returns the integer |
| PrefixInt.DecodeIsExact | src/hpack/decoder.c:20-62 | for any octets, minimal or not: the low bits of the first one; or, when they are all set, those plus what the octets up to the first below 128 spell, as a 32-bit integer, refused exactly above 4096 |
| PrefixInt.LargeIntegerWraps | src/hpack/decoder.c:43-57 | FF 81 FE FF FF 0F spells 2^32 and is read as 0 |
| BitStream.PackWords | src/hpack/encoder.c:24-73 | succeeds exactly when the words fit; then the buffer holds their bits end to end, padded with ones and nothing else, otherwise it is unchanged |
| BitStream.PackRoundTrip | src/hpack/encoder.c:24-73 | packing whole bytes and reading their bits back is the identity |
| BitStream.RequiredBytes | src/hpack/encoder.c:31-38 | the bytes needed are the total number of bits rounded up |
| BitStream.ReadBits | src/hpack/decoder.c:76-112 | reading across byte boundaries returns the value of exactly those bits |
| HuffmanTables.Inverses | src/hpack/huffman.c:14-65 | L and L_inverse are inverse permutations of the 256 symbols; which symbol has which code is AppendixB.CodesAreAppendixB |
| HpackCode.HpackIsCanonical | src/hpack/huffman.c:14-65 | the tables L, F and C form a canonical code in which only the word of thirty ones is unused; AppendixB has the codes themselves |
| AppendixB.CodesAreAppendixB | src/hpack/huffman.c:14-65 | the code and the length of each of the 256 symbols are those of Appendix B of RFC 7541 |
| AppendixB.LeavesAscend | src/hpack/huffman.c:14-65 | within every length the symbols ascend with their codes |
| HuffmanExamples.WwwExampleCom | src/hpack/encoder.c:193-234 | www.example.com is coded as f1e3c2e5f23a6ba0ab90f4ff, as in Appendix C.4.1 of RFC 7541 |
| HuffmanExamples.NoCache | src/hpack/encoder.c:193-234 | no-cache as in Appendix C.4.2 |
| HuffmanExamples.CustomKey | src/hpack/encoder.c:193-234 | custom-key as in Appendix C.4.3 |
| HuffmanExamples.CustomValue | src/hpack/encoder.c:193-234 | custom-value as in Appendix C.4.3 |
| HuffmanExamples.Status302 | src/hpack/encoder.c:193-234 | 302 as in Appendix C.6.1 |
| HuffmanExamples.Private | src/hpack/encoder.c:193-234 | private as in Appendix C.6.1 |
| HuffmanExamples.Date | src/hpack/encoder.c:193-234 | its date |
| HuffmanExamples.Location | src/hpack/encoder.c:193-234 | its location |
| HuffmanExamples.Status307 | src/hpack/encoder.c:193-234 | 307 as in Appendix C.6.2 |
| HuffmanExamples.LaterDate | src/hpack/encoder.c:193-234 | the date of Appendix C.6.3 |
| HuffmanExamples.Gzip | src/hpack/encoder.c:193-234 | its gzip |
| HuffmanExamples.Cookie | src/hpack/encoder.c:193-234 | its cookie of 56 characters, in 45 octets |
| Huffman.CodeInterval | src/hpack/huffman.c:67-87 | the words that begin with the code of a symbol fill an interval of their own, ordered by length |
| Huffman.PrefixFree | src/hpack/huffman.c:67-110 | whatever bits follow, at most one symbol's code begins a word |
| Huffman.LookupExact | src/hpack/huffman.c:89-110 | decoding finds a symbol if and only if its code begins the word, and nothing exactly for EOS |
| Huffman.EncodeSymbol | src/hpack/huffman.c:67-87 | the loop over lengths returns the canonical code and its length |
| Huffman.DecodeSymbol | src/hpack/huffman.c:89-110 | the loop over lengths computes the lookup |
| HuffmanString.EncodeWords | src/hpack/encoder.c:170-182 | the words of a string, joined, are the codes of its symbols, with their total length |
| HuffmanString.EncodeText | src/hpack/encoder.c:193-234 | the bytes are the codes of the symbols end to end, filled up with ones |
| HuffmanString.CheckPadding | src/hpack/decoder.c:126-155 | accepts exactly fewer than eight bits that are all ones |
| HuffmanString.DecodeWord | src/hpack/decoder.c:175-215 | one step of decoding at any bit position, with ones standing for bits past the end and the 8-bit count of bits left |
| HuffmanString.DecodeText | src/hpack/decoder.c:231-255 | the loop computes the decoding of the whole string, with its limit and errors, and stores one character more than the limit before it notices |
| HuffmanString.HuffmanRoundTrip | src/hpack/decoder.c:175-255 | every string within the limit is decoded from its coding, stopping exactly at the padding |
| HuffmanExact.DecodesIff | src/hpack/decoder.c:175-255 | for all bytes: they decode to a text if and only if they are its codes up to an end, or up to a last code cut short after five bits or more that ones complete, within the limit |
| HuffmanExact.EndStepIff | src/hpack/decoder.c:126-215 | decoding ends if and only if fewer than eight ones are left, or, 256 bits or more from the end, thirty ones follow and the residue of the 8-bit count finds its ones |
| HuffmanExact.SymbolStepIff | src/hpack/decoder.c:175-215 | a symbol comes out if and only if five bits are left and its code begins what is left, filled up with ones |
| HuffmanExact.EndsIsPadding | src/hpack/decoder.c:126-155 | within the last 255 bits exactly fewer than eight ones end a string |
| HuffmanExact.LongPaddingPasses | src/hpack/decoder.c:175-215 | 32 octets of ones are taken for the empty text |
| HpackCode.OneOctetDecodes | src/hpack/decoder.c:175-255 | the octet FE decodes to a closing parenthesis, whose own coding has two octets |
| Eos.CheckEosSymbol | src/hpack/decoder.c:612-631 | accepts if and only if no thirty consecutive bits at any bit offset are all ones |
| Eos.CodedTextIsEosFree | src/hpack/encoder.c:193-234 | codes of at most 27 bits end to end, with padding, never hold thirty ones in a row |
| Eos.PlainTextIsEosFree | src/hpack/encoder.c:131-156 | bytes below 128 never hold thirty ones in a row |
| EosRuns.CodedIsEosFreeIff | src/hpack/huffman.c:67-87 | codes end to end and padding are free of EOS if and only if, at the end of every code, the ones it ends with and those that follow are fewer than thirty |
| EosRuns.HuffmanBytesEosFreeIff | src/hpack/encoder.c:193-234 | the same for the bytes the encoder emits, padding included |
| EosRuns.EmittedPassesEosCheckIff | src/hpack/decoder.c:641-681 | for strings of any length: what the encoder emits in Huffman form passes the decoder's check if and only if every such run, as far as it lies in the part that the 8-bit length leaves to scan, is shorter than thirty; below 256 octets that is all of it |
| HpackCode.PrintablePassesEosScan | src/hpack/decoder.c:641-681 | for every printable string neither its Huffman coding nor its raw form is rejected by the scan |
| HpackCode.NineNewlineFails | src/hpack/decoder.c:612-681 | every Huffman-coded string with a 9 before a line feed is rejected, unless the scan of a long one ends before the thirtieth one of the run |
| HpackCode.NewlineFailsEosScan | src/hpack/encoder.c:247-259 | twelve zeros, a 9 and a line feed are emitted in Huffman form, as 13 octets for 14 characters, and rejected |
| TableSpec.EvictIsMinimal | src/hpack/tables.c:491-493 | eviction keeps the longest run of newest entries that fits, so the fewest oldest entries go |
| TableSpec.AddKeepsMost | src/hpack/tables.c:480-515 | a new entry of name, value and 32 octets goes behind as many of the newest entries as leave room for it; one larger than the table changes nothing |
| TableSpec.ResizeKeepsMost | src/hpack/tables.c:378-464 | a size within the limit is taken over with as many of the newest entries as fit, a larger one changes nothing |
| TableRuns.RunIsFifo | src/hpack/tables.c:480-515 | over every run of insertions, removals and changes of size or limit from an empty table, sizes stay within the maximum and index 61 + k is the k-th newest entry taken up |
| TableRuns.PerformAll | src/hpack/tables.c:236-515 | the circular buffer goes through a whole run exactly as the queue of entries does |
| TableRuns.LookUpAfterRun | src/hpack/tables.c:531-560 | a table object, made and changed in any way, answers index 61 + k with the k-th newest entry that was taken up, and refuses exactly the indices beyond those it holds |
| TableLayout.ScanStep | src/hpack/tables.c:85-110 | scanning back, separators are met exactly at the ends of strings, so counting them tells the entry |
| TableLayout.MatchAt | src/hpack/tables.c:634-647 | from the start of an entry the byte comparisons decide the match, also where the name runs on into the value |
| HeaderTable.DynamicTable.constructor | src/hpack/tables.c:728-739 | an empty table with the given maximum |
| HeaderTable.DynamicTable.Pop | src/hpack/tables.c:236-271 | removes exactly the oldest entry, fails exactly on an empty table |
| HeaderTable.DynamicTable.CopyFromExt | src/hpack/tables.c:197-222 | stores a string between separators going round the buffer and touches no other byte |
| HeaderTable.DynamicTable.AddEntry | src/hpack/tables.c:480-515 | refines the FIFO insertion with eviction; fails exactly for an entry larger than the table, which is then unchanged |
| HeaderTable.Compact | src/hpack/tables.c:392-460 | in each of the three layouts the stored bytes end up, in order, at the start of the buffer |
| HeaderTable.RotateByHead | src/hpack/tables.c:400-422 | wrapped with a short head: both parts end up joined at the start |
| HeaderTable.RotateByTail | src/hpack/tables.c:424-445 | wrapped with a short tail: both parts end up joined at the start |
| HeaderTable.DynamicTable.ResizeTo | src/hpack/tables.c:378-464 | the newest entries that fit survive in order, first is 0, next is below the new maximum of a non-empty table; refused exactly above the limit |
| HeaderTable.DynamicTable.ChangeMaxSize | src/hpack/hpack.c:89-102 | the peer's setting becomes limit and size when the buffer can hold it |
| HeaderTable.DynamicTable.PosOfIndex | src/hpack/tables.c:85-110 | the position found for an index is the start of that entry |
| HeaderTable.DynamicTable.CopyToExt | src/hpack/tables.c:126-148 | copies exactly one stored string and tells where the next begins |
| HeaderTable.DynamicTable.FindEntry | src/hpack/tables.c:531-560 | every existing index yields its entry, static first and then newest first; any other is refused |
| HeaderTable.DynamicTable.FindEntryName | src/hpack/tables.c:573-593 | the same for the name alone |
| HeaderTable.DynamicTable.CompareString | src/hpack/tables.c:165-181 | succeeds exactly when the stored bytes begin with the text |
| HeaderTable.StaticSearch | src/hpack/tables.c:613-623 | the loop over one entry more than there are is the linear search of the static list |
| HeaderTable.DynamicTable.FindIndex | src/hpack/tables.c:606-658 | the backward scan with its separator count finds the first static match, else the newest dynamic one |
| HeaderTable.DynamicTable.FindIndexName | src/hpack/tables.c:671-716 | the same for the name alone |
| TableSearch.FindIndexIsExactIff | src/hpack/tables.c:606-658 | the search equals search by equality if and only if the static list has the query or every clashing entry lies behind a newer equal one |
| TableSearch.FindIndexNameIsExactIff | src/hpack/tables.c:671-716 | the same for the name alone |
| TableSearch.SearchIsExact | src/hpack/tables.c:606-716 | where no stored string properly extends the query both searches are searches by equality |
| TableSearch.SearchTakesPrefix | src/hpack/tables.c:165-181 | for any static list without the query, a stored value is found for every value it properly extends |
| TableSearch.SeparatorsFitInEightBits | src/hpack/tables.c:627-654 | with non-empty names and at most 4096 bytes the 8-bit separator count cannot overflow |
| HpackChoices.SearchFinds | src/hpack/tables.c:606-716 | where no stored string properly begins with the queried one, the searches give the lowest index of the header, or of its name, and 0 exactly if there is none |
| HpackChoices.WritesBest | src/hpack/encoder.c:271-388 | what is written for a header: an indexed field if the tables hold it; else a literal, with the lowest index of its name if there is one, with incremental indexing exactly if the entry is no larger than the table and never indexed otherwise, each string in Huffman form exactly if that is no longer |
| HpackChoices.BestExists | src/hpack/encoder.c:271-317 | every header has such a representation |
| HpackWrites.FirstRequestWritten | src/hpack/encoder.c:402-434 | the first request of Appendix C.4 of RFC 7541 is encoded to its octets |
| HpackWrites.SecondRequestWritten | src/hpack/encoder.c:402-434 | the second one, with the host from the dynamic table |
| HpackWrites.ThirdRequestWritten | src/hpack/encoder.c:402-434 | the third one, with a new name |
| HpackString.ParseStringCode | src/hpack/decoder.c:462-561 | a string literal, whatever follows, is parsed to its payload and consumed exactly |
| HpackString.DecodePayload | src/hpack/decoder.c:294-306 | the payload of a string that fits decodes to the string |
| HpackEncoder.EncodeMarked | src/hpack/encoder.c:330-388 | an integer with its preamble, refused exactly above the limit |
| HpackEncoder.EncodeHuffmanString | src/hpack/encoder.c:193-234 | fails exactly when coding or buffer is too long, otherwise the coded literal is there; in every case exactly which octets were stored |
| HpackEncoder.EncodePlainString | src/hpack/encoder.c:131-156 | the same for the plain form, with its return code |
| HpackEncoder.EncodeString | src/hpack/encoder.c:247-259 | the return code, the literal where it fits, and the octets stored: those of the Huffman form, kept or discarded, and of the plain form over it |
| HpackEncoder.PackHeader | src/hpack/encoder.c:271-317 | the indices found and whether the header is stored, with the table brought up to date |
| HpackEncoder.EncodeHeader | src/hpack/encoder.c:330-388 | at any place in memory: the return code, the bytes of the field representation exactly when its strings fit the whole buffer, exactly which octets were stored, and nothing else changed |
| HpackEncoder.EncodeHeaders | src/hpack/encoder.c:402-434 | for any headers, also those that fail: every octet is stored inside the buffer if and only if the extent of the block lies in it; the result is the sum of the return codes; and where all strings fit the block is there, one field behind the other |
| HpackEncoder.FittingBlock | src/hpack/encoder.c:402-434 | when all strings fit, the fields lie one behind the other from the start, the result is the size of the block, and the extent is at least that |
| HpackEncoder.AttemptOverruns | src/hpack/encoder.c:247-259 | a block of five octets in a buffer of five: the discarded Huffman form of its value reaches the sixth |
| HpackInstance.ServerOverruns | src/hpack/encoder.c:247-259 | with the server's tables that is x: ~ |
| HpackEncoder.HeaderOverflows | src/hpack/encoder.c:347-364 | a header of one character each passes every check against a buffer of three octets and takes five |
| HpackEncoder.EncodeSizeUpdate | src/hpack/encoder.c:447-475 | resizes and announces the same size, refused exactly above the limit |
| HpackDecoder.ParseEncodedHeader | src/hpack/decoder.c:462-561 | the parser computes the field and how many bytes it took, or the error; what it makes of every representation is HpackFields.ParseOctets |
| HpackDecoder.CheckErrors | src/hpack/decoder.c:641-681 | refuses exactly an indexed field with index 0 and a literal whose new strings hold EOS within the length as cut to eight bits |
| HpackDecoder.DecodeStringInto | src/hpack/decoder.c:231-306 | what is left in a buffer of the given size: a C string, characters without a terminator, a character behind its end, or an error |
| HpackDecoder.DecodeLiteral | src/hpack/decoder.c:345-403 | the header a literal stands for, with the table extended when it is an indexed one; on an error the table is as before; where a buffer is overrun, that |
| HpackDecoder.DecodeHeader | src/hpack/decoder.c:576-601 | indexed field, literal or size update, with the table's strings copied into buffers they may not fit |
| HpackDecoder.DecodeHeaders | src/hpack/decoder.c:697-759 | a whole block into a header list: list, table and result are those of the specification, also when the block is given up; what they are for each representation is in HpackFields |
| HpackFields.ParseOctets | src/hpack/decoder.c:462-561 | the octets of each representation of section 6 of RFC 7541, written or not by the encoder, with the patterns of its figures, are parsed to it whatever follows; only incremental indexing stores |
| HpackFields.FirstOctetDecides | src/hpack/utils.c:39-83 | for any octets: a first one below 32 or from 128 leaves the table as it is, 32 to 63 changes its size alone, 64 to 127 adds the header alone |
| HpackFields.TableOfBlock | src/hpack/decoder.c:697-759 | for any block: the table afterwards is what the changes make of it that the first octets of its fields call for |
| HpackFields.IndexedMeans | src/hpack/decoder.c:317-343 | an indexed field: the header at the index, if it fits the buffers, and the table unchanged; an index beyond the tables or 0 is refused |
| HpackFields.LiteralMeans | src/hpack/decoder.c:345-403 | a literal of any of the three kinds, in either string form: the header with its name and value, in the table afterwards exactly for incremental indexing, which a header larger than the table is refused |
| HpackFields.LiteralRefused | src/hpack/decoder.c:641-681 | a literal with EOS in a new string, or with an index beyond the tables, is refused |
| HpackFields.TableSizeMeans | src/hpack/decoder.c:414-435 | a size update: only at the beginning of a block and up to the limit |
| HpackExamples.IntegerExamples | src/hpack/encoder.c:87-120 | the integers of Appendix C.1 of RFC 7541 |
| HpackExamples.FirstRequests | src/hpack/decoder.c:697-759 | the first request of Appendices C.3 and C.4, with the table it leaves, of 57 octets |
| HpackExamples.SecondRequests | src/hpack/decoder.c:697-759 | the second one, with a table of 110 octets |
| HpackExamples.ThirdRequests | src/hpack/decoder.c:697-759 | the third one, with a table of 164 octets |
| HpackExamples.FirstResponse | src/hpack/decoder.c:697-759 | the first response of Appendix C.6, which leaves 222 of 256 octets in use |
| HpackExamples.SecondResponse | src/hpack/decoder.c:697-759 | the second one, for which an entry is evicted |
| HpackExamples.ThirdResponse | src/hpack/decoder.c:697-759 | the third one, for which four entries are evicted, and 215 octets are in use |
| HpackSizes.FieldOverrunsIff | src/hpack/decoder.c:317-403 | from tables whose entries fit: a field overruns a buffer if and only if it is a literal with a new string that has more Huffman symbols than its buffer holds, or exactly fills it and is then measured; any other leaves entries that fit |
| HpackSizes.BlockOverrunsIff | src/hpack/decoder.c:697-759 | whatever bytes a block has: a buffer is overrun if and only if such a literal is decoded |
| HpackSizes.RunOverrunsIff | src/hpack/decoder.c:697-759 | the same over every run of blocks; what is copied out of a table fits as long as nothing was overrun |
| HpackInstance.ServerRunOverrunsIff | src/hpack/tables.h:31-57 | for the server's tables, from an empty dynamic table |
| HpackInstance.ServerPlainNameOverruns | src/hpack/decoder.c:267-281 | a block with a plain name of 32 characters, which is accepted and fills the buffer of 32 octets |
| HpackInstance.ServerCodedNameOverruns | src/hpack/decoder.c:231-255 | a block with a name of 33 characters in 21 octets of Huffman code |
| HpackDelivery.DeliveryOfBlock | src/hpack/decoder.c:745-750 | a block that decodes leaves its headers added to the list one after the other by header_list_add, or fails where one of them is refused; one that does not decode is refused |
| HpackBlock.ParseFieldCode | src/hpack/decoder.c:462-561 | parsing what the encoder wrote gives the field it decided on and consumes exactly that |
| HpackBlock.HeaderRoundTrip | src/hpack/decoder.c:697-745 | one encoded header, whatever follows it, decodes to itself, ready for the header list, and leaves the decoder with the encoder's table |
| HpackLockstep.UpdatesRoundTrip | src/hpack/decoder.c:414-435 | announced size updates take the decoder's table where the encoder's went |
| HpackLockstep.BlockRoundTrip | src/hpack/encoder.c:402-475 | a block of size updates and headers decodes to its headers, ready for the header list, and equal tables |
| HpackLockstep.MessageDelivered | src/hpack/decoder.c:697-759 | what a block leaves in an empty header list is header_list_add of its headers in turn |
| HpackLockstep.Lockstep | src/hpack/encoder.c:271-475 | from equal tables, for every run of messages, every block leaves its headers in the peer's header list as header_list_add puts them there, and the tables are equal again; the run breaks off exactly where a list refuses a header |
| HpackLockstep.LockstepIsExactIff | src/header_list.c:142-193 | the peer's lists are exactly those sent if and only if in each no name begins, case ignored, with an earlier one, and its pairs fit |
| HpackLockstep.NoPrefixClashIsFaithful | src/hpack/encoder.c:271-317 | without a prefix clash the encoder's searches return what they were asked for |
| HpackLockstep.FaithfulIff | src/hpack/encoder.c:271-317 | the encoder's searches return what they were asked for if and only if the header is static, or every clashing entry lies behind a newer equal one, and the same for the name unless the header itself is stored |
| HpackLockstep.HeaderSurvivesIff | src/hpack/encoder.c:271-317 | a header survives if and only if the table meets that condition: otherwise the peer reads another header or none, or overruns a buffer |
| HpackExchange.EncodeUpdates | src/hpack/encoder.c:447-475 | the updates in turn, with the table resized by each |
| HpackExchange.Exchange | src/hpack/encoder.c:402-475 | encoder, decoder, two table objects with equal entries and a header list: updates and headers arrive, the list holds what header_list_add makes of them, and the entries are equal again, whatever the two buffers look like |
| HpackInstance.HpackIsReady | src/hpack/tables.h:31-57 | the server's static table and Huffman tables meet every assumption of the theory |
| AppendixA.StaticIsAppendixA | src/hpack/tables.h:31-54 | line by line, names and values of the static table are those of Appendix A of RFC 7541 |
| HpackInstance.ServerSearchTakesPrefix | src/hpack/tables.c:606-658 | with the server's static table: x: 123 stored, x: 12 asked for, index 62 returned |
| HpackInstance.ServerLockstep | src/hpack/decoder.c:345-435 | lockstep for the server's own codec: printable names of 1 to 31 bytes, values of at most 63, no prefix clash in the tables; and when the lists are exactly those sent |
| RingBuffer.Ring.Push | src/cbuf.c:17-42 | appends the longest prefix that fits, nothing once ended |
| RingBuffer.Ring.Pop | src/cbuf.c:44-74 | removes and returns the longest available prefix |
| RingBuffer.Ring.Peek | src/cbuf.c:76-107 | returns the longest available prefix and changes nothing |
| RingBuffer.Ring.End | src/cbuf.c:119-122 | ends the buffer and keeps what it holds |
| RingBuffer.Ring.MoveToFront | src/event.c:684-713 | what was pending ends up at the start of the memory, with its length |
| HeaderList.List.Index | src/header_list.c:35-65 | the offset of the first pair whose stored name the query begins with, case ignored |
| HeaderList.List.All | src/header_list.c:268-308 | exactly the pairs of the list, in order |
| HeaderList.List.Append | src/header_list.c:102-131 | appends the pair if and only if it fits, otherwise nothing changes |
| HeaderList.List.Splice | src/header_list.c:68-79 | closes the gap and keeps everything else |
| HeaderList.List.AddHeader | src/header_list.c:142-193 | what header_list_add does to the list of pairs, failure included |
| HeaderList.AddAsPromised | src/header_list.c:142-193 | with an equally long stored name or none, failure changes nothing and success appends the pair, joined to the old value with a comma |
| HeaderList.FailedAddKeepsListIff | src/header_list.c:169-192 | a failing add keeps the list if and only if no stored name matched or the first length check refused |
| HeaderList.AddCanLoseAPair | src/header_list.c:169-192 | adding "ab" over a stored "a" in a full list takes the stored pair out and fails |
| HeaderList.AddAllKeepsIff | src/header_list.c:142-193 | headers added in turn make the list of those headers if and only if no name begins, case ignored, with an earlier one and the pairs fit |
| HeaderList.AddAllCanJoin | src/header_list.c:142-193 | a: x and ab: y make one pair, ab: x,y |
| HeaderList.CaseIgnoredIff | src/header_list.c:35-65 | two characters are taken for the same if and only if they are, but for the case of a letter |
| HeaderList.AddIgnoresCase | src/header_list.c:142-193 | Ab: x and aB: y make one pair, aB: x,y |
| Frames.HeaderRoundTrip | src/frames.c:33-60 | parsing a serialised frame header returns it, for every length, kind, flags and identifier; where each is in the octets is HeaderOctets |
| Frames.HeaderOctets | src/frames.c:33-44 | length in octets 0 to 2, kind in 3, flags in 4, identifier in 5 to 8, each with its weight, the reserved bit set |
| Frames.ParsedOctets | src/frames.c:47-60 | for any nine octets: the same places and weights are read, the reserved bit is not |
| Frames.WriteHeader | src/frames.c:33-44 | writes exactly the nine octets and no others, each field where section 4.1 of RFC 7540 has it |
| Http2Context.Context.constructor | src/http2.c:72-116 | the state of a new client |
| Http2Context.Context.Error | src/http2.c:168-184 | what http2_error leaves behind: closing, flags cleared, reading stopped |
| Http2Context.Context.StreamError | src/http2.c:186-199 | resets the named stream, closes the current one only if it is that one |
| Http2Context.Context.CloseImmediate | src/http2.c:132-141 | what http2_close_immediate leaves behind |
| Http2Context.Context.CloseAfterGoaway | src/http2.c:143-166 | closes once; the flags of awaited ends are cleared too |
| Http2Context.Context.SendMore | src/http2.c:552-584 | one DATA frame or none, as Http2Response.SendIs says, and both windows charged |
| Http2Context.Context.StreamSendComplete | src/http2.c:534-550 | closes the finished stream or sends on |
| Http2Context.Context.Update | src/http2.c:262-327 | one setting, with its error, and the adjustment of an active stream's window |
| Http2Context.Context.UpdateAll | src/http2.c:242-331 | the loop applies the settings in order up to the first error and counts the known ones |
| Http2Context.Context.HandleSettings | src/http2.c:339-388 | refines the SETTINGS step |
| Http2Context.Context.HandleGoaway | src/http2.c:392-449 | refines the GOAWAY step |
| Http2Context.Context.HandlePing | src/http2.c:453-484 | refines the PING step |
| Http2Context.Context.HandleWindowUpdate | src/http2.c:586-643 | refines the WINDOW_UPDATE step with its unsigned comparisons; what it grants is in Http2Octets and Http2Windows |
| Http2Context.Context.HandleEndStream | src/http2.c:645-725 | hands the collected block over and stores the response |
| Http2Context.Context.HandleHeaderBlock | src/http2.c:727-765 | stores the fragment, cut to what fits, notes the ends and proceeds |
| Http2Context.Context.Strip | src/http2.c:842-864 | the pointer arithmetic finds the fragment between pad length, priority and padding |
| Http2Context.Context.HandleHeaders | src/http2.c:767-868 | refines the HEADERS step, new stream or trailers |
| Http2Context.Context.HandleData | src/http2.c:872-922 | refines the DATA step |
| Http2Context.Context.HandleContinuation | src/http2.c:923-944 | refines the CONTINUATION step |
| Http2Context.Context.HandleRstStream | src/http2.c:946-979 | refines the RST_STREAM step |
| Http2Context.Context.HandleFrame | src/http2.c:1145-1199 | refines the dispatch of one frame |
| Http2Context.Context.Receiving | src/http2.c:1089-1212 | the loop handles the frames of the buffer and returns the bytes used |
| Http2Context.HandleRead | src/event.c:94-147 | bytes join the ring, all of it is shown to the connection, what was used is removed; a ring that has ended takes none and whoever reads is told, through NULL exactly when it stopped reading meanwhile |
| Http2Context.EndRead | src/event.c:60-71 | when the input ends the connection is told at once, is closed and reads no more |
| Http2Octets.Interrupted | src/http2.c:1145-1153 | between HEADERS and the end of its block every kind but 9 is error 1 |
| Http2Octets.OtherKinds | src/http2.c:1145-1199 | kinds 2 and above 9 are ignored, 5 is error 1 |
| Http2Octets.Ping | src/http2.c:453-484 | kind 6: answered unless it is an acknowledgement; error 1 on a stream, error 6 for a length other than 8 |
| Http2Octets.Goaway | src/http2.c:392-449 | kind 7: answered once, the stream is closed if its identifier is above the last one named; closes at once when GOAWAY was sent |
| Http2Octets.Reset | src/http2.c:946-979 | kind 3: closes the stream opened last, error 1 for any other, error 6 for a length other than 4 |
| Http2Octets.ConnectionCredit | src/http2.c:586-629 | kind 8 on stream 0: the window grows by the 31-bit increment, error 3 above 2^31 - 1, error 1 for 0 |
| Http2Octets.CreditOfStream | src/http2.c:586-643 | kind 8 on a stream: the same with its window, after which more is sent; a reset with error 3, error 5 on a closed stream, error 1 beyond the last |
| Http2Octets.Data | src/http2.c:872-922 | kind 0: taken for the open stream, error 5 on a closed one, error 1 beyond the last or with bad padding |
| Http2Octets.DataIsIgnored | src/http2.c:872-922 | what well-padded DATA holds makes no difference |
| Http2Octets.HeadersRefused | src/http2.c:767-840 | kind 1: the four refusals, with their error codes; ignored while closing |
| Http2Octets.ContinuationRefused | src/http2.c:923-944 | kind 9: error 1 when no header block is awaited |
| Http2Octets.Settings | src/http2.c:339-388 | kind 4: flag 1 acknowledges; errors 1 and 6; answered if a known setting was applied |
| Http2Octets.OneSetting | src/http2.c:262-327 | identifiers 2, 4 and 5 with their limits and error codes, and what 4 does to windows |
| Http2Octets.SettingsInOrder | src/http2.c:242-262 | settings of two and four octets, in order, up to the first that is refused |
| Http2Octets.OtherEvents | src/http2.c:132-240 | the settings timeout is error 4; failed writes, a sent GOAWAY and the peer's end close at once |
| Http2Octets.ClosesGracefully | src/http2.c:143-166 | once; what is awaited is forgotten |
| Http2Octets.FirstFrames | src/http2.c:1042-1088 | the first frame must be SETTINGS without flags, or error 1; then the connection is ready |
| Http2Octets.EmptySettingsOctets | src/http2.c:339-388 | what the octets of an empty SETTINGS frame do: nothing, not even an acknowledgement |
| Http2Octets.InitialWindowOctets | src/http2.c:284-311 | the octets of a SETTINGS frame with setting 4: the initial window, and an acknowledgement |
| Http2Octets.PingOctets | src/http2.c:453-484 | the octets of a PING: answered, or with flag 1 taken |
| Http2Octets.CreditOctets | src/http2.c:614-629 | the octets of a WINDOW_UPDATE of 1: the window grows by 1 |
| Http2Octets.ResetOctets | src/http2.c:946-979 | the octets of a RST_STREAM: the stream is closed |
| Http2Octets.HeadersOctets | src/http2.c:767-868 | the octets of a HEADERS frame with flags 1 and 4: the request is handed over |
| ReadEnd.CallsNullIff | src/event.c:125-147 | for any reader: the call through NULL takes an ended ring that is still read and pending bytes that make the reader stop |
| ReadEnd.NeverCallsNull | src/http2.c:986-1212 | over every run of reads, ends and other events the server's connection never gets there |
| Http2Invariant.OnEventInv | src/http2.c:1089-1212 | every step keeps the invariant that ties windows, flags and buffer to the log |
| Http2Invariant.UnsignedCheck | src/http2.c:614-635 | the unsigned comparison accepts exactly the updates that leave a window within 0 and 2^31 - 1 |
| Http2Invariant.CollectInv | src/http2.c:733-745 | storing a fragment keeps the buffer equal to the fragments so far, cut to its size, less the bytes that were sent |
| Http2Runs.ConnectionWindow | src/http2.c:552-584 | in every reachable state the connection window is 65535 plus the credits of the log minus all DATA announced, within 0 and 2^31 - 1; Http2Windows has the credits that the frames bring |
| Http2Runs.StreamWindow | src/http2.c:284-311 | the same of the window of an active stream, with the initial window of the log |
| Http2Windows.LogIsGranted | src/http2.c:242-643 | over every run: the credits of the log are the increments of the WINDOW_UPDATE frames that are not refused, those of the current stream counted since it was opened, and the initial window is the last accepted value of setting 4 |
| Http2Windows.ConnectionWindow | src/http2.c:552-629 | in every reachable state the connection window is 65535 plus the increments the peer sent for stream 0 less all DATA, within 0 and 2^31 - 1 |
| Http2Windows.StreamWindow | src/http2.c:284-311 | in every reachable state with an active stream its window is the peer's initial window plus the increments since it was opened less its DATA |
| Http2Response.SendIs | src/http2.c:552-584 | for every connection: nothing without buffer or window; else one DATA frame as long as the least of buffer, both windows and write buffer, with the octets at the buffer position, and END_STREAM exactly if nothing is left |
| Http2Response.RunAnswers | src/http2.c:534-725 | over every run: response headers answer the request handed over just before and end the stream exactly for an empty body; every DATA frame of a response continues it, and has END_STREAM exactly with its last octet |
| Http2Response.ResponseIsSent | src/http2.c:534-725 | over every run: if a stream sent no DATA before its response, the DATA after the response headers is a prefix of the body; it is all of the body if and only if a frame with END_STREAM went out, and after that frame no DATA follows |
| Http2Response.SkippedResponse | src/http2.c:645-725 | over every run: after n octets of DATA before it, a response lacks its first n octets |
| Http2Runs.EveryRunIsProper | src/http2.c:552-944 | over every run: opened identifiers odd and strictly increasing, requests handled at most once and only after both ends until the connection is given up, DATA within the connection's credit, and every action allowed by the monitor |
| Http2Runs.NeverOversends | src/http2.c:552-584 | in every log the monitor allows, no DATA frame exceeds what the peer has granted to the connection, and to the stream while it is active |
| Http2Runs.StreamIsLastOpened | src/http2.c:826-840 | stream.id is last_opened_stream_id in every reachable state |
| Http2Runs.OpenedIncreasing | src/http2.c:792-798 | in every log the monitor allows, opened identifiers are odd and strictly increasing |
| Http2Runs.HandledOnce | src/http2.c:645-684 | until the connection is given up no stream's request is handled twice |
| Http2Runs.HandledComplete | src/http2.c:758-764 | until then a request is handled only for the stream opened last and after both its ends |
| Http2Runs.BlockReassembled | src/http2.c:727-765 | without earlier trailers and with no DATA announced since the stream was opened, the block handled is the concatenation of its stream's fragments, as far as the buffer reaches |
| Http2Runs.BlockReassembledIff | src/http2.c:534-584 | for fragments that fit and no earlier trailers, the block is their concatenation if and only if no byte of DATA was announced since the stream was opened |
| Http2Runs.BlocksLostAfterTrailers | src/http2.c:742-745 | once an earlier stream had trailers every request is handled with an empty block |
| Http2Steps.SendsIff | src/http2.c:534-643 | for every connection and event: DATA is sent if and only if the event is a completed write or a credit for the stream and buffer and windows allow it, whatever the state of the stream |
| Http2Steps.SendsWhenClosedIff | src/http2.c:534-643 | on a stream that is closed, exactly a completed write and a credit for an older stream still send |
| Http2Steps.GracefulHandsOverEarlyIff | src/http2.c:143-151 | for every reachable connection that was not given up and every frame: after a graceful close the frame hands over a request lacking one of its ends if and only if it is a DATA frame that the open stream takes, and the headers had not ended or the frame does not end the stream |
| Http2Steps.NotEarlyBefore | src/http2.c:755-764 | before the connection is given up no frame does that |
| Http2Steps.ForgetfulStays | src/http2.c:911-919 | after such a hand-over without the end of the stream the next DATA frame does it again |
| Http2Limits.WrapRoundTrip | src/http2.c:842-864 | pad length, priority and padding of a HEADERS frame are removed, whatever they hold |
| Http2Limits.ConnectionUpdateAcceptedIff | src/http2.c:622-629 | a connection update is accepted if and only if the window stays within 2^31 - 1 |
| Http2Limits.StreamUpdateAcceptedIff | src/http2.c:630-640 | a stream update is accepted if and only if the new window is neither negative nor too large |
| Http2Limits.GracefulCloseHandlesEarly | src/http2.c:143-151 | such a run: END_STREAM never came |
| Http2Limits.CreditLosesBlock | src/http2.c:630-640 | a run on the first stream: a WINDOW_UPDATE before the end of the stream sends its header block back as DATA and the request is handled without it |
| Http2Limits.CreditCutsResponse | src/http2.c:645-705 | its response of two octets goes out without the first one |
| Http2Limits.SendsAfterReset | src/http2.c:534-550 | a run: DATA on a stream that the peer has reset |
| Http2Limits.StaleCompletionLosesFragment | src/http2.c:534-550 | a run: the completion of an older response sends a new stream's fragment back and the request is handled without it |
| ReceivePath.FramesArriveInOrder | src/http2.c:1089-1212 | frames that fit, cut into reads of any sizes, are handled in order, none lost, repeated or changed, and the buffer has room, for as long as the connection reads, whatever frames are answered with errors |
| ReceivePath.WholeFrameWaitsIff | src/http2.c:1100-1209 | a complete frame waits after a read if and only if an earlier one in the buffer was answered with an error |
| ReceivePath.WaitsAfterStreamError | src/http2.c:872-922 | DATA on a closed stream is such a frame: reading goes on and what follows waits for the next call |
| ReceivePath.AllFramesArrive | src/event.c:94-147 | after twice as many non-empty reads as there are bytes every frame has been handled and nothing waits, unless the connection has stopped reading |
| Http2Requests.RequestHandsOver | src/http2.c:727-944 | a HEADERS frame and any number of CONTINUATION frames with parts that fit the stream's buffer hand the request over, with the parts put together, on a connection that is otherwise as before |
| Http2Requests.RequestArrives | src/http2.c:1089-1212 | the same from the wire, cut into reads of any sizes |
| Http2Requests.AcceptsNextIff | src/http2.c:534-584 | with windows as long as the response, the next request is accepted after some completed writes if and only if those before the last cover it |
| Http2Requests.SecondRequestArrives | src/http2.c:534-1212 | a request arrives from the wire and is answered, its response is sent, and the next request arrives as well, reads of any sizes |
| ReceivePath.ReceivesFrames | src/http2.c:1100-1209 | one call on some frames and the beginning of the next handles exactly the frames up to the first error, and uses exactly their bytes |
| ReceivePath.TakenIffFits | src/http2.c:1124-1139 | a frame within both limits is taken if and only if it fits together with its header, otherwise the buffer stays full |
| WriteQueue.Writer.Write | src/event.c:747-790 | event_write outside of a step keeps queue, ring and callbacks in agreement: the bytes that fit and one operation of that size; nothing once the ring has ended or the socket has failed |
| WriteQueue.Writer.Close | src/event.c:902-925 | event_close: no more bytes are taken, those in the ring are still accounted for |
| WriteQueue.Writer.Enqueue | src/event.c:766-781 | the same in the middle of a step |
| WriteQueue.Writer.HandleWrite | src/event.c:149-184 | tells the callbacks of all operations that are covered and shortens the next, while callbacks queue more: all that they ask for is done, in order |
| WriteQueue.Writer.Flush | src/event.c:186-230 | the bytes sent are the next ones taken up, and queue and callbacks agree with them again |
| WriteQueue.Writer.Fail | src/event.c:60-92 | whoever reads is told first and may still write; then ring and queue are emptied for good and one callback at most hears of it |
| WriteQueue.Writer.Balanced | src/event.c:149-230 | outside of a step the queued sizes add up to the bytes in the ring |
| WriteQueue.Writer.CalledExactly | src/event.c:149-184 | callbacks are called once, in order of event_write, exactly when the bytes sent cover their operation |
| WriteQueue.DoneIffCovered | src/event.c:157-173 | an operation is complete if and only if the bytes sent cover it and all before it |
| WriteQueue.RemainingAppend | src/event.c:773-781 | operations added meanwhile are not affected by bytes sent before them |
| WriteQueue.RoomForAll | src/event.c:747-790 | with room for all of them, the writes of a callback are taken up whole and in order, one operation each, up to a close |
| WriteQueue.NothingAfterClose | src/event.c:902-925 | after a close no write is taken up |
| WriteQueue.RoomIsKept | src/event.c:747-790 | whatever is asked, the ring takes up no more than it has room for |
| LinkedList.Pool.constructor | src/ll.h:41-49 | LL_INIT: all nodes in one list |
| LinkedList.Pool.Move | src/ll.h:53-61 | LL_MOVE: the first node goes to the end of the other list |
| LinkedList.Pool.MoveFront | src/ll.h:65-73 | LL_MOVEP: the first node goes to the front of the other list |
| LinkedList.Pool.Push | src/ll.h:76-82 | LL_PUSH: the node comes first, the result is what followed it before |
| LinkedList.Pool.Append | src/ll.h:85-97 | LL_APPEND: the node comes last |
| LinkedList.Pool.Pop | src/ll.h:100-107 | LL_POP: the first node is taken out |
| LinkedList.Pool.Count | src/ll.h:110-119 | LL_COUNT: the length of the list |
| LinkedList.Pool.Find | src/ll.h:128-141 | LL_FIND: the first node that meets the condition |
| LinkedList.Pool.Delete | src/ll.h:143-161 | LL_DELETE: exactly that node is taken out and keeps its next pointer |
| LinkedList.Pool.Relocate | src/event.c:519-528 | a node pushed on another list while still linked leaves its list whole |
| LinkedList.Pool.GiveBack | src/event.c:530-533 | walking a list while pushing its nodes elsewhere moves all of them |
| LinkedList.ExactlyOneList | src/ll.h:41-161 | a node that no step holds is in exactly one list |
| EventSpec.DoSound | src/event.c:558-925 | every call a callback may make, accept included, keeps every socket, event and operation in exactly one list, operations with write events of a socket only, and one write event for a socket |
| EventMeanings.StateIs | src/event.c:558-925 | the state of a socket after a call: listening, connected and closing come from event_listen, event_accept and event_close alone, a created socket is closed |
| EventMeanings.ReservedIs | src/event.c:946-970 | event_sock_create takes the first unused socket and no call gives one up |
| EventMeanings.AddMeans | src/event.c:558-835 | a new event is the first free one, comes first in the list of its socket, is of the kind asked for and open |
| EventMeanings.StopMeans | src/event.c:684-854 | a stopped event leaves its list, in which the others stay in order, and is the first free one |
| EventMeanings.QueueMeans | src/event.c:747-790 | a write waits behind those before it, with the first free operation; without write event, room or connection nothing happens |
| EventMeanings.ClosedTakesNoWrites | src/event.c:902-925 | after event_close no call of any callback is a write on the socket that is taken |
| EventCalls.DoMild | src/event.c:558-925 | no call moves a timer whose callback is running, takes a socket out of the list that is walked, or removes a write event |
| EventCalls.DoIdleIff | src/event.c:747-790 | operations come to a socket by a write on it whose guard passes and by nothing else, and none goes away |
| EventCalls.NoAcceptNoWrite | src/event.c:856-900 | a callback that accepts no connection on the socket that is being closed writes nothing on it |
| EventCalls.WriterBlocks | src/event.c:902-925 | nor does any callback when the socket has a write event, whose ring event_close has ended |
| EventCalls.AcceptOnClosedLosesWrite | src/event.c:514-528 | the losing callback: accept on the very socket that is being closed, enable writing, write |
| EventCalls.ConnectionCallback | src/two.c:109-118 | the server's connection callback leaves a connected socket with a read and a write event on which it can write |
| EventLoop.NewLoop | src/event.c:927-944 | all sockets unused, all events and operations free |
| EventLoop.Loop.CreateSock | src/event.c:946-970 | the first unused socket becomes the first reserved one |
| EventLoop.Loop.AddEvent | src/event.c:33-36 | the first free event joins the socket's list |
| EventLoop.Loop.DropEvent | src/event.c:836-854 | exactly that event goes back to the free ones, and what followed it is returned |
| EventLoop.Loop.StopReading | src/event.c:684-713 | the first read event of the socket goes back to the free ones |
| EventLoop.Loop.QueueOp | src/event.c:773-781 | the first free operation joins the end of the queue |
| EventLoop.Loop.EndSock | src/event.c:902-925 | event_close: the socket is closing and its ring has ended |
| EventLoop.Loop.AcceptOn | src/event.c:856-900 | event_accept: a closed client of a listening server is connected, otherwise nothing changes |
| EventLoop.Loop.Perform | src/event.c:558-925 | on the linked lists every call does exactly what the specification says, and the pools are kept |
| EventLoop.Loop.MayClose | src/event.c:479-482 | finds a socket if and only if it is closing and no operation waits for it |
| EventLoop.Loop.CloseOne | src/event.c:514-538 | the socket is released together with all its events; nothing is lost if and only if no call of its callback is a write on this very socket whose guard passes |
| EventLoop.Loop.CloseAll | src/event.c:469-554 | the pools are kept; every socket that was closing without operations is unused afterwards with no event left, and every other one that no callback closes is still reserved |
| EventLoop.Loop.Tick | src/event.c:243-270 | the turn of one event: nothing unless it is a timer that is due; then what its callback calls for, and the timer goes back exactly if the callback says so; the walk goes on from what follows in the list as it is then |
| EventLoop.Loop.TickAll | src/event.c:233-273 | the loop becomes what the turns make of it, one after the other; every timer of every reserved socket has its turn, unless a callback stops it, and the walk ends |
| EventLoop.Loop.TickSocket | src/event.c:243-270 | the same for one socket, while callbacks change the very list that is walked |
| EventTimers.TurnAhead | src/event.c:243-270 | one turn leaves every timer behind the event behind the next one, unless it is stopped |
| EventTimers.WalkedKeeps | src/event.c:233-273 | a timer is in the list of its socket until its turn comes or a callback stops it |
| EventMeanings.TurnMeans | src/event.c:252-268 | the callback runs exactly when the timer is due; the timer stays with its socket unless the callback says so, and is the first free event otherwise |
| EventMeanings.NothingDue | src/event.c:233-273 | when no timer is due the walk changes nothing |
| EventLoop.Loop.HandleOp | src/event.c:153-181 | an operation whose callback runs is in no list and is then freed, with the calls of the callback made in between; one sent in part goes back to the front of its queue and nothing else changes |
| EventLoop.Loop.GiveUpOps | src/event.c:79-90 | the first operation's callback may be told while it is in no list; then all operations of the failed socket go back to the free ones |
| EventLoop.Loop.Conservation | src/event.c:927-970 | outside of a step every socket, event and operation is in exactly one list and no free event has operations waiting |
| EventBytes.DoAskBalanced | src/event.c:747-790 | every call of a callback, with the bytes of its write, keeps the balance of rings and queues, also while an operation is held and bytes were sent that nobody has been told of |
| EventBytes.TellOnceBalanced | src/event.c:153-181 | one turn of telling operations: the debt goes down by what the operation had to send |
| EventBytes.SentIsRemaining | src/event.c:186-230 | on the pool a write to a socket leaves in its queue what the write queue of one socket leaves, with callbacks that may call for any socket |
| EventBytes.TellFirstIsTold | src/event.c:153-181 | one turn changes the pools as the linked lists are changed |
| EventBytes.ClosingBalanced | src/event.c:479-514 | a socket that is found closing has nothing in its ring, and its close callback, if it creates no socket and accepts no connection on that one, puts nothing there |
| EventBytes.PassIsBalanced | src/event.c:233-554 | over every sequence of callbacks, writes, failures and releases, for any callbacks: the bytes in each ring are those its queued operations have still to send, bytes wait exactly where an operation does, and every operation is in one queue or free |

## Left out

- Socket calls (`select`, `recv`, `send`, `accept`, `bind`) and everything for Contiki: byte counts and outcomes are parameters.
- `src/two.c`, `src/content_type.c` and the resource handlers: a request's outcome is a function of the log, free to be anything.
- `validate_pseudoheaders` and the result of header decoding inside the connection: part of that outcome.
- The contents of response headers and of the replies to SETTINGS, PING and GOAWAY: the fact of sending them is modelled.
- Octets of DATA from behind the stream's buffer, which C reads once the position is past a response's end: they stand as 0.
- `header_list_set` and the lookup by `header_list_get`: easy beside `header_list_add`.
- The server uses one HPACK table for both directions; the lockstep theorem has an encoder's table and a peer's.
- The waiting for preface and first SETTINGS frame enters the connection model as events; their byte handling does not.
- Non-minimal integer encodings: the decoder recomputes the size of an integer from its value, so what follows such an encoding is parsed from another place, as in the code, and the round trips are for what the encoder writes.
- PrefixInt.Log128: arguments above 2^28, where the shift leaves the 32-bit word and C defines no result.
- PrefixInt.EncodedSize: integers more than 2^28 above the prefix maximum, for the same reason.
- PrefixInt.DecodeInteger: a read past the end of the given bytes is an outcome of its own, where the C code would read on; and from the sixth continuation octet on, where C shifts by more than its word has bits, nothing is added.
- HpackCode.PrintablePassesEosScan: printable text only; `EosRuns.EmittedPassesEosCheckIff` has the exact condition for the Huffman form.
- HpackEncoder.EncodeHeader: for headers that are C strings with a name and together shorter than 65504 octets, the range of the 16-bit entry size.
- HpackEncoder.EncodeHeaders: the same; and the loop that logs octets, whose 8-bit counter keeps it from ending once a block has more than 255 octets unless the compiler drops it.
- HpackDecoder.ParseEncodedHeader: a read past the end of the block is an error, where the C code would read on.
- HpackDecoder.DecodeLiteral: what happens after memory outside of a buffer was read or written: the model ends there with the error Overrun.
- HpackDecoder.DecodeHeader: the same.
- HpackDecoder.DecodeHeaders: the same.
- HpackSizes.RunOverrunsIff: for a table that only its decoder fills; the server encodes into the same table, and what it puts there itself is not bounded.
- HeaderTable.DynamicTable.constructor: capacity at most 0x7fff, the range of the 16-bit positions.
- HeaderTable.DynamicTable.CopyFromExt: for a string that fits; AddEntry evicts until it does.
- HeaderTable.DynamicTable.AddEntry: sizes below 65536, the range of the 16-bit entry size.
- HeaderTable.DynamicTable.FindIndex: at most 127 entries, the range of the 8-bit separator count that `SeparatorsFitInEightBits` is about.
- HeaderTable.DynamicTable.FindIndexName: the same.
- Http2Context.Context.Update: the connection model holds no HPACK table, whose resizing `ChangeMaxSize` models; and the window adjustment is over unbounded integers, where the C code adds in 32 bits.
- Http2Context.Context.HandleSettings: the settings timer is an event that may come at any time, so stopping it is not modelled.
- Http2Context.Context.HandleEndStream: header decoding, validation and the request handler are one function of the log.
- Http2Runs.HandledOnce: up to the first connection error, close or graceful close, since errors do not stop the frame loop and a graceful close forgets what is awaited; `Http2Steps` says exactly what a graceful close leads to.
- Http2Runs.HandledComplete: the same.
- WriteQueue.Writer.Enqueue: the pool of operations is taken to be large enough, as the code asserts; `EventBytes` counts operations and bytes together.
- EventBytes.PassIsBalanced: on values; the methods of `EventLoop` and `WriteQueue` are tied to it by `TellFirstIsTold` and `SentIsRemaining`, and a close callback creates no socket and accepts no connection on the socket being closed.
- `event_loop_pending` and `event_loop_poll`: which sockets are ready is a parameter, and the order of the moves of a pass is free.
- HuffmanExact.DecodesIff: the bit position has 16 bits in the code; strings have at most 4096 octets (HPACK_MAXIMUM_INTEGER), so it never passes 32768 + 30 and does not wrap.
- LinkedList.Pool.Append: for a node that nothing follows, which LL_MOVE sees to.
- EventLoop.Loop.AddEvent: for a pool that is not exhausted, as the code asserts.
- EventLoop.Loop.Perform: a call that would trip an assertion of the loop does nothing, where the program would stop; a write is one that the ring takes bytes of.
- EventLoop.Loop.CloseOne: for callbacks that create no sockets, which the walk over the reserved list would lose.
- EventLoop.Loop.CloseAll: for such callbacks that accept no connection on the socket being closed.
- EventLoop.Loop.Tick: for callbacks that do not stop the timer they are called for, which the walk would follow into the free list.
- EventLoop.Loop.TickAll: the same.
- HpackChoices.SearchFinds: where no stored string properly begins with the queried one; `TableSearch` has what the searches find otherwise.
- HpackChoices.WritesBest: the same.
- Http2Requests.SecondRequestArrives: for windows as long as the response; with less credit `Http2Response.ResponseIsSent` says what was sent.
