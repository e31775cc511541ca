# Verified core of the sync client

A model, in Dafny, of the parts of the C++ client library in which state spans many calls: the
transfer of large objects, the mappings and the change tracking that decide what is sent, the
streaming hash, the push protocol, and the codecs and names below them. Every theorem is about all
inputs, or all runs, of the modelled code.

**Large objects.** `Base64`, `EncodingHelper`, `InputStreams` and `ItemReader` read an item in pieces
and encode each; `Packing` and `ClientModifications` are the loops of `SyncManager::sync` that put the
pieces into messages of bounded size; `Receiver` and `IncomingItems` are `processSyncItem`, as a
function and as the code that fills a reserved buffer and decodes it in place. `LargeObjects` and
`Sessions` join the two ends, on values and as code: one item, and a whole slow or two-way session,
are sent, received and decoded, whatever the receiver allows.
The results that are not what one would hope for are stated as such:

- The packing loops end if and only if no item is too big for an empty message (`AllStart`), as is the
  case for all limits from 157 on (`StartsEveryItem`). Otherwise they do not end, an empty message comes
  (`SlowGetsStuck`), and behind an empty message all are empty (`SlowMessages`).
  When they end, every message but the last one is full or has no room for the next item (`SlowSync`).
- A small item that meets a message with room for less than four letters is dropped, and only then
  (`PackChunk`; `SmallItemDropped` is such a run; `NothingDropped` says when it cannot happen). The books
  in `Packing` name the message it met.
- The deleted items are all dealt with in the last message: those that fit behind its other contents
  are sent, and from the first one that does not fit all are given up (`GivenUp`).
- An item of several chunks that is too large for the receiver is refused, but its last chunk is handed
  over as an item of its own. If its name is too long and cut, the first two chunks are lost, and the
  last one is handed over if there are more (`EndToEnd`).

**Mappings.** `Mappings` follows the LUID/GUID mappings of several sources through `sync` and `endSync`
and over many sessions. Whatever fails, and whenever the client aborts, a mapping leaves its store only
after a message with it was answered, in two-way mode and in the one-way modes from the server but for the
refresh; the other modes give it up.

**Changes and identifiers.** `KeyValueStores` is the list of pairs behind all persistent maps.
`ChangeTracking` compares items with the cache of signatures and applies the server's statuses; the
cache trims keys and signatures, so all acknowledged changes settle if and only if none of these has a
space at either end (`Convergence`), and an item whose key has one is new for ever (`UntrimmedStays`);
a change made after sending is lost exactly if it comes before the signature is taken, which is only
done when the status arrives (`LateChangeIsLost`). `MediaItems` gives numbers to
the paths of a media folder, also when the map of numbers is restored from an older copy; a path
with a space at either end shares its number with another path (`UntrimmedShares`), and may take the
number of that path out of the map, so that an acknowledgement for it is not found (`Overtaken`).
`FileNaming` renames arriving files until the name is free; the name it returns leads back to the file
except in some cases, such as a folder with a dot in its path and a name with none (`NameLeadsBack`).

**The rest.** `Md5` is the streaming hash of RFC 1321 for any compression function. `Ctp` prints, parses
and reassembles push messages; one that comes with a first piece of a single byte, or has 256 bytes
or more, is not received (`ReceivesPrinted`). `QuotedPrintable` is the codec of section 6.7 of RFC 2045.
Its decoder does not do what its comment says: an equals sign that begins no code is lost, unless
fewer than two characters follow (`PromiseKept`). The model follows the code.
`Bytes`, `Options` and `Numerals` hold what the others share.

Code that works by changing state is modelled by classes and loops, proved against functions on
values; what the code promises is then proved about those functions.

## Model

| member | source | states |
|---|---|---|
| Base64.IndexSearches | src/cpp/common/base/base64.cpp:130-131 | the table search finds a letter at its own position and nothing else, in text without a NUL |
| Base64.GroupBits | src/cpp/common/base/base64.cpp:49-69 | the 24 bits of a group, from the highest one on, are the places of its four letters in the alphabet of section 4 of RFC 4648; "=" stands for the missing ones |
| Base64.EncodeGroupInto | src/cpp/common/base/base64.cpp:49-69 | one to three bytes become four letters, padded, at the given place of the buffer and nowhere else |
| Base64.EncodeInto | src/cpp/common/base/base64.cpp:82-96 | the encoding loop writes exactly the code of the input behind the given place and returns its length |
| Base64.EncodeLength | src/cpp/common/base/base64.cpp:82-96 | the code has 4 * ceil(n / 3) letters (section 4 of RFC 4648) |
| Base64.EncodeAt | src/cpp/common/base/base64.cpp:82-96 | the letters from 4 * j on are those of the bytes from 3 * j on |
| Base64.EncodeConcat | src/cpp/common/base/base64.cpp:82-96 | encoding in pieces is encoding the whole, if all but the last piece have a multiple of 3 bytes |
| Base64.EncodeIsText | src/cpp/common/base/base64.cpp:82-96 | the code contains no terminating zero, so it survives as a C string |
| Base64.DecodeEncodeGroup | src/cpp/common/base/base64.cpp:49-170 | decoding undoes encoding, group by group, through the shifts and masks of both |
| Base64.GroupBytes | src/cpp/common/base/base64.cpp:114-170 | for four characters: which bits the bytes have, where decoding ends, and that it is possible exactly with two letters in front or padding among the first two |
| Base64.DecodeEncode | src/cpp/common/base/base64.cpp:49-184 | decoding the code of any byte string gives the string back |
| Base64.DecodeConcat | src/cpp/common/base/base64.cpp:172-184 | decoding works group by group, also behind a padded group |
| Base64.DecodeGroupInto | src/cpp/common/base/base64.cpp:114-170 | one group of any letters is decoded as the code does, errors included, and no letter behind it is overwritten even if input and output share a buffer; what comes of null address differences is a parameter |
| Base64.OutputDecodes | src/cpp/common/base/base64.cpp:114-184 | for text with letters of the table where they belong no null address is used |
| Base64.DecodeInto | src/cpp/common/base/base64.cpp:172-184 | for any text of whole groups the loop gives the same bytes and length whether or not `dest` is `src`, and the decoded bytes if the text is decodable |
| EncodingHelper.EncodedSize | src/cpp/common/base/util/EncodingHelper.cpp:93-112 | the projected size is the size of the code |
| EncodingHelper.MaxDataSizeFits | src/cpp/common/base/util/EncodingHelper.cpp:76-112 | data fits into `size` letters if and only if it is not longer than the maximum raw size |
| InputStreams.BufferInputStream.Read | src/cpp/common/inputStream/BufferInputStream.cpp:61-79 | the next bytes go into the buffer; the end is reported by the read that reaches it |
| InputStreams.FileInputStream.Read | src/cpp/common/inputStream/FileInputStream.cpp:81-118 | the next bytes of the file; the end is reported only by a read that asks for more than is left |
| InputStreams.FilePiece | src/cpp/common/inputStream/FileDataInputStream.cpp:146-163 | a piece read at a multiple of 3 is encoded to exactly its place in the code of the whole file |
| InputStreams.FileDataInputStream.constructor | src/cpp/common/inputStream/FileDataInputStream.cpp:101-136 | the projected total size is the size of the text that will be delivered |
| InputStreams.FileDataInputStream.ReadEncoded | src/cpp/common/inputStream/FileDataInputStream.cpp:140-164 | the middle section delivers the code of the next bytes of the file, no more than asked, and less than four letters fewer unless the file ends |
| InputStreams.FileDataInputStream.ReadSection | src/cpp/common/inputStream/FileDataInputStream.cpp:140-164 | each section delivers the text from the current position on, up to what is asked but for less than four letters or to its end, and leaves the stream in that section or at the start of the next |
| InputStreams.FileDataInputStream.Read | src/cpp/common/inputStream/MultipleInputStream.cpp:59-88 | the recursion across the sections ends; it delivers the text from the position on, never more than asked, and fills the buffer but for less than four letters unless it reports the end |
| InputStreams.FileDataInputStream.Reset | src/cpp/common/inputStream/MultipleInputStream.cpp:110-122 | the stream is as new |
| InputStreams.ReadInPieces | src/cpp/common/inputStream/MultipleInputStream.cpp:59-88 | for all sequences of read sizes the bytes so far are a prefix of prologue, code of the file and epilogue, as long as the sum of the sizes but for less than four letters a read, until the end is reported; sizes of 4 or more reach it after at most the projected total size of reads |
| ItemReader.Reader.ResetBuffer | src/cpp/common/spds/ItemReader.cpp:56-63 | the reused buffer is zero and large enough |
| ItemReader.Reader.GetNextChunk | src/cpp/common/spds/ItemReader.cpp:68-139 | the chunk has the code of the next bytes, the first and last flags of its place, and the declared total; there is none if nothing could be read |
| ItemReader.Reader.Transform | src/cpp/common/base/util/EncodingHelper.cpp:122-210 | for base64 the piece is encoded and fits, with a terminator, in the buffer allocated for it |
| ItemReader.TransferStep | src/cpp/common/spds/ItemReader.cpp:68-139 | every chunk keeps: one first flag, last flag only at the end, constant declared size, and the text so far is the code of the bytes so far |
| ItemReader.CompleteText | src/cpp/common/spds/ItemReader.cpp:124-135 | the chunks of a whole item add up to the declared total and decode to the item |
| ItemReader.ChunkFits | src/cpp/common/spds/ItemReader.cpp:94-118 | a chunk never exceeds the size asked for; there is one if and only if 4 letters fit or the item is empty |
| ItemReader.ReadItem | src/cpp/common/spds/ItemReader.cpp:68-139 | an item read with any sequence of sizes: the chunks are those of the bytes so far, and sizes of 4 or more complete the item after at most one chunk per byte |
| Receiver.ToleranceInverts | src/cpp/common/spds/SyncManager.cpp:242-255 | for every tolerance above 1 the reserved size holds the declared one, and the mismatch test warns if and only if the received size differs from it |
| Receiver.ProcessKeepsContent | src/cpp/common/spds/SyncManager.cpp:2275-2396 | one message appends exactly its data to the item it belongs to, within the reserved size, and gives it its format if it has none yet |
| Receiver.InProgress | src/cpp/common/spds/SyncManager.cpp:2249-2521 | after any sequence of messages the item in progress has the name, command and source of the message that began it, exactly what was sent since, and the first format given since; all messages since then name this item |
| Receiver.Delivered | src/cpp/common/spds/SyncManager.cpp:2413-2508 | whatever came before, an item handed over has exactly the content sent for it and the first format given for it, and only its last message announced no more data |
| Receiver.Answers | src/cpp/common/spds/SyncManager.cpp:2249-2521 | for any messages: which status the next one gets (412, 416, 424, 213, none, or that of the source), which alerts follow (222, 223, none), and what is kept and handed over, decided from the messages alone; 213 and 222 come exactly with a named message that leaves an item in progress |
| Receiver.InProgressIs | src/cpp/common/spds/SyncManager.cpp:2249-2521 | which messages belong to the item in progress, from the messages alone; the item is what they make of it |
| Receiver.StepWeight | src/cpp/common/spds/SyncManager.cpp:2313-2371 | no message invents data; one refused with 416 or 424 loses its own |
| Receiver.Reassembled | src/cpp/common/spds/SyncManager.cpp:2273-2508 | an item sent in several chunks is handed over whole if and only if its declared size is allowed and leaves room for what was sent, and its name is not longer than 255 characters |
| IncomingItems.IncomingSyncItem.Receive | src/cpp/common/spds/SyncManager.cpp:2358-2394 | the data goes behind the bytes received so far and the rest of the buffer stays zero |
| IncomingItems.IncomingSyncItem.ChangeDataEncoding | src/cpp/common/spds/SyncItem.cpp:127-160 | decoding in place gives the plain content; what becomes of text that cannot be decoded is a parameter |
| IncomingItems.SyncManager.ProcessSyncItem | src/cpp/common/spds/SyncManager.cpp:2249-2521 | the code on buffers does what the function on values says: next state, status, alerts and what is handed over |
| IncomingItems.SyncManager.AppendData | src/cpp/common/spds/SyncManager.cpp:2357-2396 | the data is appended if it fits, with the first format kept, and more is asked for or the item handed over; else the answer is 424 and the item is forgotten |
| IncomingItems.SyncManager.FinishItem | src/cpp/common/spds/SyncManager.cpp:2413-2508 | the plain content is handed over exactly once, and the item is forgotten |
| IncomingItems.ReceiveAll | src/cpp/common/spds/SyncManager.cpp:2249-2521 | for any sequence of messages the code hands over exactly the decoded deliveries of the function on values, and answers each message as `Answers` says |
| LargeObjects.PayloadsAreText | src/include/common/spds/SyncMLBuilder.h:171-179 | the messages that `prepareItemChunk` makes of the chunks carry the text of the chunks |
| LargeObjects.EndToEnd | src/cpp/common/spds/SyncManager.cpp:2249-2521 | exactly what is handed over for the chunks of an item, however it was cut and for every receiver: the whole item if and only if it is one chunk, or its encoded size is allowed and its name not cut; otherwise the last chunk or nothing |
| LargeObjects.FirstRefused | src/cpp/common/spds/SyncManager.cpp:2314-2321 | the first chunk of an item whose declared size is not allowed is refused and leaves no item in progress |
| LargeObjects.SecondLost | src/cpp/common/spds/SyncManager.cpp:2275-2309 | the second chunk of an item with a name of 256 characters or more does not match the cut name, and both are lost |
| LargeObjects.LastAlone | src/cpp/common/spds/SyncManager.cpp:2310-2329 | with no item in progress the last chunk is handed over as an item of its own |
| LargeObjects.LastPiece | src/cpp/common/spds/ItemReader.cpp:100-118 | the last chunk decodes to the end of the item |
| LargeObjects.WholeIsPlain | src/cpp/common/spds/SyncItem.cpp:127-160 | what arrives then decodes to the bytes of the item |
| LargeObjects.TransferItem | src/cpp/common/spds/ItemReader.cpp:68-139 | from the sender's reads of any sizes of 4 or more to the receiver's decoded buffer: exactly the bytes of the item, or what `EndToEnd` says otherwise |
| Packing.StartsEveryItem | src/cpp/common/spds/SyncManager.cpp:148-162 | an empty message takes a chunk of every item of any size if and only if the limit is 157 or more |
| Packing.FetchKeepsBooks | src/cpp/common/spds/SyncManager.cpp:1251-1253 | fetching an item keeps the books: every earlier one is sent or dropped |
| Packing.DropKeepsBooks | src/cpp/common/spds/SyncManager.cpp:1265-1269 | an item is dropped only before anything of it was sent, when it is small and the message as it stands has room below 4 |
| Packing.NothingDropped | src/cpp/common/spds/SyncManager.cpp:153-162 | no item is dropped if each is empty or longer, encoded back, than a twentieth of the limit |
| Packing.SendKeepsBooks | src/cpp/common/spds/SyncManager.cpp:1294-1310 | adding a chunk keeps the message within the limit, with no item that found no room, the order of items and the completeness of those before |
| Packing.ChunkSent | src/cpp/common/spds/SyncManager.cpp:1260-1310 | the chunk made for the room that is left fits, so the branch for a chunk that is too large is never taken |
| Packing.PostKeepsBooks | src/cpp/common/spds/SyncManager.cpp:1592-1606 | sending the message keeps the books |
| Packing.RemoveKeepsBooks | src/cpp/common/spds/SyncManager.cpp:1570-1582 | a removal goes behind the items and keeps the message within the limit |
| Packing.DeleteStep | src/cpp/common/spds/SyncManager.cpp:1557-1582 | the next deleted item is sent if it fits; if not, neither it nor any later one is |
| Packing.GivenUp | src/cpp/common/spds/SyncManager.cpp:1540-1585 | a deleted item is given up if and only if it does not fit behind the rest of the last message and those before it |
| Packing.CostCounts | src/cpp/common/spds/SyncManager.cpp:1294-1302 | the estimate of a message is 150 for each change and the length of all its text |
| Packing.PostEndsWell | src/cpp/common/spds/SyncManager.cpp:1317-1317 | a message that is full, or has no room for the item in progress, ends well: its cost is the limit, or the first item that is not through finds no room, in numbers |
| Packing.StillEndsWell | src/cpp/common/spds/SyncManager.cpp:1173-1727 | what happens later does not change why a message ended |
| ClientModifications.NoChunk | src/cpp/common/spds/SyncManager.cpp:1265-1269 | a chunk can be missing only for a small item of which nothing was sent and in a message with room below 4 |
| Packing.PartialChunk | src/cpp/common/spds/SyncManager.cpp:1304-1310 | a chunk that is not the last of its item leaves less than 4 letters of room |
| ClientModifications.Sender.PackChunk | src/cpp/common/spds/SyncManager.cpp:1256-1310 | one turn of a packing loop: exactly the next chunk is added within the limit, as an addition for a new item and as a replacement otherwise, or the item is dropped, which happens if and only if it is not empty and the room is below 4 |
| ClientModifications.Sender.SlowTurn | src/cpp/common/spds/SyncManager.cpp:1242-1317 | one turn keeps the books and settles an item, ends the message because it is full or the item in turn finds no room, finds the source exhausted, or is stuck with an item too big for an empty message and changes nothing |
| ClientModifications.Sender.PackSlow | src/cpp/common/spds/SyncManager.cpp:1233-1319 | a message of a slow sync goes on until it is full, the item in turn finds no room, or the source is exhausted; it makes progress in items or bytes unless it is the last one or the loop is stuck; a stuck loop stays stuck, with nothing changed and an empty message |
| ClientModifications.Sender.PackItems | src/cpp/common/spds/SyncManager.cpp:1355-1427 | the loop of the new, and of the updated, items: books kept, progress and a change in the message unless the items run out or the loop is stuck; it ends only if they run out, the message is full, or the item in turn finds no room; the items run out only before the message is full |
| ClientModifications.Sender.ItemsTurn | src/cpp/common/spds/SyncManager.cpp:1356-1426 | one turn keeps the books and settles an item, ends the message because it is full or the item in turn finds no room, finds the items exhausted, or is stuck and changes nothing |
| ClientModifications.Sender.PackDeletes | src/cpp/common/spds/SyncManager.cpp:1540-1585 | the loop of the deleted items always goes through to the last one, and sends exactly those that fit |
| ClientModifications.Sender.PackTwoWay | src/cpp/common/spds/SyncManager.cpp:1340-1590 | one message of a two-way sync goes on through the steps until it is full or the item in turn finds no room; it advances the step, the items or the bytes, and has a change, unless it is the last one or stuck; once it is at the deleted items it is the last one |
| ClientModifications.SlowSync | src/cpp/common/spds/SyncManager.cpp:1173-1319 | if no item is too big for an empty message the loop ends; the enumeration is started once; every item is sent whole, as a replacement, in order and in messages within the limit that it found room in, or dropped as a small one that met room below 4; every message but the last has a change and ends because it is full or has no room for the next item, and the last one is not full |
| ClientModifications.SlowMessages | src/cpp/common/spds/SyncManager.cpp:1173-1727 | for any items and any number of messages: the loop has ended only if no item is too big for an empty message, and behind an empty message all are empty |
| ClientModifications.SlowGetsStuck | src/cpp/common/spds/SyncManager.cpp:1173-1727 | if some item is too big for an empty message, an empty message comes after finitely many |
| ClientModifications.TwoWaySync | src/cpp/common/spds/SyncManager.cpp:1340-1590 | the same for the new items, as additions, and then the updated ones, as replacements, in the same messages where they fit; then the last message has the removals of exactly the deleted items that fit into it |
| ClientModifications.TwoWayMessages | src/cpp/common/spds/SyncManager.cpp:1173-1727 | the same for a two-way sync |
| ClientModifications.TwoWayGetsStuck | src/cpp/common/spds/SyncManager.cpp:1173-1727 | the same for a two-way sync |
| ClientModifications.SmallItemDropped | src/cpp/common/spds/SyncManager.cpp:1373-1386 | with a limit of 10000 an item of one byte behind one of 7275 bytes is dropped (here as a new item of a two-way sync) |
| Sessions.ItemsArrive | src/cpp/common/spds/SyncManager.cpp:2249-2521 | the chunks of all items, as packed, lead to exactly what each item leads to by itself, in order, and nothing for a dropped one |
| Sessions.RemovalsArrive | src/cpp/common/spds/SyncManager.cpp:2484-2500 | the removals arrive in the order they were sent |
| Sessions.SessionArrives | src/cpp/common/spds/SyncManager.cpp:1173-1590 | whatever was packed into messages and whatever the receiver allows, it ends up idle, having handed over what the items that were not dropped lead to, in order, and then the removals |
| Sessions.AllReceived | src/cpp/common/spds/SyncManager.cpp:2249-2521 | if all sizes are allowed and no name is cut, these are all the items, byte for byte |
| Sessions.SlowSession | src/cpp/common/spds/SyncManager.cpp:1233-1319 | a whole slow sync, packed, received and decoded by the code, for every receiver; all items that were not dropped, byte for byte and in order, each as a replacement, if it allows them and no name is cut |
| Sessions.TwoWaySession | src/cpp/common/spds/SyncManager.cpp:1340-1590 | a whole two-way sync for every receiver: the same, the new items as additions, and then the removals that fitted into the last message |
| Mappings.SyncManager.AddMapCommand | src/cpp/common/spds/SyncManager.cpp:1940-1959 | every mapping in the store goes once into one new Map command; without mappings there is none |
| Mappings.SyncManager.ResetMappings | src/include/common/spds/MappingsManager.h:111-113 | the store is emptied; what was not answered before is recorded as dropped |
| Mappings.SyncManager.AddMapping | src/include/common/spds/MappingsManager.h:91-94 | the mapping is stored without the spaces around LUID and GUID; one with the same LUID and another GUID is overwritten |
| Mappings.SyncManager.ServerChanges | src/cpp/common/spds/SyncManager.cpp:1705-1723 | if all changes were processed, everything in every store is in the next message or was answered; if not, the client has aborted and the commands are unchanged |
| Mappings.SyncManager.SendModifications | src/cpp/common/spds/SyncManager.cpp:1192-1723 | one round: the exact stores and answered mappings for each reply; for two-way, one-way, smart and incremental one-way from the server the old store is sent, for the other six modes it is emptied |
| Mappings.SyncManager.Exchange | src/cpp/common/spds/SyncManager.cpp:1192-1651 | for two-way, one-way, smart and incremental one-way from the server the message carries what the store holds, and only an answer empties the store; for the other six modes the store is emptied and not carried |
| Mappings.SyncManager.SendSource | src/cpp/common/spds/SyncManager.cpp:1173-1727 | all rounds of a source leave its store, and those of the sources before, covered, the mappings of all items received are made, and the first reply that is not all right decides how it ends |
| Mappings.SyncManager.SendAll | src/cpp/common/spds/SyncManager.cpp:1136-1737 | for all sources: which replies end the session, which sources stay active, and whether the server has sent its last message or the last source was not begun |
| Mappings.SyncManager.ReceiveChanges | src/cpp/common/spds/SyncManager.cpp:1830-1911 | the final loop ends, successfully if and only if all changes up to the final ones come; it makes their mappings, leaves exactly the stores that are emptied by each answer before its changes go in, and drops nothing that was not answered |
| Mappings.SyncManager.Sync | src/cpp/common/spds/SyncManager.cpp:1136-1934 | for several sources: it succeeds if and only if no reply ends the session, some source gets through, and the changes come to their end; then every active store is covered, and only new mappings are in the stores of the modes that give the old ones up |
| Mappings.GoodSucceeds | src/cpp/common/spds/SyncManager.cpp:1136-1934 | without any failure it succeeds with all sources that were active |
| Mappings.SyncManager.EndSync | src/cpp/common/spds/SyncManager.cpp:1962-2044 | after an abort or without an answer nothing is dropped; it succeeds if and only if there is nothing to send, or there is an answer and no abort; otherwise exactly the mappings of active stores that are neither carried nor answered are dropped |
| Mappings.SyncManager.Session | src/cpp/common/client/SyncClient.cpp:110-124 | for everything that can happen in a session, every mapping of a source in two-way, one-way, smart or incremental one-way mode from the server is answered, overwritten or still stored; after a success the other modes have only new ones; if nothing goes wrong at all, the mappings of all items received were made and answered, and the stores are empty |
| Mappings.Sessions | src/cpp/common/client/SyncClient.cpp:110-124 | over any number of sessions in any modes: for a source that is always in one of these four modes, every mapping is answered, overwritten or still stored, with any aborts and failures of the transport, the items and the sources in between |
| KeyValueStores.InMap | src/cpp/common/base/util/MemoryKeyValueStore.cpp:43-54 | a key is in the map that the list stands for exactly if some pair has it |
| KeyValueStores.KeyValueStore.ReadPropertyValue | src/cpp/common/base/util/MemoryKeyValueStore.cpp:43-54 | the value in the map, or nothing |
| KeyValueStores.KeyValueStore.SetPropertyValue | src/cpp/common/base/util/MemoryKeyValueStore.cpp:56-70 | the map is updated at this key only, and the keys stay distinct |
| KeyValueStores.KeyValueStore.RemoveProperty | src/cpp/common/base/util/MemoryKeyValueStore.cpp:72-86 | the key is removed and no other |
| KeyValueStores.KeyValueStore.SetTrimmed | src/cpp/common/base/util/PropertyFile.cpp:170-179 | key and value are stored without the spaces around them |
| KeyValueStores.TrimLeaves | src/cpp/common/base/util/StringBuffer.cpp:555-590 | trimming changes nothing exactly if there is no space at either end, and trimming twice is trimming once |
| KeyValueStores.TrimCuts | src/cpp/common/base/util/StringBuffer.cpp:555-590 | trimming takes away nothing but the spaces at both ends, and all of them |
| ChangeTracking.CacheSyncSource.FillItemModifications | src/cpp/common/client/CacheSyncSource.cpp:398-462 | the three lists are exactly the keys without an entry, those with another signature, and those without an item, in order |
| ChangeTracking.CacheSyncSource.LookUp | src/cpp/common/client/CacheSyncSource.cpp:426-445 | a key found in the copy of the cache is compared and taken out; one not found is new |
| ChangeTracking.WithChangeSelects | src/cpp/common/client/CacheSyncSource.cpp:398-462 | a key is in a list if and only if it is enumerated and has that change pending |
| ChangeTracking.LeftAreDeleted | src/cpp/common/client/CacheSyncSource.cpp:449-451 | what is left of the copy are the keys without an item |
| ChangeTracking.CacheSyncSource.SetItemStatus | src/cpp/common/client/CacheSyncSource.cpp:134-155 | a successful status updates the entry of its key, both trimmed, an error leaves the cache alone |
| ChangeTracking.SuccessCodes | src/cpp/common/client/CacheSyncSource.cpp:560-575 | the codes that count as success: 418, and 200 to 299 without 204, 205, 206 and 213 |
| ChangeTracking.AfterAcksAt | src/cpp/common/client/CacheSyncSource.cpp:476-485 | after any statuses the entry of a key is decided by the last successful one whose key trims to it, and by that alone |
| ChangeTracking.Convergence | src/cpp/common/client/CacheSyncSource.cpp:134-155 | with unchanged items every change is pending afterwards exactly if it was pending and not acknowledged, for all keys, if and only if no acknowledged key or signature has a space at either end |
| ChangeTracking.NextRun | src/cpp/common/client/CacheSyncSource.cpp:398-462 | the lists of the next run are exactly the changes of this run that were not acknowledged, on the same condition, if and only if |
| ChangeTracking.UntrimmedStays | src/cpp/common/base/util/PropertyFile.cpp:170-205 | an item whose key has a space at either end is new for ever, whatever is acknowledged |
| ChangeTracking.SpaceAtTheEnd | src/cpp/common/base/util/PropertyFile.cpp:170-205 | a new file "a ", acknowledged with 201, is new again, and "a" is deleted |
| ChangeTracking.PendingAfterAcks | src/cpp/common/client/CacheSyncSource.cpp:134-155 | what is pending after any statuses, for all keys and signatures, whatever became of the items since they were sent |
| ChangeTracking.LateChangeIsLost | src/cpp/common/client/CacheSyncSource.cpp:143-145 | a change made after sending is lost if and only if the signature kept when the last status arrived is already the new one |
| MediaItems.MediaSyncSource.constructor | src/cpp/common/client/MediaSyncSource.cpp:107-128 | the next LUID is the least that is neither below the saved nor the passed one nor used in the map; it is saved if it was raised |
| MediaItems.MediaSyncSource.VerifyNextLUIDValue | src/cpp/common/client/MediaSyncSource.cpp:447-464 | afterwards every LUID in the map is below the next one, which grew only as far as needed |
| MediaItems.MediaSyncSource.GetLUIDFromPath | src/cpp/common/client/MediaSyncSource.cpp:403-423 | a known path keeps its LUID and nothing changes; another one gets the next, which is raised by one and saved |
| MediaItems.MediaSyncSource.GetPathFromLUID | src/cpp/common/client/MediaSyncSource.cpp:425-443 | the first path with this LUID, or none |
| MediaItems.PathOfFinds | src/cpp/common/client/MediaSyncSource.cpp:425-443 | the path found has the LUID in the map; none is found only if no path has it |
| MediaItems.MediaSyncSource.RefreshLUIDMap | src/cpp/common/client/MediaSyncSource.cpp:466-484 | exactly the paths that are not in the cache are removed |
| MediaItems.MediaSyncSource.SaveNextLUID | src/cpp/common/client/MediaSyncSource.cpp:497-503 | the number is stored as "nextLUID" so that it is read back |
| MediaItems.MediaSyncSource.FillItemModifications | src/cpp/common/client/MediaSyncSource.cpp:296-316 | the properties of the account are taken out of the deleted items, nothing else |
| MediaItems.DeletedItems | src/cpp/common/client/MediaSyncSource.cpp:296-316 | the deleted items are exactly the cached paths without a file, the account's properties aside |
| MediaItems.MediaSyncSource.SetItemStatus | src/cpp/common/client/MediaSyncSource.cpp:380-401 | a status for a LUID updates the cache entry of the path that has it |
| MediaItems.LuidsAreUnique | src/cpp/common/client/MediaSyncSource.cpp:403-423 | over all runs of requests, refreshes and restarts from any older map, no LUID is given to two trimmed paths, and those in the map are distinct and below the next one; a first map may exist, if its LUIDs are below the saved next one |
| MediaItems.FirstStart | src/cpp/common/client/MediaSyncSource.cpp:107-128 | a first start without a map is always the start of such a run |
| MediaItems.UnsavedReused | src/cpp/common/client/MediaSyncSource.cpp:107-128 | a LUID of a first map that is not below the saved next one can be given to another path |
| MediaItems.LuidLeadsBack | src/cpp/common/client/MediaSyncSource.cpp:403-443 | in every reachable state the LUID of a path leads back to it if and only if the path is trimmed |
| MediaItems.GrantLeadsTo | src/cpp/common/client/MediaSyncSource.cpp:425-443 | a LUID that was given out leads to the trimmed path if the map still holds it there, and to none otherwise |
| MediaItems.StatusesReach | src/cpp/common/client/MediaSyncSource.cpp:380-443 | in every run, a status for a LUID that was given out changes the cache as if it named the path that was sent, if the map still holds the LUID when it arrives, and changes nothing otherwise |
| MediaItems.MediaConvergence | src/cpp/common/client/MediaSyncSource.cpp:296-443 | after the statuses for LUIDs given out, exactly the changes that were not acknowledged are pending, if and only if no acknowledged path has a space at either end, and of the acknowledgements of every changed path one arrives while the map holds its LUID, with a signature without such a space |
| MediaItems.LiveArrive | src/cpp/common/client/MediaSyncSource.cpp:380-401 | if the map holds all LUIDs when their statuses arrive, this comes down to paths and signatures without spaces |
| MediaItems.LiveExactly | src/cpp/common/client/MediaSyncSource.cpp:403-484 | without a restart a LUID stays in the map if and only if no untrimmed variant of its path is asked for and no refresh misses its path in the cache |
| MediaItems.Overtaken | src/cpp/common/client/MediaSyncSource.cpp:403-443 | two new files "a" and "a ": the acknowledgement of the first one is not found, and it stays new |
| MediaItems.UntrimmedStaysNew | src/cpp/common/client/MediaSyncSource.cpp:380-401 | a path with a space at either end stays a new item, whatever statuses arrive |
| MediaItems.UntrimmedShares | src/cpp/common/base/util/PropertyFile.cpp:170-179 | an untrimmed path shares its new LUID with the trimmed one, and gets another LUID the next time |
| Numerals.ParsePrinted | src/cpp/common/client/MediaSyncSource.cpp:487-503 | a number written with "%d" is read back by `strtol` |
| Numerals.ParseText | src/cpp/common/client/MediaSyncSource.cpp:487-495 | white space in front is skipped, a plus sign is read, and what is no number is zero |
| Numerals.PrintedForm | src/cpp/common/client/MediaSyncSource.cpp:487-503 | the numeral of "%d": a minus sign for a negative number, and digits without superfluous zeros |
| Numerals.PrintedTwo | src/cpp/common/client/FileSyncSource.cpp:95-96 | the numeral of "%02d": two digits for a number below 100 |
| FileNaming.NamesDiffer | src/cpp/common/client/FileSyncSource.cpp:93-112 | the names with different numbers are different, and different from the original |
| FileNaming.SuffixPlaced | src/cpp/common/client/FileSyncSource.cpp:93-112 | an underscore and the number go before the last dot of the name, or to the end of a name without one |
| FileNaming.Folder.AddFile | src/cpp/common/client/FileSyncSource.cpp:140-190 | the search ends for every folder; 418 exactly if a file of equal size and checksum is found before a free name; otherwise the content is stored under the free name and nothing else changes |
| FileNaming.EndsOnce | src/cpp/common/client/FileSyncSource.cpp:151-175 | the search can end at one name only |
| FileNaming.AddedTwice | src/cpp/common/client/FileSyncSource.cpp:140-190 | the same file arriving again changes nothing |
| FileNaming.OnlyGrows | src/cpp/common/client/FileSyncSource.cpp:140-190 | over any number of arrivals, written or not, no file is lost or changed |
| FileNaming.AllStored | src/cpp/common/client/FileSyncSource.cpp:140-190 | in the end every file reported as added is there under its final name, if and only if it was not taken for another file of its size and checksum |
| FileNaming.NamesShared | src/cpp/common/client/FileSyncSource.cpp:118-131 | two arrivals share a name only if their sizes and checksums agree |
| FileNaming.NameLeadsBack | src/cpp/common/client/FileSyncSource.cpp:50-112 | for every folder and name the returned name denotes the stored file if and only if it was not renamed, or the suffix went behind the folder and the rest does not begin like the folder |
| FileNaming.AbsoluteFolder | src/cpp/common/client/FileSyncSource.cpp:50-112 | in an absolute folder that is: it was not renamed, has a dot, or the folder's path has none |
| FileNaming.UpdateReplaces | src/cpp/common/client/FileSyncSource.cpp:198-218 | an update under the returned name replaces the file that was stored under it, and no other, on the same condition |
| Md5.TailGrows | src/cpp/common/base/md5.cpp:338-344 | bytes that do not fill the block change only the rest |
| Md5.BlockFilled | src/cpp/common/base/md5.cpp:338-352 | bytes that fill the block are digested with those that waited |
| Md5.InitialState | src/cpp/common/base/md5.cpp:314-318 | the words before the first block are those of section 3.3 of RFC 1321 |
| Md5.PaddedBytes | src/cpp/common/base/md5.cpp:362-377 | the padded message byte by byte, as sections 3.1 and 3.2 say: 0x80, zeros, the length in bits modulo 2^64, and full blocks with the least padding |
| Md5.OutputBytes | src/cpp/common/base/md5.cpp:378-379 | byte 4 * i + j of the digest is byte j of word i, low-order first, as section 3.5 says |
| Md5.CountAdded | src/cpp/common/base/md5.cpp:326-336 | the two words with their carry are 8 * length modulo 2^64 |
| Md5.CountedOffset | src/cpp/common/base/md5.cpp:326-326 | the place in the buffer is the length modulo 64, whatever the count has lost |
| Md5.Md5State.constructor | src/cpp/common/base/md5.cpp:311-319 | the state of the empty message, with the four words of section 3.3 of RFC 1321 |
| Md5.Md5State.Append | src/cpp/common/base/md5.cpp:321-357 | the state after any pieces is the state of their concatenation: all full blocks digested, the rest in the buffer, the length counted |
| Md5.Md5State.UpdateLength | src/cpp/common/base/md5.cpp:332-336 | the count is that of the longer message |
| Md5.PadLength | src/cpp/common/base/md5.cpp:375-375 | the pad length computed with unsigned wrap-around is the one of section 3.1 of RFC 1321, from 1 to 64 |
| Md5.CountBytes | src/cpp/common/base/md5.cpp:371-373 | the bytes of the two words are the length in eight bytes, low-order first |
| Md5.PaddedLength | src/cpp/common/base/md5.cpp:374-377 | the padded message is made of full blocks |
| Md5.Md5State.Finish | src/cpp/common/base/md5.cpp:359-380 | the digest is that of the padded message, with the four words low-order byte first, and the buffer is empty |
| Md5.HashPieces | src/cpp/common/base/md5.cpp:311-380 | for all pieces and any cut, the digest is that of the concatenation |
| Ctp.TotalMessageSize | src/cpp/common/push/CTPMessage.cpp:188-198 | the sum is the length of the printed body |
| Ctp.ToByte | src/cpp/common/push/CTPMessage.cpp:186-242 | the buffer holds exactly the printed message |
| Ctp.PackageLayout | src/cpp/common/push/CTPMessage.cpp:186-242 | where the length, the version, the command and the code, length and value of every parameter are in the printed message |
| Ctp.PrintedParams | src/cpp/common/push/CTPMessage.cpp:127-182 | printed parameters are read back, whatever lies behind them |
| Ctp.PrintedAgain | src/cpp/common/push/CTPMessage.cpp:127-182 | whatever parameters are read from any bytes, printing them gives the bytes again, but for a single byte at the end or a value that is not all there |
| Ctp.PrintedOrNot | src/cpp/common/push/CTPMessage.cpp:127-182 | bytes are printed parameters if and only if what is read from them prints to them |
| Ctp.PrintedIsParsed | src/cpp/common/push/CTPMessage.cpp:69-184 | a printed message is recovered with its version, command and all parameters |
| Ctp.Parse | src/cpp/common/push/CTPMessage.cpp:69-184 | for every package, whatever its length bytes promise, the loop ends inside the buffer with exactly the result of reading the parameters one after the other |
| Ctp.CutAt | src/cpp/common/push/CTPService.cpp:496-517 | whatever the pieces, the message is complete with the last one and not before, and a first piece of two bytes tells its length |
| Ctp.ReceiveStatusMsg | src/cpp/common/push/CTPService.cpp:471-543 | for any pieces a message is received if and only if at some piece there are as many bytes as the first piece tells, and fewer than 256; it is what is read from the bytes so far |
| Ctp.ReceivesPrinted | src/cpp/common/push/CTPService.cpp:471-543 | a printed message in any pieces is received, and then unchanged, if and only if the first has two bytes and the whole is below 256 |
| QuotedPrintable.RoundTrip | src/cpp/common/base/quoted-printable.cpp:50-117 | decoding the code of any byte string gives it back |
| QuotedPrintable.DecodeEncoded | src/cpp/common/base/quoted-printable.cpp:50-117 | also with anything behind it |
| QuotedPrintable.EncodedForm | src/cpp/common/base/quoted-printable.cpp:93-117 | printable characters but for "=" stand for themselves, all other bytes for "=" and two upper-case hexadecimal digits, as section 6.7 of RFC 2045 says |
| QuotedPrintable.HexDigits | src/cpp/common/base/quoted-printable.cpp:41-77 | digits are read in upper and lower case, with their values |
| QuotedPrintable.SoftBreaks | src/cpp/common/base/quoted-printable.cpp:62-66 | soft line breaks between encoded parts, any number of them, do not change what is decoded |
| QuotedPrintable.PromiseKept | src/cpp/common/base/quoted-printable.cpp:58-85 | the original bytes are left in all wrong cases if and only if no equals sign has two characters behind it that are neither a line end nor two hexadecimal digits |
| QuotedPrintable.SignLost | src/cpp/common/base/quoted-printable.cpp:58-85 | "=zz" is decoded to "zz" |
| QuotedPrintable.AheadForEver | src/cpp/common/base/quoted-printable.cpp:56-86 | a decoder that keeps wrong signs never catches up with the code once it is behind by other characters |
| QuotedPrintable.BehindForEver | src/cpp/common/base/quoted-printable.cpp:56-86 | nor the other way round, behind by equals signs |
| QuotedPrintable.EncodeUnchanged | src/cpp/common/base/quoted-printable.cpp:93-125 | a text is its own code exactly if it has only plain characters |
| QuotedPrintable.IsNeed | src/cpp/common/base/quoted-printable.cpp:119-125 | the test is true exactly if the code differs from the text |
| QuotedPrintable.QpEncode | src/cpp/common/base/quoted-printable.cpp:93-117 | the loop stores the code and its terminator within three bytes for one |
| QuotedPrintable.QpDecode | src/cpp/common/base/quoted-printable.cpp:50-90 | the loop stores the decoded text and its terminator within the length of the code |

## Left out

- Aborts, and transport failures in the packing loops (`ClientModifications`): they leave the loops early; `Mappings` has them as missing replies.
- XML and SyncML formatting and parsing; the formatting of the prologue and epilogue of a file object.
- Encodings other than "b64" (plain, DES) and items that bring their own encoding; items that are read from a stream other than a buffer in `ItemReader`.
- Bare `FileInputStream` items: such a stream does not report its end after an exact read, so the last chunk can be missing.
- The encoding of unsafe keys (`encodeItemKey`), parent keys, data types and times of items in `processSyncItem`; what the sources do with an item is a status of their own.
- Floating point: the tolerance is a real number and five percent of the message size is the integer quotient by 20.
- Integer widths: sizes, positions and LUIDs are unbounded; only `Md5` models 32-bit words.
- Md5.Md5State.Append: does not model the int overflow of offset and length for pieces within 63 bytes of 2^31.
- Stores that a client passes instead of a `PropertyFile`, and that may not trim.
- Base64.DecodeInto: requires text of whole groups; the code reads behind the text otherwise. `ChangeDataEncoding` takes what becomes of text that is not decodable as a parameter.
- IncomingItems.IncomingSyncItem.ChangeDataEncoding: does not say what becomes of such text.
- Base64.IndexSearches: does not model that `strchr` also finds the terminator of the table; the texts have no NUL in them.
- ItemReader.Reader.GetNextChunk: is for items in memory without an encoding of their own, as said above.
- ItemReader.Reader.Transform: is for "plain" to "b64" only.
- KeyValueStores.KeyValueStore.SetTrimmed: does not write the journal.
- Numerals.ParsePrinted: does not model the width of an int.
- The share of five percent is computed from the limit at hand; the code keeps the first one for the whole process.
- ClientModifications.Sender.PackDeletes: does not model that the chunk of a removal that was sent is freed but not forgotten, and freed again when a later removal does not fit; the next source then starts with it.
- One source at a time in `ClientModifications`: an item left over by an error of one source goes to the next one in the code.
- The files and the journal of `PropertyFile`, with their escapes and the REMOVED marker: a restart finds some earlier content of the map in memory. In the journal keys are not trimmed.
- MediaItems.MediaSyncSource.GetLUIDFromPath: is one step; a crash between the storing of the LUID and the saving of the next one is not modelled.
- FileNaming.Folder.AddFile: reading an existing file always succeeds; the code compares with an undefined size otherwise. Writing fails or succeeds as given, without partial files.
- Ctp.Parse: the notification payload, JUMP addresses and the copies in `buffer` and `from` are left out; behind the end the code computes with a null pointer, which is taken to stay null, and the value read there is a zero byte.
- `md5_process`: any compression function.
- Mappings.SyncManager.Sync: which items the server's changes hold and whether the source accepts them is given as the list of mappings made; reports, listeners and anchors are left out, and so are sessions that take an abort back.
- Getters, setters and configuration, the stores on SQLite and ODBC, mail, folder and file data formats, sockets and threads.
