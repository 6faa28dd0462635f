# OZoneStore verification

OZoneStore keeps key-value pairs in an append-only log and serves them over Thrift. This project models its storage
engine, the Thrift wire codecs that come with it in C++ and in Python, and the framing of the Python server and client,
and proves what each of them is for. `dafny verify dfyconfig.toml` checks everything.

## The storage engine

`ozwrite_put` appends a value to the value file and a line `key TAB offset TAB length` to the key file. `OZoneSort` sorts
the key file in chunks, merges the chunks, keeps the newest record of each key, and prints the result, which `ozread` loads
and searches. `oztrav` replays the log. The write service makes decimal keys from a counter that it recovers at start-up.

- `Bytes`, `Records`: C strings, decimal numbers, the text log, and `fscanf` on it.
- `Sorting`: what is used of `qsort`.
- `OzWrite`: the put with its failure exits, and the invariant that every line addresses its value.
- `Index`, `OzMerge`, `OzSort`: what a sorted table is and that there is only one; split, merge, and the printing program.
- `OzRead`, `OzGets`: loading, binary search, and the batch read in offset order.
- `EndToEnd`: puts, sort, load and get composed. The theorem is `PutsThenGet`, with `ReadService.PutsThenGets` for the batch and
  `TravService.PutsThenServe` for the traversal.
- `OzTrav`, `TravService`: the traversal, and one cursor shared by many clients.
- `WriteService`, `WriteProtocol`, `ReadService`: the handlers; `WriteProtocol` is a state machine of threads, a mutex and
  restarts. Its theorems are `IdsAreUnique`, `EveryPutIsServed` and `OpenAfterRun`.

What a caller must keep to is written as predicates: `Records.ValidKey` (not empty, no white space, no NUL, at most 127
bytes), `OzWrite.ValidLog` (file positions below 2^63) and `EndToEnd.Servable` (at least one key below "~"; under such keys no
byte 0xFF and last values shorter than 2^32-1 bytes). The service's own keys meet the conditions on keys (`RunIsServable`).

Five times the code does less than its purpose. A lemma says exactly when, and another gives an input:

| what is lost | exactly when | an input |
|---|---|---|
| keys in the merge | `MergeIsWhole`, `AnswersAsPutIff`: at or above "~" | `GetSentinel` |
| the rest of the printed table | `CopyIsWhole`, `TableIsWhole`: a key below "~" holds 0xFF | `KeyWithFFIsCut` |
| the counter at start-up | `RecoveryExact`: an id outside `int` | `IdBeyondIntIsForgotten` |
| the rest of a value in `gets` | `GetsAgreesWithGet`: a NUL in it | `NulCutsValue` |
| most of a value in a put | `StoresWholeValue`: its length does not fit 32 bits | `LongValueIsCut` |

## The codecs

- `Bits`, `Wire`, `Varints`: two's complement operations, Thrift values, integers on the wire.
- `Compact`, `Binary`: each item of the two protocols, written and read back.
- `Protocols`, `RoundTrip`: encoding, decoding and skipping of whole values as functions, and the theorems about them.
- `TProtocols`, `Skipping`: the C++ protocol object with its hidden state, `skip`, and the writing calls.
- `TravPairs`: the generated reader and writer of a struct.
- `Messages`: message headers in both languages.
- `WireBytes`: every header, number and message as the bytes on the wire, with the codes written out.
- `Refusals`: which bytes the readers refuse.
- `DoubleOrder`: where the two compact implementations write different bytes.
- `PyReading`, `PyCompact`, `PyGenerated`: the Python compact protocol, a machine of nine states whose assertions are the
  preconditions of its methods. Python integers are unbounded, and so are they here.
- `PyBinary`: the Python binary protocol.

One class stands for both C++ protocols; its constant `protocol` takes the place of the virtual call. The compact protocol has
the order of the bytes of a double as a parameter, least significant first in C++ and most significant first in Python. Functions of a reading
state specify the methods, which are total: on every input they return the specified result, or throw. A value is read in the
type that was announced; `Normal` is the value that comes back.

Exact conditions here: the C++ compact reader loses one-way calls (`CompactHeaderExact`, `OneWayIsLost`), the Python one
negative sequence numbers (`CompactHeaderExactPy`, `NegativeSeqidIsLost`), and the languages agree on a compact value exactly
when its doubles are symmetric (`BytesAgree`, `LeastDiffers`).

## The frames

- `Frames`: a stream of bytes as a sequence of length-prefixed messages.
- `Nonblocking`: a connection of the Python server, driven by whatever the kernel has ready.
- `Transports`: `readAll`, the buffered and the framed transport of the client.

A stream of frames gives its messages back exactly when none is empty (`FramesRoundTrip`). A buffered transport asked for
no bytes drops what it has buffered (`TBufferedTransport.Read`); `readAll` never asks for none.

## What stands for the system

Files are byte sequences with append, seek and read; the handle of a reader keeps the position and records the seeks. A put takes what the system does to it as an argument: which call fails,
and how much of the value is written. A kernel that passes data in pieces is an argument too: a count, or a function of the
turn; whether a transport lends its buffer is left open. Tables and buffers are arrays. `qsort` is known by its contract alone.

Where comments and code disagree the code is modelled: `put` reports the failure 4 with the text of 5, because a `break` is
missing, and a value's length is narrowed to 32 bits before it is checked.

## Model

| member | source | states |
|---|---|---|
| `Bytes.DecimalRoundTrip` | src/ozcore/ozwrite.c:84 | reading the digits that `printf` writes for a number gives the number |
| `Bytes.DecimalLength` | src/server/OZWriteService_server.skeleton.cc:98 | k digits are enough exactly below the k-th power of ten |
| `Bytes.DecimalDigit` | src/ozcore/ozwrite.c:84 | digit i from the right is the i-th decimal digit of the number |
| `Bytes.DecimalExamples` | src/ozcore/ozwrite.c:84 | 0, 17 and 2048 are printed so |
| `Bytes.StrCmpZero` | src/ozsort/ozsort.c:36 | `strcmp` returns 0 exactly for equal strings |
| `Bytes.StrCmpAntisymmetric` | src/ozsort/ozsort.c:36 | exchanging the arguments of `strcmp` exchanges its sign |
| `Bytes.StrCmpTransitive` | src/ozsort/ozsort.c:36 | the order of `strcmp` is transitive, also mixed with equality |
| `Bytes.StrCmpAtDifference` | src/ozsort/ozsort.c:36 | at the first byte that differs the smaller byte decides, bytes taken without sign |
| `Bytes.StrCmpPrefix` | src/ozsort/ozsort.c:36 | a string comes before every longer one that begins with it |
| `Records.ScanPrinted` | src/ozcore/oztrav.c:46 | one `fscanf` on a printed line, white space in front and anything behind, returns exactly its three items and stops behind its number |
| `Records.ScanSpaced` | src/ozcore/oztrav.c:46 | one `fscanf` on printed lines returns the first record and leaves the others, or reports the end |
| `Records.ScanText` | src/ozcore/oztrav.c:46-56 | the same without white space in front, as the loading loops use it |
| `Records.TextRoundTrip` | src/ozcore/oztrav.c:44-84 | parsing printed lines gives back the list of records, in as many calls as there are lines |
| `Records.ScanBareKey` | src/ozcore/ozread.c:62 | a line that breaks off behind its key scans as the key without numbers |
| `Records.ValidKeyIs` | src/ozcore/oztrav.c:46 | which keys the text log can hold, byte by byte: 1 to 127 bytes, no NUL, no space, none of 9 to 13 |
| `Records.LineIs` | src/ozcore/ozwrite.c:84 | a line is key, byte 9, offset, byte 9, length, byte 10 |
| `Records.LineExample` | src/ozcore/ozwrite.c:84 | the line of the key "ab" at offset 0 with length 17, in bytes |
| `OzWrite.OZWrite.Put` | src/ozcore/ozwrite.c:46-96 | return code and both files are what the specification says, for every failing system call and every partial write of the value |
| `OzWrite.PutReturnsZero` | src/ozcore/ozwrite.c:46-96 | 0 is returned exactly when the stored length and the key are not empty and no system call fails |
| `OzWrite.CodesOfPut` | src/ozcore/ozwrite.c:46-96 | each return code exactly under its own condition on the call (5 for a narrowed length of 0, then 4, 3, 6, 2, 0), and what each leaves in both files |
| `OzWrite.StoresWholeValue` | src/ozcore/ozwrite.c:50 | a successful put stores the value whole if and only if its length fits 32 bits |
| `OzWrite.LongValueIsCut` | src/ozcore/ozwrite.c:50 | a value of 2^32+1 bytes is put with success and stored as its first byte |
| `OzWrite.PutKeepsLog` | src/ozcore/ozwrite.c:58-96 | every put, successful or leaving bytes without a line, keeps the log: each line addresses a range holding its value, ranges are disjoint and increasing, the value file only grows |
| `OzWrite.AddressesGrow` | src/ozcore/ozwrite.c:72-80 | bytes behind the last value disturb no earlier line |
| `OzWrite.AddressesAppend` | src/ozcore/ozwrite.c:72-84 | a line at the old end of the value file addresses the value just written |
| `OzWrite.RunStored` | src/ozcore/ozwrite.c:46-96 | after any run of puts from empty files the two files store exactly the log of the successful ones |
| `OzWrite.LogOfSnoc` | src/ozcore/ozwrite.c:46-96 | one more put adds its key and its value, the length taken modulo 2^32, to the log if and only if it returns 0 |
| `OzWrite.StoredIsParsed` | src/ozcore/oztrav.c:42-84 | the key file parses to the records that address the log |
| `Index.IndexUnique` | src/ozsort/ozsort.c:193-219 | a set of records has at most one index, so chunking, tie order and merge order cannot show in the output |
| `Index.DedupIsIndex` | src/ozsort/ozsort.c:193-219 | of any key-sorted list, ties in any order, the hold-back loop keeps each key once, in increasing order, with a record of greatest offset |
| `Index.AbsorbKeepsIndex` | src/ozsort/ozsort.c:202-219 | one turn of the loop extends the index by one record |
| `Index.IndexSize` | src/ozcore/ozread.c:61-70 | an index has no more lines than its source |
| `OzMerge.PoolTake` | src/ozsort/ozsort.c:221-229 | reading on in one channel takes exactly one record out of all that remain |
| `OzMerge.MergingStep` | src/ozsort/ozsort.c:170-230 | taking the least head keeps the merged part sorted and below all that remains, conserves the records, and shrinks what remains |
| `OzMerge.MergingEnds` | src/ozsort/ozsort.c:184-191 | when nothing can be selected, exactly the records with keys below the sentinel have been taken |
| `OzMerge.FirstByteDecides` | src/ozsort/ozsort.c:173 | a key is below the string that selection starts from if and only if it is empty or its first byte is below 126 |
| `OzMerge.DedupedStep` | src/ozsort/ozsort.c:193-219 | the four cases of the hold-back: first record, same key newer or older, new key |
| `OzMerge.Last` | src/ozsort/ozsort.c:184-191 | the held-back record printed at the end completes the index |
| `OzMerge.ChannelFirst` | src/ozsort/ozsort.c:154-167 | the first read of a split file loads its first record, or marks the channel ended |
| `OzMerge.ChannelNext` | src/ozsort/ozsort.c:221-229 | the next read of a channel loads its next record, or marks it ended |
| `Sorting.QSort` | src/ozsort/ozsort.c:94 | an ordered permutation, ties in any order; nothing else is used of it, here and in the batch read |
| `OzSort.KeyOrder` | src/ozsort/ozsort.c:31-37 | the comparator of records is a total preorder |
| `OzSort.OZSort.ReadChunk` | src/ozsort/ozsort.c:63-78 | the buffer gets the next records of the source, one call counted for each line, whole or not |
| `OzSort.OZSort.WriteChunk` | src/ozsort/ozsort.c:93-102 | the split file lists the buffer's records sorted by key |
| `OzSort.OZSort.SplitOnce` | src/ozsort/ozsort.c:61-110 | one round: every record read so far is in exactly one split, the files are counted, the limit is noticed |
| `OzSort.OZSort.Split` | src/ozsort/ozsort.c:39-113 | fails with 3 exactly when calls/size+1 files exceed the limit; otherwise makes that many, sorted, together holding exactly the records of the source |
| `OzSort.ConservedStep` | src/ozsort/ozsort.c:63-102 | a chunk moved from the source into a split conserves the multiset of records |
| `OzSort.ReadLast` | src/ozsort/ozsort.c:64-83 | calls/size+1 files are needed: the chunk in hand is the last exactly when fewer calls than its size remain |
| `OzSort.OZSort.LoadFirst` | src/ozsort/ozsort.c:127-167 | every channel holds the first record of its split and the rest of the file |
| `OzSort.OZSort.ReadNext` | src/ozsort/ozsort.c:221-229 | one channel advances, the others are untouched |
| `OzSort.OZSort.SelectMin` | src/ozsort/ozsort.c:172-183 | a live channel with a least key below the sentinel, or none if there is none |
| `OzSort.OZSort.Advance` | src/ozsort/ozsort.c:221-229 | the selected channel is behind the record taken |
| `OzSort.OZSort.HoldBack` | src/ozsort/ozsort.c:193-219 | merge file, held-back record and line count go on being the index of what was taken |
| `OzSort.OZSort.Merge` | src/ozsort/ozsort.c:115-254 | the merge file is the index of all records below the sentinel and `_mlines` is its number of lines; the loop ends because records run out |
| `OzSort.OZSort.Work` | src/ozsort/ozsort.c:16-29 | for every chunk size and every number of files: 1 exactly at the split limit, otherwise the index of the source |
| `OzSort.UpToFFWhole` | src/ozsort/main.c:22-46 | the copying loop, which compares a `char` with EOF, copies the whole file if and only if it holds no byte 0xFF |
| `OzSort.UpToFFIs` | src/ozsort/main.c:43-46 | a front part without 0xFF that ends at the end of the file or at an 0xFF is what is printed |
| `OzSort.CopyOut` | src/ozsort/main.c:43-46 | the loop prints the file up to the first byte 0xFF |
| `OzSort.OZoneSort` | src/ozsort/main.c:31-60 | prints the count and the merge file, or the count 0 exactly at the split limit |
| `OzSort.CopyIsWhole` | src/ozsort/main.c:43-46 | of a log the printed table is complete if and only if no key below "~" holds the byte 0xFF |
| `OzSort.KeyWithFFIsCut` | src/ozsort/main.c:43-46 | for the one key "a" 0xFF only the "a" is printed, which scans as another key without numbers |
| `OzSort.MergeIsWhole` | src/ozsort/ozsort.c:172-191 | the merge indexes all records if and only if every key is below "~" |
| `OzRead.CountPrinted` | src/ozcore/ozread.c:55 | the loader reads the printed count and stops at the line end |
| `OzRead.OZRead.FillTable` | src/ozcore/ozread.c:61-70 | the table is filled with the printed records, slot by slot, to the end and not past it |
| `OzRead.OZRead.OpenKeyFile` | src/ozcore/ozread.c:27-76 | 2 for a count of 0, otherwise the table is the printed index |
| `OzRead.OZRead.Seek` | src/ozcore/ozread.c:169 | moves the position of the value file, and refuses an offset that is negative as `off_t` |
| `OzRead.OZRead.ReadItem` | src/ozcore/ozread.c:175 | one item at the position goes to the front of the buffer, if the file has so much; nothing behind it is written |
| `OzRead.OZRead.GetKey` | src/ozcore/ozread.c:134-162 | the binary search finds the record of the key if and only if the table has one |
| `OzRead.OZRead.GetValue` | src/ozcore/ozread.c:164-182 | one seek, then exactly the addressed bytes and a terminator in the buffer, or 3 when the file is shorter |
| `OzRead.OZRead.Get` | src/ozcore/ozread.c:93-132 | 0 with the value's bytes, 3 for a missing key, 4 for an unreadable value, as the table and the file demand |
| `OzRead.LookupOfSlot` | src/ozcore/ozread.c:164-182 | a slot of the table is found with exactly the bytes it addresses, and is unreadable if and only if its length is 0, its offset 2^63 or more, or the file too short; a key is missing if and only if no slot has it |
| `OzGets.OffsetOrder` | src/ozcore/ozread.c:290-308 | the comparator of cookies, on offsets as signed 64-bit numbers, is a total preorder |
| `OzGets.GetsKeys` | src/ozcore/ozread.c:310-344 | the cookies are the hits of all keys, one for each index, as many as there are hits, in offset order; null and missing keys have none |
| `OzGets.AnswersPermuted` | src/ozcore/ozread.c:332-334 | sorting the cookies loses no answer and repeats none, whatever the order of equal offsets |
| `OzGets.DistinctPermuted` | src/ozcore/ozread.c:332-334 | after sorting still no two cookies share an index |
| `OzGets.Allocate` | src/ozcore/ozread.c:273-281 | each hit has a buffer of its own of `_length+1` bytes, every other slot stays null |
| `OzGets.ReadValue` | src/ozcore/ozread.c:356-376 | one seek to the offset and one read, then a terminator, or an empty string when the read fails |
| `OzGets.GetsValues` | src/ozcore/ozread.c:346-380 | every cookie's buffer is filled, no other; the seeks on the value file are the cookies' offsets in turn |
| `OzGets.ReadBatch` | src/ozcore/ozread.c:252-288 | slot i holds what `ozread_get` gives for key i, null for missing and null keys, duplicates included; the value file is sought once for each key found, at nondecreasing offsets |
| `EndToEnd.LogOffsetsTell` | src/ozcore/ozwrite.c:64-84 | records of a log differ in offset |
| `EndToEnd.SortedTableIsUnique` | src/ozsort/ozsort.c:39-254 | a log has exactly one sorted table, for all chunk sizes, sort and merge orders |
| `EndToEnd.LookupIsLastPut` | src/ozcore/ozread.c:93-182 | a lookup in the table of a log answers the last put of every key below the sentinel and nothing for any other |
| `EndToEnd.LookupByFirstByte` | src/ozsort/ozsort.c:173 | the same by the first byte: below 126 the last put is answered, from 126 on every key is missing |
| `EndToEnd.EmptyKeyNeverPut` | src/ozcore/ozwrite.c:78-81 | no log has an entry under the empty key |
| `EndToEnd.AnswersAsPutIff` | src/ozsort/ozsort.c:173 | a lookup in the merged index answers a key as its puts demand if and only if the key is below "~" or was never put |
| `EndToEnd.TableIsWhole` | src/ozsort/main.c:43-46 | in terms of what was put: the table is whole if and only if no key below "~" holds 0xFF |
| `EndToEnd.SplitLimit` | src/ozsort/ozsort.c:64-84 | the sorter splits n lines into n/204800+1 files of which it allows 100: it accepts a log if and only if it has fewer than 20480000 lines |
| `EndToEnd.WriteAll` | src/ozcore/ozwrite.c:46-96 | a run of calls leaves the files of the specified run |
| `EndToEnd.Open` | src/ozcore/ozread.c:13-76 | opening sorts and loads: 0 with the index of the log, or 2 exactly when the log is too long |
| `EndToEnd.PutsThenGet` | src/ozcore/ozread.c:93-132 | after any run of puts, failing ones included, and split, merge, print, load and search: for a key whose first byte is below 126 that has been put with success `get` returns 0 with the last such value's bytes and a NUL, and 3 for every other key |
| `EndToEnd.GetSentinel` | src/ozsort/ozsort.c:173 | after puts of "a" and "~", a log that can be served, a get of "~" answers 3 |
| `OzTrav.Count` | src/ozcore/oztrav.c:42-56 | the first pass counts the whole records |
| `OzTrav.OZTrav.Fill` | src/ozcore/oztrav.c:64-84 | the second pass fills the table with them, in file order |
| `OzTrav.OZTrav.OpenKeyFile` | src/ozcore/oztrav.c:18-90 | 2 for a log without records, otherwise the table is the log |
| `OzTrav.Reserve` | src/ozcore/oztrav.c:185-195 | the buffer has room for the text and its terminator afterwards, and never shrinks |
| `OzTrav.CopyInto` | src/ozcore/oztrav.c:197-203 | the buffer shows the text, terminated |
| `OzTrav.Cursor.ShowKey` | src/ozcore/oztrav.c:205-220 | the key buffer shows the key, with more allocated than its length |
| `OzTrav.Cursor.Next` | src/ozcore/oztrav.c:165-227 | 1 exactly at the end; otherwise the record under the cursor, key and addressed bytes of the file, in both buffers and the cursor moved on, or 2 exactly when it is empty or reaches past the file; what the buffers held before does not matter |
| `TravService.TravServiceHandler.NextKv` | src/server/OZTravService_server.skeleton.cc:53-81 | the reply is a function of the log and of the argument alone, and the end exactly from the number of records on |
| `TravService.TravServiceHandler.Serve` | src/server/OZTravService_server.skeleton.cc:53-81 | any interleaving of clients on the one cursor gives the specified session |
| `TravService.ReplyIsEntry` | src/server/OZTravService_server.skeleton.cc:62-77 | for a position within the log the reply is that put and the next position, behind it the end |
| `TravService.ClientsDoNotInterfere` | src/server/OZTravService_server.skeleton.cc:53-81 | what one client sees is its own replay of the log, whatever the others do |
| `TravService.ReplayAt` | src/server/OZTravService_server.skeleton.cc:62-77 | the i-th reply of a replay is the i-th put from where it starts |
| `TravService.SessionReplies` | src/server/OZTravService_server.skeleton.cc:53-81 | for any interleaving the i-th reply is the put at the place its client started from plus the turns it had before, with the next position, or the end |
| `TravService.FirstTurn` | src/server/OZTravService_server.skeleton.cc:53-81 | one turn answers its client and moves that client's position alone |
| `TravService.CollectIsLastPut` | src/ozcore/oztrav.c:165-227 | folding a traversal with last-write-wins gives exactly the last put of each key, as a lookup answers it |
| `TravService.TraversalAgreesWithTable` | src/ozcore/oztrav.c:165-227 | for every key below "~" the sorted table and the folded traversal of the same log give the same value, or both none |
| `TravService.PutsThenServe` | src/server/OZTravService_server.skeleton.cc:53-81 | after any run of puts and for any interleaving of clients each reply is the next successful put of its client, with the position behind it, and then the end; so each client sees the puts in order from where it starts |
| `WriteService.KeyTextWhole` | src/server/OZWriteService_server.skeleton.cc:98 | the 16-byte key buffer holds the number whole if and only if it has at most 15 digits |
| `WriteService.ServiceKeysAreServable` | src/server/OZWriteService_server.skeleton.cc:97-98 | every key the service can make is valid, free of 0xFF and below the sentinel |
| `WriteService.AtoiDecimal` | src/server/OZWriteService_server.skeleton.cc:77 | `atoi` of a printed number below 2^63 is the number narrowed to `int`, so the number itself below 2^31 |
| `WriteService.AtoiOthers` | src/server/OZWriteService_server.skeleton.cc:77 | a minus sign negates, a plus sign does not, and a text that begins neither with a digit nor with a sign is 0 |
| `WriteService.MaxId` | src/server/OZWriteService_server.skeleton.cc:75-82 | no key in the file has a greater `atoi`, and the maximum is in the range of `int` |
| `WriteService.MaxIdAttained` | src/server/OZWriteService_server.skeleton.cc:75-82 | the maximum is 0 or the `atoi` of a key in the file |
| `WriteService.RecoveredIs` | src/server/OZWriteService_server.skeleton.cc:58-86 | from a file whose keys are numbers below 2^31 the counter recovers to one of them plus one, above all of them; to 1 from an empty file |
| `WriteService.KeysReadText` | src/server/OZWriteService_server.skeleton.cc:75 | the recovering loop sees the key of every line |
| `WriteService.OZWriteServiceHandler.GetMax` | src/server/OZWriteService_server.skeleton.cc:58-86 | the counter is one above the greatest id of the file, as `RecoveredIs` spells out, and 1 if there is none above 0 |
| `WriteService.OZWriteServiceHandler.Put` | src/server/OZWriteService_server.skeleton.cc:88-137 | one key taken and the counter moved on by one; one put done with it; the exact text for an empty value and for each failing call, 4 reported as 5; no exception exactly when the put succeeded |
| `WriteService.OZWriteServiceHandler.Puts` | src/server/OZWriteService_server.skeleton.cc:139-161 | a key for every value, results ignored: the files are those of the puts under consecutive keys |
| `WriteService.JobIsRun` | src/server/OZWriteService_server.skeleton.cc:139-161 | a batch is the run of puts under consecutive keys, and the counter grows by its size |
| `WriteProtocol.ExclusiveStep` | src/server/OZWriteService_server.skeleton.cc:88-161 | only the holder of the lock is past asking for it, after every step |
| `WriteProtocol.DataStep` | src/server/OZWriteService_server.skeleton.cc:88-161 | which step changes the files, the counter and the key buffer, and how |
| `WriteProtocol.RecoveredIsFresh` | src/server/OZWriteService_server.skeleton.cc:58-86 | after a restart the counter is again above every id in the file |
| `WriteProtocol.InvStep` | src/server/OZWriteService_server.skeleton.cc:58-161 | every step of every thread and a restart at any moment keep: ids grow from line to line, all below the counter, and the files store the log so far and what the step put |
| `WriteProtocol.InvRun` | src/server/OZWriteService_server.skeleton.cc:58-161 | so does every run, and the log grows by its successful puts |
| `WriteProtocol.IdsAreUnique` | src/server/OZWriteService_server.skeleton.cc:58-161 | over every run, with failures, interleaving and restarts, the files store exactly its successful puts in order, no two lines share a key, and the counter exceeds every id |
| `WriteProtocol.DistinctIndex` | src/ozsort/ozsort.c:193-219 | with distinct keys an index of all lines has as many entries as there are lines |
| `WriteProtocol.NothingOverwritten` | src/server/OZWriteService_server.skeleton.cc:97-101 | with distinct keys every entry of a log is the last one under its key |
| `WriteProtocol.EveryPutIsServed` | src/server/OZWriteService_server.skeleton.cc:58-161 | for every run the table of the sorter has exactly as many entries as there were successful puts, and a lookup finds each of them with its value |
| `WriteProtocol.RunIsServable` | src/server/OZWriteService_server.skeleton.cc:97-101 | the files of a run with at least one success, and no value near 2^32 bytes, meet what a reader demands |
| `WriteProtocol.OpenAfterRun` | src/ozcore/ozread.c:13-76 | a reader opened on the files of a run, sorter and loader included, has a slot for every successful put and finds each |
| `WriteProtocol.RecoveryExact` | src/server/OZWriteService_server.skeleton.cc:77-83 | recovery ends above every id of the file if and only if all are in the range of `int` |
| `WriteProtocol.IdBeyondIntIsForgotten` | src/server/OZWriteService_server.skeleton.cc:77-83 | from a file with the one id 2^31 the counter recovers to 1 |
| `WriteProtocol.LockExcludes` | src/server/OZWriteService_server.skeleton.cc:91-95 | while a thread holds the lock no other changes files, counter or key buffer |
| `WriteProtocol.CriticalSectionIsLoop` | src/server/OZWriteService_server.skeleton.cc:148-157 | the steps of the lock holder amount to the loop of `puts` |
| `ReadService.UpToNulWhole` | src/server/OZReadService_server.skeleton.cc:114 | a C string copy is whole if and only if the value holds no NUL |
| `ReadService.GetsAgreesWithGet` | src/server/OZReadService_server.skeleton.cc:46-139 | `gets` replies what `get` replies for a value if and only if it holds no NUL |
| `ReadService.NulCutsValue` | src/server/OZReadService_server.skeleton.cc:114 | of the bytes 1 0 2 `get` replies all three and `gets` the first |
| `ReadService.Get` | src/server/OZReadService_server.skeleton.cc:46-83 | a value is replied if and only if the lookup finds it; a key that is not in the table gives the exception "key not found" |
| `ReadService.RepliesOf` | src/server/OZReadService_server.skeleton.cc:60-82 | the value exactly when one was found, "key not found" for a missing key, "get value fail" for an unreadable value |
| `ReadService.PushesOf` | src/server/OZReadService_server.skeleton.cc:105-117 | an empty string for a missing or unreadable value, otherwise the value up to its first NUL |
| `ReadService.OpenLog` | src/ozcore/ozread.c:13-76 | after any run of puts, sort and load: a table that can be searched, in which a key whose first byte is below 126 finds its last value |
| `ReadService.PutsThenServiceGet` | src/server/OZReadService_server.skeleton.cc:46-83 | after any run of puts, and sort and load, the service's `get` replies the last value of every key put whose first byte is below 126, and throws "key not found" for any other |
| `ReadService.Assign` | src/server/OZReadService_server.skeleton.cc:114 | the bytes of a buffer up to its first NUL |
| `ReadService.Gets` | src/server/OZReadService_server.skeleton.cc:85-139 | one string for each key in order: the value up to its first NUL, empty for a missing key |
| `ReadService.PutsThenGets` | src/server/OZReadService_server.skeleton.cc:85-139 | after any run of puts, and sort and load, `gets` replies for each key put whose first byte is below 126 its last value up to the first NUL, and an empty string for any other |
| `Bits.ZigzagCppIs` | include_deps/thrift/protocol/TCompactProtocol.tcc:373-385 | on every number of the width the shift-and-xor expression is the zigzag code and fits the width |
| `Bits.UnzigzagCppIs` | include_deps/thrift/protocol/TCompactProtocol.tcc:762-773 | on every code of the width the decoding expression is the number with that code |
| `Bits.ZigzagCppRoundTrip` | include_deps/thrift/protocol/TCompactProtocol.tcc:373-385 | decoding inverts encoding on all numbers of 32 and of 64 bits |
| `Bits.ZigzagPyIs` | src/client/py/thrift/protocol/TCompactProtocol.py:26-27 | Python's expression on unbounded integers gives the same code |
| `Bits.UnzigzagPyIs` | src/client/py/thrift/protocol/TCompactProtocol.py:29-30 | and its decoder inverts it for codes of any size |
| `WireBytes.ZigzagBytes` | include_deps/thrift/protocol/TCompactProtocol.tcc:373-385 | 0, -1, 1, -2, 2 and so on go out as the varints of 0, 1, 2, 3, 4, in both widths |
| `Wire.BigEndianRoundTrip` | include_deps/thrift/protocol/TBinaryProtocol.tcc:140-164 | k bytes in network order hold every number of 8k bits |
| `Wire.LittleEndianRoundTrip` | include_deps/thrift/protocol/TCompactProtocol.tcc:248-258 | the same in the byte order of compact doubles |
| `WireBytes.NetworkOrder` | include_deps/thrift/protocol/TBinaryProtocol.tcc:140-164 | four bytes, most significant first, written out |
| `WireBytes.ByteAt` | include_deps/thrift/protocol/TCompactProtocol.tcc:248-258 | byte i of either order is the quotient by 2^8i, for every width |
| `Varints.WriteVarint` | include_deps/thrift/protocol/TCompactProtocol.tcc:330-367 | the loop writes seven bits a byte, least significant first |
| `Varints.VarintIsShortest` | include_deps/thrift/protocol/TCompactProtocol.tcc:330-367 | the encoding has at most m bytes if and only if the number is below 128^m |
| `Varints.VarintWidth` | include_deps/thrift/protocol/TCompactProtocol.tcc:331-352 | at most 5 bytes for 32 bits, 10 for 64 |
| `WireBytes.VarintByte` | include_deps/thrift/protocol/TCompactProtocol.tcc:330-367 | byte i holds the i-th group of seven bits, with the high bit on all but the last |
| `WireBytes.VarintExamples` | include_deps/thrift/protocol/TCompactProtocol.tcc:330-367 | 0, 127, 128 and 300 are written so |
| `Refusals.EndlessVarint` | include_deps/thrift/protocol/TCompactProtocol.tcc:712-757 | from any point on, bytes with the high bit are refused at the tenth and cut off before |
| `Refusals.LongVarintsRefused` | include_deps/thrift/protocol/TCompactProtocol.tcc:712-757 | ten bytes with the high bit are no number |
| `Varints.ReadVarint64` | include_deps/thrift/protocol/TCompactProtocol.tcc:712-757 | the borrowed fast path and the byte-by-byte path give the same result on every input, whether or not the transport lends the bytes it has |
| `Varints.VarintRoundTrip` | include_deps/thrift/protocol/TCompactProtocol.tcc:700-757 | reading inverts writing on all 64-bit numbers and stops behind the last byte |
| `PyReading.VarintPyRoundTrip` | src/client/py/thrift/protocol/TCompactProtocol.py:43-52 | Python reads back a varint of any size |
| `PyReading.VarintReadersAgree` | src/client/py/thrift/protocol/TCompactProtocol.py:43-52 | on every input the C++ reader accepts, Python stops at the same byte with the same low 64 bits |
| `Compact.TypeOfItsCType` | include_deps/thrift/protocol/TCompactProtocol.tcc:775-807 | the type of the code of a type is the type |
| `Compact.CodesOfTypes` | include_deps/thrift/protocol/TCompactProtocol.tcc:775-807 | every code from 1 to 12 has a type of its own, but for the two codes of a boolean (`WireBytes.CompactCodes` writes them out) |
| `WireBytes.CompactCodes` | include_deps/thrift/protocol/TCompactProtocol.tcc:48-82 | the code of every type, and which codes have none |
| `Compact.ReadI16Of` | include_deps/thrift/protocol/TCompactProtocol.tcc:606-612 | reading inverts writing for every 16-bit number |
| `Compact.ReadI32Of` | include_deps/thrift/protocol/TCompactProtocol.tcc:617-623 | reading inverts writing for every 32-bit number |
| `Compact.ReadI64Of` | include_deps/thrift/protocol/TCompactProtocol.tcc:628-634 | reading inverts writing for every 64-bit number |
| `Compact.ReadStringOf` | include_deps/thrift/protocol/TCompactProtocol.tcc:661-694 | reading inverts writing for every string shorter than 2^31 |
| `Compact.ReadFieldHeadOf` | include_deps/thrift/protocol/TCompactProtocol.tcc:456-500 | a field header, short or long, gives back type and id, remembers the id, and keeps a boolean that it carries |
| `Compact.ReadListHeadOf` | include_deps/thrift/protocol/TCompactProtocol.tcc:535-562 | a list header, short or long, gives back element type and size |
| `Compact.ReadMapHeadOf` | include_deps/thrift/protocol/TCompactProtocol.tcc:504-529 | a map header gives back types and size; an empty map loses its types |
| `WireBytes.CompactListHeads` | include_deps/thrift/protocol/TCompactProtocol.tcc:314-325 | for each type and every size to 14 the one byte of the header |
| `WireBytes.CompactLongListHeads` | include_deps/thrift/protocol/TCompactProtocol.tcc:314-325 | for each type and every larger size the byte and the varint |
| `WireBytes.CompactFieldHeads` | include_deps/thrift/protocol/TCompactProtocol.tcc:284-308 | for each type, and each boolean, and every delta from 1 to 15 the one byte of the header |
| `WireBytes.CompactLongFieldHeads` | include_deps/thrift/protocol/TCompactProtocol.tcc:284-308 | for each type and every other id the byte and the zigzag varint |
| `WireBytes.CompactMapHeads` | include_deps/thrift/protocol/TCompactProtocol.tcc:174-187 | a zero for an empty map, otherwise the size and both codes in a byte |
| `WireBytes.CompactValues` | include_deps/thrift/protocol/TCompactProtocol.tcc:132-275 | booleans in containers, strings and the end of a struct in bytes |
| `Refusals.CompactSizesRefused` | include_deps/thrift/protocol/TCompactProtocol.tcc:504-694 | a string or map size of 2^31 to 2^32 is refused as negative |
| `Refusals.CompactListSizesRefused` | include_deps/thrift/protocol/TCompactProtocol.tcc:535-562 | so is a list size |
| `Refusals.UnknownCodesRefused` | include_deps/thrift/protocol/TCompactProtocol.tcc:456-562 | codes above 12 are refused in field and list headers, by both languages |
| `Refusals.FieldIdsWrap` | include_deps/thrift/protocol/TCompactProtocol.tcc:456-500 | behind field id 32767 a delta of 1 gives -32768 in C++ and 32768 in Python |
| `Binary.ReadIntOf` | include_deps/thrift/protocol/TBinaryProtocol.tcc:347-384 | reading inverts writing for integers of every width |
| `Binary.ReadStringOf` | include_deps/thrift/protocol/TBinaryProtocol.tcc:403-409 | reading inverts writing for every string shorter than 2^31 |
| `Binary.ReadFieldHeadOf` | include_deps/thrift/protocol/TBinaryProtocol.tcc:245-260 | a field header gives back type and id |
| `Binary.ReadListHeadOf` | include_deps/thrift/protocol/TBinaryProtocol.tcc:293-309 | a list header gives back element type and size |
| `Binary.ReadMapHeadOf` | include_deps/thrift/protocol/TBinaryProtocol.tcc:267-286 | a map header gives back both types and the size, empty or not |
| `WireBytes.BinaryCodes` | include_deps/thrift/protocol/TProtocol.h:137-156 | the code of every type, and that other codes are kept as they are |
| `WireBytes.IntBytes` | include_deps/thrift/protocol/TBinaryProtocol.tcc:139-157 | integers of one, two and four bytes, negative ones as their remainder, written out |
| `WireBytes.BinaryFieldHeads` | include_deps/thrift/protocol/TBinaryProtocol.tcc:66-74 | for each type and every id the three bytes |
| `WireBytes.BinaryContainerHeads` | include_deps/thrift/protocol/TBinaryProtocol.tcc:88-116 | for each type and every size the five bytes of a list header; a map header has the type of its keys in front |
| `WireBytes.BinaryValues` | include_deps/thrift/protocol/TBinaryProtocol.tcc:132-186 | booleans, strings, the end of a struct, and doubles of all protocols in bytes |
| `Refusals.BinarySizesRefused` | include_deps/thrift/protocol/TBinaryProtocol.tcc:403-430 | a string size is refused as negative when its first byte is 128 or more |
| `Refusals.BinaryListSizesRefused` | include_deps/thrift/protocol/TBinaryProtocol.tcc:293-309 | so is a list size |
| `RoundTrip.RoundTrip` | include_deps/thrift/protocol/TCompactProtocol.tcc:105-694 | for both protocols and every nesting, reading an encoded value gives it back (an empty compact map without its types), stops at its end, and restores last field id, stack and pending boolean |
| `RoundTrip.BinaryKeepsValue` | include_deps/thrift/protocol/TBinaryProtocol.tcc:66-186 | over the binary protocol nothing at all is lost |
| `RoundTrip.BinaryRoundTrip` | include_deps/thrift/protocol/TBinaryProtocol.tcc:66-456 | over the binary protocol every typed value comes back as it was |
| `RoundTrip.FieldsRoundTrip` | include_deps/thrift/protocol/TCompactProtocol.tcc:456-500 | a field sequence comes back in order from any last field id, up to the stop |
| `RoundTrip.FieldRoundTrip` | include_deps/thrift/protocol/TCompactProtocol.tcc:195-213 | one field: header, then value, unless the header carried a boolean |
| `RoundTrip.SkipFollowsDecode` | include_deps/thrift/protocol/TProtocol.h:175-273 | on every byte string that reads as a value, skipping ends in the same state |
| `RoundTrip.SkipIsExact` | include_deps/thrift/protocol/TProtocol.h:175-273 | skipping an encoded value stops exactly at its end and restores the reader's state, for both protocols |
| `Refusals.EmptyInput` | include_deps/thrift/protocol/TProtocol.h:175-273 | without input, reading and skipping fail with end of file for every type |
| `Refusals.UnknownTypesAreNotSkipped` | include_deps/thrift/protocol/TProtocol.h:269-272 | `skip` takes nothing for a stop or an unknown type |
| `Skipping.SkipValue` | include_deps/thrift/protocol/TProtocol.h:175-273 | on every byte string `skip` terminates, stops where specified and returns the number of bytes taken, or throws |
| `Skipping.SkipScalar` | include_deps/thrift/protocol/TProtocol.h:178-212 | one read of the type; unknown types take nothing |
| `Skipping.SkipStruct` | include_deps/thrift/protocol/TProtocol.h:213-230 | a struct up to its stop, in a scope of its own |
| `Skipping.SkipFieldLoop` | include_deps/thrift/protocol/TProtocol.h:220-227 | every turn of the loop takes input, and it ends behind the stop |
| `Skipping.SkipMap` | include_deps/thrift/protocol/TProtocol.h:231-244 | the header, then all entries |
| `Skipping.SkipMapLoop` | include_deps/thrift/protocol/TProtocol.h:238-241 | key and value of each entry, in turn |
| `Skipping.SkipCollection` | include_deps/thrift/protocol/TProtocol.h:245-268 | the header, then all elements |
| `Skipping.SkipListLoop` | include_deps/thrift/protocol/TProtocol.h:251-253 | each element in turn |
| `Skipping.WriteValue` | include_deps/thrift/protocol/TCompactProtocol.tcc:105-325 | the calls that write a value append its encoding, return its length and leave the object's state as it was |
| `Skipping.WriteElements` | include_deps/thrift/protocol/TCompactProtocol.tcc:155-170 | header and elements of a list or set |
| `Skipping.WriteEntries` | include_deps/thrift/protocol/TCompactProtocol.tcc:174-187 | the entries of a map, keys before values |
| `Skipping.WriteField` | include_deps/thrift/protocol/TCompactProtocol.tcc:195-213 | header and value; a compact boolean writes both in one call |
| `Skipping.WriteStruct` | include_deps/thrift/protocol/TCompactProtocol.tcc:132-150 | all fields and the stop, in a scope of field ids of its own |
| `TProtocols.TProtocol.WriteI16` | include_deps/thrift/protocol/TCompactProtocol.tcc:224-227 | appends the encoding and returns its length |
| `TProtocols.TProtocol.WriteI32` | include_deps/thrift/protocol/TCompactProtocol.tcc:232-235 | appends the encoding and returns its length |
| `TProtocols.TProtocol.WriteI64` | include_deps/thrift/protocol/TCompactProtocol.tcc:240-243 | appends the encoding and returns its length |
| `TProtocols.TProtocol.WriteDouble` | include_deps/thrift/protocol/TCompactProtocol.tcc:248-258 | appends the eight bytes in the order of the protocol |
| `TProtocols.TProtocol.WriteString` | include_deps/thrift/protocol/TCompactProtocol.tcc:262-275 | appends the length, narrowed to 32 bits, and so many bytes |
| `TProtocols.TProtocol.WriteListBegin` | include_deps/thrift/protocol/TCompactProtocol.tcc:314-325 | appends the short or the long header; from 2^31 on the compact size is negative and one byte goes out |
| `TProtocols.TProtocol.WriteMapBegin` | include_deps/thrift/protocol/TCompactProtocol.tcc:174-187 | appends the header for every 32-bit size, a single zero for an empty compact map |
| `TProtocols.TProtocol.WriteStructBegin` | include_deps/thrift/protocol/TCompactProtocol.tcc:132-137 | pushes the last field id and starts from 0 |
| `TProtocols.TProtocol.WriteStructEnd` | include_deps/thrift/protocol/TCompactProtocol.tcc:145-150 | pops it |
| `TProtocols.TProtocol.WriteFieldHead` | include_deps/thrift/protocol/TCompactProtocol.tcc:284-308 | a delta or the full id, and the id remembered |
| `TProtocols.TProtocol.WriteFieldBegin` | include_deps/thrift/protocol/TCompactProtocol.tcc:105-117 | the header, whose bytes `WireBytes` spells out for each type, or a boolean's id kept for its value |
| `TProtocols.TProtocol.WriteBool` | include_deps/thrift/protocol/TCompactProtocol.tcc:195-213 | completes a waiting header, or writes a byte of its own |
| `TProtocols.TProtocol.WriteMessageBegin` | include_deps/thrift/protocol/TBinaryProtocol.tcc:30-48 | the header of either protocol, strict or not |
| `TProtocols.TProtocol.ReadVarintOf` | include_deps/thrift/protocol/TCompactProtocol.tcc:700-757 | result, position and byte count on every input |
| `TProtocols.TProtocol.ReadI16` | include_deps/thrift/protocol/TCompactProtocol.tcc:606-612 | result, position and byte count on every input |
| `TProtocols.TProtocol.ReadI32` | include_deps/thrift/protocol/TCompactProtocol.tcc:617-623 | result, position and byte count on every input |
| `TProtocols.TProtocol.ReadI64` | include_deps/thrift/protocol/TCompactProtocol.tcc:628-634 | result, position and byte count on every input |
| `TProtocols.TProtocol.ReadDouble` | include_deps/thrift/protocol/TCompactProtocol.tcc:639-651 | result, position and byte count on every input |
| `TProtocols.TProtocol.ReadString` | include_deps/thrift/protocol/TCompactProtocol.tcc:661-694 | result, position and byte count on every input, a negative size refused |
| `TProtocols.TProtocol.ReadBool` | include_deps/thrift/protocol/TCompactProtocol.tcc:578-590 | a pending boolean is used up, otherwise a byte is read |
| `TProtocols.TProtocol.ReadStructBegin` | include_deps/thrift/protocol/TCompactProtocol.tcc:434-440 | pushes the last field id and starts from 0 |
| `TProtocols.TProtocol.ReadStructEnd` | include_deps/thrift/protocol/TCompactProtocol.tcc:446-452 | pops it |
| `TProtocols.TProtocol.ReadCompactFieldBegin` | include_deps/thrift/protocol/TCompactProtocol.tcc:456-500 | result, remembered id and pending boolean on every input |
| `TProtocols.TProtocol.ReadBinaryFieldBegin` | include_deps/thrift/protocol/TBinaryProtocol.tcc:245-260 | result and position on every input; no id behind a stop |
| `TProtocols.TProtocol.ReadListBegin` | include_deps/thrift/protocol/TCompactProtocol.tcc:535-562 | result and position on every input, a negative size refused |
| `TProtocols.TProtocol.ReadCompactMapBegin` | include_deps/thrift/protocol/TCompactProtocol.tcc:504-529 | result and position on every input, types read only if the size is not 0 |
| `TProtocols.TProtocol.ReadBinaryMapBegin` | include_deps/thrift/protocol/TBinaryProtocol.tcc:267-286 | result and position on every input |
| `TProtocols.TProtocol.ReadCompactMessageBegin` | include_deps/thrift/protocol/TCompactProtocol.tcc:402-428 | result, position and byte count on every input |
| `TProtocols.TProtocol.ReadBinaryMessageBegin` | include_deps/thrift/protocol/TBinaryProtocol.tcc:197-227 | result, position and byte count on every input, old headers refused by a strict reader |
| `TravPairs.ReadMemberOf` | src/server/ozstore_types.cpp:85-114 | reading one encoded field assigns it if its id and type are a member's, and skips it otherwise |
| `TravPairs.ReadMembersOf` | src/server/ozstore_types.cpp:79-116 | any well-formed fields with unknown or wrongly typed ones anywhere among them are folded into key, value and cur, and the reader stops behind the struct |
| `TravPairs.LastCounts` | src/server/ozstore_types.cpp:79-116 | of all well-typed fields for a member the last one gives its value and sets it |
| `TravPairs.OthersIgnored` | src/server/ozstore_types.cpp:79-116 | without such a field the member and its flag stay as they were |
| `TravPairs.TravPair.Read` | src/server/ozstore_types.cpp:67-121 | members, protocol state and byte count on every input |
| `TravPairs.TravPair.Write` | src/server/ozstore_types.cpp:123-138 | the three fields are appended, byte by byte for both protocols: headers, sizes, key, value, cur and the stop; strings as narrowed; their length returned |
| `TravPairs.CompactBytes` | src/server/ozstore_types.cpp:123-138 | the compact encoding of every pair, with all header bytes written out |
| `TravPairs.BinaryBytes` | src/server/ozstore_types.cpp:123-138 | the binary encoding of every pair, with all header and size bytes written out |
| `TravPairs.ReadWritten` | src/server/ozstore_types.cpp:67-138 | reading what was written sets the three members, whatever they were before |
| `TravPairs.WriteThenRead` | src/server/ozstore_types.cpp:67-138 | read after write is the identity and both return the same byte count, for both protocols |
| `Messages.BinaryHeadersAgree` | src/client/py/thrift/protocol/TBinaryProtocol.py:44-52 | both languages write the same binary header, strict or not |
| `Messages.BinaryHeaderRoundTrip` | include_deps/thrift/protocol/TBinaryProtocol.tcc:30-227 | either language reads back what either has written, except that a strict reader refuses an old header |
| `WireBytes.BinaryMessageBytes` | include_deps/thrift/protocol/TBinaryProtocol.tcc:30-48 | the bytes of a strict header (0x80 0x01 0x00 and the type in front) and of an old one |
| `Refusals.BinaryHeadersRefused` | include_deps/thrift/protocol/TBinaryProtocol.tcc:197-227 | a first word that is negative and does not begin with 0x80 0x01 is refused, by both languages |
| `Messages.CompactHeaderExact` | include_deps/thrift/protocol/TCompactProtocol.tcc:402-428 | the C++ reader gives back a compact header if and only if the type is below 4: one-way calls change |
| `Messages.OneWayIsLost` | include_deps/thrift/protocol/TCompactProtocol.tcc:423 | a one-way call is read with type 0 |
| `WireBytes.CompactMessageBytes` | include_deps/thrift/protocol/TCompactProtocol.tcc:86-97 | 0x82, then 1 plus 32 times the type, the sequence number, and the name behind its size |
| `Refusals.CompactHeadersRefused` | include_deps/thrift/protocol/TCompactProtocol.tcc:402-428 | any other first byte, or version in the second, is refused, by both languages |
| `Messages.CompactHeaderExactPy` | src/client/py/thrift/protocol/TCompactProtocol.py:280-294 | the Python reader gives back a compact header if and only if the sequence number is not negative |
| `Messages.NegativeSeqidIsLost` | src/client/py/thrift/protocol/TCompactProtocol.py:292 | the sequence number -1 is read as 2^32-1 |
| `Messages.CompactHeadersAgree` | src/client/py/thrift/protocol/TCompactProtocol.py:111-117 | for sequence numbers that are not negative both languages write the same compact header for names below 2^32 bytes, and C++ a shorter one for longer names |
| `Messages.NegativeVarintNeverEnds` | src/client/py/thrift/protocol/TCompactProtocol.py:32-41 | for a negative number the exit test of Python's writing loop fails at every turn |
| `PyReading.ReadZigzagPyOf` | src/client/py/thrift/protocol/TCompactProtocol.py:271-272 | Python reads every 16-, 32- and 64-bit number as C++ writes it |
| `PyReading.ReadFieldHeadPyOf` | src/client/py/thrift/protocol/TCompactProtocol.py:234-254 | Python reads every field header as C++ writes it |
| `PyReading.ReadListHeadPyOf` | src/client/py/thrift/protocol/TCompactProtocol.py:310-319 | Python reads every list header as C++ writes it |
| `PyReading.ReadMapHeadPyOf` | src/client/py/thrift/protocol/TCompactProtocol.py:323-333 | Python reads every map header as C++ writes it |
| `PyCompact.ZigzagSame` | src/client/py/thrift/protocol/TCompactProtocol.py:164-165 | Python's zigzag of any width is never negative and its varint is the one C++ writes |
| `DoubleOrder.BytesAgree` | src/client/py/thrift/protocol/TCompactProtocol.py:225-227 | both languages write a value in as many bytes, and in the same ones if and only if every double in it reads the same from both ends |
| `DoubleOrder.LeastDiffers` | include_deps/thrift/protocol/TCompactProtocol.tcc:248-258 | the least positive double is written differently |
| `DoubleOrder.SwappedEncodes` | include_deps/thrift/protocol/TCompactProtocol.tcc:248-258 | what C++ writes of a value is what Python writes of it with every double reversed, which is typed as well |
| `PyCompact.TCompactProtocol.WriteDouble` | src/client/py/thrift/protocol/TCompactProtocol.py:225-227 | eight bytes, most significant first |
| `PyCompact.TCompactProtocol.ReadDouble` | src/client/py/thrift/protocol/TCompactProtocol.py:356-360 | result and position on every input |
| `PyCompact.TCompactProtocol.WriteStructBegin` | src/client/py/thrift/protocol/TCompactProtocol.py:123-127 | pushes state and last id |
| `PyCompact.TCompactProtocol.WriteStructEnd` | src/client/py/thrift/protocol/TCompactProtocol.py:129-131 | pops them |
| `PyCompact.TCompactProtocol.WriteFieldHeader` | src/client/py/thrift/protocol/TCompactProtocol.py:136-143 | the header C++ writes, and the id remembered |
| `PyCompact.TCompactProtocol.WriteFieldBegin` | src/client/py/thrift/protocol/TCompactProtocol.py:145-152 | a header and a state for its value, or a boolean's id kept |
| `PyCompact.TCompactProtocol.WriteCollectionBegin` | src/client/py/thrift/protocol/TCompactProtocol.py:170-180 | the header, and the state pushed |
| `PyCompact.TCompactProtocol.WriteMapBegin` | src/client/py/thrift/protocol/TCompactProtocol.py:182-190 | the header, and the state pushed |
| `PyCompact.TCompactProtocol.WriteCollectionEnd` | src/client/py/thrift/protocol/TCompactProtocol.py:192-197 | the state popped |
| `PyCompact.TCompactProtocol.WriteBool` | src/client/py/thrift/protocol/TCompactProtocol.py:199-212 | completes a field header, or a byte in a container |
| `PyCompact.TCompactProtocol.WriteMessageBegin` | src/client/py/thrift/protocol/TCompactProtocol.py:111-117 | the header, from Clear |
| `PyCompact.WriteValue` | src/client/py/thrift/protocol/TCompactProtocol.py:145-232 | writing any typed value, doubles included, trips no assertion, appends its encoding in Python's order of doubles, and restores state, last id and both stacks |
| `PyCompact.WriteStruct` | src/client/py/thrift/protocol/TCompactProtocol.py:123-156 | the same for a struct, field by field |
| `PyCompact.WriteCollection` | src/client/py/thrift/protocol/TCompactProtocol.py:170-197 | the same for a list or set |
| `PyCompact.WriteMap` | src/client/py/thrift/protocol/TCompactProtocol.py:182-197 | the same for a map |
| `PyCompact.WriteField` | src/client/py/thrift/protocol/TCompactProtocol.py:145-156 | the same for a field, a boolean one included |
| `PyCompact.WriteMessage` | src/client/py/thrift/protocol/TCompactProtocol.py:111-232 | a message goes from Clear to Clear with empty stacks, and is byte for byte what C++ writes if and only if its doubles are symmetric and its name is below 2^32 bytes |
| `PyCompact.TCompactProtocol.ReadVarint` | src/client/py/thrift/protocol/TCompactProtocol.py:43-52 | result and position on every input |
| `PyCompact.TCompactProtocol.ReadBool` | src/client/py/thrift/protocol/TCompactProtocol.py:342-348 | the header's boolean in a field, a byte in a container |
| `PyCompact.TCompactProtocol.ReadFieldBegin` | src/client/py/thrift/protocol/TCompactProtocol.py:234-254 | result, position and next state on every input |
| `PyCompact.TCompactProtocol.ReadCollectionBegin` | src/client/py/thrift/protocol/TCompactProtocol.py:310-321 | result and position on every input, and the state pushed |
| `PyCompact.TCompactProtocol.ReadMapBegin` | src/client/py/thrift/protocol/TCompactProtocol.py:323-333 | result and position on every input, and the state pushed |
| `PyCompact.TCompactProtocol.ReadMessageBegin` | src/client/py/thrift/protocol/TCompactProtocol.py:280-294 | result and position on every input; the state stays Clear |
| `PyGenerated.ReadValue` | src/client/py/thrift/protocol/TCompactProtocol.py:234-365 | reading any typed value, doubles included, trips no assertion, returns it (an empty map without its types), stops at its end and restores the machine |
| `PyGenerated.ReadStruct` | src/client/py/thrift/protocol/TCompactProtocol.py:234-308 | the same for a struct, field by field to the stop |
| `PyGenerated.ReadCollection` | src/client/py/thrift/protocol/TCompactProtocol.py:310-340 | the same for a list or set |
| `PyGenerated.ReadMap` | src/client/py/thrift/protocol/TCompactProtocol.py:323-340 | the same for a map |
| `PyGenerated.ReadMessage` | src/client/py/thrift/protocol/TCompactProtocol.py:280-308 | a message that either language has written, of any type, sequence number and body, is read from Clear to Clear with empty stacks; C++ doubles come out reversed and negative sequence numbers without sign |
| `PyGenerated.WriteThenRead` | src/client/py/thrift/protocol/TCompactProtocol.py:111-365 | what Python writes Python reads back, header and body, doubles included |
| `PyGenerated.Skip` | src/client/py/thrift/protocol/TProtocol.py:160-201 | on every byte string skipping terminates and trips no assertion; if it returns the machine is as before; any typed value that comes next is skipped exactly |
| `PyGenerated.SkipStruct` | src/client/py/thrift/protocol/TProtocol.py:177-185 | the same for a struct |
| `PyGenerated.SkipMap` | src/client/py/thrift/protocol/TProtocol.py:186-191 | the same for a map |
| `PyGenerated.SkipCollection` | src/client/py/thrift/protocol/TProtocol.py:192-201 | the same for a list or set |
| `PyBinary.TBinaryProtocol.WriteInt` | src/client/py/thrift/protocol/TBinaryProtocol.py:101-115 | `pack` appends the C++ bytes for every number that fits |
| `PyBinary.TBinaryProtocol.WriteString` | src/client/py/thrift/protocol/TBinaryProtocol.py:121-123 | the C++ bytes |
| `PyBinary.TBinaryProtocol.WriteFieldBegin` | src/client/py/thrift/protocol/TBinaryProtocol.py:63-65 | the C++ bytes, which `WireBytes.BinaryFieldHeads` spells out for each type |
| `PyBinary.TBinaryProtocol.WriteListBegin` | src/client/py/thrift/protocol/TBinaryProtocol.py:81-90 | the C++ bytes |
| `PyBinary.TBinaryProtocol.WriteMapBegin` | src/client/py/thrift/protocol/TBinaryProtocol.py:73-76 | the C++ bytes |
| `PyBinary.TBinaryProtocol.WriteMessageBegin` | src/client/py/thrift/protocol/TBinaryProtocol.py:44-52 | the C++ bytes, strict or not |
| `PyBinary.TBinaryProtocol.ReadInt` | src/client/py/thrift/protocol/TBinaryProtocol.py:192-210 | on every input what the C++ reader gives |
| `PyBinary.TBinaryProtocol.ReadString` | src/client/py/thrift/protocol/TBinaryProtocol.py:217-220 | size and bytes; a negative size gives an empty string where C++ throws |
| `PyBinary.TBinaryProtocol.ReadFieldBegin` | src/client/py/thrift/protocol/TBinaryProtocol.py:151-156 | on every input what the C++ reader gives |
| `PyBinary.TBinaryProtocol.ReadListBegin` | src/client/py/thrift/protocol/TBinaryProtocol.py:170-181 | result and position on every input, a negative size included |
| `PyBinary.TBinaryProtocol.ReadMapBegin` | src/client/py/thrift/protocol/TBinaryProtocol.py:161-165 | result and position on every input, a negative size included |
| `PyBinary.TBinaryProtocol.ReadMessageBegin` | src/client/py/thrift/protocol/TBinaryProtocol.py:125-140 | result and position on every input |
| `PyBinary.HeadsAgree` | src/client/py/thrift/protocol/TBinaryProtocol.py:161-181 | the C++ reader accepts a container header if and only if Python reads one with a size that is not negative, and then both read the same |
| `PyBinary.WriteValue` | src/client/py/thrift/protocol/TBinaryProtocol.py:60-123 | every nested typed value is written byte for byte as by C++ |
| `PyBinary.WriteStruct` | src/client/py/thrift/protocol/TBinaryProtocol.py:57-71 | the same for a struct |
| `PyBinary.ReadValue` | src/client/py/thrift/protocol/TBinaryProtocol.py:145-220 | what either language has written comes back and nothing behind it is taken |
| `PyBinary.ReadStruct` | src/client/py/thrift/protocol/TBinaryProtocol.py:145-156 | the same for a struct |
| `PyBinary.ReadMessage` | src/client/py/thrift/protocol/TBinaryProtocol.py:125-156 | a whole message of either side, strict or not, header and body, and nothing behind it; a strict reader refuses an old header |
| `PyBinary.SkipValue` | src/client/py/thrift/protocol/TProtocol.py:160-201 | on every byte string skipping terminates, and it stops where the C++ side stops wherever that accepts |
| `PyBinary.SkipStruct` | src/client/py/thrift/protocol/TProtocol.py:177-185 | the same for a struct |
| `PyBinary.SkipMap` | src/client/py/thrift/protocol/TProtocol.py:186-191 | the same for a map, none skipped for a negative size |
| `PyBinary.SkipCollection` | src/client/py/thrift/protocol/TProtocol.py:192-201 | the same for a list or set |
| `PyBinary.SkipWritten` | src/client/py/thrift/protocol/TProtocol.py:160-201 | an encoded value is skipped exactly to its end |
| `Frames.FramesRoundTrip` | src/client/py/thrift/transport/TTransport.py:275-294 | a stream of framed messages gives them back if and only if none is empty |
| `Frames.ParseFramedAll` | src/client/py/thrift/transport/TTransport.py:275-294 | framed messages are parsed off the front of any stream |
| `Frames.ParseGrows` | src/client/py/thrift/server/TNonblockingServer.py:103-148 | bytes that arrive later do not change the messages already there |
| `Frames.HeadOfSize` | src/client/py/thrift/server/TNonblockingServer.py:118 | four bytes that read as a positive size are its encoding |
| `WireBytes.FrameBytes` | src/client/py/thrift/transport/TTransport.py:283-294 | a frame is four bytes of size, most significant first, and the message |
| `WireBytes.FrameSizeIs` | src/client/py/thrift/server/TNonblockingServer.py:118 | the size that four bytes announce, with sign, byte by byte |
| `Nonblocking.Connection.ReadLen` | src/client/py/thrift/server/TNonblockingServer.py:103-128 | collects four bytes, then a message state for a positive size and a close for any other |
| `Nonblocking.Connection.Read` | src/client/py/thrift/server/TNonblockingServer.py:130-148 | asks for the missing bytes only; the state moves when the message is whole |
| `Nonblocking.Connection.Write` | src/client/py/thrift/server/TNonblockingServer.py:150-160 | sends a front part and keeps the rest, or is ready for the next request |
| `Nonblocking.Connection.Ready` | src/client/py/thrift/server/TNonblockingServer.py:162-188 | closes on failure, waits again after a one-way call, otherwise has the framed answer to send |
| `Nonblocking.Server.HandleReadable` | src/client/py/thrift/server/TNonblockingServer.py:283-292 | a step of the machine; a message that is whole is queued once |
| `Nonblocking.Server.HandleWritable` | src/client/py/thrift/server/TNonblockingServer.py:293-294 | a step of the machine |
| `Nonblocking.Server.Callback` | src/client/py/thrift/server/TNonblockingServer.py:44-55 | a worker's answer is a step of the machine |
| `Nonblocking.InvStep` | src/client/py/thrift/server/TNonblockingServer.py:103-188 | every step, with any chunk and any failure, keeps: bytes received are the queued frames and the part in hand, bytes sent are the answers but for the rest of the last |
| `Nonblocking.InOrderStepLen` | src/client/py/thrift/server/TNonblockingServer.py:103-128 | a size read in pieces, good or bad, keeps the bytes received equal to the queued frames and the part in hand |
| `Nonblocking.InOrderStepMessage` | src/client/py/thrift/server/TNonblockingServer.py:139-148 | so does a message read in pieces, and it is queued when its last byte comes |
| `Nonblocking.InvStepWrite` | src/client/py/thrift/server/TNonblockingServer.py:150-160 | an answer sent in pieces keeps the bytes sent a prefix of the framed answers |
| `Nonblocking.InvStepReady` | src/client/py/thrift/server/TNonblockingServer.py:162-188 | an answer, a one-way call and a failure keep the answers in step with the requests |
| `Nonblocking.FramesReassembled` | src/client/py/thrift/server/TNonblockingServer.py:103-188 | over every run the queued messages are the first frames of the stream, all of them once it is used up, none taken early, and what is sent is a prefix of the framed answers in request order |
| `Nonblocking.ClientMessagesArrive` | src/client/py/thrift/server/TNonblockingServer.py:103-148 | what a client has framed arrives message by message and nothing else does |
| `Nonblocking.AnswersArrive` | src/client/py/thrift/server/TNonblockingServer.py:150-188 | at every moment the client has got the first answers in request order, all of them when none is being sent |
| `Nonblocking.ClosesAtTheEnd` | src/client/py/thrift/server/TNonblockingServer.py:108-125 | reading closes the connection only at the end of the stream or at a bad size, with no message left behind |
| `Nonblocking.ClosesExactly` | src/client/py/thrift/server/TNonblockingServer.py:103-188 | a step closes the connection exactly when it fails, brings no byte, or completes a size whose first byte is 128 or more or that is zero |
| `Nonblocking.AnswerBytes` | src/client/py/thrift/server/TNonblockingServer.py:162-188 | an answer is sent behind its size in four bytes; an empty one leads to the next request |
| `Nonblocking.Progress` | src/client/py/thrift/server/TNonblockingServer.py:130-188 | every step that passes a byte brings the connection nearer to its end |
| `Nonblocking.Serve` | src/client/py/thrift/server/TNonblockingServer.py:269-294 | for every chunking and every processor, the messages of the stream are processed once each, in order, up to the first failure, and the client gets exactly the framed answers; the connection ends closed |
| `Nonblocking.ServeMessages` | src/client/py/thrift/server/TNonblockingServer.py:269-294 | end to end: for any chunking, if every message is answered the client gets, in frames, exactly the answer to each message in order |
| `Transports.TSocket.ReadAll` | src/client/py/thrift/transport/TTransport.py:54-65 | the next bytes, all of them, if and only if there are so many, for every chunking; otherwise end of file |
| `Transports.TBufferedTransport.Read` | src/client/py/thrift/transport/TTransport.py:155-161 | some of the bytes ahead, at least one if there is one; asked for nothing it loses what was buffered |
| `Transports.TBufferedTransport.ReadAll` | src/client/py/thrift/transport/TTransport.py:54-65 | exactly the next bytes ahead through the buffer |
| `Transports.TBufferedTransport.Flush` | src/client/py/thrift/transport/TTransport.py:166-171 | what was written goes out once, in order |
| `Transports.WriteThenReadAll` | src/client/py/thrift/transport/TTransport.py:155-171 | what is written and flushed is what `readAll` reads, for every buffer size and chunking |
| `Transports.TFramedTransport.ReadFrame` | src/client/py/thrift/transport/TTransport.py:275-278 | takes exactly the frame at the front if it is whole, four bytes and nothing else for a size that is not positive, and raises otherwise |
| `Transports.TFramedTransport.Read` | src/client/py/thrift/transport/TTransport.py:267-273 | some bytes of the frame in hand or of the next one; asked for nothing it goes to the next frame and the rest of the one in hand is lost |
| `Transports.TFramedTransport.ReadAll` | src/client/py/thrift/transport/TTransport.py:54-65 | across frames, exactly the next bytes if and only if the whole frames ahead hold so many |
| `Transports.TFramedTransport.Flush` | src/client/py/thrift/transport/TTransport.py:283-294 | one frame with everything written |
| `Transports.FlushedIsRead` | src/client/py/thrift/transport/TTransport.py:267-294 | messages flushed one by one are read back as one stream |
| `Transports.FlushThenReadFrame` | src/client/py/thrift/transport/TTransport.py:275-294 | `readFrame` gives back what `flush` sent, however the bytes are chunked |

## Left out

- The file system: opening, creating and deleting files, `popen`, temporary names, and the time in them.
- Allocation, its failure, and freeing; the double allocation in `ozread_gets_init`.
- A crash between the two flushes of a put; a line of the key file is written as a whole or not at all.
- Null handles and parameters, with their return codes 1 and 2.
- OzSort.OZSort.Merge: the empty log and logs without a key below "~", for which the source prints a null key.
- OzSort.OZSort.Work: the same logs.
- OzSort.OZoneSort: the same logs.
- OzRead.OZRead.OpenKeyFile: tables with fewer lines than announced, as a key with 0xFF leaves them; the source leaves the other slots uninitialised.
- OzRead.OZRead.FillTable: the same tables.
- Keys of 128 bytes and more, which overrun the scanning buffers, and keys with white space or NUL.
- Signs in scanned numbers; printed logs have none.
- A missing key file at start-up of the write service, for which the counter stays 0.
- Sorting.QSort: the algorithm of the C library, of which only the contract is used here.
- OzTrav.Cursor.Next: negative cursors, which the source would use as an index.
- TravService.TravServiceHandler.NextKv: negative arguments, for the same reason.
- Failure of the mutex functions.
- `OZException::read` and `write`: the same pattern as `TravPair` with one field.
- Limits on string and container sizes, which the constructors used by the servers leave off.
- The wrap-around of the 32-bit byte counts that the C++ calls return.
- Field and struct names, which neither protocol puts on the wire.
- PyCompact.TCompactProtocol.WriteMessageBegin: negative sequence numbers, for which the loop does not end.
- Skipping.WriteValue: values with strings or containers of 2^31 and more, which the narrowing of sizes makes unreadable; the calls that write sizes are covered up to 2^32.
- Sizes of 2^31 and above in the Python protocols, which C++ could not read.
- Unicode strings in Python; strings are bytes.
- Nonblocking.Connection.Read: `len` is a number where `ready` sets it to an empty string, which is never looked at.
- Out-of-band closes while a worker holds a request, and more than one connection: connections share nothing but the queue.
- The accelerated reading interface for C in the Python transports.
- Generated processors, client wrappers, remote scripts, exception texts but those of the write and read services, and the unused `ozsort_lines`.
- libevent, and the Thrift classes TDenseProtocol, TJSONProtocol, TZlibTransport, TFileTransport, ThreadManager, the C++ TNonblockingServer, sockets and SSL are not part of this model.
