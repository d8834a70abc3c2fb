# A verified model of VCDB

VCDB is a Redis-compatible store on top of an ordered byte-string database. This
project models the parts of it whose correctness is hardest to see and proves, with
Dafny 4.11, what they are for. `dafny verify dfyconfig.toml` checks everything.

- **Compression** (`LzfFormat`, `LzfTokens`, `Lzf`): the LZF compressor and decompressor
  against the meaning of the format, and that against its bytes. The hash table starts
  with arbitrary contents. The drawing in src/redis/lzf_c.c:89-96 gives other counts than
  the code, which is followed: up to 32 literals, references of 3 to 264 octets, 8192 back.
- **Decimal conversion** (`Decimal`): ll2string, string2ll and strtoll against plain
  notation.
- **Ziplist** (`ZipEntry`, `ZipSpec`, `ZipBuffer`, `Ziplist`, `ZipSpoil`, `ZiplistInsert`,
  `ZiplistMerge`): a list of entries with back links, its byte image, and the byte
  operations proved to commute with the operations on the list.
- **Intset** (`Intset`): a sorted packed array widened in place.
- **Typed values over the ordered store** (`KvCodec`, `Scan`, `CursorScan`, `ZRank`,
  `ListWindow`, `Collections`, `ZSets`, `ZStore`, `Reclaim`, `ReclaimExact`,
  `ReclaimScan`, `ReclaimStore`): record keys and their order, iterators, cursors, ranks, the wrapping
  list window, stored lengths, and versioned deletion with background reclaim.
- **Expiry** (`SortedSet`, `ExpirySpec`, `ExpirySafety`, `ExpirySettle`, `ExpiryCommit`,
  `Expiry`): the deadline index, the cache of the earliest deadlines and the thread's wake-up time, with
  client commands between any two critical sections of the thread.
- **DUMP and RESTORE** (`RdbFormat`, `Rdb`, `DumpRestore`, `Transfer`).
- **Formats** (`Layout`): what the encoders of all of these write, in literal bytes.
- **Per-key locks** (`RecordLock`): the reference-counted lock table.
- `Bytes`, `Memory`, `Maps`, `Sequences`, `Options` and `Errors` hold what these share.

Conventions. The database is a sequence of keys in lexicographic byte order, or a map;
a write batch is atomic and commits succeed. Doubles are 64-bit patterns. Integers are
unbounded except where the width matters, and then the wrap-around is written out.
Time, random numbers, the checksum and the pattern matcher are parameters. Three
protocols, reclaim, expiry and record locks, are state machines whose theorems quantify
over every run. Some ziplist and intset methods take the represented list as a ghost
argument, so that their contracts speak about the bytes returned and nothing else.

Properties that do not hold of the code as it stands, each with its exact condition:

- `__ziplistInsert` resizes before it moves. When `reqlen + nextdiff` is -1 it loses the
  last byte to the end mark, so that the result is right if and only if that byte was 255
  (`ZiplistInsert.InsertAt`, `ZiplistInsert.WrongInsert`); when it is -2 the memmove reads
  past the block (`ZiplistInsert.MoveInBlock`, `ZiplistInsert.UnsafeInsertReachable`).
- `ziplistMerge` leaves a wrong tail offset when an empty list is appended to a
  non-empty one (`ZiplistMerge.MergeLists`).
- A record key round-trips only below 65536 bytes (`KvCodec.KeyRoundTrip`).
- Reclaim can wipe a live value after a key's 16-bit version has wrapped
  (`Reclaim.WrapReachable`, `Reclaim.WrapLoses`). Clients notice nothing if and only if
  every write meets no leftovers that it does not overwrite and no marker that will strike
  what it leaves (`ReclaimExact.BackgroundExact`, `ReclaimExact.StepExact`,
  `ReclaimExact.RunExact`); a write that does not wrap never does.
- SREM goes wrong exactly when a present member is named twice
  (`Collections.Collection.SRem`).
- RESTORE of a payload with repeated elements stores a wrong length
  (`Collections.Collection.QuickHash`, `Collections.Collection.QuickSet`,
  `ZSets.ZSet.QuickZSet`); payloads that DUMP wrote have none.
- LSET accepts index INT64_MAX of a list of that length (`ListWindow.SetGuard`).
- The expiry thread pops due keys and deletes them later without the lock: a key that is
  not due is deleted if and only if the commands in between put some popped key off, by a
  SET, a PERSIST, an EXPIRE to a later time, or by making it anew after deleting it
  (`ExpirySafety.WindowExact`, `Expiry.DisturbedDeletion`, `Expiry.PersistRace`).
- It loads its cache without the lock: an EXPIRE inside the load can be slept past, and a
  PERSIST can leave a stale entry that deletes the key (`ExpirySafety.LostDeadline`,
  `ExpirySafety.StaleEntry`); an EXPIRE that only commits inside the load is slept past as
  well (`ExpiryCommit.StraddledLoad`). The exact condition on every command, snapshot and
  deletion is `Clean` (`ExpirySafety.CommandExact`, `ExpirySettle.RunGood`) and, with cache
  sections and commits apart, `CleanMove` (`ExpiryCommit.MoveGood`,
  `ExpiryCommit.RunGood`). Undisturbed, the thread deletes exactly the due keys
  (`Expiry.ExpirationHandler.RunThread`).
- RESTORE accepts a compressed string that decompresses to less than announced, with
  uninitialised bytes behind it (`DumpRestore.ShortBlobRestored`). It yields something else
  than the payload stands for if and only if the decoder meets such a string on its path
  and accepts the payload (`DumpRestore.Restore`).
- A RESTORE that fails leaves the key as it was, unless REPLACE was given on an existing
  key and the payload is not accepted: then the old value is gone
  (`DumpRestore.RestoreKey`).

## Model

| member | source | states |
|---|---|---|
| `LzfFormat.DecodeAppend` | src/redis/lzf_d.c:64-183 | decoding a stream is decoding its front and then its back: the format is a sequence of control tokens |
| `LzfFormat.DecodeBounds` | src/redis/lzf_d.c:72-139 | whatever the input, decoding never produces more than out_len bytes and only ever extends what it has |
| `LzfFormat.CopyBackRepeats` | src/redis/lzf_d.c:145-177 | an overlapping back reference repeats the bytes one distance earlier |
| `LzfTokens.DecodeMeans` | src/redis/lzf_d.c:64-183 | decoding yields some data exactly if the input is a sequence of runs and back references, written byte by byte as the format has them, that build this data within the capacity |
| `LzfTokens.LongReference` | src/redis/lzf_d.c:111-137 | after any decodable front, the bytes off / 256 + 224, n, off % 256 repeat n + 9 bytes, each the one off + 1 places back |
| `LzfTokens.ShortReference` | src/redis/lzf_d.c:111-137 | off / 256 + 32 k, off % 256 repeat k + 2 bytes, for k from 1 to 6 |
| `LzfTokens.LiteralRun` | src/redis/lzf_d.c:72-109 | a count less one and so many literals append those literals |
| `LzfTokens.Refusals` | src/redis/lzf_d.c:72-139 | which of E2BIG and EINVAL a refused token gives, by its bytes and the room left |
| `Lzf.CopyReference` | src/redis/lzf_d.c:141-178 | the block copy of a disjoint reference and the octet copy of an overlapping one give the same bytes |
| `Lzf.Turn` | src/redis/lzf_d.c:66-179 | one turn of the loop reads the bytes of one run or back reference and extends the output by it, or reports E2BIG or EINVAL for the reason the format gives |
| `Lzf.Decompress` | src/redis/lzf_d.c:55-184 | on any input of at least one byte it terminates, reads only the input, writes only inside the output, and succeeds exactly if the input is a stream of runs and back references that fit, with the data they build; otherwise it reports the right error |
| `Lzf.MatchLength` | src/redis/lzf_c.c:163-206 | the unrolled and the plain comparison loop together find the longest match that fits a reference and leaves two octets |
| `Lzf.PutLiteral` | src/redis/lzf_c.c:262-268 | a literal extends the open run; the 32nd closes it and opens another, its header patched in place |
| `Lzf.StopRun` | src/redis/lzf_c.c:171-172 | closing the open run, or undoing an empty one, leaves output that decodes to the input consumed so far |
| `Lzf.PutMatch` | src/redis/lzf_c.c:209-221 | the two or three bytes of a back reference, by their values, and room for the next run header |
| `Lzf.Match` | src/redis/lzf_c.c:162-223 | the match branch keeps the output decodable and inside its bounds, growing it by no more than it consumes |
| `Lzf.Advance` | src/redis/lzf_c.c:142-269 | one turn of the compressor keeps the output decodable, for any contents of the hash table; it takes the longest reference whenever the table offers a match of three octets within 8192, and one literal otherwise |
| `Lzf.LastLiterals` | src/redis/lzf_c.c:272-284 | three bytes of room are enough for the last bytes even when the unchecked header increment happens |
| `Lzf.Compress` | src/redis/lzf_c.c:98-290 | for every input and every initial hash table, n > 0 bytes that are a stream of runs and back references building the input; 0 only when the output could be too small |
| `Lzf.RoundTrip` | src/redis/lzf_c.c:98-290 | compressing and decompressing returns exactly the original input |
| `Decimal.PrintThenParse` | src/util/strings.h:635-755 | every int64, LLONG_MIN included, parses back from its printed form |
| `Decimal.ParseThenPrint` | src/util/strings.h:690-755 | every accepted string is the printed form of its value: no leading zeros, no "-0", no plus sign |
| `Decimal.PrintedAt` | src/util/strings.h:635-688 | the notation character by character: a minus sign, no leading zero, and in each place the digit of its power of ten |
| `Decimal.ReadDigits` | src/util/strings.h:728-739 | the accumulator loop rejects exactly the digit strings above ULLONG_MAX |
| `Decimal.StringToLL` | src/util/strings.h:690-755 | string2ll accepts exactly the canonical int64 notations and returns their value |
| `Decimal.ReprintsExactly` | src/util/strings.h:400-416 | strtoll up to the end of the string and a comparison with the reprinted value accept exactly the canonical int64 notations, with their value |
| `Decimal.Digits10Counts` | src/util/strings.h:559-578 | digits10 is the length of the decimal notation |
| `Decimal.FillDigits` | src/util/strings.h:668-683 | writing two digits at a time from the back gives the decimal notation |
| `Decimal.LLToString` | src/util/strings.h:635-688 | ll2string writes the decimal notation and a terminator, or nothing when there is no room |
| `Decimal.PrintParseRoundTrip` | src/util/strings.h:635-755 | ll2string followed by string2ll is the identity on int64 |
| `ZipEntry.ElementRoundTrip` | src/redis/ziplist.c:200-246 | the encoded body of any string reads back as that string, whichever of the nine encodings it takes |
| `ZipEntry.IntegerSaved` | src/redis/ziplist.c:359-409 | zipSaveInteger followed by zipLoadInteger is the identity for the encoding zipTryEncoding chose |
| `Layout.ElementBytes` | src/redis/ziplist.c:332-385 | the bytes of every element: six integer codes by range, each with its payload, or a string header |
| `Layout.StringHeader` | src/redis/ziplist.c:200-231 | the one, two or five bytes in front of a string element |
| `Layout.HeaderRead` | src/redis/ziplist.c:238-260 | the length read back from every form of that header |
| `Layout.LinkBytes` | src/redis/ziplist.c:264-288 | the one or five bytes of a back link in front of the body |
| `Layout.ListBytes` | src/redis/ziplist.c:141-148 | the header fields, where each entry stands, and the end mark |
| `Layout.SignedTwo` | src/redis/ziplist.c:365-368 | two bytes in two's complement, least significant first |
| `Layout.SignedThree` | src/redis/ziplist.c:369-372 | likewise three |
| `Layout.SignedFour` | src/redis/ziplist.c:373-376 | likewise four |
| `Layout.SignedEight` | src/redis/ziplist.c:377-380 | likewise eight |
| `ZipEntry.ReadEntry` | src/redis/ziplist.c:421-427 | zipEntry recovers the back link, its width, the encoding and the lengths of the entry at a position |
| `ZipEntry.ReadElement` | src/redis/ziplist.c:873-890 | ziplistGet's string or integer is the element the entry stands for |
| `ZipSpec.CascadeKeeps` | src/redis/ziplist.c:468-527 | a cascade changes no body and no entry but its back links |
| `ZipSpec.CascadeGrowth` | src/redis/ziplist.c:486-511 | the list grows by exactly four bytes for every back link widened |
| `ZipSpec.CascadeRepairs` | src/redis/ziplist.c:468-527 | if only the first seam is wrong, after the cascade every back link equals the size of the entry before it |
| `ZipBuffer.GrowLink` | src/redis/ziplist.c:486-511 | widening one back link in the buffer shifts the rest, and corrects zlbytes and the tail offset |
| `ZipBuffer.SetLink` | src/redis/ziplist.c:512-522 | a back link that is wide enough is rewritten in place |
| `ZipBuffer.CascadeUpdate` | src/redis/ziplist.c:468-527 | the loop over the buffer terminates with the bytes of the repaired list |
| `Ziplist.Next` | src/redis/ziplist.c:832-848 | the next entry, or none at the end and at the last entry |
| `Ziplist.Prev` | src/redis/ziplist.c:851-870 | the entry in front along the back link, from the end mark too |
| `Ziplist.IndexForward` | src/redis/ziplist.c:818-824 | counting from the front reaches entry i, or nothing past the end |
| `Ziplist.IndexBackward` | src/redis/ziplist.c:807-817 | following back links from the tail offset reaches entry n - 1 - i |
| `Ziplist.Index` | src/redis/ziplist.c:804-828 | index i and index i - n reach the same entry, and nothing else is in range |
| `Ziplist.Len` | src/redis/ziplist.c:1007-1022 | the number of entries, recounted when the 16-bit field has run full, and restored when it fits again |
| `Ziplist.Get` | src/redis/ziplist.c:873-890 | the element at a position, as a string or as the integer that prints as it |
| `Ziplist.CloseGap` | src/redis/ziplist.c:545-577 | the bytes of a deleted slice disappear, with the back link behind it narrowed or widened |
| `Ziplist.DeleteMiddle` | src/redis/ziplist.c:545-586 | deleting in front of a surviving entry gives the image of the list without the slice, cascade included |
| `Ziplist.CutTail` | src/redis/ziplist.c:565-577 | deleting to the end moves only the tail offset and the end mark |
| `Ziplist.DeleteAt` | src/redis/ziplist.c:530-588 | __ziplistDelete turns the image of a list into the image of the list without up to num entries |
| `ZipSpec.DeleteRefines` | src/redis/ziplist.c:530-588 | the result is well formed and represents the sequence with that slice removed |
| `ZipSpec.EditsNarrowest` | src/redis/ziplist.c:530-678 | the back links that an insertion or a deletion sets take one byte below 254 and five from there on, and nothing in front changes |
| `ZiplistInsert.ResizeExact` | src/redis/ziplist.c:628-638 | the resize before the move keeps every byte that is still needed if and only if reqlen + nextdiff is not negative, or cuts off just a byte equal to the end mark |
| `ZiplistInsert.InsertSeen` | src/redis/ziplist.c:590-678 | the insert computes on what the resize leaves readable: if that is the image of some list, the result is the image of that list with the element inserted |
| `ZiplistInsert.MoveInBlock` | src/redis/ziplist.c:631-636 | the source of the memmove lies inside the resized block if and only if reqlen + nextdiff is at least -1; it can be -2, and then a byte past the block is read |
| `ZiplistInsert.InsertAt` | src/redis/ziplist.c:590-678 | whenever its memmove stays inside the block, __ziplistInsert gives the image of the list with the element inserted, but with the last byte in front of the end mark turned into 255 if the buffer shrank by one; that is the right list if and only if the resize is safe |
| `ZiplistInsert.UnsafeInsertReachable` | src/redis/ziplist.c:608-633 | three pushes and one deletion build a list on which one insert shrinks the buffer by a live byte and another by two |
| `ZiplistInsert.WrongInsert` | src/redis/ziplist.c:590-678 | on that list the insert ends in a well-formed wrong list: the last element "a" has become the byte 255 |
| `ZipSpoil.SpoilCascade` | src/redis/ziplist.c:468-527 | a cascade commutes with overwriting the last byte of the last entry |
| `ZipSpoil.SpoilInsert` | src/redis/ziplist.c:590-678 | so does an insertion |
| `ZipSpoil.SpoilImage` | src/redis/ziplist.c:441-446 | that overwriting is exactly what an end mark one byte too early does to the image |
| `ZipSpec.InsertRefines` | src/redis/ziplist.c:590-678 | the result is well formed and represents the sequence with the element at that place |
| `ZiplistMerge.MergeLists` | src/redis/ziplist.c:695-792 | whichever list is extended, the result is the image of the concatenation exactly when the second list is non-empty or the first is empty |
| `ZipSpec.MergeRefines` | src/redis/ziplist.c:695-792 | the merged list is well formed and represents the concatenation |
| `Intset.GetPacked` | src/redis/intset.c:55-78 | reading a packed array at a position gives the element stored there |
| `Layout.PackedAt` | src/redis/intset.c:82-96 | element k stands at k times the width, as that many bytes |
| `Intset.Search` | src/redis/intset.c:115-154 | binary search finds the value exactly when it is there, and otherwise where it belongs |
| `Intset.WidenStep` | src/redis/intset.c:168-169 | a turn of the back-to-front loop reads an element still intact and overwrites no unread one |
| `Intset.OutsideRange` | src/redis/intset.c:209-214 | a value that needs a wider encoding lies below or above every element |
| `Intset.UpgradeAndAdd` | src/redis/intset.c:157-180 | widening in place keeps every element and adds the value at the right end |
| `Intset.Add` | src/redis/intset.c:204-231 | the array stays strictly sorted and holds the old set and the value; success says whether it was new |
| `Intset.Remove` | src/redis/intset.c:234-251 | the array stays strictly sorted and holds the old set without the value |
| `Intset.Find` | src/redis/intset.c:254-257 | membership, for values of any width |
| `Intset.Run` | src/redis/intset.c:97-257 | any run of additions and removals holds exactly the mathematical set |
| `Intset.SortedUnique` | src/redis/intset.c:157-251 | the packed array is determined by the set: sorted arrays of one set are equal |
| `KvCodec.ParseExactly` | src/codec/kv/decode.cpp:29-47 | a record key decodes to (key, version, field) exactly when it is their encoding |
| `KvCodec.KeyRoundTrip` | src/codec/kv/encode.cpp:25-39 | keys round-trip if and only if they are shorter than 65536 bytes |
| `Layout.RecordKey` | src/codec/kv/encode.cpp:25-38 | the bytes of a record key: type, key length, key, version, field |
| `Layout.RecordFields` | src/codec/kv/encode.cpp:64-113 | the type bytes of list items, scores, delete markers, deadlines and meta records, and what their fields hold |
| `Layout.ScoreBytes` | src/codec/util.h:134-146 | the eight bytes of an encoded score: every bit of a negative double inverted, the sign bit of another one set |
| `Bytes.LessMeans` | src/util/bytes.h:72-80 | the order of keys: one goes on where the other ends, or the first byte that differs decides |
| `KvCodec.DecodeKey` | src/codec/kv/decode.cpp:29-47 | the cursor-based decoder accepts and returns exactly what the format says |
| `KvCodec.ParseScoreExactly` | src/codec/kv/decode.cpp:49-74 | a score key decodes to (key, version, score, member) exactly when it is their encoding |
| `KvCodec.ScoreRoundTrip` | src/codec/util.h:119-146 | decodeScore inverts encodeScore on every bit pattern |
| `KvCodec.MagnitudeMonotone` | src/codec/util.h:134-146 | the low 63 bits of doubles sort as their magnitudes, from subnormals to infinity |
| `KvCodec.EncodeScoreMonotone` | src/codec/util.h:134-146 | the unsigned order of encoded scores is the numeric order of the doubles, with -0 just below +0 |
| `KvCodec.NaNBounds` | src/storage/t_zset.cpp:200-226 | the two NaN bounds of a whole-zset scan enclose every number |
| `KvCodec.ScoreKeyOrder` | src/codec/kv/encode.cpp:64-81 | score keys of one zset sort by score and then by member |
| `KvCodec.MarkerOrder` | src/codec/kv/encode.cpp:176-191 | delete markers of one key sort by version |
| `KvCodec.DeadlineOrder` | src/codec/kv/encode.cpp:83-91 | deadline records sort by deadline and then by key |
| `KvCodec.UpdateListKeyRetargets` | src/codec/kv/encode.cpp:93-97 | update_list_key turns the key of one list item into the key of another |
| `Scan.Iterator.Next` | src/storage/iterator.cpp:49-81 | each call delivers the next record of the walk, until the limit, the end bound or the end of the store |
| `Scan.AheadMeans` | src/storage/iterator.cpp:49-81 | the records it walks are consecutive in its direction, none past an inclusive end, and it stops early only at the end of the store or at a record past the end |
| `Scan.TypedIterator.Next` | src/storage/iterator.cpp:129-149 | each call delivers the next element; undecodable records are skipped and a foreign one ends the walk |
| `Scan.NoStranger` | src/codec/kv/encode.cpp:25-39 | no record of another key or version sorts between an incarnation's prefix and its records |
| `Scan.ScanExact` | src/storage/iterator.cpp:129-258 | over any store contents the scan of an incarnation delivers exactly its elements, once each, in byte order |
| `CursorScan.ReadAll` | src/storage/t_hash.cpp:198-240 | the loop over a typed iterator collects exactly the elements of the incarnation |
| `CursorScan.ScanBatch` | src/storage/t_scan.h:40-71 | a batch answers the matching ones of the next COUNT elements and stops on the element after them, or reports the end |
| `CursorScan.CursorService.GetNew` | src/storage/t_cursor.cpp:8-25 | a new cursor is one past the greatest in use, or 1, and leaves the others alone |
| `CursorScan.ScanCommand` | src/storage/t_hash.cpp:422-455 | one HSCAN, SSCAN or ZSCAN call: its answer and the resume point it files |
| `CursorScan.ResumeAt` | src/storage/t_hash.cpp:434-441 | seeking the filed record resumes with exactly the elements not yet delivered |
| `CursorScan.FollowCursors` | src/storage/t_scan.h:40-71 | following cursors from 0 back to 0 terminates and answers the matching elements in order, whatever other scans do meanwhile |
| `CursorScan.FullScanExact` | src/storage/t_scan.h:40-71 | that answer names every stored matching element exactly once, in store order, and nothing else |
| `ZRank.FindZone` | src/storage/t_zset.cpp:192-227 | a zset's score records form one stretch of the store, strictly between the scan bounds |
| `ZRank.WalkExact` | src/storage/ssdb_impl.cpp:249-291 | forward and backward iterators start and stop exactly at the ends of that stretch |
| `ZRank.Rank` | src/storage/t_zset.cpp:248-320 | zrank and zrrank return the member's place in the walk, or -1 when it is absent |
| `ZRank.MembersSorted` | src/storage/t_zset.cpp:192-227 | the walk is sorted by score and then by member name |
| `ZRank.RankCountsSmaller` | src/storage/t_zset.cpp:263-280 | the member at place r has exactly r members below it |
| `ZRank.BothRanks` | src/storage/t_zset.cpp:248-320 | zrank counts the smaller members, and zrank + zrevrank + 1 is the cardinality |
| `ZStore.FiledElement` | src/codec/kv/encode.cpp:64-81 | the elements walked are exactly those whose score records the commands keep |
| `ZStore.FiledMembers` | src/storage/t_zset.cpp:737-833 | the walk meets every member once, with its score; it is as long as the stored length |
| `ZStore.StoredRanks` | src/storage/t_zset.cpp:248-320 | ranks over the records that ZADD and ZREM keep: -1 exactly for absent members, zrank is the number of stored members below in (score, member) order, and zrank + zrevrank + 1 is the stored length |
| `ZStore.PutStores` | src/storage/t_zset.cpp:803-823 | a put of a score record files that entry and no other |
| `ZStore.DropStores` | src/storage/t_zset.cpp:669-685 | a delete of a score record removes that entry and no other: keys of different entries differ |
| `ZStore.OtherStores` | src/codec/kv/encode.cpp:64-81 | writes to records of other kinds, keys and versions do not matter |
| `ZStore.RewriteStores` | src/storage/t_zset.cpp:669-833 | the byte keys that one ZADD, ZINCRBY or ZREM deletes and puts keep the store filing exactly the zset's score records |
| `ZStore.StoresFiles` | src/storage/t_zset.cpp:192-227 | what the store files is what the rank walk over its sorted keys meets |
| `Reclaim.WriteVersionFresh` | src/storage/t_list.cpp:332-371 | the version a writer uses has no pending marker, and is empty unless the key is live |
| `Reclaim.OldestFirst` | src/storage/ssdb_impl.cpp:458-468 | a marker is reclaimed only after every older marker of its key |
| `Reclaim.LoadOrdered` | src/storage/ssdb_impl.cpp:458-468 | loading markers in byte order queues those of one key oldest first |
| `Reclaim.WriteKeepsInv` | src/storage/t_kv.cpp:12-44 | a write keeps the version order of a key and its markers if and only if it does not wrap the 16-bit version |
| `Reclaim.DeleteKeepsInv` | src/storage/t_kv.cpp:255-293 | marking a key deleted keeps the invariant |
| `Reclaim.CommitKeepsInv` | src/storage/ssdb_impl.cpp:470-562 | the reclaim batch keeps the invariant, with the meta record dropped only if it is still that tombstone |
| `Reclaim.StepKeepsInv` | src/storage/ssdb_impl.cpp:458-596 | every client or background step keeps that order exactly when it is no version wrap |
| `Reclaim.StepRefines` | src/storage/ssdb_impl.cpp:458-596 | background steps change no visible value; a client step changes its own key as on a plain map |
| `Reclaim.ClientSees` | src/storage/t_hash.cpp:293-342 | after a write its key has the records put and those it had and did not delete, after a deletion it is gone, and no other key changes |
| `Reclaim.VersionUsed` | src/storage/t_kv.cpp:12-44 | a write uses the live version, or the one after a tombstone's in 16 bits, or 0 for a key without a meta record |
| `Reclaim.RunRefines` | src/storage/ssdb_impl.cpp:458-596 | every interleaving of clients and reclaim shows what the client steps alone make of a plain map |
| `Reclaim.NothingLeaks` | src/storage/ssdb_impl.cpp:498-562 | without markers left, every record belongs to a live key and every meta record is live |
| `Reclaim.Drains` | src/storage/ssdb_impl.cpp:567-596 | from any reachable state the background thread alone gets rid of all markers, unseen by clients |
| `Reclaim.WrapReachable` | src/storage/t_list.cpp:354-359 | a key can be written and deleted 65536 times before anything is reclaimed |
| `Reclaim.WrapLoses` | src/storage/t_list.cpp:354-359 | after such a wrap the next reclaim pass wipes a value just written |
| `ReclaimExact.StepBasic` | src/storage/ssdb_impl.cpp:458-596 | in every run, wraps included, pending markers are distinct filed markers |
| `ReclaimExact.CommitVisible` | src/storage/ssdb_impl.cpp:498-562 | a reclaim batch changes what clients see if and only if it holds a record of the current incarnation of a live key |
| `ReclaimExact.ExposureStays` | src/storage/ssdb_impl.cpp:458-596 | background steps create no exposed record, and remove one only by striking it |
| `ReclaimExact.Strikes` | src/storage/ssdb_impl.cpp:567-596 | an exposed key does lose a record if the background thread goes on |
| `ReclaimExact.BackgroundExact` | src/storage/ssdb_impl.cpp:458-596 | some background run changes what clients see if and only if the marker of a live incarnation is going to strike one of its records |
| `ReclaimExact.StepExact` | src/storage/t_kv.cpp:12-44 | a step shows what it does on a plain map and leaves nothing exposed if and only if it is clean: a write meets no leftovers that it does not overwrite and no marker that will strike what it leaves |
| `ReclaimExact.RunExact` | src/storage/ssdb_impl.cpp:458-596 | over every interleaving, wraps included, clients see the plain map all along and nothing is ever exposed if and only if every write was clean |
| `ReclaimExact.NoWrapClean` | src/storage/t_list.cpp:332-371 | a write that does not wrap is clean |
| `ReclaimExact.ReclaimedWrapClean` | src/storage/t_list.cpp:354-359 | a wrap is clean once version 0 has been reclaimed |
| `ReclaimExact.FromEmpty` | src/storage/ssdb_impl.cpp:458-596 | from an empty store: reclaim is invisible all along exactly when every write was clean, in particular when no version wraps |
| `ReclaimScan.LoadDeleteKeys` | src/storage/ssdb_impl.cpp:458-468 | the loop over the store reads the run of 'D' records from its start, at most 1000, which are exactly the first markers in order |
| `ReclaimScan.CollectRecords` | src/storage/ssdb_impl.cpp:509-549 | the batch of a marker holds the keys of exactly its incarnation's records |
| `ReclaimScan.CollectedIsFiled` | src/storage/ssdb_impl.cpp:509-549 | when the store holds an incarnation's records, that batch is exactly the slots the reclaim protocol takes as filed |
| `ReclaimStore.WriteStores` | src/storage/t_kv.cpp:12-44 | the byte keys a client's batch deletes and puts keep the store filing exactly the state's markers, records and meta records |
| `ReclaimStore.DeleteStores` | src/storage/t_kv.cpp:276-293 | so does the batch of mark_key_deleted |
| `ReclaimStore.CommitStores` | src/storage/ssdb_impl.cpp:498-562 | so does the reclaim batch, with the meta record dropped or kept |
| `ReclaimStore.RunStores` | src/storage/ssdb_impl.cpp:458-596 | and so every interleaving, version wraps included |
| `ReclaimStore.FromEmptyStore` | src/storage/ssdb_impl.cpp:458-596 | in particular from an empty store |
| `ReclaimStore.OtherKeys` | src/codec/util.h:50-75 | keys of other types do not matter |
| `ReclaimStore.StoredFiles` | src/storage/ssdb_impl.cpp:458-549 | the sorted keys of such a store are what both scans of the background thread need, so they find the state's markers and records |
| `SortedSets.SortedSet.Add` | src/util/sorted_set.h:35-63 | the key has the new score, and the items stay sorted and in step with the map |
| `SortedSets.SortedSet.Del` | src/util/sorted_set.h:70-84 | the key is gone from both containers |
| `SortedSets.SortedSet.Front` | src/util/sorted_set.h:86-97 | the least item in (score, key) order |
| `SortedSets.SortedSet.MaxScore` | src/util/sorted_set.h:112-117 | the greatest score, or 0 when empty |
| `SortedSets.SortedSet.PopFront` | src/util/sorted_set.h:119-128 | removes exactly the least item |
| `SortedSets.SortedSet.Back` | src/util/sorted_set.h:99-110 | the greatest item in (score, key) order |
| `SortedSets.SortedSet.PopBack` | src/util/sorted_set.h:130-140 | removes exactly the greatest item |
| `SortedSets.ListsSize` | src/util/sorted_set.h:66-68 | both containers hold equally many entries |
| `Expiry.ExpirationHandler.EsetOne` | src/storage/t_eset.cpp:54-91 | the records by key and by time stay in bijection |
| `Expiry.ExpirationHandler.EdelOne` | src/storage/t_eset.cpp:10-29 | both records of a deadline go together |
| `Expiry.ExpirationHandler.InsertFastKey` | src/storage/ttl.cpp:148-162 | a deadline behind all of the cache stays out of it, any other goes in, and the latest entry of more than 1000 goes out; the wake-up time is lowered |
| `Expiry.ExpirationHandler.CancelExpiration` | src/storage/ttl.cpp:322-330 | the deadline is gone from cache and index, in every phase of the thread |
| `Expiry.ExpirationHandler.DeleteKey` | src/storage/t_kv.cpp:255-293 | deleting a live key takes its deadline along |
| `Expiry.ExpirationHandler.SetKey` | src/storage/t_kv.cpp:47-101 | after SET without options the key is live and has no deadline |
| `Expiry.ExpirationHandler.CreateKey` | src/storage/t_hash.cpp:293-342 | a write that makes a missing key leaves deadlines alone |
| `Expiry.ExpirationHandler.ExpireKeyAt` | src/storage/ttl.cpp:103-146 | on a live key the record is stored and the wake-up time is at most the deadline, or a key whose time is past is deleted; a missing key is reported; in every phase of the thread and for every wake-up time |
| `Expiry.ExpirationHandler.PersistKey` | src/storage/ttl.cpp:165-189 | the deadline goes, unless the wake-up time is INT64_MAX, when nothing is looked up; in every phase of the thread |
| `Expiry.ExpirationHandler.ObeyAll` | src/storage/ttl.cpp:103-189 | any sequence of commands does to the fields what the state machine's commands do |
| `Expiry.ExpirationHandler.Pttl` | src/storage/ttl.cpp:191-221 | the time left, in milliseconds or rounded to the nearest second, -1 without a deadline, -2 without a key or past the deadline |
| `Expiry.ExpirationHandler.BeginLoad` | src/storage/ttl.cpp:223-229 | the snapshot is the first deadlines in store order, as many as fit a batch |
| `Expiry.ExpirationHandler.AddNext` | src/storage/ttl.cpp:230-238 | one more record of the snapshot goes into the cache |
| `Expiry.ExpirationHandler.FinishLoad` | src/storage/ttl.cpp:261-268 | a cache still empty sets the wake-up time to INT64_MAX |
| `Expiry.ExpirationHandler.PopKeys` | src/storage/ttl.cpp:278-296 | the locked loop pops what is due in order, at most 102 keys, and leaves the wake-up time at the last score it saw |
| `Expiry.ExpirationHandler.EraseDoomed` | src/storage/ttl.cpp:298-301 | deleting the popped keys one by one removes exactly them and their deadlines |
| `Expiry.ExpirationHandler.LoadAll` | src/storage/ttl.cpp:223-268 | an undisturbed load ends in a sound cache and an early enough wake-up time |
| `Expiry.ExpirationHandler.ExpireLoop` | src/storage/ttl.cpp:243-303 | an undisturbed turn deletes only due keys with their deadlines, and some of them unless the thread may sleep |
| `Expiry.ExpirationHandler.RunThread` | src/storage/ttl.cpp:305-320 | undisturbed, with the clock running on, the thread gets to sleep, and then exactly the keys due at that moment are gone |
| `Expiry.StoreOrder` | src/codec/kv/encode.cpp:83-91 | the byte order of deadline records is the order of the cache |
| `Expiry.FirstDeadlines` | src/storage/ttl.cpp:223-229 | the first records in that order |
| `ExpirySafety.DropExact` | src/storage/ttl.cpp:322-330 | taking a deadline away keeps the invariant if and only if it names no key still to be added by a load, does not empty the cache of a load while deadlines remain, and leaves no popped key alive |
| `ExpirySafety.PutExact` | src/storage/ttl.cpp:115-162 | setting a deadline keeps it if and only if it disagrees with no record still to be added by a load, leaves nothing out of the cache that lies before one, does not leave the cache of a load empty, and does not put off a popped key |
| `ExpirySafety.CreateExact` | src/storage/t_hash.cpp:293-342 | making a missing key keeps it if and only if the key was not popped |
| `ExpirySafety.CommandExact` | src/storage/ttl.cpp:103-189 | a client command keeps the invariant if and only if it is clean in that sense |
| `ExpirySafety.BeginKeeps` | src/storage/ttl.cpp:223-229 | a snapshot of the first deadlines, added undisturbed, is a sound cache |
| `ExpirySafety.AddKeeps` | src/storage/ttl.cpp:230-238 | adding one record keeps the invariant |
| `ExpirySafety.FinishKeeps` | src/storage/ttl.cpp:261-268 | so does the end of a load |
| `ExpirySafety.FinishExact` | src/storage/ttl.cpp:261-268 | whatever came before, the end of a load leaves the wake-up time early enough if and only if the cache is not empty or no deadline below INT64_MAX is stored |
| `ExpirySafety.PopKeeps` | src/storage/ttl.cpp:278-296 | popping keeps it: the cache misses nothing below its maximum but what was popped, and what was popped is due |
| `ExpirySafety.EraseKeeps` | src/storage/ttl.cpp:298-301 | so does the deletion |
| `ExpirySafety.StepExact` | src/storage/ttl.cpp:103-303 | a step keeps the invariant if and only if it is a step of the thread or a clean command |
| `ExpirySafety.RunExact` | src/storage/ttl.cpp:103-320 | in every order of commands and critical sections of the thread, the invariant holds all along if and only if every command was clean when it came |
| `ExpirySettle.SettledIsRun` | src/storage/ttl.cpp:223-301 | from any state the thread alone finishes the load or the deletion it is at |
| `ExpirySettle.CommandGood` | src/storage/ttl.cpp:103-303 | a command is clean if and only if the thread, left alone from then on, ends the load or deletion with a cache that misses nothing, an early enough wake-up time, and only due keys deleted |
| `ExpirySettle.RunGood` | src/storage/ttl.cpp:103-320 | in every order of whole commands and thread steps that is so all along if and only if every command was clean |
| `ExpiryCommit.OpenTakesEffect` | src/storage/ttl.cpp:124-137 | with a command split into its cache section and its commit, it takes effect at its cache section |
| `ExpiryCommit.CloseIsSilent` | src/storage/ttl.cpp:133-141 | and its commit changes nothing any more |
| `ExpiryCommit.OpenAndClose` | src/storage/ttl.cpp:103-146 | a command that nothing comes between is the whole command |
| `ExpiryCommit.BeginExact` | src/storage/ttl.cpp:223-238 | a load that reads the committed deadlines keeps the invariant if and only if no command in flight drops or changes a deadline of the snapshot or sets one outside it that lies before one in it |
| `ExpiryCommit.EraseExact` | src/storage/t_kv.cpp:139-160 | the deletion, which takes no lock, keeps it if and only if no popped key has a deadline in flight |
| `ExpiryCommit.MoveExact` | src/storage/ttl.cpp:103-320 | a cache section, commit or thread step keeps the invariant if and only if it is clean in that sense |
| `ExpiryCommit.MoveGood` | src/storage/ttl.cpp:103-320 | and if and only if, with everything in flight committed and the thread left alone, the cache misses nothing, the wake-up time is early enough, every deadline has a key and only due keys are deleted |
| `ExpiryCommit.RunGood` | src/storage/ttl.cpp:103-320 | in every order of cache sections, commits and thread steps that is so all along if and only if all of them were clean |
| `ExpiryCommit.StraddledLoad` | src/storage/ttl.cpp:124-266 | an EXPIRE whose cache section comes before a load and whose commit comes after its snapshot is never woken for, although it was clean as a command |
| `ExpirySafety.SleepIsSafe` | src/storage/ttl.cpp:309-312 | under the invariant the thread sleeps only while no key is due |
| `ExpirySafety.EraseOnlyDue` | src/storage/ttl.cpp:298-301 | under the invariant only due keys are deleted |
| `ExpirySafety.PersistRight` | src/storage/ttl.cpp:173-187 | under the invariant PERSIST without a lookup misses no deadline |
| `ExpirySafety.WindowKey` | src/storage/ttl.cpp:278-301 | after any commands a popped key is due, put off or gone as the commands that name it say, whatever cache, wake-up time and other keys are |
| `ExpirySafety.WindowExact` | src/storage/ttl.cpp:278-301 | for every sequence of commands between the pop and the deletion, a key that is not due is deleted if and only if the commands put some popped key off: by a SET, a PERSIST, an EXPIRE to a later time, or by making it anew after deleting it |
| `ExpirySafety.WindowOpens` | src/storage/ttl.cpp:278-296 | the window starts as that asks: the popped keys are live and due |
| `ExpirySafety.LostDeadline` | src/storage/ttl.cpp:228-266 | an EXPIRE inside the load of an empty index is never woken for, and PERSIST then leaves its deadline |
| `ExpirySafety.StaleEntry` | src/storage/ttl.cpp:228-238 | a PERSIST inside the load leaves a cache entry without a deadline, whose key will be deleted |
| `Expiry.DisturbedDeletion` | src/storage/ttl.cpp:275-301 | the pop, any commands and the deletion, on the code's own fields: a key that is not due is lost exactly under that condition on the commands |
| `Expiry.PersistRace` | src/storage/ttl.cpp:165-301 | a PERSIST between the pop and the deletion is lost: the key is deleted although it has no deadline |
| `ListWindow.SeqByIndexMeans` | src/storage/t_list.cpp:25-53 | in every branch of the wrapping arithmetic, index i is i places above left_seq and index -1 - i is i places below right_seq |
| `ListWindow.IndexReaches` | src/storage/t_list.cpp:25-53 | an index reaches its own element, and one out of range reaches no record |
| `ListWindow.PutFirst` | src/storage/t_list.cpp:251-256 | a record one below left_seq extends the window at the front |
| `ListWindow.PutLast` | src/storage/t_list.cpp:257-264 | a record one above right_seq extends it at the back |
| `ListWindow.DropLast` | src/storage/t_list.cpp:150-157 | dropping the record at right_seq shortens it |
| `ListWindow.DropLeft` | src/storage/t_list.cpp:452-464 | the first loop of LTRIM drops the first elements, wrapping past UINT64_MAX |
| `ListWindow.DropRight` | src/storage/t_list.cpp:466-477 | the second drops the last ones, wrapping past 0 |
| `ListWindow.SetGuard` | src/storage/t_list.cpp:386-398 | LSET's range test accepts exactly the list's positions, but for index INT64_MAX of a list of that length |
| `ListWindow.StoredList.Push` | src/storage/t_list.cpp:225-288 | pushes prepend the values in reverse or append them |
| `ListWindow.StoredList.Pop` | src/storage/t_list.cpp:123-180 | pops take the first or last element; the last one deletes the key |
| `ListWindow.StoredList.Index` | src/storage/t_list.cpp:55-70 | LINDEX of the plain sequence |
| `ListWindow.StoredList.Set` | src/storage/t_list.cpp:374-409 | LSET of the plain sequence, or the range error |
| `ListWindow.StoredList.Trim` | src/storage/t_list.cpp:411-501 | LTRIM keeps exactly that range of the plain sequence |
| `ListWindow.StoredList.RangeOf` | src/storage/t_list.cpp:504-564 | LRANGE is the range of the plain sequence, with inclusive bounds that count from the end when negative and are clipped |
| `ListWindow.CopyRange` | src/storage/t_list.cpp:540-560 | its loop over the wrapping sequence numbers reads exactly the stretch asked for |
| `Collections.IncrSize` | src/storage/t_hash.cpp:345-391 | the new length, the error for one below zero, and whether the key is still live |
| `Collections.Collection.HSet` | src/storage/t_hash.cpp:293-342 | the field has its value (or keeps it under NX) and the stored length counts the fields |
| `Collections.Collection.HMSet` | src/storage/t_hash.h:78-124 | every field named has its new value, every other field is as it was, and the stored length counts the fields |
| `Collections.Collection.HDel` | src/storage/t_hash.cpp:26-67 | exactly the named fields go, and the stored length counts the rest |
| `Collections.Collection.HIncr` | src/storage/t_hash.h:130-179 | the error of the increment is passed on and changes nothing; otherwise the field has its new value and the stored length counts the fields |
| `Collections.Collection.QuickHash` | src/storage/t_hash.h:13-73 | a restored hash has the last value of every field; the length stored is right exactly when no field comes twice |
| `Collections.Collection.QuickSet` | src/storage/t_set.h:15-73 | likewise for a restored set |
| `Collections.Collection.SAdd` | src/storage/t_set.h:76-127 | the members are added, the new ones counted |
| `Collections.DropListed` | src/storage/t_set.cpp:128-138 | the loop of SREM counts what it removes exactly when no present member is named twice |
| `Collections.Collection.SRem` | src/storage/t_set.cpp:115-156 | SREM succeeds, removes exactly the members and keeps the length right if and only if no present member is named twice |
| `Collections.DropStretch` | src/storage/t_set.cpp:302-312 | the skip-and-take loop over the iterator removes and answers exactly the stretch behind the random start |
| `Collections.Collection.SPop` | src/storage/t_set.cpp:266-330 | exactly the stretch of the scan order behind the random start, as many as asked for or all, is removed and answered |
| `Collections.PutAll` | src/storage/t_hash.h:95-110 | the batch of HMSET gives every field named its value, leaves the others, and counts the fields that are new |
| `Collections.UpdatedMeans` | src/storage/t_hash.h:44-55 | of several pairs with one field the last one counts, and fields not named are untouched |
| `Collections.AddAll` | src/storage/t_set.h:90-112 | the batch of SADD counts the members that are new |
| `Collections.HSetOne` | src/storage/t_hash.cpp:393-419 | the field gets its value in the batch; 1 exactly when it was not there |
| `ZSets.DoubleEqIsValueEq` | src/storage/t_zset.cpp:795-796 | the comparison that leaves a score untouched is numeric equality |
| `ZSets.NewScoreMeans` | src/storage/t_zset.cpp:767-810 | a present member gets the given score, or the sum under INCR, unless NX is given or the value is the same; an absent one gets it unless XX is given |
| `ZSets.ZSetOne` | src/storage/t_zset.cpp:737-833 | one ZADD or ZINCRBY: the new score under every flag, what is reported as the new score, NaN rejected, item and score records in bijection |
| `ZSets.ZDelOne` | src/storage/t_zset.cpp:669-685 | both records of a member go together |
| `ZSets.ZSetAll` | src/storage/t_zset.h:125-147 | the loop of ZADD changes exactly the named members and counts additions and changes |
| `ZSets.ZDelAll` | src/storage/t_zset.cpp:35-42 | the loop of ZREM removes exactly the named members and counts those present |
| `ZSets.ZSet.ZAdd` | src/storage/t_zset.h:80-167 | under every combination of NX, XX and INCR the numeric value of every named member's score, untouched other members, what is rejected; CH counts the members whose numeric value changed; the stored length counts the members |
| `ZSets.ZSet.ZIncr` | src/storage/t_zset.cpp:62-102 | only the named member changes, to the given score or the sum, which is reported; nothing on NaN |
| `ZSets.ZSet.ZDel` | src/storage/t_zset.cpp:25-60 | exactly the named members go, with the length right |
| `ZSets.ZSet.QuickZSet` | src/storage/t_zset.h:15-77 | a restored zset has both records of every member and the right length exactly when no member comes twice and no score is a NaN |
| `ZSets.BuildZSet` | src/storage/t_zset.h:43-62 | the batch of a restored zset is in bijection, one item and one score record for every pair, exactly when no member comes twice and no score is a NaN |
| `RdbFormat.LenRoundTrip` | src/codec/rdb/RdbDecoder.cpp:21-55 | every length decodes from its shortest form, and the decoder stops right behind it |
| `RdbFormat.VerbatimEncodes` | src/codec/rdb/RdbEncoder.cpp:142-157 | a verbatim string reads back and is consumed exactly |
| `RdbFormat.IntegerEncodes` | src/codec/rdb/RdbEncoder.cpp:207-240 | a canonical decimal reads back from its integer form and is consumed exactly |
| `RdbFormat.LzfEncodes` | src/codec/rdb/RdbEncoder.cpp:265-287 | a compressed string reads back and is consumed exactly |
| `RdbFormat.LzfYields` | src/codec/rdb/RdbDecoder.cpp:124-152 | whatever length a blob announces, the decoder consumes it and hands out a string of that length which starts with the decompressed data |
| `RdbFormat.YieldsOne` | src/codec/rdb/RdbDecoder.cpp:154-184 | a code stands for a string exactly if every byte of the string handed out comes from the payload |
| `Layout.LengthBytes` | src/codec/rdb/RdbEncoder.cpp:24-56 | the one, two, five or nine bytes of a length |
| `Layout.LengthRead` | src/codec/rdb/RdbDecoder.cpp:21-55 | the length read back, for every first byte |
| `Layout.IntegerBytes` | src/codec/rdb/RdbEncoder.cpp:207-227 | the bytes of an integer string in its three widths |
| `Layout.StringRead` | src/codec/rdb/RdbDecoder.cpp:154-184 | which of the encoded forms of a string the decoder takes a first byte for |
| `Layout.BlobBytes` | src/codec/rdb/RdbEncoder.cpp:265-287 | the bytes of a compressed string: 0xc3, both lengths, the data |
| `Layout.FooterBytes` | src/codec/rdb/RdbDecoder.cpp:186-206 | the two version bytes and the checksum that verification asks for |
| `Rdb.TryIntegerEncoding` | src/codec/rdb/RdbEncoder.cpp:229-240 | the integer form is taken exactly for canonical decimals of at most 32 bits, and reads back |
| `Rdb.CompressString` | src/codec/rdb/RdbEncoder.cpp:242-263 | a blob, if there is one, reads back as a string of the right length whose first (length mod 2^32) bytes are right: lzf_compress and lzf_decompress take 32-bit lengths |
| `Rdb.DumpEncoder.WriteLen` | src/codec/rdb/RdbEncoder.cpp:24-56 | appends the length's encoding |
| `Rdb.DumpEncoder.WriteString` | src/codec/rdb/RdbEncoder.cpp:109-140 | a canonical decimal of at most 32 bits in at most 11 characters is written as an integer, anything else verbatim or, beyond 20 bytes, compressed; what is appended decodes to the string and nothing more, if and only if the string is below 4 GiB or written verbatim, otherwise to its length and its first (length mod 2^32) bytes |
| `Rdb.RdbDecoder.ReadLen` | src/codec/rdb/RdbDecoder.cpp:21-55 | advances past the length and returns it, or fails on a truncated or unknown form |
| `Rdb.RdbDecoder.ReadLzf` | src/codec/rdb/RdbDecoder.cpp:124-152 | accepts exactly the blobs whose data, cut to 32-bit lengths, decompress; the cursor stands behind the blob, and the string has the announced length and starts with the decompressed bytes |
| `Rdb.RdbDecoder.ReadString` | src/codec/rdb/RdbDecoder.cpp:154-184 | accepts exactly the strings of the format, leaves the cursor behind them, and hands out the announced length and every byte the payload says |
| `Rdb.RdbDecoder.Verify` | src/codec/rdb/RdbDecoder.cpp:186-206 | accepts exactly the payloads with a known version and the right checksum, and cuts the footer off |
| `Rdb.SealedIsIntact` | src/codec/rdb/DumpEncoder.h:46-63 | the footer of a dump verifies and leaves the body, whatever the checksum function |
| `DumpRestore.WriteElem` | src/storage/t_keys.cpp:149-250 | one element of a list, set, hash or zset: the bytes it is written in, and that it reads back alone |
| `DumpRestore.Dump` | src/storage/t_keys.cpp:122-262 | the payload by its bytes: type 0, 1, 2, 4 or 5, the length, the elements in order, version 8 and the checksum; it verifies and stands for the object; a stored length that does not count the elements is an error |
| `DumpRestore.BodyLoads` | src/storage/t_keys.cpp:321-359 | every body of type byte, length and spelt elements stands for that collection |
| `DumpRestore.ReadObject` | src/storage/t_keys.cpp:321-359 | succeeds exactly if the decoder accepts type, length and every element along its path, and then has every byte the payload says, as the kind of object the type byte names |
| `DumpRestore.CoversKnown` | src/storage/t_keys.cpp:321-359 | a payload that says every byte determines the object |
| `DumpRestore.Restore` | src/storage/t_keys.cpp:309-359 | a damaged payload yields nothing; an intact one an object of the kind its type byte names if and only if the decoder accepts it, and something else than the object it stands for if and only if it is accepted although it says less than the whole of it |
| `DumpRestore.ShortBlobTaken` | src/codec/rdb/RdbDecoder.cpp:136-151 | such a payload: nine bytes announced, one in the compressed data |
| `DumpRestore.ShortBlobRestored` | src/codec/rdb/RdbDecoder.cpp:136-151 | RESTORE takes it for a string of nine bytes |
| `DumpRestore.RestoreKey` | src/storage/t_keys.cpp:265-315 | the command succeeds exactly if the payload is accepted and the key is free or REPLACE is given; it fails and loses the old value if and only if REPLACE was given on an existing key and the payload is not accepted |
| `DumpRestore.DumpThenRestore` | src/storage/t_keys.cpp:424-558 | dumping and restoring any object yields the same object, order and score bits included, for list elements and strings below 4 GiB |
| `Transfer.TransferList` | src/storage/t_list.h:12-77 | a stored list comes back with the same elements in the same order |
| `Transfer.TransferHash` | src/storage/t_hash.h:13-73 | a stored hash comes back with the same fields and values and a right length |
| `Transfer.TransferSet` | src/storage/t_set.h:15-73 | a stored set comes back with the same members and a right length |
| `Transfer.TransferZSet` | src/storage/t_zset.h:15-77 | a stored zset comes back with the same members, bit-identical scores and both kinds of record |
| `RecordLock.StepSafe` | src/util/thread.h:184-236 | in a reachable state no step touches a freed mutex |
| `RecordLock.StepKeepsInv` | src/util/thread.h:184-236 | every step keeps reference counts, ownership, filing and charge right |
| `RecordLock.OnlyUser` | src/util/thread.h:226-231 | the last reference is the releasing agent's own, so the record can go |
| `RecordLock.InvSound` | src/util/thread.h:184-236 | at most one holder a key; references equal holders plus waiters; the charge is the sum over present records |
| `RecordLock.RunSound` | src/util/thread.h:252-274 | all of that after every interleaving of RecordLock objects |
| `RecordLock.NoUseAfterFree` | src/util/thread.h:126-135 | whatever can happen after any interleaving uses no freed mutex |
| `RecordLock.NoDeadlock` | src/util/thread.h:184-236 | while an agent is not idle, one of them can step |
| `RecordLock.NothingLeft` | src/util/thread.h:218-236 | when every lock is given up no record, mutex or charge is left |

## Left out

- RocksDB internals, column families, compaction, the write-ahead log and failed commits: an ordered map with atomic batches and consistent snapshots stands for them.
- Networking, command parsing, replies, configuration, logging and signals: plumbing without a state of its own.
- ZRANGEBYSCORE, ZREVRANGEBYSCORE and ZCOUNT: their range end is `max + 1e-15` in floating point.
- ZRANGEBYLEX and its relatives, ZRANGE by index, SRANDMEMBER and the key-space SCAN: further loops over the iterators proved here.
- RESTORE of the ziplist, intset and zipmap types, and of the text form of scores: the ziplist list branch builds an empty list, the others add only easy members.
- Restoring an empty collection with a time to live, which leaves a deadline without a key.
- RecordLocks and the whole-database lock: the constructor of RecordLocks takes no lock; DEL of several keys is one atomic step here.
- flushdb: it does not drain the in-memory reclaim queue.
- contrlExpiration and starting and stopping threads.
- stringmatchlen: an arbitrary predicate stands for it in the scans.
- Parsing, printing and adding doubles: an arbitrary addition stands for ZINCRBY's.
- crc64, crc16 and SHA-1: the dump checksum is an arbitrary function.
- The values of meta records (type, version, tombstone flag, length): fixed fields whose codec would add easy members.
- Integer INCR, GETRANGE, SETRANGE and bit commands: correct but easy members.
- ziplistMerge of a list with itself or with a missing list, ziplistFind and ziplistCompare.
- Ziplists and intsets are byte strings that methods return anew; update in place of one allocation and aliasing are not modelled.
- Lengths that exceed memory: a ziplist or an intset stays below 4 GiB, a collection below 2^64 elements, a cursor number below 2^64.
- Reclaim.RunRefines: client commands are atomic steps under their key's lock; multi_set, which releases each lock before its commit, is not modelled.
- ExpirySafety.RunExact: a client command is one step; ExpiryCommit splits it into its cache section and its commit.
- ExpiryCommit.RunGood: the deletion of all popped keys is one step, as is a command that changes no deadline; deadlines are below INT64_MAX.
- Expiry.ExpirationHandler.PopKeys: the clock is read once for the whole loop, where the code reads it for every key.
- ExpirySafety.PersistRight: for deadlines below INT64_MAX, which stands for no deadline.
- ExpirySettle.RunGood: for the same deadlines.
- Expiry.ExpirationHandler.ExpireKeyAt: the variant SET uses inside its own batch is not modelled.
- ZiplistInsert.InsertAt: a last entry that is an empty string under a two- or five-byte length, which zipEncodeLength never writes, is excluded when the buffer shrinks by one; the outcome of a read past the block is not modelled.
- Rdb.RdbDecoder.ReadLzf: the allocation succeeds whatever length is announced.
- Rdb.CompressString: what it says of 4 GiB and more describes the encoder; no command delivers such a string, since Bytes keeps its size in an int.
- Rdb.RdbDecoder.ReadString: a truncated integer, or a truncated length inside a blob, is a failure here; the code makes a string from a null pointer.
- DumpRestore.DumpThenRestore: strings and list elements of 4 GiB or more, of which a compressed form says only a part, are excluded.
- Transfer.TransferList: likewise.
- DumpRestore.Restore: a payload of a ziplist, intset, zipmap or text-score type is refused here. The elements are collected first and stored afterwards, where the code puts each into its batch as it is read.
- DumpRestore.RestoreKey: likewise; the key's deadline is not modelled here.
- ListWindow.StoredList.Push: for lists of at most INT64_MAX elements; the code's own limit near UINT64_MAX is never reached.
- RecordLock.RunSound: an agent locks one key; kEstimatePairSize is taken as 80 bytes.
- Decimal.FillDigits: the table of digit pairs is a function.
