# ashttpd core, modelled in Dafny

This project models the sequential core of ashttpd, a single-threaded, event-driven static-file HTTP server written in C. The core comprises:

- the buffers it reads into and writes through: `http_buf.c`, `fobuf.c` and `strpool.c`;
- the byte-string utilities and parsers:
  - `vec.c` and `boyer-moore.c`;
  - the URL normaliser, `normalize.c`;
  - the HTTP/1.x head decoder, `http_parse.c`, with `http_req.c` and `http_resp.c`;
- the lookup structures and the offline index builders:
  - the crit-bit map, `critbit.c`;
  - the red-black tree, `rbtree.c`;
  - the radix trie and its breadth-first on-disk layout, `trie.c`;
  - the webroot builders, `mkroot.c` and `mkroot.py`;
  - `webroot.c` and `vhosts.c`;
  - the SkunkDB static hash table, `skunk_make.c` and `skunk.c`;
- the reactor, `nbio.c` and `nbio-inotify.c`;
- the connection stub, `http_conn.c`;
- the I/O strategies: `io_sync.c`, `io_sendfile.c`, `io_async.c`, `io_async_sendfile.c` and `io_dasync.c`.

Each source file is modelled in the form it is written in.

- **Objects whose fields the C code updates** are Dafny classes:
  - buffers, pools and the SkunkDB writer;
  - the trie and webroot builders;
  - the I/O thread and the inotify notifier;
  - connections and the chunk cache.

  Their methods have `modifies` clauses and state the whole new state. On the I/O thread a connection's methods state the new list and wait bits of the connection's own endpoint, and `Nbio.Touched` says that no other endpoint changed.
- **Loops** are methods with invariants. Each is proved against a specification function on values.
- **Pure computations** are functions, with lemmas stating what the source promises:
  - hashing;
  - comparisons;
  - decoding;
  - layouts and the red-black predicates.

The properties proved include:

- **Round trips:**
  - SkunkDB: a record inserted and committed is found by `skunk_select` with its value, when records with equal keys carry equal values.
  - Every well-formed HTTP head rendered to bytes decodes back to its parts.
  - Percent-decoding undoes percent-encoding.
- **Invariants kept:**
  - `base <= read <= write <= end` for the HTTP buffer;
  - every endpoint on exactly one reactor list;
  - the red-black properties after insertion and deletion, with the keys in order unchanged or short of exactly the deleted key;
  - chunk reference counts and LRU membership in the chunk cache.
- **Results:**
  - the leftmost match of Boyer-Moore;
  - the found index of binary search;
  - the first and last nodes and the neighbours in the red-black tree;
  - the BFS order and child runs of the trie layout;
  - the contiguity of the webroot file bodies.

System calls (send, recv, sendfile, pread, fsync, close, io_submit, io_getevents, stat, allocation) are parameters of the methods that make them. A call's result is whatever the caller passes, so every outcome the kernel could give is covered.

Where the code and its evident intent disagree, the model keeps both. The as-written member, often ending in `AsWritten`, follows the code. The corrected member is what the rest of the model builds on. Each pair is listed under "Findings".

## Model

| member | source | states |
|---|---|---|
| `Vec.VToUint` | vec.c:11-26 | consumes exactly the longest run of leading decimal digits and returns its value wrapped to 32 bits |
| `Vec.VCmp` | vec.c:94-111 | returns vcmp's order: the first differing byte decides, else the length difference |
| `Vec.VCaseCmp` | vec.c:75-92 | returns vcmp's order of the two strings after tolower on every byte |
| `Vec.VCmpFast` | vec.c:47-62 | returns vcmp_fast's order: the length difference first, then the first differing byte |
| `Vec.VCaseCmpFast` | vec.c:29-44 | returns vcmp_fast's order of the lower-cased strings |
| `Vec.VStrCmp` | vec.c:113-121 | compares a vector with a C string case-insensitively; 0 exactly when they are equal ignoring case |
| `Vec.VStrCmpFast` | vec.c:65-73 | the same against vcmp_fast's order; 0 exactly when equal ignoring case |
| `Vec.CompareDecidedAt` | vec.c:94-111 | the first differing position decides vcmp's result, and a common prefix that ends one string gives the length difference |
| `Vec.CompareZeroIffEqual` | vec.c:94-111 | vcmp returns 0 exactly for equal strings |
| `Vec.CompareFastZeroIffEqual` | vec.c:47-62 | vcmp_fast returns 0 exactly for equal strings |
| `Vec.CompareAntisymmetric` | vec.c:47-111 | swapping the arguments negates both vcmp and vcmp_fast |
| `Vec.CompareTransitive` | vec.c:94-111 | vcmp's strict order is transitive |
| `Vec.CompareFastTransitive` | vec.c:47-62 | vcmp_fast's strict order is transitive |
| `BoyerMoore.LastIndexIsLast` | boyer-moore.c:36-45 | the last occurrence of a byte in the needle, or -1, is what the skip table's overwriting leaves |
| `BoyerMoore.BmSkip` | boyer-moore.c:36-45 | the table bm_skip fills is plen + 1 for absent bytes and plen - (last index) for present ones |
| `BoyerMoore.SkippedWindowsFail` | boyer-moore.c:5-34 | no window skipped over after a mismatch can hold the needle |
| `BoyerMoore.BmFind` | boyer-moore.c:5-34 | a result is a true occurrence; with bm_skip's table it is the leftmost one and None means there is none |
| `Fobuf.CloseStatusAsWrittenRejectsSuccess` | fobuf.c:150-160 | as written, a successful flush, fsync and close is reported as failure |
| `Fobuf.Fobuf.constructor` | fobuf.c:82-103 | a new buffer is empty, of the requested size or the default, attached to fd |
| `Fobuf.Fobuf.FdWrite` | fobuf.c:45-63 | fd_write succeeds exactly when the device accepts the write, delivering every byte; a failed write delivers the prefix the device took |
| `Fobuf.Fobuf.CopyIn` | fobuf.c:238-248 | the memcpy appends the data to the buffered bytes and moves the fill position |
| `Fobuf.Fobuf.Flush` | fobuf.c:45-68 | an empty buffer flushes trivially and sends nothing; otherwise it succeeds exactly when the device accepts the write, and the buffered bytes go out and the buffer empties |
| `Fobuf.Fobuf.Write` | fobuf.c:238-248 | bytes sent followed by bytes buffered gain exactly the data; a short write only buffers |
| `Fobuf.Fobuf.WriteSlow` | fobuf.c:207-236 | fills and flushes, then writes a long remainder directly or buffers a short one; nothing is lost or reordered |
| `Fobuf.Fobuf.Close` | fobuf.c:130-161 | descriptor -1 succeeds without I/O; otherwise it succeeds exactly when the flush, fsync and close all do, and success means every buffered byte was sent |
| `Fobuf.Fobuf.NewFd` | fobuf.c:172-195 | like close, succeeding exactly when the flush, fsync and close of the old descriptor do; then the buffer is attached, empty, to the new descriptor |
| `Fobuf.New` | fobuf.c:82-103 | a buffer is returned exactly when allocation succeeds, empty, sized as requested and writing to the given device |
| `HttpBuf.Buf.constructor` | http_buf.c:21-44 | a new buffer spans one whole pool object with both cursors at its base |
| `HttpBuf.Buf.Read` | http_buf.c:95-100 | reports where the unread bytes start and how many there are |
| `HttpBuf.Buf.Write` | http_buf.c:102-107 | reports the free space after the write cursor, no pointer once full |
| `HttpBuf.Buf.DoneRead` | http_buf.c:109-115 | consumes sz unread bytes and returns how many remain |
| `HttpBuf.Buf.DoneWrite` | http_buf.c:117-122 | appends the sz bytes stored at the write cursor to the unread bytes |
| `HttpBuf.Buf.Reset` | http_buf.c:124-140 | moves the unread bytes down to the base, unchanged, and leaves the bytes from the old write cursor on as they were; a drained buffer just rewinds |
| `HttpBuf.Alloc` | http_buf.c:65-93 | a buffer is returned exactly when allocation succeeds; it is empty and spans one object of the pool its allocator draws from |
| `StrPool.SlabSizeFor` | strpool.c:48-64 | 0 selects the default slab size and a request below the header size is raised to it |
| `StrPool.Pool.constructor` | strpool.c:48-64 | a new pool has no slabs and has allocated nothing |
| `StrPool.Pool.AllocSlow` | strpool.c:95-126 | appends a slab of max(header + sz, slab size) bytes holding the object right after its header exactly when malloc succeeds, or changes nothing |
| `StrPool.Pool.Alloc` | strpool.c:139-158 | carves from the tail slab when it has room, else takes the slow path, failing only when that malloc fails; a new object never overlaps an earlier one |
| `StrPool.Pool.Free` | strpool.c:73-85 | releases every slab, head to tail |
| `StrPool.New` | strpool.c:48-64 | a pool is returned exactly when calloc succeeds, empty, with the chosen slab size |
| `NormalizeSpec.CStr` | normalize.c:513-541 | what C code sees of a buffer: the prefix before the first NUL, which holds no NUL |
| `NormalizeSpec.HexChar` | normalize.c:153-163 | a hex digit's value is below 16 and any other byte gives 0 |
| `NormalizeSpec.HexDecodeEncode` | normalize.c:174-254 | n_hex decoding undoes percent-encoding of every NUL-free string |
| `NormalizeSpec.HexDecodePlain` | normalize.c:174-254 | a string without '%' decodes to itself |
| `NormalizeSpec.HexRunShrinks` | normalize.c:174-254 | decoding never lengthens the string and never yields a NUL from a NUL-free input |
| `NormalizeSpec.CollapseProperties` | normalize.c:264-293 | n_pcount's collapse never lengthens, leaves no two slashes in a row and keeps a string NUL-free |
| `NormalizeSpec.CollapseIdempotent` | normalize.c:264-293 | collapsing an already collapsed string changes nothing |
| `NormalizeSpec.ComponentsCount` | normalize.c:264-293 | the path has one component per slash, none holding a slash or (for a NUL-free path) a NUL |
| `NormalizeSpec.ComponentsJoin` | normalize.c:307-359 | splitting a joined rooted path gives back its components |
| `NormalizeSpec.ResolveKeeps` | normalize.c:307-359 | every component the "."/".." resolution keeps is clean and comes from its input |
| `NormalizeSpec.ResolveDotDot` | normalize.c:307-359 | ".." right after a component cancels it |
| `NormalizeSpec.PathShape` | normalize.c:307-359 | a normalised path starts with '/', is no longer than its input (an empty input gives "/", one byte), and has no "." or ".." component |
| `NormalizeSpec.LeadLen` | normalize.c:443-505 | the sequence length a lead byte announces: 1 for a continuation byte, 7 only for 0xFE and 0xFF |
| `NormalizeSpec.Emit` | normalize.c:406-432 | a complete sequence becomes one byte when its value is below 0x100, else stays as it is |
| `NormalizeSpec.Utf8CollapsesOverlong` | normalize.c:443-505 | an overlong two-byte form of an ASCII byte collapses to that byte |
| `NormalizeSpec.Utf8Ascii` | normalize.c:443-505 | ASCII passes through n_utf8 unchanged |
| `NormalizeSpec.Utf8KeepsWide` | normalize.c:443-505 | a three-byte sequence with value 0x100 or more is kept verbatim |
| `NormalizeSpec.Utf8Truncated` | normalize.c:443-505 | a sequence cut off by the end of the string is an error |
| `NormalizeSpec.Utf8GuardNeverFires` | normalize.c:452-465 | as written the 0xfe/0xff guard never fires on a signed char; the corrected pass rejects 0xFE and a stray continuation byte |
| `NormalizeSpec.QueryMark` | normalize.c:370-397 | the position of the first '?', or -1 when there is none |
| `NormalizeSpec.SplitRejoins` | normalize.c:370-397 | target, '?' and query put back together give the whole buffer, and the target holds no '?' |
| `NormalizeSpec.SplitOf` | normalize.c:370-397 | the first '?' after a '?'-free target splits there |
| `NormalizeSpec.NormalizeSeparates` | normalize.c:513-541 | the target's normalisation does not depend on the query, nor the query's decoding on the target |
| `NormalizeSpec.NormalizedUriClean` | normalize.c:513-541 | a normalised target starts with '/' and has no "." or ".." component |
| `NormalizeSpec.AsWrittenAgrees` | normalize.c:513-541 | the code as written agrees with the intended pipeline except for an empty target with a query |
| `NormalizeSpec.QueryLostAsWritten` | normalize.c:307-359 | for "?a" the code as written loses the query "a" |
| `NormalizeSpec.CStrUpTo` | normalize.c:513-541 | a C string ends at its first NUL, whatever follows |
| `Normalize.Put` | normalize.c:488-489 | the memcpy writes src at the given position and nothing else |
| `Normalize.HexOne` | normalize.c:174-254 | one step of n_hex's loop keeps the loop invariant, or stops with the error the specification gives |
| `Normalize.Hex` | normalize.c:174-254 | n_hex succeeds exactly when percent-decoding succeeds and then leaves the decoded C string in place, touching nothing past the old terminator |
| `Normalize.PCountOne` | normalize.c:264-293 | one step of n_pcount folds a backslash and drops a repeated slash or copies the byte |
| `Normalize.PCount` | normalize.c:264-293 | n_pcount leaves the slash-collapsed string in place and returns its number of slashes |
| `Normalize.GrabComponents` | normalize.c:316-323 | the first loop of n_path yields one component per slash, each slash overwritten by a NUL |
| `Normalize.StripDots` | normalize.c:325-339 | the second loop drops "." and lets ".." cancel the last kept component, failing with a traversal error when none is left |
| `Normalize.Rebuild` | normalize.c:341-356 | the third loop writes the kept components joined by single slashes after a leading slash and ends them with a NUL |
| `Normalize.PathParts` | normalize.c:307-359 | the path pass fails as resolving the components fails, and otherwise its output is the kept components joined after a slash |
| `Normalize.PathPass` | normalize.c:307-359 | n_path succeeds exactly when the path specification does and then leaves its result as the C string in place |
| `Normalize.LeadLength` | normalize.c:458-465 | the lead-length loop computes the sequence length the lead byte announces |
| `Normalize.Ucs4Of` | normalize.c:406-432 | n_ucs4 computes the code point of the sequence |
| `Normalize.Utf8One` | normalize.c:451-496 | one round of n_utf8's loop keeps the loop invariant or stops with the specified error, changing nothing |
| `Normalize.EmitSeq` | normalize.c:486-493 | a completed sequence is written as one byte when its code point is below 0x100, else verbatim |
| `Normalize.Utf8Pass` | normalize.c:443-505 | n_utf8 succeeds exactly when the UTF-8 specification does and then leaves its output as the C string in place |
| `Normalize.Recoding` | normalize.c:525-529 | n_utf8 then n_path over the target: success exactly when both passes succeed, with their composed result in place |
| `Normalize.UriPasses` | normalize.c:518-529 | n_hex, n_utf8 and n_path over the target succeed exactly when the target's normalisation does, leaving it in place |
| `Normalize.SplitTarget` | normalize.c:381-390 | the first loop of n_split copies up to the first '?', which becomes a NUL |
| `Normalize.SplitRest` | normalize.c:392-396 | the second loop copies the rest and ends it with a NUL |
| `Normalize.SplitMark` | normalize.c:370-397 | where the first loop stops determines the target and the query |
| `Normalize.Normaliser.constructor` | normalize.c:513-541 | a normaliser starts with its URI buffer and no error |
| `Normalize.Normaliser.Split` | normalize.c:370-397 | n_split leaves the target at the start of uribuf and the query, if any, right after its NUL |
| `Normalize.Normaliser.Normalize` | normalize.c:513-541 | nads_normalize returns the status, error code, target and query of the normalisation as written |
| `Normalize.QueryPass` | normalize.c:535-536 | n_hex on the query succeeds exactly when decoding it does and leaves the decoded query in place |
| `SkunkHeader.SkunkHash` | include/skunk.h:83-91 | skunk_hash's loop computes the FNV-1 hash of the key, a 32-bit value |
| `SkunkFormat.HashFromAppend` | include/skunk.h:83-91 | the hash of a concatenation continues from the hash of its first part |
| `SkunkFormat.HashSnoc` | include/skunk.h:87-88 | one more byte costs one more multiply-and-xor round |
| `SkunkFormat.HeadOf` | skunk_make.c:64-65 | a key's primary slot, hash % SKUNK_HASHSZ, is in range |
| `SkunkFormat.Start` | skunk_make.c:98 | the first slot probed, (hash ^ klen) % count, is in range |
| `SkunkFormat.Next` | skunk_make.c:101 | the next slot, (i + 1) % count, is in range |
| `SkunkFormat.ProbeAtLap` | skunk_make.c:99-102 | within one lap, the slot d steps ahead is i + d wrapped once |
| `SkunkFormat.Dist` | skunk_make.c:99-102 | every slot is reached from any start in fewer than count steps |
| `SkunkFormat.Size` | skunk_make.c:74-85 | skunk_size gives an odd size at least the count, keeps the load within two thirds, and bumps 513..1020 to 1021 |
| `SkunkFormat.TableLen` | skunk_make.c:140-155 | an empty head gets no table; any other a table no smaller than its list |
| `SkunkFormat.FillSlot` | skunk_make.c:104 | filling an empty slot adds one occupied slot holding that record |
| `SkunkFormat.CompactHas` | skunk_make.c:108-113 | the list rebuilt from the table holds a record exactly when some slot does |
| `SkunkFormat.FreeFromIsFirst` | skunk_make.c:98-105 | the slot a record lands in is the first empty one on its probe sequence |
| `SkunkFormat.FreeFromNone` | skunk_make.c:98-105 | when no slot is found, every slot probed is occupied |
| `SkunkFormat.FreeExists` | skunk_make.c:98-105 | while some slot is empty, the probe loop finds one |
| `SkunkFormat.PlaceIndex` | skunk_make.c:98-105 | a record is placed in an empty slot |
| `SkunkFormat.PlaceAll` | skunk_make.c:96-106 | placing a list fills exactly one slot per record |
| `SkunkFormat.PlaceAllPermutes` | skunk_make.c:96-106 | the occupied slots gain exactly the records placed |
| `SkunkFormat.ResolvePermutes` | skunk_make.c:88-114 | the list skunk_resolve rebuilds is a permutation of the one it was given |
| `SkunkFormat.ResolveSlots` | skunk_make.c:88-114 | every record has a slot and every occupied slot holds a record of the list |
| `SkunkFormat.ReadWord` | include/skunk.h:55-68 | reading a stored u32 field gives back the value truncated to 32 bits |
| `SkunkFormat.EncBucket` | skunk_make.c:174-183 | a bucket is 16 bytes: hash, offset, key and value lengths, or all zero when empty |
| `SkunkFormat.Buckets` | skunk_make.c:174-189 | each bucket records where its record's bytes start, right after those of the earlier ones |
| `SkunkFormat.Image` | skunk_make.c:117-215 | the file skunk_commit writes holds at least the primary table |
| `SkunkFormat.Probe` | skunk.c:77-104 | the probe loop finds only a bucket that matches hash, key length and key bytes, and gives -1 only for a bucket outside the image |
| `SkunkFormat.Lookup` | skunk.c:56-105 | skunk_select refuses an empty key, and a record found has the key's length and bytes and lies in the image |
| `SkunkFormat.ProbeReaches` | skunk.c:98-102 | a matching bucket within the len + 1 probes is not missed |
| `SkunkFormat.ProbeHit` | skunk.c:83-96 | a probe that reaches a matching bucket returns it |
| `SkunkFormat.ProbeSkip` | skunk.c:86-102 | a bucket that fits and does not match sends the probe to the next slot |
| `SkunkFormat.LookupComplete` | skunk.c:56-105 | a key held by some bucket of its table, which lies in the image, is found |
| `SkunkDb.Db.Open` | skunk.c:24-53 | skunk_open fails when fstat, the size check, calloc or mmap fails, and otherwise maps the whole file with the result pointer NULL |
| `SkunkDb.Db.Select` | skunk.c:56-105 | skunk_select returns the code Lookup specifies and stores the record only on a hit; a hit faults exactly when the result pointer is still NULL |
| `SkunkDb.Db.Probing` | skunk.c:76-104 | the probe loop returns the answer Probe specifies from slot (h ^ klen) % len, and stores a hit through the result pointer, faulting when it is NULL |
| `SkunkDb.ProbeOut` | skunk.c:80-81 | a bucket that does not fit ends the probe with -1 |
| `SkunkDb.ProbeGivesUp` | skunk.c:99-100 | after len + 1 buckets without a match the probe reports a miss |
| `SkunkDb.LookupTable` | skunk.c:63-76 | an empty primary entry gives 0 and one past the image gives -1, before any bucket is read |
| `SkunkDb.BucketCheckAsWritten` | skunk.c:80-81 | as written the bucket test lets through a bucket whose 16 bytes run past the end of the map |
| `SkunkDb.RecordCheckAsWritten` | skunk.c:86-87 | as written the 32-bit sum wraps and lets through a record lying far past the end of the map |
| `SkunkFormat.Step` | include/skunk.h:87-88 | one FNV-1 round, multiply then xor, stays a 32-bit value |
| `SkunkFormat.Hash` | include/skunk.h:83-91 | the hash skunk_hash returns is below 2^32 |
| `SkunkFormat.ProbeAt` | skunk_make.c:98-102 | the slot d steps after slot i is a slot of the table |
| `SkunkFormat.FreeFrom` | skunk_make.c:98-105 | the slot the probe loop stops at is empty and in range |
| `SkunkFormat.FreeDistance` | skunk_make.c:98-105 | the slot found lies d < k steps along the probe sequence and every slot before it is occupied |
| `SkunkFormat.Resolve` | skunk_make.c:88-106 | the secondary table built for a head has exactly its size |
| `SkunkFormat.LE32` | skunk_make.c:153-157 | a stored u32 field is four bytes |
| `SkunkFormat.EncTable` | skunk_make.c:136-158 | a primary table entry is eight bytes |
| `SkunkFormat.HeadSlots` | skunk_make.c:172 | the table resolved for head i has the size skunk_size chose for it |
| `SkunkFormat.Tabs` | skunk_make.c:167-190 | one resolved table per head, in head order |
| `SkunkFormat.Entries` | skunk_make.c:135-159 | the primary table holds one entry per head, in head order |
| `SkunkMake.NewDb` | skunk_make.c:21-41 | skunk_new_db gives a writer exactly when the descriptor is not negative and allocation succeeds; every one of the 2048 heads is then empty |
| `SkunkMake.Maker.constructor` | skunk_make.c:21-41 | a new db writer starts with every head empty and keeps the descriptor |
| `SkunkMake.Maker.Insert` | skunk_make.c:44-71 | skunk_insert succeeds exactly when key and value are given, the key is not empty and the record can be allocated; a refusal changes nothing, and success puts the record with its hash at the front of head hash % 2048 |
| `SkunkMake.InsertWellFormed` | skunk_make.c:60-68 | an insertion keeps every record in the head its hash selects |
| `SkunkMake.Clear` | skunk_make.c:94 | the memset of skunk_resolve empties the first count slots |
| `SkunkMake.Place` | skunk_make.c:96-106 | one record goes into the first empty slot on its probe sequence, and no other slot changes |
| `SkunkMake.PlaceList` | skunk_make.c:94-106 | clearing and placing a list builds the table Resolve specifies |
| `SkunkMake.Rebuild` | skunk_make.c:108-113 | the list rebuilt from the table holds its occupied slots in ascending slot order |
| `SkunkMake.Maker.ResolveHead` | skunk_make.c:88-114 | skunk_resolve leaves the table Resolve specifies and replaces only head i's list, by that table's records in slot order |
| `SkunkMake.Maker.PrimaryHead` | skunk_make.c:136-158 | one step of the first loop writes head i's entry, resizes only its count by skunk_size and raises max to it |
| `SkunkMake.Maker.WritePrimary` | skunk_make.c:132-159 | the first loop of skunk_commit writes the primary table, and every count becomes its table's length, at most max |
| `SkunkMake.PrimaryStep` | skunk_make.c:140-158 | each entry extends the table written and moves the bucket offset past that head's table |
| `SkunkMake.WriteSlots` | skunk_make.c:174-189 | a head's slots become its buckets, each pointing at where its record's bytes will go |
| `SkunkMake.Maker.HeadBuckets` | skunk_make.c:170-189 | one step of the second loop resolves head i and appends its buckets |
| `SkunkMake.Maker.WriteBuckets` | skunk_make.c:166-192 | the second loop writes the buckets of every head's resolved table, in head order |
| `SkunkMake.WriteRecords` | skunk_make.c:198-205 | the inner loop of the third loop writes each record's key and then its value |
| `SkunkMake.Maker.WriteData` | skunk_make.c:194-206 | the third loop writes the key/value area, every head's records in slot order |
| `SkunkMake.Maker.WriteTables` | skunk_make.c:166-206 | after the primary table, the stream gains every bucket and then every record, so it holds the whole image |
| `SkunkMake.Resolved` | skunk_make.c:167-172 | while the second loop runs, the heads already visited hold their records in slot order and the rest are as inserted |
| `SkunkMake.ResolvedTabs` | skunk_make.c:148-172 | once every count is its table's length, each head resolves into the table Tabs gives |
| `SkunkMake.CommitImage` | skunk_make.c:117-215 | the primary table, the buckets and the key/value area written in turn make the image |
| `SkunkMake.LayoutAt` | skunk_make.c:132-180 | the bucket area starts right after the primary table and the data right after the buckets |
| `SkunkMake.Maker.Commit` | skunk_make.c:117-215 | skunk_commit, with the status corrected, succeeds exactly when the buffer and table allocations, every write, the fsync and the close succeed, and success means the file holds exactly the image of the inserted records |
| `SkunkMake.CommitAsWrittenReportsTruncated` | skunk_make.c:161-164 | as written a failed table allocation leaves only the primary table in the file, yet a successful close reports success |
| `SkunkStream.Pieces` | skunk_make.c:198-205 | each record contributes its key followed by its value |
| `SkunkStream.DataBytesCompact` | skunk_make.c:194-206 | the key/value area of a table is that of its occupied slots in slot order |
| `SkunkStream.PlaceAllSnoc` | skunk_make.c:96-106 | placing one more record fills the slot the probe finds in the table built so far |
| `SkunkStream.BucketStep` | skunk_make.c:174-185 | writing slot g's bucket extends the buckets by one and moves the data offset past its key and value |
| `SkunkRoundTrip.EntryWords` | skunk.c:70-72 | a primary entry reads back the offset and count written, truncated to 32 bits |
| `SkunkRoundTrip.LayoutEntry` | skunk.c:63-72 | entry t of the primary table in the file reads back as skunk_commit wrote it |
| `SkunkRoundTrip.BucketWords` | skunk.c:83-92 | a bucket reads back the hash, offset and lengths written for its slot |
| `SkunkRoundTrip.LayoutBucket` | skunk.c:77-83 | bucket g of the file is the one written for slot g |
| `SkunkRoundTrip.LayoutData` | skunk.c:86-96 | the key and value of the record in slot g lie where its bucket points |
| `SkunkRoundTrip.ImageEntry` | skunk.c:63-72 | head i's entry in the file names the start of its table and its size |
| `SkunkRoundTrip.InBucket` | skunk.c:77-83 | slot j of head i's table is the bucket the reader finds at the table offset plus 16 j |
| `SkunkRoundTrip.InData` | skunk.c:86-96 | the record in slot j of head i's table has its key and value where its bucket points |
| `SkunkRoundTrip.BucketMatches` | skunk.c:83-92 | a bucket holding a record matches that record's key and hash |
| `SkunkRoundTrip.MatchYields` | skunk.c:83-96 | a bucket matches a key only when it holds a record with that key, and then yields that record's value |
| `SkunkRoundTrip.MatchOccupied` | skunk.c:83-92 | an empty bucket matches no nonempty key |
| `SkunkRoundTrip.FoundValue` | skunk.c:56-105 | on any image, when a bucket of the key's table matches and every matching bucket holds the value, skunk_select finds it |
| `SkunkRoundTrip.TableLookup` | skunk.c:56-105 | a table laid out in the image and holding the record lets skunk_select find its key with its value |
| `SkunkRoundTrip.HeadTable` | skunk_make.c:117-215 | head i's table is laid out in the image as the reader expects |
| `SkunkRoundTrip.OwnSlot` | skunk_make.c:96-106 | every record of a head has a slot in its table, and every slot with its key holds its value |
| `SkunkRoundTrip.RoundTripOf` | skunk.c:56-105 | every record inserted is found with its own value in a file laid out with any tables that place each head's records |
| `SkunkRoundTrip.RoundTrip` | skunk.c:56-105 | every record inserted is found with its own value by skunk_select in the file skunk_commit writes |
| `HttpDecode.DecodeBuf` | http_parse.c:114-197 | the loop of http_decode_buf computes the scan the step function specifies, with the result the head's outcome gives |
| `HttpDecode.RunStopped` | http_parse.c:160-163 | once the empty line has ended the head (cur = end), later bytes change nothing |
| `HttpDecode.RunSplit` | http_parse.c:128 | scanning a..c is scanning a..b and then b..c from the state reached |
| `HttpDecode.RunSnoc` | http_parse.c:128-186 | one more byte is one more step of the switch, unless the head has ended |
| `HttpDecode.RetAfterNewline` | http_parse.c:152-161 | the return value is 0 or the offset just past a '\n' |
| `HttpDecode.FieldChars` | http_parse.c:137-155 | bytes that neither end a field nor, in the first two fields, are a space only lengthen the current field |
| `HttpDecode.KeyChars` | http_parse.c:156-165 | bytes other than ':' and '\n' only lengthen the key |
| `HttpDecode.ValueChars` | http_parse.c:173-184 | bytes other than '\n' only lengthen the value |
| `HttpDecode.SkipEnters` | http_parse.c:130-136 | in state 0 a byte other than a space starts the current field there |
| `HttpDecode.FieldSpace` | http_parse.c:140-145 | in state 1 a space ends the first or second field and moves to the next |
| `HttpDecode.FieldEnds` | http_parse.c:146-153 | in state 1 a '\n' after '\r' ends the field without the '\r', starts the key and sets the return value past the '\n' |
| `HttpDecode.KeyColon` | http_parse.c:157-159 | in state 2 a ':' ends the key |
| `HttpDecode.KeyEnds` | http_parse.c:160-163 | in state 2 a '\n' ends the head, with the return value just past it |
| `HttpDecode.ColonSpace` | http_parse.c:166-172 | in state 3 spaces are skipped |
| `HttpDecode.ColonEnters` | http_parse.c:167-171 | in state 3 any other byte starts the value there |
| `HttpDecode.ValueEnds` | http_parse.c:173-183 | in state 4 a '\n' after '\r' dispatches the header with the value without the '\r' and starts the next key |
| `HttpDecode.TokenField` | http_parse.c:130-145 | a first-line field followed by a space is recorded with its own bytes and the scan moves to the next field |
| `HttpDecode.LastFieldLine` | http_parse.c:137-153 | the third field and its CRLF are recorded and the scan moves on to the header keys |
| `HttpDecode.KeyPart` | http_parse.c:156-172 | a key and the ": " after it are recorded as the key |
| `HttpDecode.ValuePart` | http_parse.c:166-183 | a value and its CRLF dispatch the header and the next key starts |
| `HttpDecode.HeaderLines` | http_parse.c:156-184 | a run of header lines dispatches each header, in order, with its own key and value spans |
| `HttpDecode.HeaderCuts` | http_parse.c:178 | the key and value spans dispatched designate exactly the keys and values written there |
| `HttpDecode.EndLine` | http_parse.c:156-165 | the empty line ends the head with the return value just after it |
| `HttpDecode.FirstLine` | http_parse.c:128-155 | the first line's three fields are recorded and the scan waits for a key |
| `HttpDecode.FirstLineCuts` | http_parse.c:192-194 | each field of the first line designates its own bytes |
| `HttpDecode.HeadScan` | http_parse.c:114-197 | a buffer starting with a rendered head is scanned to its empty line with the fields and header spans as written |
| `HttpDecode.RoundTrip` | http_parse.c:114-197 | a head rendered from well-formed parts decodes back to those parts whatever follows it, and the return value is its length |
| `HttpDecode.DecodeWithin` | http_parse.c:188-196 | the length http_decode_buf reports never exceeds the bytes given, and is 0 for none |
| `HttpParse.VersionText` | http_parse.c:25-35 | a version text is the eight bytes "HTTP/X.Y" with the digits in place |
| `HttpParse.ProtoVersionAsWritten` | http_parse.c:17-41 | http_proto_version as written gives a byte, and a code other than HTTP_VER_UNKNOWN exactly for "HTTP/digit.digit" |
| `HttpParse.ProtoVersion` | http_parse.c:17-41 | with the nibbles in the order of the HTTP_VER_* codes: a byte, and a known code exactly for "HTTP/digit.digit" |
| `HttpParse.ProtoVersionOfText` | http_parse.c:37-40 | decoding "HTTP/X.Y" gives (X << 4) \| Y |
| `HttpParse.ProtoVersionKnown` | http_parse.c:22-40 | a known code comes from exactly one version text, which re-encoding it gives back |
| `HttpParse.ProtoVersionOrder` | http_parse.c:37-40 | version codes order versions by major and then minor number |
| `HttpParse.ProtoVersionNames` | include/http-parse.h:4-7 | "HTTP/1.1", "HTTP/1.0" and "HTTP/0.9" decode to HTTP_VER_1_1, HTTP_VER_1_0 and HTTP_VER_0_9 |
| `HttpParse.ProtoVersionSwapped` | http_parse.c:40 | as written the nibbles come out swapped: "HTTP/1.0" gives 0x01, not HTTP_VER_1_0, and "HTTP/2.0" ranks below "HTTP/1.1" |
| `HttpParse.DigitRun` | vec.c:11-26 | the digits vtouint consumes are the leading run of decimal digits |
| `HttpParse.DigitRunUnique` | vec.c:11-26 | any count that covers only digits and stops before a non-digit is the digit run |
| `HttpParse.IntField` | http_parse.c:57-68 | htype_int stores -1 or a value up to INT_MAX |
| `HttpParse.HtypeInt` | http_parse.c:57-68 | the handler stores what IntField specifies |
| `HttpParse.IntFieldOfNumber` | http_parse.c:62-67 | a decimal number up to INT_MAX, followed by anything but a digit, is stored as itself |
| `HttpParse.IntFieldNoDigits` | http_parse.c:63-64 | a value that does not start with a digit is stored as -1 |
| `HttpParse.CodeField` | http_parse.c:72-82 | the disabled htype_code stores 0xffff or a value up to 999 |
| `HttpParse.CodeFieldOfDigits` | http_parse.c:77-81 | three digits are stored as their value, and a digit run of any other length as 0xffff |
| `HttpParse.HtypeCode` | http_parse.c:72-82 | the handler stores what CodeField specifies |
| `HttpParse.Search` | http_parse.c:94-109 | the halving over the entries calls only an entry in its range whose label equals the key up to case |
| `HttpParse.DispatchHdr` | http_parse.c:86-110 | dispatch_hdr calls at most one handler, and only one whose label equals the key up to case |
| `HttpParse.Halve` | http_parse.c:98-107 | one probe: a match at the middle entry is the entry called; otherwise the range shrinks to the half the key falls in, and the entry finally called does not change |
| `HttpParse.SearchStep` | http_parse.c:98-107 | one halving step compares with the middle label and goes left, goes right or calls it |
| `HttpParse.SearchFinds` | http_parse.c:94-109 | on a sorted table, a key equal to a label in range up to case reaches that entry |
| `HttpParse.SearchBelow` | http_parse.c:100-101 | a key equal to an entry before the middle sends the halving left |
| `HttpParse.SearchAbove` | http_parse.c:102-104 | a key equal to an entry after the middle sends the halving right |
| `HttpParse.DispatchIff` | http_parse.c:86-110 | on a sorted table, dispatch_hdr calls entry j exactly when the key equals label j up to case |
| `HttpParse.LastValue` | http_parse.c:43-50 | a handler that overwrites its destination ends with the value of the last header whose key matches, or none |
| `HttpParse.LastDispatchedIs` | http_parse.c:178 | on a sorted table, each entry's handler ends up with the value of the last header whose key equals its label up to case |
| `HttpParse.NeverDispatched` | http_parse.c:94-109 | an entry that no key reaches never receives a value |
| `HttpReq.LastColon` | http_req.c:69-76 | the backwards scan stops at the last ':' of the host, or finds none |
| `HttpReq.LastColonIs` | http_req.c:69-76 | a ':' with none after it is the one the scan stops at |
| `HttpReq.SplitHost` | http_req.c:60-84 | the loop splits the host into the hostname and a port that is kept only when it is all digits and below 65536 |
| `HttpReq.HostPortRoundTrip` | http_req.c:60-84 | a hostname, ':' and a decimal port up to 65535 split back into the two, whatever colons the hostname holds |
| `HttpReq.HostWithoutPort` | http_req.c:61-76 | a host without ':' is its own hostname, on port 80 |
| `HttpReq.Request.TakeHeaders` | http_req.c:12-32 | the handlers store the last Host value in r->host and the last Connection and Content-Length values in the locals |
| `HttpReq.Request.Complete` | http_req.c:36-90 | after a successful decode: the version, the content length, the close flag, the hostname and port, and the "/" default |
| `HttpReq.Request.HttpReq` | http_req.c:6-95 | http_req returns the head's length, 0 when decoding fails, and leaves the request Parsed specifies |
| `HttpReq.LabelsNoNul` | http_req.c:12-29 | the labels are C strings without NUL bytes |
| `HttpReq.LabelsSorted` | http_req.c:12-29 | the table reordered into vstrcmp order is sorted, as dispatch_hdr's halving needs |
| `HttpReq.HostMissedAsWritten` | http_req.c:12-29 | as written dispatch_hdr never finds "Host" in the table: it goes right of "Connection" and of "Content-Length" and runs out |
| `HttpReq.HostIgnoredAsWritten` | http_req.c:16 | so with the table as written no Host header ever reaches r->host |
| `HttpReq.HeaderValues` | http_req.c:12-32 | each stored header value is that of the last line whose key equals its label up to case |
| `HttpReq.ConnCloseRule` | http_req.c:41-58 | from HTTP/1.1 on the connection closes exactly when the last Connection value is "close" in any case; below 1.1 it always closes |
| `HttpReq.FirstLineAndLength` | http_req.c:32-90 | content_len is set only by a positive Content-Length, and the first line lands in method, uri and proto_vers, so the "/" default never replaces a decoded uri |
| `HttpReq.HostAndPort` | http_req.c:60-84 | with a host, hostname and port are its split; without one the port is 80 and hostname is untouched |
| `HttpReq.FailureKeeps` | http_req.c:32-34 | a failed decode leaves version, length, close flag, hostname and port as they were |
| `HttpReq.RequestRoundTrip` | http_req.c:6-95 | a head rendered as "m u HTTP/1.1" with well-formed header lines is read back, and the connection closes exactly when the last Connection header says "close" |
| `HttpResp.Response.TakeHeaders` | http_resp.c:12-29 | the handlers store the last value of each content field and the last Connection and Content-Length values |
| `HttpResp.Response.Complete` | http_resp.c:33-42 | after a successful decode: the content length, the close flag and the version |
| `HttpResp.Response.HttpResp` | http_resp.c:6-45 | http_resp returns the head's length, 0 when decoding fails, and leaves the response Parsed specifies |
| `HttpResp.LabelsNoNul` | http_resp.c:12-23 | the labels are C strings without NUL bytes |
| `HttpResp.LabelsSorted` | http_resp.c:12-23 | the table reordered into vstrcmp order is sorted |
| `HttpResp.ContentTypeMissedAsWritten` | http_resp.c:16-22 | as written "Content-Type" goes right of Content-Length, left of Transfer-Encoding, right of Content-Encoding and is not found |
| `HttpResp.ContentEncodingMissedAsWritten` | http_resp.c:16-22 | as written "Content-Encoding" goes left of Content-Length and Content-Type, right of Connection and is not found |
| `HttpResp.ContentFieldsIgnoredAsWritten` | http_resp.c:17-20 | so with the table as written Content-Type and Content-Encoding are never stored |
| `HttpResp.HeaderValues` | http_resp.c:12-29 | each stored header value is that of the last line whose key equals its label up to case |
| `HttpResp.CloseAndLength` | http_resp.c:33-40 | the connection closes exactly when the last Connection value is "close" in any case, whatever the version, and a positive Content-Length sets the length |
| `HttpResp.ResponseRoundTrip` | http_resp.c:6-45 | a status line "HTTP/X.Y ddd msg" with well-formed header lines is read back as version (X << 4) \| Y and status code ddd |
| `ParseReq.FirstFrom` | http_parse.c:243-262 | the first position from a start holding a given byte |
| `ParseReq.FirstFromIs` | http_parse.c:243-262 | the position found is the first such byte |
| `ParseReq.FirstFromNone` | http_parse.c:243-262 | nothing is found when no such byte follows |
| `ParseReq.MarksOf` | http_parse.c:243-265 | a URI with the ':' and two '/' after it has its marks in order; without them it is left alone |
| `ParseReq.Passed` | http_parse.c:243-262 | the scan passes the first ':' and then up to three '/', in order |
| `ParseReq.PassedFirst` | http_parse.c:244-257 | the marks passed are the first ':' and the first '/' after each mark |
| `ParseReq.PassedMarks` | http_parse.c:243-265 | at the end of the scan the marks passed are those MarksOf gives |
| `ParseReq.ScanUri` | http_parse.c:243-262 | the scan loop counts the marks, stops one byte after the fourth stepping back onto the third '/', and captures the host at that '/' |
| `ParseReq.StripAbsUri` | http_parse.c:237-271 | the stripping leaves the abs_path AbsPath gives, and a host only when none was set |
| `ParseReq.Request.constructor` | http_parse.c:200-222 | a request starts zeroed, as the callers' memset leaves it |
| `ParseReq.Request.TakeHeaders` | http_parse.c:209-225 | the handlers store the last value of each field, and prox is set when a Proxy-Connection line appears |
| `ParseReq.Request.Complete` | http_parse.c:229-232 | after a successful decode: the version and a positive content length |
| `ParseReq.Request.StripUri` | http_parse.c:234-271 | the absolute-URI step; a NULL uri scans as empty and is left alone |
| `ParseReq.Request.Finish` | http_parse.c:273-306 | the port cut off the host and the "/" default |
| `ParseReq.Request.HttpReq` | http_parse.c:200-309 | http_req returns the head's length, 0 when decoding fails, and leaves the request Parsed specifies |
| `ParseReq.LabelsNoNul` | http_parse.c:209-222 | the labels are C strings without NUL bytes |
| `ParseReq.LabelsSorted` | http_parse.c:209-222 | the table reordered into vstrcmp order is sorted |
| `ParseReq.HostMissedAsWritten` | http_parse.c:209-222 | as written "Host" goes left of Proxy-Connection and right of Content-Type and Content-Length, and is not found |
| `ParseReq.ContentLengthMissedAsWritten` | http_parse.c:209-222 | as written "Content-Length" goes left of Proxy-Connection, Content-Type and Host, and is not found |
| `ParseReq.ContentEncodingMissedAsWritten` | http_parse.c:209-222 | as written "Content-Encoding" takes the same path and is not found |
| `ParseReq.HeadersIgnoredAsWritten` | http_parse.c:213-219 | so with the table as written Host, Content-Length and Content-Encoding are never stored |
| `ParseReq.HeaderValues` | http_parse.c:209-225 | each stored value is that of the last matching line, and prox is set exactly when a Proxy-Connection line exists |
| `ParseReq.SchemeMarks` | http_parse.c:243-262 | the marks of "http://" + name + path are the ':', the two slashes and the '/' that starts the path |
| `ParseReq.AbsUriSplit` | http_parse.c:243-271 | "http://name/path" splits into the host name and the abs_path, emptied when it is the single '/' |
| `ParseReq.AbsUriHostOnly` | http_parse.c:243-271 | in "http://name" the whole rest is the host and the abs_path is empty |
| `ParseReq.AbsHostLostAsWritten` | http_parse.c:247-261 | as written the host taken from "http://name/path" is empty, because the loop breaks before any byte is counted, and "http://name" gives none |
| `ParseReq.AbsoluteRequest` | http_parse.c:200-309 | a request line "m http://name/path v" without a Host line gives the host name with its port cut off and the abs_path |
| `ParseReq.StripsAbsolute` | http_parse.c:237-271 | the absolute-URI step on "http://name/path" with no host set |
| `ParseReq.RelativeRequest` | http_parse.c:237-306 | a URI neither proxied nor starting with "http://" is kept, and the Host line gives host and port |
| `ParseReq.FailureKeeps` | http_parse.c:225-227 | a failed decode changes only what the handlers that ran wrote |
| `Webroot.IndexOf` | webroot.c:7-30 | the position of a uri in the name table, and none exactly when it is absent |
| `Webroot.AboveFrom` | webroot.c:19-21 | in a sorted table nothing at or after an entry above the uri equals it |
| `Webroot.BelowUpTo` | webroot.c:22-25 | in a sorted table nothing at or before an entry below the uri equals it |
| `Webroot.Find` | webroot.c:7-30 | webroot_find's binary search: a hit names an entry equal to the uri, and on a sorted table a miss means the uri is absent |
| `Webroot.FindIsIndexOf` | webroot.c:7-30 | on a sorted table the search finds exactly the entry IndexOf gives |
| `Webroot.MimeType` | webroot.c:37-41 | webroot_mime_type gives one of the table's types for an index below their count |
| `Critbit.MaskIndex` | critbit.c:108-111 | a mask leaves exactly one bit of eight clear |
| `Critbit.Dir` | critbit.c:41 | the direction formula gives 0 or 1 |
| `Critbit.DirBit` | critbit.c:41 | with otherbits clearing bit j, the direction is 1 exactly when the byte has bit j |
| `Critbit.DirIsBit` | critbit.c:36-42 | the direction a key takes at a node is its bit at the node's position |
| `Critbit.HighBit` | critbit.c:108-111 | the most significant set bit of a non-zero byte |
| `Critbit.CritMaskHigh` | critbit.c:108-111 | a new internal node's otherbits is 255 with exactly the highest differing bit cleared |
| `Critbit.HighBitSplits` | critbit.c:91-111 | two different bytes agree above the highest bit of their xor and differ at it |
| `Critbit.PosOrder` | critbit.c:144-148 | bit positions order like the (byte, otherbits) pairs cb_insert compares |
| `Critbit.Keys` | critbit.c:204-215 | the keys of a tree are those of its contents |
| `Critbit.SplitDisjoint` | critbit.c:136-156 | the two children of a valid node hold different keys |
| `Critbit.ValidKeysTerminated` | critbit.c:62-79 | every key in a valid tree is a C string |
| `Critbit.BestMatch` | critbit.c:36-42 | the descent loop ends at a leaf |
| `Critbit.BestMatchIn` | critbit.c:36-42 | the leaf reached holds one of the tree's keys |
| `Critbit.FindsPresent` | critbit.c:36-50 | in a valid tree the descent for a stored key ends at that key's leaf, with its value |
| `Critbit.Contains` | critbit.c:27-51 | cb_contains gives 0 on an empty tree, and otherwise finds a key exactly when it is present, with its value |
| `Critbit.DiffFrom` | critbit.c:91-105 | the loops of cb_insert give the first byte where the best match differs from the key, or none |
| `Critbit.DiffFromIs` | critbit.c:91-105 | none exactly when the best match is the key, and otherwise the first differing byte, counting the terminator |
| `Critbit.CritBit` | critbit.c:91-113 | the critical bit is the first where the keys differ, and the new node's direction reads the best match's bit there |
| `Critbit.SignedCritDir` | critbit.c:93-113 | the new node's direction computed through signed plain chars agrees with the byte-wide direction when both bytes are below 0x80 |
| `Critbit.SignedDirOutOfRange` | critbit.c:93-113 | through signed plain chars, a first differing byte where exactly one key is 0x80 or above gives the direction 0x800001 |
| `Critbit.GraftHere` | critbit.c:130-157 | the node inserted is valid: the old subtree keeps the best match's side and the new key takes the other |
| `Critbit.PassedBefore` | critbit.c:140-154 | a node the wherep loop passes tests a bit before the critical one |
| `Critbit.GraftValid` | critbit.c:130-157 | inserting the new node keeps the tree valid and adds exactly the new key |
| `Critbit.GraftContents` | critbit.c:114-161 | the new key maps to NULL and every other entry is kept |
| `Critbit.InsertCorrect` | critbit.c:53-162 | cb_insert into an empty tree makes one leaf with NULL and returns 2; a present key returns 1 and changes nothing; a new key returns 2 mapping to NULL, keeping every other entry; a failed allocation returns 0 |
| `Critbit.AssignCorrect` | critbit.c:101-104 | writing through the value slot handed back changes that key's entry only |
| `Critbit.RemoveCorrect` | critbit.c:175-201 | removing a present key's leaf, by replacing its parent with the sibling, deletes that entry only |
| `Critbit.DeleteCorrect` | critbit.c:164-202 | cb_delete of an absent key gives 0 and no change; of a present key it gives 1, hands back its value and removes only that entry |
| `Critbit.TraverseOnce` | critbit.c:204-215 | the traversal meets every key exactly once and hands each callback the value stored under its key |
| `Critbit.FreeCorrect` | critbit.c:217-223 | cb_free calls the callback once per stored value, and not at all without one or on an empty tree |
| `Vhosts.Vhosts.constructor` | vhosts.c:115-119 | a new table has no hosts and no default |
| `Vhosts.Vhosts.Add` | vhosts.c:33-65 | vhost_add ignores directories and webroots that fail to open, replaces the default for "__default__", and otherwise maps the name to the new webroot, releasing the one it replaces |
| `Vhosts.InsertedSlot` | vhosts.c:52-63 | after cb_insert the name's slot holds its old webroot, or NULL, and writing the new one updates the map at the name |
| `Vhosts.Vhosts.Del` | vhosts.c:67-87 | vhost_del, corrected: directories are ignored, "__default__" releases and clears the default, and any other name is removed, releasing its webroot when there was one |
| `Vhosts.Vhosts.DelAsWritten` | vhosts.c:67-87 | as written, deleting a name that is not in the map releases whatever the uninitialised pointer holds |
| `Vhosts.Vhosts.Lookup` | vhosts.c:160-169 | vhosts_lookup gives the webroot mapped for the host, else the default |
| `Nbio.DeletedTruncates` | nbio.c:105-109 | the one-byte mask keeps the low byte of NBIO_DELETED, which is 0 and shares no bit with the wait bits |
| `Nbio.RemoveIn` | nbio.c:91-122 | unlinking an endpoint keeps every other element and only them, and a list without it is unchanged |
| `Nbio.RemoveMiddle` | nbio.c:91-122 | unlinking the element between two parts free of it joins the two parts |
| `Nbio.MoveWhere` | nbio.c:141-163 | a list_move_tail puts the endpoint on the list asked for and leaves every other where it was |
| `Nbio.MoveDisjoint` | nbio.c:141-163 | after a move the three lists stay pairwise disjoint |
| `Nbio.MoveKeys` | nbio.c:141-163 | after a move the lists hold the old endpoints and the moved one |
| `Nbio.MovePartition` | nbio.c:141-163 | a move keeps every registered endpoint on exactly one list, and registers the moved one |
| `Nbio.PassSplits` | nbio.c:104-118 | a pump pass keeps active exactly the endpoints not flagged with an error and retires exactly the others |
| `Nbio.Retire` | nbio.c:107-110 | retiring keeps the registered endpoints |
| `Nbio.Dtors` | nbio.c:90-124 | one dtor call per endpoint of the list, in order |
| `Nbio.Activations` | nbio.c:82-85 | one plugin active hook per endpoint of the list, in order |
| `Nbio.ReadGated` | nbio.c:107-115 | a read callback fires exactly for an endpoint on the list without an error flag whose READ is flagged and wanted |
| `Nbio.FiredRead` | nbio.c:114-115 | one endpoint's callbacks include a read exactly when READ is flagged and wanted and no error is flagged |
| `Nbio.WriteGated` | nbio.c:107-117 | a write callback fires exactly for an endpoint on the list without an error flag whose WRITE is flagged and wanted |
| `Nbio.FiredWrite` | nbio.c:116-117 | one endpoint's callbacks include a write exactly when WRITE is flagged and wanted and no error is flagged |
| `Nbio.DtorsOnce` | nbio.c:121-124 | the dtor calls for a list without repeats name each of its endpoints once |
| `Nbio.Forget` | nbio.c:121-124 | destroying the deleted endpoints drops exactly them |
| `Nbio.PassDone` | nbio.c:104-118 | at the end of a pass the kept, retired and hook sequences are those PassSplits describes |
| `Nbio.PassRetire` | nbio.c:107-111 | an endpoint flagged with an error is retired without a callback |
| `Nbio.PassFire` | nbio.c:114-117 | any other endpoint gets its gated read and then write callbacks |
| `Nbio.PassPartition` | nbio.c:103-119 | a pump pass keeps every endpoint on exactly one list |
| `Nbio.ReapDone` | nbio.c:121-124 | after the reaping loop the deleted list is empty and its endpoints are gone, each with one dtor call |
| `Nbio.ReapStep` | nbio.c:122-123 | reaping the next deleted endpoint unlinks it and calls its dtor |
| `Nbio.FindLoop` | nbio.c:29-38 | eventloop_find gives the first plugin with the name, and none exactly when no plugin has it |
| `Nbio.FirstInit` | nbio.c:67-70 | the first plugin from a start whose init succeeds, and none exactly when every init fails |
| `Nbio.Registry.constructor` | nbio.c:25 | the registry starts empty |
| `Nbio.Registry.Find` | nbio.c:29-38 | the walk from the list head finds what FindLoop specifies |
| `Nbio.Registry.Add` | nbio.c:40-50 | eventloop_add ignores a name already registered and otherwise puts the plugin at the head |
| `Nbio.IoThread.constructor` | nbio.c:72-74 | a thread starts with three empty lists and no plugin |
| `Nbio.IoThread.OnOneList` | nbio.c:130-165 | each registered endpoint is on exactly one list |
| `Nbio.IoThread.Init` | nbio.c:52-76 | nbio_init picks the named plugin, or the first registered; a named plugin whose init fails is an error, otherwise the next is tried; on success the lists start empty |
| `Nbio.StepTouched` | nbio.c:136-165 | one list move of an endpoint with one hook call about it changes no other endpoint's list or wait bits |
| `Nbio.TouchedTrans` | nbio.c:136-165 | two steps that each change only one endpoint change only that endpoint |
| `Nbio.IoThread.Add` | nbio.c:130-134 | nbio_add registers the endpoint on the list its wait bits call for, moving no other; only that endpoint changes (`Nbio.Touched`) |
| `Nbio.IoThread.SetWait` | nbio.c:150-165 | nbio_set_wait sets mask and flags to the wait bits and moves the endpoint to the tail of the inactive list when they are 0, of the active list otherwise; only that endpoint changes (`Nbio.Touched`) |
| `Nbio.IoThread.Inactive` | nbio.c:144-148 | nbio_inactive moves the endpoint to the tail of the inactive list, keeping mask and flags; only that endpoint changes (`Nbio.Touched`) |
| `Nbio.IoThread.Del` | nbio.c:136-142 | nbio_del sets mask NBIO_DELETED, flags 0, and moves the endpoint to the tail of the deleted list; only that endpoint changes (`Nbio.Touched`) |
| `Nbio.IoThread.PumpPass` | nbio.c:104-118 | one pass of nbio_pump retires the endpoints flagged with an error and runs the gated callbacks of the others, with callbacks that move no endpoint |
| `Nbio.IoThread.Reap` | nbio.c:121-127 | once the active list is empty every deleted endpoint is unlinked and destroyed in list order, then the plugin pump runs when some endpoint is inactive |
| `Nbio.IoThread.Fini` | nbio.c:78-96 | nbio_fini re-activates the inactive endpoints, destroys every endpoint and runs the plugin's fini |
| `Nbio.FiniDestroysEachOnce` | nbio.c:78-96 | nbio_fini destroys every registered endpoint exactly once |
| `Inotify.SetFlags` | nbio-inotify.c:66-73 | the entries of the flag table that meet the mask, in table order |
| `Inotify.SetFlagsExact` | nbio-inotify.c:66-73 | an entry is listed exactly when its flag meets the mask, in table order |
| `Inotify.TextStep` | nbio-inotify.c:67-72 | each entry meeting the mask appends its name, after ", " once something was written |
| `Inotify.ListNames` | nbio-inotify.c:66-73 | the loop writes the names of the flags met, joined by ", ", and has written something exactly when some entry is listed |
| `Inotify.SomeMeets` | nbio-inotify.c:66-73 | something is listed exactly when some flag of the table meets the mask |
| `Inotify.MaskToString` | nbio-inotify.c:38-76 | mask2str gives the names of the table's flags set in the mask, in table order, separated by ", "; a mask meeting none of them gives back the static buffer's previous text |
| `Inotify.DispatchIgnoresUnknown` | nbio-inotify.c:91-98 | events for a descriptor outside the table or a slot without callbacks are dropped |
| `Inotify.DispatchFollowsPriority` | nbio-inotify.c:113-135 | at most one callback fires, the one the IN_IGNORED, CREATE, DELETE, MOVED_FROM, MOVED_TO, MOVE_SELF, DELETE_SELF/UNMOUNT chain selects, with the slot's private pointer |
| `Inotify.SelectedChain` | nbio-inotify.c:113-135 | the selection is the first flag of that chain the mask meets |
| `Inotify.DispatchName` | nbio-inotify.c:100-111 | an entry callback gets the name bytes and a NUL, or NULL when the event has no name, and the IN_ISDIR bit |
| `Inotify.S32` | nbio-inotify.c:91 | the wd field is a signed 32-bit value |
| `Inotify.EventAt` | nbio-inotify.c:155-159 | the record at the cursor carries len name bytes after its header |
| `Inotify.EventsCover` | nbio-inotify.c:155-158 | the records tile the buffer: their sizes add up to the bytes read |
| `Inotify.Walk` | nbio-inotify.c:155-160 | the cursor moves from record to record by header size plus len and visits the records in order |
| `Inotify.WalkStep` | nbio-inotify.c:157 | one record fits in the buffer, and the rest is still whole records |
| `Inotify.Read` | nbio-inotify.c:141-163 | efd_read dispatches every record of a read in turn |
| `Inotify.DispatchAll` | nbio-inotify.c:155-160 | the calls made for a sequence of events are, in order, each event's call if it has one, the k-th event using the k-th allocation outcome |
| `Inotify.DispatchedStep` | nbio-inotify.c:155-160 | the calls for the events are the first event's call, if any, then those of the rest |
| `Inotify.AtMostOneCallEach` | nbio-inotify.c:113-135 | no event yields more than one call |
| `Inotify.DtorCalls` | nbio-inotify.c:165-179 | efd_dtor calls the dtor of every slot in use whose table has one, in slot order |
| `Inotify.Notifier.constructor` | nbio-inotify.c:186-206 | a new notifier has an empty watch table |
| `Inotify.Notifier.WatchDir` | nbio-inotify.c:208-249 | a failed add_watch or realloc and a duplicate descriptor fail with no change; otherwise slot wd holds the watch, growing the table to wd + 1 with the slots in between holding what realloc left there, and every old slot but wd kept |
| `HttpConn.TerminatorSkip` | http_conn.c:8-13 | the skip table for "\r\n\r\n" is a Boyer-Moore skip table of 256 entries |
| `HttpConn.Conn.constructor` | http_conn.c:116-126 | a new connection has an empty buffer and its endpoint |
| `HttpConn.Conn.Fill` | http_conn.c:58-71 | recv appends what it delivered to the buffered bytes |
| `HttpConn.Conn.Read` | http_conn.c:49-89 | http_read buffers what recv delivered, handles the request once "\r\n\r\n" is buffered, resets a full buffer, parks on EAGAIN and retires on failure; on the I/O thread only its endpoint changes: every other endpoint keeps its list and wait bits, and every hook called concerns its endpoint |
| `HttpConn.Conn.HandleRequest` | http_conn.c:34-47 | handle_request puts the cursor just past the decoded head and waits to write the reply; on the I/O thread only its endpoint changes: every other endpoint keeps its list and wait bits, and every hook called concerns its endpoint |
| `HttpConn.Conn.Write` | http_conn.c:15-32 | http_write sends the reply; anything sent means waiting for the next request, EAGAIN parks the endpoint and failure retires it; on the I/O thread only its endpoint changes: every other endpoint keeps its list and wait bits, and every hook called concerns its endpoint |
| `HttpConn.Accept` | http_conn.c:106-133 | http_conn makes a connection waiting to read, or closes the socket when an allocation fails; on the I/O thread only its endpoint changes: every other endpoint keeps its list and wait bits, and every hook called concerns its endpoint |
| `IoConn.Conn.constructor` | include/ashttpd.h:75-85 | a connection starts in the request state with no data buffer and an empty file window |
| `IoConn.Store` | io_sync.c:32-33 | a read into the buffer puts its bytes at the write cursor and changes nothing before it |
| `IoConn.Append` | io_sync.c:32-38 | storing and then publishing bytes appends them to the unread bytes |
| `IoSync.Loaded` | io_sync.c:24-41 | a read is made only when the buffer has free space, and only one that neither failed nor met the end of the file adds bytes |
| `IoSync.TopUp` | io_sync.c:24-41 | the top-up fails on a failed read or the end of the file, changing nothing, and otherwise appends what was read and moves the window by its count |
| `IoSync.Transmit` | io_sync.c:43-75 | the send parks the endpoint on EAGAIN, fails on an error or 0, and otherwise consumes what was sent; when nothing is left the buffer is freed and the connection waits for the next request; on the I/O thread only its endpoint changes: every other endpoint keeps its list and wait bits, and every hook called concerns its endpoint |
| `IoSync.Took` | io_sync.c:55-75 | the bytes send took leave the buffer; with buffer and window both empty the buffer is released and the connection waits to read in HTTP_CONN_REQUEST, otherwise the buffer is compacted when the window exceeds its free space and the I/O thread is untouched |
| `IoSync.Write` | io_sync.c:16-76 | io_sync_write is the top-up and then the send, returning 0 exactly when the read or the send fails; on the I/O thread only its endpoint changes: every other endpoint keeps its list and wait bits, and every hook called concerns its endpoint |
| `IoSync.Prep` | io_sync.c:78-87 | io_sync_prep succeeds exactly when an empty data buffer can be had, and then the connection holds it |
| `IoSendfile.Write` | io_sendfile.c:17-38 | io_sendfile_write parks on EAGAIN keeping the window, fails on an error or 0, and otherwise moves the window by the count, waiting for the next request once it is empty; on the I/O thread only its endpoint changes: every other endpoint keeps its list and wait bits, and every hook called concerns its endpoint |
| `IoSendfile.Prep` | io_sendfile.c:40-47 | io_sendfile_prep always succeeds and io_sendfile_abort has nothing to undo |
| `IoAsync.Aio.constructor` | io_async.c:92-109 | the read queue starts empty |
| `IoAsync.Aio.Submit` | io_async.c:18-48 | aio_submit queues one pread of min(data_len, free space) bytes at data_off, counting it in flight, and fails with nothing queued when the iocb or io_submit fails |
| `IoAsync.Aio.HandleCompletion` | io_async.c:50-70 | a completed read leaves the queue; on failure nothing else changes on the buffer, the window or the I/O thread, otherwise its bytes are published, the window moves by their count and the connection waits to write; on the I/O thread only its endpoint changes: every other endpoint keeps its list and wait bits, and every hook called concerns its endpoint |
| `IoAsync.Aio.Write` | io_async.c:111-161 | io_async_write sleeps while nothing is buffered, parks on EAGAIN, fails on an error, submits the next read once the buffer is drained, and frees it once the file is sent; on the I/O thread only its endpoint changes: every other endpoint keeps its list and wait bits, and every hook called concerns its endpoint |
| `IoAsync.Aio.Took` | io_async.c:138-161 | the bytes send took are sent and leave the buffer; a partial send returns 1 and changes nothing else; a drained buffer with the window not empty is compacted and the next read submitted; otherwise the buffer is released and the connection waits to read in HTTP_CONN_REQUEST; only its endpoint changes on the I/O thread |
| `IoAsync.Aio.Prep` | io_async.c:163-179 | io_async_prep takes a data buffer and submits the first read, holding no buffer when either fails |
| `IoAsyncSendfile.AioSendfile.constructor` | io_async_sendfile.c:105-122 | the request queue starts empty |
| `IoAsyncSendfile.AioSendfile.Submit` | io_async_sendfile.c:18-43 | aio_submit queues one sendfile of all data_len bytes at data_off, and fails with nothing queued when the iocb or io_submit fails |
| `IoAsyncSendfile.AioSendfile.HandleCompletion` | io_async_sendfile.c:45-83 | a positive count moves the window and resubmits the rest or finishes the response; EAGAIN waits to write again; any other failure retires the connection; on the I/O thread only its endpoint changes: every other endpoint keeps its list and wait bits, and every hook called concerns its endpoint |
| `IoAsyncSendfile.AioSendfile.Advance` | io_async_sendfile.c:56-70 | a positive count moves the window; the rest is resubmitted and a failed resubmit deletes the endpoint; with nothing left the connection returns to HTTP_CONN_REQUEST and waits to read, parked; only its endpoint changes on the I/O thread |
| `IoAsyncSendfile.Park` | io_async_sendfile.c:67-68 | nbio_set_wait then nbio_inactive: the endpoint waits for the given bits from the inactive list, the two hooks are called in that order and no other endpoint changes |
| `IoAsyncSendfile.AioSendfile.Write` | io_async_sendfile.c:124-129 | io_async_sendfile_write stops waiting on the socket and submits the rest of the window; on the I/O thread only its endpoint changes: every other endpoint keeps its list and wait bits, and every hook called concerns its endpoint |
| `IoAsyncSendfile.Prep` | io_async_sendfile.c:131-134 | io_async_sendfile_prep always succeeds |
| `IoDasync.ChunkNum` | io_dasync.c:152-155 | chunk_num gives the chunk of 8192 bytes that holds the offset |
| `IoDasync.ChunkRoundTrip` | io_dasync.c:170-186 | ptr2cache undoes cache2ptr for every byte of a chunk's slot |
| `IoDasync.MappedSize` | io_dasync.c:110-119 | init_cache maps the whole file, or fewer bytes when fewer pages may be locked |
| `IoDasync.NrChunksCovers` | io_dasync.c:130 | the chunks cover the mapping and none lies wholly beyond it |
| `IoDasync.Upto` | io_dasync.c:146-147 | the descriptors are queued on the freelist in index order |
| `IoDasync.DConn.constructor` | include/ashttpd.h:75-85 | a connection sending the window from data_off, with no buffer yet |
| `IoDasync.ChunkCache.constructor` | io_dasync.c:92-150 | init_cache makes one descriptor per chunk of the mapping, all with count 0 and on the freelist in index order |
| `IoDasync.ChunkCache.Free` | io_dasync.c:188-193 | cache_free puts a chunk with count 0 at the head of the freelist |
| `IoDasync.ChunkCache.NewRefcnt` | io_dasync.c:195-214 | new_refcnt puts the chunk on the list its count calls for: off the LRU at 2, at its tail at 1, on the freelist at 0 |
| `IoDasync.ChunkCache.Get` | io_dasync.c:216-223 | cache_get adds one reference, moving the chunk as new_refcnt says |
| `IoDasync.ChunkCache.Put` | io_dasync.c:225-230 | cache_put drops one reference, and the last one frees the chunk |
| `IoDasync.ChunkCache.ReapHead` | io_dasync.c:247-251 | one pass of lru_reaper frees the LRU's head |
| `IoDasync.ChunkCache.LruReaper` | io_dasync.c:240-252 | lru_reaper frees every chunk on the LRU, in list order, and touches no chunk a connection holds |
| `IoDasync.ChunkCache.TakeHead` | io_dasync.c:264-267 | the head of the freelist leaves it with the new key and count 0 |
| `IoDasync.ChunkCache.Alloc` | io_dasync.c:254-273 | cache_alloc takes the freelist's head, reaping the LRU first when the freelist is empty (every LRU chunk's count drops to 0), and fails only when both are empty |
| `IoDasync.ChunkCache.DiocbPrep` | io_dasync.c:275-289 | the read for a chunk covers at most 8192 bytes of its part of the file into its own slot |
| `IoDasync.ChunkCache.Submit` | io_dasync.c:291-333 | aio_submit takes the descriptor cache_alloc hands out (`IoDasync.Taken`: the freelist's head, or after reaping the LRU's tail), keys it with the chunk of data_off and queues the read diocb_prep sets up (`IoDasync.ReadFor`); with no descriptor nothing changes; without an iocb the descriptor is back at the head of the freelist; when io_submit fails it stays taken; the new freelist, LRU and counts are stated in every case |
| `IoDasync.ChunkCache.Filled` | io_dasync.c:356-385 | a chunk read in takes the cache's reference; the waiter gets its window of the chunk and a reference, or, without a buffer, its endpoint is moved to the deleted list by nbio_del and no other endpoint moves; on the I/O thread only its endpoint changes: every other endpoint keeps its list and wait bits, and every hook called concerns its endpoint |
| `IoDasync.ChunkCache.HandleCompletion` | io_dasync.c:335-388 | a failed read changes nothing else, on the cache or the I/O thread; a read with data fills the chunk and either serves its waiter or deletes the waiter's endpoint; on the I/O thread only its endpoint changes: every other endpoint keeps its list and wait bits, and every hook called concerns its endpoint |
| `IoDasync.ChunkCache.Write` | io_dasync.c:443-489 | io_dasync_write parks on EAGAIN, fails on an error or 0, moves the window by the count, and gives back the chunk once the window is drained; a resubmit then succeeds exactly when the iocb and io_submit do, with the descriptor and counts of `IoDasync.ChunkCache.Requeued`; on the I/O thread only its endpoint changes: every other endpoint keeps its list and wait bits, and every hook called concerns its endpoint |
| `IoDasync.ChunkCache.Drained` | io_dasync.c:476-488 | a drained window gives its chunk reference back, then submits the next chunk or waits for the next request; a resubmit succeeds exactly when the iocb and io_submit do, takes the descriptor `IoDasync.Resubmitted` names and leaves the counts `IoDasync.ChunkCache.Requeued` states; on the I/O thread only its endpoint changes: every other endpoint keeps its list and wait bits, and every hook called concerns its endpoint |
| `IoDasync.ChunkCache.Requeue` | io_dasync.c:476-481 | buf_put then aio_submit: a descriptor is always found, so the resubmit succeeds exactly when the iocb and io_submit do; the chunk keeps one reference only when it had two and the freelist was not empty, reaping zeroes the LRU when it was, and the read goes to `IoDasync.Resubmitted`'s descriptor |
| `IoDasync.ChunkCache.Prep` | io_dasync.c:491-494 | io_dasync_prep submits the read of the first chunk: it succeeds exactly when a descriptor, an iocb and io_submit can be had, and queues the read of `IoDasync.ReadFor` on the descriptor `IoDasync.Taken` names |
| `IoDasync.Abort` | io_dasync.c:496-499 | io_dasync_abort releases the naked buffer without giving back its chunk reference |
| `Rbtree.Flip` | rbtree.c:96-97 | the other side, 1 ^ side, is never the same side |
| `Rbtree.Paint` | rbtree.c:100-103 | painting a node changes its colour only, and a NULL stays NULL |
| `Rbtree.PaintInorder` | rbtree.c:119-120 | recolouring never changes the keys in order |
| `Rbtree.Rotate` | rbtree.c:60-78 | do_rotate keeps the keys of the subtree in the same order |
| `Rbtree.PlugInorder` | rbtree.c:60-78 | the tree's keys are those before a node's subtree, the subtree's own, then those after it |
| `Rbtree.Index` | rbtree.c:12-28 | every node has a position in the keys in order and its key is there |
| `Rbtree.FirstLast` | rbtree.c:30-36 | NULL exactly for an empty tree, else the node at the first (or last) position in order |
| `Rbtree.First` | rbtree.c:38-41 | NULL exactly for an empty tree, else the node whose key is first in order |
| `Rbtree.Last` | rbtree.c:43-46 | NULL exactly for an empty tree, else the node whose key is last in order |
| `Rbtree.Next` | rbtree.c:48-51 | NULL stays NULL; NULL exactly at the last node; otherwise the node one position later in the same tree |
| `Rbtree.Prev` | rbtree.c:52-55 | NULL stays NULL; NULL exactly at the first node; otherwise the node one position earlier in the same tree |
| `Rbtree.RBPlug` | rbtree.c:81-125 | the whole tree is red-black exactly when the subtree, the frames above it and the colour at their junction are |
| `Rbtree.InsertStart` | rbtree.c:81-86 | a red leaf linked where a NULL was in a red-black tree meets the insertion loop's invariant |
| `Rbtree.RecolorStep` | rbtree.c:99-106 | with a red uncle, recolouring and moving to the grandparent keeps the invariant and the keys |
| `Rbtree.SingleRotate` | rbtree.c:118-121 | with a black uncle on the outer side, one rotation leaves a black root over two balanced red children |
| `Rbtree.DoubleRotate` | rbtree.c:108-121 | with a black uncle on the inner side, the two rotations leave a black root over two balanced red children |
| `Rbtree.RotateStep` | rbtree.c:108-121 | after the rotation case the tree is red-black and holds the same keys in order |
| `Rbtree.InsertDone` | rbtree.c:86-90 | once the parent is black or the root is reached, painting the root black leaves a red-black tree with the same keys |
| `Rbtree.DelFacts` | rbtree.c:134-140 | below the root a black or NULL cursor that is one black short has a sibling that is a node one black higher |
| `Rbtree.RedSibling` | rbtree.c:142-147 | a red sibling rotated up leaves the cursor still short, now under a red parent with a black sibling |
| `Rbtree.BlackNephews` | rbtree.c:149-155 | with both nephews black, painting the sibling red moves the shortfall to the parent, which is red exactly when the parent was |
| `Rbtree.NearFix` | rbtree.c:157-166 | a red near nephew rotated up gives a black sibling of the same black height and keys whose far child is red |
| `Rbtree.SiblingSwap` | rbtree.c:166 | a sibling replaced by one with the same keys, balance, black height and colour keeps the invariant and the keys |
| `Rbtree.FarRedLocal` | rbtree.c:169-173 | after the final recolouring and rotation the parent's subtree is balanced, with black children, at the old black height |
| `Rbtree.FarRed` | rbtree.c:169-175 | with a red far nephew, the recolouring and the rotation leave a balanced tree with no red-red edge and the same keys |
| `Rbtree.DeleteDone` | rbtree.c:179-180 | once the cursor is red or the root, painting it black leaves a red-black tree with the same keys |
| `Rbtree.NearFixAsWritten` | rbtree.c:165 | the rotation as written fails when the far nephew is NULL and otherwise lifts the far nephew, not the near one |
| `Rbtree.NearFixAsWrittenFails` | rbtree.c:157-166 | the four-key red-black tree 10 over 5 and 20, with 15 red under 20, whose deletion reaches the as-written rotation with a NULL far nephew |
| `Rbtree.LeftPathPlug` | rbtree.c:195-197 | the walk right then left as far as possible reaches the node whose key comes first in the right subtree |
| `Rbtree.UnlinkedInorder` | rbtree.c:183-256 | unlinking a node removes its key, and only its key, from the keys in order |
| `Rbtree.UnlinkedSuccessor` | rbtree.c:214-220 | with two children the successor takes the node's place, colour and left child, under the same frames |
| `Rbtree.ShortChild` | rbtree.c:237-241 | a node with a NULL child in a red-black tree has NULL or a red leaf as its other child |
| `Rbtree.UnlinkedRB` | rbtree.c:257-259 | taking a black colour out leaves the rebalance's invariant; taking a red one out leaves a red-black tree |
| `Rbtree.RbTree.InsertRebalance` | rbtree.c:81-125 | a red leaf just linked into a red-black tree leaves a red-black tree with the same keys in order |
| `Rbtree.RbTree.DeleteRebalance` | rbtree.c:128-181 | from a cursor one black short, the loop ends with a red-black tree holding the same keys in order |
| `Rbtree.RbTree.DeleteNode` | rbtree.c:183-260 | the tree stays red-black and its keys are the old ones without the deleted node's |
| `Rbtree.Unlink` | rbtree.c:188-255 | the relinking computes the unlinked tree: successor swap with two children, the only child otherwise |
| `Rbtree.RebalanceStep` | rbtree.c:134-176 | one turn keeps the invariant and the keys, and the cursor moves up or turns red, so the loop ends |
| `Rbtree.BlackSiblingStep` | rbtree.c:149-176 | at a black sibling, the step keeps the invariant and the keys; it ends at the root or moves to the parent |
| `Trie.CommonPrefix` | trie.c:77-99 | 0 when ofs is past either string; otherwise the run of equal bytes from ofs, capped at RE_EDGE_MAX and ended by a mismatch or the shorter string |
| `Trie.FindGroup` | trie.c:119-127 | entry v's group v..last shares a first byte at ofs, and its label length is the longest prefix from ofs the whole group shares with v, capped at RE_EDGE_MAX: every member agrees on it, and below the cap some member ends or differs right after it |
| `Trie.FindGroupAsWritten` | trie.c:119-121 | with 0x100 or more bytes left of v the loop never runs and the label is the whole rest of v, longer than RE_EDGE_MAX |
| `Trie.TreeGrow` | trie.c:58-64 | hanging a new edge on the tail of p's list keeps the tree well formed and r_max_fanout the largest list |
| `Trie.LabelsGrow` | trie.c:133-142 | an edge whose label continues its parent's spelling keeps every label a slice of its entry |
| `Trie.Trie.EdgeNew` | trie.c:43-67 | no room leaves everything unchanged and gives NULL; otherwise a fresh childless edge on the tail of p's list, counted in r_num_edges, with r_max_fanout following p's count |
| `Trie.Trie.NewRoot` | trie.c:182-184 | the root is the first edge, with an empty label and no parent, or the call fails when the pool is exhausted |
| `Trie.Trie.DoRadix` | trie.c:101-171 | only edges are added; every entry of the range ends on exactly one new edge, in order, whenever the edge pool still has room afterwards (an allocation fails only on an empty pool, and room never grows); r_max_path covers the depth |
| `Trie.Trie.AddEdge` | trie.c:129-136 | the new edge is the labelled one, appended, or nothing changes and the pool is empty when allocation fails, which happens exactly when it had no room |
| `Trie.Trie.Branch` | trie.c:129-167 | one pass adds the edges of v's group only, and the entries ending on them are exactly the group's, in order, whenever the pool still has room afterwards |
| `Trie.Trie.Hang` | trie.c:119-153 | one new edge below n labelled with the group's common prefix from ofs, terminal exactly for v when the label completes v; the rest of the group spells that edge's path |
| `Trie.Trie.constructor` | trie.c:289-297 | a fresh trie with an empty edge pool, no root, zero counters and an empty BFS order |
| `Trie.Trie.ConstructRadix` | trie.c:173-187 | a NULL array gives an empty trie; a non-NULL array of no entries aborts once the root is allocated; no room for the root fails; otherwise the root, and with room left in the pool afterwards, success with every entry ending on exactly one edge, in order |
| `Trie.Trie.PathSpells` | trie.c:133-142 | the labels from the root down to an edge spell its entry up to the label's end, and the whole entry on a terminal edge |
| `Trie.Trie.LayoutBfs` | trie.c:228-260 | r_bfs_order becomes the root followed by each level's children, list after list, every edge once |
| `Trie.Trie.Number` | trie.c:280-282 | every edge's e_bfs_idx becomes its position in r_bfs_order |
| `Trie.Trie.LayoutRadix` | trie.c:270-283 | for a trie with a root: after layout the BFS order holds every edge once and each edge knows its position, with the tree unchanged |
| `Trie.Trie.RecordAt` | trie.c:326-359 | each record carries the terminal's oid or the invalid oid, the child count, the label and the first child's position |
| `Trie.Trie.WriteTrie` | trie.c:322-380 | true exactly when every edge has fewer than 0x100 children and no write fails; aborts at the first record whose edge has 0x100 or more children; otherwise one record per edge in BFS order, each pointing at its first child's position, up to the failing write |
| `Trie.Trie.TrieSize` | trie.c:382-385 | 18 bytes per edge record |
| `Trie.Trie.NumEdges` | trie.c:387-390 | the number of edges, one record each |
| `Trie.GroupSpells` | trie.c:158-166 | every entry of v's group spells v's bytes up to the end of the group's prefix |
| `Trie.Cover` | trie.c:114-168 | runs of edges for consecutive ranges of entries cover the joined range |
| `Trie.TrieNew` | trie.c:285-316 | NULL when allocation fails; an empty list never gives a trie (a NULL array faults in the layout, an empty non-NULL one aborts); otherwise a laid-out trie over the entries; when the allocated trie's pool still has room at the end, the trie is returned and every entry ends on exactly one edge |
| `Trie.Levels` | trie.c:242-259 | the level-by-level walk produces a BFS order of the whole tree |
| `Trie.LevelStep` | trie.c:242-258 | moving to the next level keeps the walk's invariant |
| `Trie.LevelsDone` | trie.c:252-254 | an empty next level means every edge has been visited |
| `Trie.Children` | trie.c:243-248 | the next list is the children of the current edges, list after list, each in order |
| `Trie.FlattenMembers` | trie.c:243-248 | in a tree the children of distinct edges are distinct, and they are exactly the edges whose parent is on the list |
| `Trie.LevelMembers` | trie.c:242-258 | the children of a level are the next level's edges, each once |
| `Trie.LevelCover` | trie.c:242-258 | every edge one level down is the child of an edge in the current level |
| `Trie.ChildrenRun` | trie.c:365-374 | in BFS order the children of an edge form a consecutive run, so the first child's position locates all of them |
| `Mkroot.PathSplice` | mkroot.c:117-136 | None exactly when allocation fails; otherwise dir, then path, with at most one '/' added, and none when dir ends or path starts with one |
| `Mkroot.Stripped` | mkroot.c:1185-1193 | the string without its trailing '/' run: a prefix not ending in '/', followed only by '/' |
| `Mkroot.StrippedUnique` | mkroot.c:1185-1193 | any prefix not ending in '/' and followed only by '/' is the stripped string |
| `Mkroot.StrippedIdempotent` | mkroot.c:1185-1193 | stripping twice strips nothing more, and extra trailing slashes change nothing |
| `Mkroot.SpliceStripped` | mkroot.c:1205-1206 | the stripped base directory joined to a relative path has exactly one '/' between them |
| `Mkroot.RstripSlashes` | mkroot.c:1185-1193 | the C string becomes its stripped form, the cut slashes turn to terminators, and nothing past the old terminator changes |
| `Mkroot.StrCmpIsCompare` | mkroot.c:235-257 | on strings without NUL, strcmp orders exactly as unsigned lexicographic comparison and is 0 exactly for equal strings |
| `Mkroot.MimesAtOnlyOffsets` | mkroot.c:349-353 | laying out MIME strings keeps every name and the total size |
| `Mkroot.RedirectsAtOnlyOffsets` | mkroot.c:355-362 | laying out redirects keeps every URI and code and the total size |
| `Mkroot.FilesAtOnlyOffsets` | mkroot.c:365-370 | laying out files keeps every key and size and the total size |
| `Mkroot.MimesAtLaid` | mkroot.c:349-353 | a laid-out MIME list is laid out from its base, and laying it out again changes nothing |
| `Mkroot.RedirectsAtLaid` | mkroot.c:355-362 | a laid-out redirect list is laid out from its base, and laying it out again changes nothing |
| `Mkroot.FilesAtLaid` | mkroot.c:365-370 | a laid-out file list is laid out from its base, and laying it out again changes nothing |
| `Mkroot.FilesAtContiguous` | mkroot.c:365-370 | the first body starts at the base, each starts where the one before ends, and the last ends at base plus the total |
| `Mkroot.RedirectsAtBelow` | mkroot.c:355-362 | when the table ends below WEBROOT_INVALID_REDIRECT, every redirect's offset is below it too |
| `Mkroot.MimesLayout` | mkroot.c:349-353 | the loop gives each MIME string the running offset, ends past all of them, and grows r_mimetab_sz by their total modulo 2^32 |
| `Mkroot.RedirectsLayout` | mkroot.c:355-362 | the loop gives each redirect the running offset, only URIs move it, and r_redirtab_sz is their total modulo 2^32 |
| `Mkroot.FilesLayout` | mkroot.c:365-370 | the loop lays the bodies back to back from the base with 64-bit offsets, and r_files_sz is their total |
| `Mkroot.LayoutLists` | mkroot.c:344-370 | the three loops run in turn, each starting where the last ended; only offsets and table sizes change |
| `Mkroot.RedirectRecord` | mkroot.c:532-539 | a redirect with a URI records its offset and length; one without records WEBROOT_INVALID_REDIRECT and its status code |
| `Mkroot.UriLeOrder` | mkroot.c:235-257 | ucmp's order is total and transitive, so qsort's result is well defined up to ties |
| `Mkroot.AscendingByStrCmp` | mkroot.c:255-275 | a URI list sorted by ucmp is ascending under strcmp |
| `Mkroot.Webroot.constructor` | mkroot.c:138-211 | every list empty and every counter 0 |
| `Mkroot.Webroot.Link` | mkroot.c:638-660 | a URI for the target at the tail of r_uri, an empty link standing for "/"; nothing linked when either allocation fails |
| `Mkroot.Webroot.MimeAdd` | mkroot.c:673-695 | an existing MIME entry is reused with nothing changed; a new one goes at the head of the list; nothing is added when allocation fails |
| `Mkroot.Webroot.ObjRedirect` | mkroot.c:697-717 | a redirect to the path at the tail of r_redirect, counted; nothing added when allocation fails |
| `Mkroot.Webroot.ObjCode` | mkroot.c:719-733 | a redirect with no URI and the status code at the tail of r_redirect, counted; nothing added when allocation fails |
| `Mkroot.Webroot.ObjFile` | mkroot.c:735-769 | the file object already on (dev, ino) is reused with nothing changed; otherwise a new one at the tail of r_file |
| `Mkroot.Webroot.SortUris` | mkroot.c:259-283 | a permutation of r_uri in ascending strcmp order, or the list unchanged when allocation fails |
| `Mkroot.Webroot.SortObjects` | mkroot.c:285-299 | redirects get OIDs 0, 1, ... in list order and files continue the count; nothing else changes |
| `Mkroot.Webroot.RefOf` | mkroot.c:285-299 | every OID below the object count names an object |
| `Mkroot.Webroot.OidsNumberObjects` | mkroot.c:285-299 | once numbered, the OIDs are 0 up to the object count, each naming exactly one object |
| `Mkroot.Webroot.Entries` | mkroot.c:318-332 | one trie entry per sorted URI, in order, holding its name and its object's OID |
| `Mkroot.Webroot.Layout` | mkroot.c:343-370 | the offsets and table sizes the three layout loops compute, with nothing else changed |
| `Mkroot.Webroot.Index` | mkroot.c:312-341 | fails exactly when sorting, the entry array or the trie fails; a failed sort leaves everything unchanged; otherwise URIs sorted and objects numbered |
| `Mkroot.Webroot.Prep` | mkroot.c:301-380 | webroot_prep succeeds exactly when the index is built, and then the lists are laid out after the index |
| `Mkroot.Webroot.Header` | mkroot.c:504-525 | the magic, the version, the counts, the string-table size and h_files_begin, each cut to 32 bits |
| `Mkroot.Webroot.WriteRedirectObjs` | mkroot.c:527-545 | true exactly when no write fails; one record per redirect in list order, up to the failing one |
| `Mkroot.Webroot.FilesContiguous` | mkroot.c:365-370 | the file bodies start at h_files_begin and follow one another without gap or overlap |
| `Mkroot.Webroot.FilesBeginHeader` | mkroot.c:504-525 | h_files_begin is where the first body starts, and the output size is that plus r_files_sz |
| `Mkroot.Webroot.RedirectsDistinguishable` | mkroot.c:532-539 | when the index fits below 4 GiB, a record's offset is WEBROOT_INVALID_REDIRECT exactly for a redirect without a URI |
| `Mkroot.LinkAsWritten` | mkroot.c:650-654 | when the string copy fails after the URI record was allocated, the URI is still linked, with no name |
| `Mkroot.LinkAsWrittenLinksNull` | mkroot.c:638-660 | a failing string pool links a nameless URI that sort_uris later hands to strcmp |
| `MkrootPy.FooLtIsCompareFast` | mkroot.py:7-12 | foostr's less-than is vcmp_fast's order: the shorter string first, then the first differing byte |
| `MkrootPy.FooConsistent` | mkroot.py:6-39 | the six comparisons agree with one another; __cmp__ raises AttributeError exactly for equal lengths (str has no __cmp__), and otherwise its sign agrees with < and > |
| `MkrootPy.FooTrichotomy` | mkroot.py:6-39 | exactly one of a < b, a == b and b < a holds |
| `MkrootPy.FooLeOrder` | mkroot.py:13-18 | foostr's <= is total and transitive, so sorting by it is well defined |
| `MkrootPy.FileOrderBySize` | mkroot.py:40-55 | FileObjects compare by size alone; equal exactly when neither is smaller; <= is a total preorder |
| `MkrootPy.NewFile` | mkroot.py:56-61 | None exactly when os.stat raises; otherwise the path, its (st_dev, st_ino) key and its size |
| `MkrootPy.Copied` | mkroot.py:64-78 | a copy succeeds exactly when the reopened file is still the one that was found |
| `MkrootPy.PlacedFails` | mkroot.py:108-109 | writing the objects fails exactly when one of them cannot be copied |
| `MkrootPy.PlacedContiguous` | mkroot.py:65-78 | each body starts where the one before ended, the first at the start, and is as long as what was copied |
| `MkrootPy.Elements` | mkroot.py:104-119 | dict.keys() gives every key once |
| `MkrootPy.CopyAll` | mkroot.py:108-109 | the write loop places the bodies as the placement function says |
| `MkrootPy.ObjectStore.constructor` | mkroot.py:83-85 | the object store starts empty |
| `MkrootPy.ObjectStore.Path` | mkroot.py:88-89 | no path or an empty one means PATH_404; any other path is used as given |
| `MkrootPy.ObjectStore.Add` | mkroot.py:87-101 | None with nothing filed when os.stat raises; otherwise the object filed under its key, the existing one if there was one |
| `MkrootPy.ObjectStore.Objects` | mkroot.py:104 | every stored object exactly once |
| `MkrootPy.ObjectStore.Write` | mkroot.py:103-110 | every stored object once, sorted by size, then copied in that order from offset 0 |
| `MkrootPy.Records` | mkroot.py:126-132 | one record per URI, in order, with its length and the placement of the object it names |
| `MkrootPy.NameDB.constructor` | mkroot.py:113-115 | no names and an empty object store |
| `MkrootPy.NameDB.SetItem` | mkroot.py:116-117 | the key names what the store's add returns; nothing changes when add raises |
| `MkrootPy.NameDB.Iter` | mkroot.py:118-121 | every URI once, strictly ascending in foostr's order |
| `MkrootPy.NameDB.Write` | mkroot.py:122-132 | the object database is written first; then one record per URI in foostr's order, with where its object's body went |
| `Nbio.IoThread.Move` | nbio.c:141-163 | list_move_tail puts the endpoint on the list asked for, keeps every other endpoint where it was, and keeps the three lists a partition |
| `Sorting.Sort` | mkroot.c:275 | qsort's result: a permutation of its input, sorted by the comparison |
| `Bytes.ToLower` | vec.c:37 | tolower in the "C" locale changes only the letters 'A' through 'Z', each to its lower-case letter |

## Left out

- System calls and library calls are not modelled code. Their outcomes are parameters of the members that make them: send, recv, sendfile, pread, fd_write, fsync, close, libaio, eventfd, inotify_add_watch, mmap, mlock, rlimits, stat, readdir, libmagic, SHA-1, and the success of malloc, calloc and realloc.
- The poll and epoll plugins behind the reactor's hooks are not part of this model. Their hook calls are recorded as a sequence of calls.
- The hgang allocator, list.h and the string and buffer pools are not part of this model. Pools are counts of free slots, and intrusive lists are sequences reassigned whole.
- Node identity and aliasing are not modelled. Objects are indices into sequences or keys of maps.
- The generated webroot.h table, webroot_open and webroot_unref are not part of this model. The table is a parameter, and unref is recorded as an event.
- nbio-eventfd.c, nbio-listener.c, nbio-connecter.c, os.c, httpd.c, httprape.c and fsck.c hold no logic that the core depends on, so they are not modelled.
- `Nbio.IoThread.PumpPass`: the callbacks are recorded as hook calls, and the pass is stated as if they moved no endpoint. The real handlers call nbio_inactive, nbio_set_wait and nbio_del on their own endpoint during the pass (http_conn.c and the io_*.c write paths). Those moves are modelled by the members that make them, not inside the pass.
- The outer loop of nbio_pump is not modelled. Its termination depends on what the plugin hooks and callbacks do, so one pass (`Nbio.IoThread.PumpPass`) and the reaping of deleted endpoints (`Nbio.IoThread.Reap`) are modelled instead.
- nbio_to_waitq and nbio_wake are not part of this model. Waking is a flag in the completion's result.
- mkroot.c: the directory scan and file output are not modelled, because they are I/O with no statable logic. That covers scan_item, scan_dir, try_index, add_index, index_dir, the printf helper, write_file, write_files, write_etags, write_mimetab, write_redirtab, write_file_objs, do_mkroot and main.
- `Mkroot.Webroot.SortUris` states qsort's result as a sorted permutation. It does not model qsort's own steps.
- `Sorting.Sort` states its result as a sorted permutation. It does not state the order of equal elements: qsort leaves it unspecified, and the stability of Python's list.sort is not modelled.
- `Mkroot.Webroot.Index`: the trie is reduced to its edge count, which is all webroot_prep and write_header use of it.
- Mkroot: the 32-bit wrap of the object numbers and counts is not modelled. The lists are far shorter than 2^32.
- mkroot.py: webmap, the main block, print and the reading and writing of files are not modelled. FileObject's `fpos`/`flen` attributes, which to_file sets on an object shared through the object store, are returned as a list of placements and looked up by object.
- `Trie.Trie.DoRadix`: the model records r_max_path as a bound on the depths reached. It is not proved equal to the tree height.
- Trie: do_layout_inorder assigns nothing, and is modelled as doing nothing. On a trie without a root it reads through the NULL root edge, and `Trie.TrieNew` reports that as an abort.
- Trie: edges live in a sequence, and the children lists and BFS order are sequences of indices. The e_list/e_bfs links are not modelled.
- Critbit: the tree is a datatype value. The in-place relinking through `wherep` and the freeing of nodes are not modelled, and `Critbit.FreeCorrect` states which nodes cb_free visits. cb_allprefixed is not modelled.
- Rbtree: the tree is a datatype value, and a node pointer is a cursor (the subtree and the path of frames up to the root) standing for the rb_parent links. The individual pointer writes of do_rotate and rbtree_delete_node are not modelled.
- Rbtree: in rbtree_delete_node the parent-side test `parent->rb_child[1] == n` is modelled by the frame's side. The two agree whenever the invariant holds, because a NULL cursor below the root always has a non-NULL sibling.
- Vec: the `ssize_t`/`int` truncation of the comparison result is not modelled. Results are mathematical integers with the same sign.
- The normaliser's flags follow the compiled-in NADS_WS_CASE_SENSITIVE configuration. nads_strerror is not part of the core.
- `Normalize.Normaliser.Normalize` models nads_normalize as written, including the overlap of n_path's terminator with the query. The intended result is `NormalizeSpec.Normalize`, and `NormalizeSpec.AsWrittenAgrees` says when the two agree. One exception: its UTF-8 pass (`Normalize.Normaliser.Utf8Pass`) reads the bytes as unsigned, so the 0xfe/0xff guard of n_utf8 fires. Where plain char is signed, that comparison at normalize.c:452 is never true and those bytes are not rejected there.
- `Normalize.Normaliser.Split` requires the request to be shorter than NADS_MAX_URI. n_split checks no length, and a request of NADS_MAX_URI (16384) bytes or more writes past the end of uribuf. The model does not represent that overflow.
- `Normalize.Normaliser.Normalize` requires the request to be shorter than NADS_MAX_URI, for the same reason: nads_normalize passes the request to n_split unchecked.
- htype_code sits under `#if 0` in http_parse.c while http_resp.c still names it. The model follows its text (`HttpParse.HtypeCode`).
- The h_buf fields that http_conn.c uses are missing from the struct in include/ashttpd.h. `IoConn.Conn` gives the connection the fields the .c files use.
- io_dasync.c:
  - the iocb double free (io_dasync.c:342, 348, 387) is not modelled: an iocb is a slot count;
  - cache_lookup always misses and the tree insert and remove are TODO stubs, so no coalescing is modelled;
  - a chunk's reference count is at most two, one base reference and one waiter;
  - init_cache's eventfd and queue setup are not part of this model.
- io_async.c: when io_submit fails, the iocb is not given back. `IoAsync.Aio.Submit` takes the availability of an iocb as a parameter, so the leak is not visible in the model.
- io_dasync.c: the abort path does not give back its chunk reference. `IoDasync.Abort` keeps this as written.
- The init functions of the I/O modules (io_setup, eventfd creation, nbio registration of the event descriptor) are left out, because they are library setup with no statable logic. The `Prep` members model the per-connection preparation.
- The watch table is a sequence that `Inotify.Notifier.WatchDir` grows as realloc does. The slots between the old size and the new descriptor, which nbio_inotify_watch_dir leaves uninitialised (nbio-inotify.c:227-238), hold whatever the caller's `stale` parameter says. No later read of such a slot is modelled.
- buf_alloc_data and buf_free_data (http_buf.c:85-93) draw from abstract pools. Their mismatch of pools is not modelled.
- Delete-rebalance termination is stated through `Rbtree.RebalanceStep`'s measure. No `fuel` parameter is used anywhere.
- `SkunkRoundTrip.RoundTripOf` and `SkunkRoundTrip.RoundTrip` require that records with equal keys carry equal values (`Functional`). skunk_insert prepends a record with a key already present, and skunk_select returns the first match on the probe path. The model does not prove that this first match is the newest record.
- `Critbit.InsertCorrect` reads key bytes as unsigned. Where plain char is signed, cb_insert computes a direction outside the node's children (see Findings, `Critbit.SignedDirOutOfRange`).

## Findings

| source | as written | input that shows it | evidently intended | confidence | as-written member | corrected member |
|---|---|---|---|---|---|---|
| rbtree.c:165 | In the near-nephew case of the delete rebalance, the sibling is rotated toward the far side, which lifts the far nephew, black or NULL, instead of the red near nephew. | Deleting 5 from 10(black) over 5(black) and 20(black), with 15(red) the left child of 20: the far nephew is NULL and the rotation dereferences it. | Rotate the sibling the other way (`1 ^ side`), so the red near nephew becomes the sibling. | not executed | `Rbtree.NearFixAsWrittenFails` | `Rbtree.NearFix`, used by `Rbtree.RbTree.DeleteRebalance` |
| trie.c:119-121 | The group loop runs only while `len < 0x100`, and `len` starts as all that is left of the string. | A string with 0x100 or more bytes left after the offset: the loop never runs and the whole rest becomes one edge label. | Labels stay within RE_EDGE_MAX. | not executed | `Trie.FindGroupAsWritten` | `Trie.FindGroup` |
| fobuf.c:150 | `!close(fd)` marks the result failed when close returns 0, which is success. The same test recurs at fobuf.c:188. | A flush, fsync and close that all succeed: fobuf_close reports failure. | Fail when close returns nonzero. | not executed | `Fobuf.CloseStatusAsWrittenRejectsSuccess` | `Fobuf.Fobuf.Close` |
| vhosts.c:82-86 | When cb_delete finds no such name, `w` is left unset, and webroot_unref is called on it anyway. | Deleting a host name that was never added. | Return without an unref when the name is absent. | not executed | `Vhosts.Vhosts.DelAsWritten` | `Vhosts.Vhosts.Del` |
| normalize.c:513-541 | With an empty target before the `?`, the terminator written after the normalised path lands on the first byte of the query. | "?a": the path becomes "/" and the query becomes empty. | The query is decoded from its own bytes. | not executed | `NormalizeSpec.QueryLostAsWritten` | `NormalizeSpec.NormalizeSeparates` (the function NormalizeSpec.Normalize) |
| normalize.c:452 | A plain (signed) `char` is compared with 0xff and 0xfe, so the guard never fires. The lead-byte count then reaches lengths outside the UTF-8 table. | The byte 0xFE gives a sequence length of 7, and 0x80 gives a length of 1. | Reject 0xFE, 0xFF and stray continuation bytes. | not executed | `NormalizeSpec.Utf8GuardNeverFires` | `Normalize.Utf8Pass` |
| http_parse.c:40 | The version is packed as `(min << 4) \| maj`, with the nibbles swapped. | "HTTP/1.0" gives 0x01, not HTTP_VER_1_0, and "HTTP/2.0" ranks below "HTTP/1.1". | `(maj << 4) \| min` | not executed | `HttpParse.ProtoVersionSwapped` | `HttpParse.ProtoVersion` |
| http_req.c:12-29 | The header table that the binary search walks is not in vstrcmp order. | A request with a "Host" header: the search goes right at "Connection" and at "Content-Length", then runs out. | A table sorted under vstrcmp. | not executed | `HttpReq.HostMissedAsWritten` | `HttpReq.LabelsSorted` |
| http_resp.c:12-23 | The response header table is not in vstrcmp order. | A response with "Content-Type" or "Content-Encoding": neither is found. | A table sorted under vstrcmp. | not executed | `HttpResp.ContentTypeMissedAsWritten` | `HttpResp.LabelsSorted` |
| http_parse.c:209-222 | The request header table is not in vstrcmp order. | A request carrying "Host", "Content-Length" or "Content-Encoding": none of them is stored. | A table sorted under vstrcmp. | not executed | `ParseReq.HostMissedAsWritten` | `ParseReq.LabelsSorted` |
| http_parse.c:247-261 | The host is started at the third `/`, the one after the name, where it should start at the second. The loop then stops before counting any of it. | "http://name/path" gives an empty host, and "http://name" gives none. | The host starts after the second `/`: "name" is the host and "/path" is the rest. | not executed | `ParseReq.AbsHostLostAsWritten` | `ParseReq.AbsUriSplit` |
| mkroot.c:650-653 | After webroot_strdup, the code tests `NULL == r` instead of the copied string. | The string pool fails after the URI record was allocated: a URI with no name is linked, and sort_uris later hands it to strcmp. | Test the copied string and link nothing. | not executed | `Mkroot.LinkAsWrittenLinksNull` | `Mkroot.Webroot.Link` |
| skunk.c:80-81 | The bucket bound compares the bucket's start with the map's end. | A bucket that starts in the last 15 bytes of the image, or exactly at its end: its 16 bytes run past the map. | The whole bucket lies inside the map. | not executed | `SkunkDb.BucketCheckAsWritten` | `SkunkFormat.Probe` |
| skunk.c:86-87 | The record bound sums three 32-bit fields, and the sum wraps. | ofs 0xFFFF_FFF0, klen 1 and vlen 16, in an image of the primary table's size: the check passes. | Bound the sum without wrapping. | not executed | `SkunkDb.RecordCheckAsWritten` | `SkunkFormat.Lookup` |
| skunk_make.c:161-164 | A failed calloc of the slot table jumps to `finish`, which closes the file and reports the close's result. | Any database with a record, with calloc failing: a file holding only the primary table is reported written. | Report failure. | not executed | `SkunkMake.CommitAsWrittenReportsTruncated` | `SkunkMake.Maker.Commit` |
| critbit.c:93-113 | The differing bytes are read as plain `char` and xor-ed into the 32-bit newotherbits. Where char is signed, a byte of 0x80 or above is sign-extended, and the smear and mask run on all 32 bits. | Inserting "a\x80" into a tree holding "a": newotherbits becomes 0x800000FF, newdirection becomes 0x800001, and `child[1 - newdirection]` is written far outside the node. | Read the bytes as unsigned, as the descent loop's `uint8_t c` already does. | not executed | `Critbit.SignedDirOutOfRange` | `Critbit.CritBit`, used by `Critbit.InsertCorrect` |
