# A verified model of the systems exercises

This project models the hard parts of the repository in Dafny and proves what they promise:

- the indexes of the Redis clone (`build_redis`): an intrusive AVL tree with parent pointers and counts, a chained
  hash map that migrates at most 128 nodes a call, a sorted set over both, the key-value commands on top, the wire
  format, and the non-blocking connection;
- the encoders of the vendored `stb_image_write.h`: DEFLATE with lazy matching and its stored fallback, Adler-32, the
  PNG line filters, and the TGA and Radiance run-length codes, each against a decoder written from its format;
- the concurrent algorithms: a lock-free stack with split reference counts, a list with hand-over-hand locks, the
  ATM and bank actors, and a partial sum chained through promises, each over every interleaving;
- the two merge sorts on linked lists with a self-looping sentinel.

The code that changes memory in place is modelled by classes and methods that do the same writes; each method is
proved against a function of the old state, and the laws are proved about those functions. The concurrent programs are
state machines whose steps are the atomic operations of the code, and the theorems are about every schedule.

## Where the code differs from what one would expect

- The compressor turns the empty input into a zlib header and a checksum with no block between them, which is not a
  zlib stream. Every other input decodes to itself (`Zlib.Compress`).
- `on_response` adds to a length in `uint32_t` and returns an `int32_t`. A string or an error message is answered wrongly
  exactly when that sum wraps, or is 2 GiB and more with all its bytes there (`Replies.MessageAcceptance`); up to 2 GiB of
  data, replies of any nesting are answered wrongly exactly when one is accepted in spite of a wrapped length
  (`Replies.WrongAnswer`; `Replies.WrappedReply` gives the smallest ones). Everything else is accepted iff it begins with
  an encoding (`Replies.Acceptance`).
- `send_req` sums the lengths in `uint32_t` too. A request whose size is a multiple of 4 GiB, or up to 4096 bytes more, is
  not recognised as too long and is copied beyond the end of the buffer (`Wire.SendReq`, `Wire.OverrunSizes`).
- A withdrawal reply does not say which withdrawal it answers. Money is conserved in every run exactly when no two of
  the amounts asked for can be confused, and there is a run that breaks it otherwise (`Atm.ConservedIffUnconfused`).
- The stack of chapter 7 is called lock-free. A push or pop that nobody hinders is over within eleven turns
  (`StackProgress.AloneFinishes`), but every pop first counts itself on head, which makes the compare-exchange of another
  pop fail: two pops can hinder each other for ever although an element is there (`StackProgress.PopsForEver`).
- The parallel partial sum adds the end value of the block before on the right. With an identity element, it is the
  partial sum of every input exactly when the operation commutes; associativity is not enough
  (`PrefixSum.CorrectIffCommutative`).
- The assertion at build_redis/chapter6/server.cpp:198 compares `rbuf_size` with the free half of the buffer and fails
  when it exceeds 2050 after a read, whatever the size of that read. The model has the intended bound, the size of the
  buffer.
- A connection that leaves STATE_RES does not look at the input it already holds: a complete request waits in the
  buffer until more input arrives. `Connection.RequestWaits` reaches such a state, and the contract of
  `Connection.Conn.ConnectionIo` says exactly after which calls a complete request is left.
- `znode_new` lacks its return statement (build_redis/chapter11/zset.hpp:58-68); the model returns the node. The
  transcription errors in the concurrent files (`counted_node_ptr`, `compare_exchange_week`, the comma at
  concurrent/chapter8/parallel_partial_sum.cpp:77 and the like) are read as intended.
- After the loop over the five filters `filter_type` is 5, so the best line is always encoded again, contrary to the
  comment at cuda/chapter3/stb_image_write.h:1167. The result is the same.

## Model

| member | source | states |
|---|---|---|
| AvlShapes.AVLNode.constructor | build_redis/chapter11/avl.hpp:19-24 | A new node is a tree of one: depth and count 1, no links. |
| AvlShapes.FixNodeKeeps | build_redis/chapter11/avl.hpp:79-116 | Single and double rotations keep the nodes and their order. |
| AvlShapes.FixNodeBalanced | build_redis/chapter11/avl.hpp:79-116 | Subtrees whose depths differ by at most two are balanced by one round, which changes the depth by at most one and nothing where nothing is wrong. |
| AvlShapes.FixUpKeeps | build_redis/chapter11/avl.hpp:97-124 | Rebalancing up to the root keeps the nodes and their order. |
| AvlShapes.FixUpBalanced | build_redis/chapter11/avl.hpp:97-124 | If a subtree of an AVL tree is replaced by one whose depth differs by at most one, rebalancing from there makes the whole an AVL tree. |
| AvlTree.Update | build_redis/chapter11/avl.hpp:41-45 | Only depth and count of the node change, to one more than the deeper child and one more than both counts. |
| AvlTree.RotateLeft | build_redis/chapter11/avl.hpp:47-61 | All child and parent links, depths and counts of the rotated subtree are right, and nothing else changed. |
| AvlTree.RotateRight | build_redis/chapter11/avl.hpp:63-77 | The mirror image. |
| AvlTree.AvlFixLeft | build_redis/chapter11/avl.hpp:79-86 | A subtree that is two deeper on the left becomes the linked image of the single or double rotation. |
| AvlTree.AvlFixRight | build_redis/chapter11/avl.hpp:88-95 | The mirror image. |
| AvlTree.AvlFix | build_redis/chapter11/avl.hpp:97-124 | The loop returns the root of the rebalanced tree, with all links, depths and counts right up to it, whatever the ancestors' counters were. |
| AvlDelete.SpliceOut | build_redis/chapter11/avl.hpp:128-144 | A node without right child is replaced by its left subtree and the rest rebalanced. |
| AvlDelete.Successor | build_redis/chapter11/avl.hpp:147-151 | The loop finds the node that follows in order, which has no left child. |
| AvlDelete.TakePlace | build_redis/chapter11/avl.hpp:154-172 | Copying the node over the victim puts the victim where the node is after rebalancing, with a valid tree around it. |
| AvlDelete.AvlDel | build_redis/chapter11/avl.hpp:126-174 | The result is the root of a valid AVL tree of exactly the other nodes in the same order, even when rebalancing moved the node before it was copied. |
| AvlContainer.FindPlace | build_redis/chapter11/avl.hpp:199-211 | The descent ends at an empty child where the value belongs: nothing before it is greater, everything after it is. |
| AvlContainer.Attach | build_redis/chapter11/avl.hpp:205-208 | Hanging a leaf there and rebalancing gives a linked tree with the leaf added. |
| AvlContainer.Container.Add | build_redis/chapter11/avl.hpp:187-212 | The tree stays valid and sorted; the multiset of values gains exactly the new one. |
| AvlContainer.Search | build_redis/chapter11/avl.hpp:216-225 | The descent finds a node with the value, or there is none in the whole tree. |
| AvlContainer.Container.Del | build_redis/chapter11/avl.hpp:214-233 | True iff the value was present; then one occurrence is gone, and the tree is valid and sorted. |
| AvlContainer.ValuesSorted | build_redis/chapter11/avl.hpp:187-233 | The values in order of the tree are ascending. |
| AvlContainer.TreeAdd | build_redis/chapter11/zset.hpp:70-90 | The node is inserted into the order at its place, all other nodes keep theirs, and the tree is a valid AVL tree. |
| ZOrder.LessTotal | build_redis/chapter11/zset.hpp:36-56 | Of two different (score, name) records exactly one is less. |
| ZOrder.LessTransitive | build_redis/chapter11/zset.hpp:36-56 | The comparison by score, then common prefix, then length is transitive. |
| ZOrder.LessComes | build_redis/chapter11/zset.hpp:36-56 | `zless` holds exactly when the score is lower, or the scores are equal and the name comes first in the order of a dictionary: at the first byte that differs, or because it is the beginning of the other. |
| AvlRank.RankIsIndex | build_redis/chapter11/zset.hpp:153-187 | The rank of a node is its index in order. |
| AvlRank.AvlOffset | build_redis/chapter11/zset.hpp:153-187 | The climb and descent end at the node of rank + offset, or at NULL iff that rank lies outside the tree. |
| AvlRank.LowerBound | build_redis/chapter11/zset.hpp:194-205 | The first place whose record is not less than the key. |
| AvlRank.Seek | build_redis/chapter11/zset.hpp:192-205 | The descent finds the least record that is not less than the key, and NULL iff there is none. |
| AvlRank.Query | build_redis/chapter11/zset.hpp:189-211 | The result is the node at the lower bound shifted by the offset, or NULL. |
| ZSets.NameLookup | build_redis/chapter11/zset.hpp:111-120 | The comparison of hash nodes finds exactly the member with the name. |
| ZSets.MembersInOrder | build_redis/chapter11/zset.hpp:36-56 | The tree lists every member once, with its score: lower scores first, equal scores in the order of a dictionary. |
| ZSets.Rescore | build_redis/chapter11/zset.hpp:98-101 | Taking a node out and adding it with a new score keeps the other nodes in order and puts this one in its new place. |
| ZSets.ZSet.ZsetLookup | build_redis/chapter11/zset.hpp:122-135 | Finds the node of the name, or the name is no member; the members do not change. |
| ZSets.ZSet.ZsetUpdate | build_redis/chapter11/zset.hpp:92-102 | Exactly the score of this member changes, in the tree and in the map of members. |
| ZSets.ZSet.ZsetAdd | build_redis/chapter11/zset.hpp:136-151 | The name gets the score; true iff it was new; both indexes hold the same members. |
| ZSets.ZSet.ZsetQuery | build_redis/chapter11/zset.hpp:189-211 | The member at the lower bound of (score, name) shifted by the offset, or NULL. |
| ZSetRuns.Run | build_redis/chapter11/zset.hpp:122-211 | Over any sequence of additions, lookups and queries the two indexes behave as one map of names to scores, and every answer is the one that map gives in the order of scores and names. |
| ZSetRuns.OneRanking | build_redis/chapter11/zset.hpp:36-56 | The scores leave one order of the members, lowest score first and equal scores by name, hence one answer to a query. |
| ZSetRuns.QueryLeast | build_redis/chapter11/zset.hpp:189-211 | Without an offset the answer is a member that does not come before (score, name), so its score is no lower, and every other such member comes later; there is none exactly when every member comes before. |
| Bits.PowerOfTwoTest | build_redis/chapter11/hashtable.hpp:34 | `((n - 1) & n) == 0` holds exactly for the powers of two. |
| HashMap.HTab.HInit | build_redis/chapter11/hashtable.hpp:32-38 | An empty table whose number of buckets is a power of two. |
| HashMap.HTab.Masked | build_redis/chapter11/hashtable.hpp:42 | Masking a hash code is the remainder by the number of buckets. |
| HashMap.HTab.HInsert | build_redis/chapter11/hashtable.hpp:40-47 | The node becomes the head of its bucket's chain, the other chains stay, the size counts it. |
| HashMap.HTab.HLookup | build_redis/chapter11/hashtable.hpp:49-67 | The returned pointer points to a matching node, or no node of the table matches. |
| HashMap.HTab.HDetach | build_redis/chapter11/hashtable.hpp:69-75 | Exactly the node pointed to leaves its chain. |
| HashMap.HMap.PosInside | build_redis/chapter11/hashtable.hpp:84-91 | While nodes are left to migrate, `resizing_pos` is a bucket of the old table. |
| HashMap.HMap.MoveFirst | build_redis/chapter11/hashtable.hpp:86-93 | One node moves from the old table to its bucket in the new one. |
| HashMap.HMap.HelpResizing | build_redis/chapter11/hashtable.hpp:77-100 | Moves min(128, remaining) nodes, keeps all nodes, and drops the old table exactly when it is empty. |
| HashMap.HMap.StartResizing | build_redis/chapter11/hashtable.hpp:114-120 | The old table keeps all nodes; the new one is empty with twice the buckets. |
| HashMap.HMap.InsertPays | build_redis/chapter11/hashtable.hpp:77-139 | With c old buckets, 128 * (nodes - 8c) <= 8c - (nodes left in them) survives an insertion and its round of migration, and implies fewer than 16c nodes. |
| HashMap.HMap.OthersPay | build_redis/chapter11/hashtable.hpp:77-156 | The same bound survives lookups and removals. |
| HashMap.HMap.StartPays | build_redis/chapter11/hashtable.hpp:130-137 | Between migrations the load factor is reached at exactly eight nodes per bucket. |
| HashMap.HMap.HmLookup | build_redis/chapter11/hashtable.hpp:102-112 | Finds a matching node in either table or none matches; nodes and size stay; the call moves exactly min(128, remaining) nodes of a migration; the load bound holds again. |
| HashMap.HMap.HmInsert | build_redis/chapter11/hashtable.hpp:122-139 | The map gains exactly the node; the first one brings four buckets, eight nodes a bucket start a migration to twice as many unless one runs, and min(128, remaining) nodes move; the load bound holds although it is not checked during a migration. |
| HashMap.HMap.HmPop | build_redis/chapter11/hashtable.hpp:141-156 | A matching node leaves the map, or none matches and no node leaves; min(128, remaining) nodes move first. |
| Store.StrHash | build_redis/chapter9/commands.hpp:23-31 | The 32-bit hash of the key, as the fold of its bytes. |
| Store.KeyLookup | build_redis/chapter9/commands.hpp:33-38 | `entry_eq` finds an entry exactly for the keys that have one, only in the bucket of the key's hash. |
| Store.Store.DoGet | build_redis/chapter9/commands.hpp:40-53 | Replies with the value of the key, or nil; the dictionary stays. |
| Store.Store.DoSet | build_redis/chapter9/commands.hpp:55-77 | The dictionary maps the key to the value and is otherwise the same; replies nil. |
| Store.Store.DoDel | build_redis/chapter9/commands.hpp:79-90 | The key is gone; replies 1 iff it was there. |
| HashScan.HScan | build_redis/chapter9/commands.hpp:129-150 | Appends the key of every node of the table, bucket by bucket along the chains. |
| Store.Store.ScanListsKeys | build_redis/chapter9/commands.hpp:152-158 | Both scans together list every key exactly once, as many as `hm_size` announces. |
| Store.Store.DoKeys | build_redis/chapter9/commands.hpp:152-158 | Replies with an array of all keys, at every stage of a migration. |
| Store.Store.DoRequest | build_redis/chapter9/commands.hpp:160-183 | Each command has the effect and the reply it should have on one abstract dictionary; others get the error reply. |
| Store.Store.Run | build_redis/chapter9/commands.hpp:160-183 | Over any run of commands the two tables behave as one dictionary. |
| Wire.OutNil | build_redis/chapter9/serialization.hpp:17-20 | Appends the encoding of nil. |
| Wire.OutStr | build_redis/chapter9/serialization.hpp:22-28 | Appends the encoding of a string. |
| Wire.OutInt | build_redis/chapter9/serialization.hpp:30-34 | Appends the encoding of a 64-bit integer. |
| Wire.OutErr | build_redis/chapter9/serialization.hpp:36-43 | Appends the encoding of an error. |
| Wire.OutArr | build_redis/chapter9/serialization.hpp:45-49 | Appends the header of an array. |
| Wire.OnResponse | build_redis/chapter9/serialization.hpp:51-139 | The recursion inside the loop consumes what the function on byte strings says, or fails. |
| Wire.ConsumesExactly | build_redis/chapter9/serialization.hpp:17-139 | Of any nested response followed by anything, exactly the response is consumed iff it is shorter than 2 GiB. |
| Replies.DecodeEncoded | build_redis/chapter9/serialization.hpp:17-49 | Decoding without bounds what the `out_*` calls append, whatever follows, gives back the response. |
| Replies.DecodedIsEncoding | build_redis/chapter9/serialization.hpp:17-49 | What is decoded has the bytes that the `out_*` calls append for it. |
| Replies.LeDigit | build_redis/chapter9/serialization.hpp:22-49 | Integers and lengths stand in the encoding with byte k weighing 256^k. |
| Replies.MessageAcceptance | build_redis/chapter9/serialization.hpp:62-98 | A string or error message is answered rightly iff its length neither wraps the 32-bit sum nor, when all its bytes are there, exceeds the result. |
| Replies.Acceptance | build_redis/chapter9/serialization.hpp:51-139 | Where every length that is met can be answered for, data is accepted iff it begins with the encoding of a response, of any nesting, and exactly that is consumed. |
| Replies.WrongAnswer | build_redis/chapter9/serialization.hpp:51-139 | Up to 2 GiB of data, a wrong answer is exactly the acceptance of data with a wrapped length, which begins with no encoding. |
| Replies.WrappedReply | build_redis/chapter9/serialization.hpp:62-98 | Five bytes and nine bytes that are accepted as a string and an error of no bytes. |
| Wire.ParseReq | build_redis/chapter9/commands.hpp:92-127 | The loop accepts exactly what the function accepts, with its arguments, and returns 0 or -1. |
| Wire.ParseExact | build_redis/chapter9/commands.hpp:92-127 | A request parses to a command iff it is the encoding of that command, with at most 200000 arguments. |
| Wire.FrameLength | build_redis/chapter9/client.cpp:49-53 | The 32-bit sum of the lengths. |
| Wire.SendReq | build_redis/chapter9/client.cpp:47-71 | Writes the length and the encoding of the command into a buffer of 4 + 4096 bytes iff it fits; reports that it is too long iff the 32-bit length says so; otherwise writes beyond the buffer. |
| Wire.OverrunSizes | build_redis/chapter9/client.cpp:49-57 | The buffer is overrun exactly by sizes from a positive multiple of 4 GiB to 4096 bytes more; below 4 GiB never. |
| Wire.OverrunRequest | build_redis/chapter9/client.cpp:49-69 | One argument of 2^32 - 8 bytes is such a request. |
| Wire.RequestRoundTrip | build_redis/chapter9/client.cpp:47-71 | What is sent within the frame limit is parsed as what was sent. |
| Frames.OneSplit | build_redis/chapter6/server.cpp:129-146 | A byte stream splits in one way into complete frames and a rest that needs more input. |
| Connection.Conn.constructor | build_redis/chapter6/server.cpp:76-88 | A new connection reads requests and has empty buffers. |
| Connection.Conn.TryFlushBuffer | build_redis/chapter6/server.cpp:91-120 | Whatever write() accepts, what was answered stays the bytes sent and the bytes pending; output is pending exactly in STATE_RES; an error of write() ends the connection. |
| Connection.Conn.StateRes | build_redis/chapter6/server.cpp:122-127 | The events consumed are the first ones, of which only the last can block or fail: the state is END iff it failed, REQ iff everything pending was taken, RES iff it blocked or none is left; what was not taken is pending. |
| Connection.FlushLaw | build_redis/chapter6/server.cpp:91-127 | The same about the function that the loop is proved to compute: only the sum of the bytes taken and the last event decide the outcome. |
| Connection.Conn.TryOneRequest | build_redis/chapter6/server.cpp:129-162 | Takes exactly one complete frame from the front and answers it; takes nothing otherwise, and ends the connection exactly on a length that is too long. |
| Connection.Conn.TryFillBuffer | build_redis/chapter6/server.cpp:164-203 | There is room at every read; afterwards no complete frame is left unless output is pending or the connection ends. |
| Connection.Conn.StateReq | build_redis/chapter6/server.cpp:205-210 | Reading ends; either nothing arrived or no complete frame is left; in STATE_REQ it has consumed the arrivals up to one that blocks, or all of them. |
| Connection.ReceiveLaw | build_redis/chapter6/server.cpp:164-210 | Reading that ends in STATE_REQ has consumed the first arrivals: data and interruptions, and then one that blocks, or all there were. |
| Connection.Conn.ConnectionIo | build_redis/chapter6/server.cpp:212-226 | One event keeps sent + pending + unread equal to received; in STATE_RES the write events decide between sending on, waiting and ending as in `StateRes`, in STATE_REQ reading goes on until the socket blocks; a complete request is left unanswered in STATE_REQ exactly when it was there before and the call read nothing. |
| Connection.RequestWaits | build_redis/chapter6/server.cpp:122-226 | A connection in STATE_REQ with a complete request in its buffer and no output pending, after three events. |
| Connection.Serve | build_redis/chapter6/server.cpp:91-226 | For every fragmentation of reads and writes and any number of events: sent + pending + unread == received, and sent + pending are whole frames. |
| Adler.NoOverflow | cuda/chapter3/stb_image_write.h:1009 | Within 5552 bytes neither sum leaves 32 bits. |
| Adler.Block | cuda/chapter3/stb_image_write.h:1009-1010 | A block with one reduction at its end gives the sums reduced at every byte. |
| Adler.Checksum | cuda/chapter3/stb_image_write.h:1002-1012 | The short first block and the late reductions give the checksum of section 2.2 of RFC 1950. |
| DeflateBits.DecodeSymbolOf | cuda/chapter3/stb_image_write.h:884-889 | The fixed codes are read back, whatever bits follow. |
| DeflateBits.DecodesMatch | cuda/chapter3/stb_image_write.h:957-966 | The bits of a match, read by sections 3.2.5 and 3.2.6 of RFC 1951, copy the match. |
| DeflateBits.CopyExtends | cuda/chapter3/stb_image_write.h:957-966 | Copying a match extends the output with the data, also when it overlaps itself. |
| ZWriter.Flush | cuda/chapter3/stb_image_write.h:839-847 | Whole bytes move out of the bit buffer; the bit stream stays the same. |
| ZWriter.Add | cuda/chapter3/stb_image_write.h:879-881 | Appends the low bits of the code to the bit stream; the 32-bit buffer never overflows. |
| ZWriter.BitRev | cuda/chapter3/stb_image_write.h:849-857 | The result written least significant bit first is the code most significant bit first. |
| ZWriter.Huff | cuda/chapter3/stb_image_write.h:882-888 | Appends the fixed code of the symbol. |
| ZWriter.HuffB | cuda/chapter3/stb_image_write.h:882-889 | Appends the fixed code of a byte. |
| ZWriter.Pad | cuda/chapter3/stb_image_write.h:976-978 | Appends fewer than eight zero bits, up to a byte boundary. |
| Matches.CountM | cuda/chapter3/stb_image_write.h:859-865 | The length of the common stretch, at most 258 and within the data. |
| Matches.Zhash | cuda/chapter3/stb_image_write.h:867-877 | The hash, masked, is a bucket of the table. |
| Matches.BestMatch | cuda/chapter3/stb_image_write.h:924-933 | A longest match of at least three bytes within the window, the latest of those, or none. |
| Matches.BetterNext | cuda/chapter3/stb_image_write.h:943-954 | True iff some entry in the window matches longer at the next byte. |
| Matches.FindMatch | cuda/chapter3/stb_image_write.h:923-955 | The table gains the position, with the older half of a full list dropped; the match is the best one, unless the next byte has a better. |
| Deflate.LengthTable | cuda/chapter3/stb_image_write.h:901-902 | The length table is that of section 3.2.5 of RFC 1951, and its extra bits reach the next entry. |
| Deflate.DistTable | cuda/chapter3/stb_image_write.h:903-904 | The same for distances. |
| Deflate.LengthIndex | cuda/chapter3/stb_image_write.h:960 | The search ends within the table at the entry that covers the length. |
| Deflate.DistIndex | cuda/chapter3/stb_image_write.h:963 | The same for distances up to 32767. |
| Deflate.MatchSymbols | cuda/chapter3/stb_image_write.h:957-965 | Writes a length symbol, extra bits, distance code and extra bits that stand for exactly this match, with the last codes whose bases are not above it. |
| Deflate.Match | cuda/chapter3/stb_image_write.h:957-966 | Appends the bits of this match, and what is written decodes to the data up to its end. |
| Deflate.Literal | cuda/chapter3/stb_image_write.h:967-970 | Appends the code of the byte, and what is written decodes to the data and this byte. |
| Deflate.FixedBlock | cuda/chapter3/stb_image_write.h:910-974 | The bits are the header and those of a parse: at every position but the last three the match that lazy matching chooses over the hash table as it is there, or a literal where it chooses none; and they decode to the data. |
| Parses.OneParse | cuda/chapter3/stb_image_write.h:908-974 | Input and quality leave one parse, with one hash table at every position. |
| Parses.WhyLiteral | cuda/chapter3/stb_image_write.h:921-970 | A literal before the last three bytes means that no entry of its bucket in the window matches three bytes there, or that an entry of the next bucket matches more at the next byte than all of them. |
| Parses.WhyMatch | cuda/chapter3/stb_image_write.h:921-966 | A match copies what stands there and goes on until the bytes differ, the data ends or it has 258 bytes; no entry of its bucket in the window matches longer and no later one as long, and none of the next bucket matches longer at the next byte. |
| Parses.BucketsHold | cuda/chapter3/stb_image_write.h:934-939 | At every point of a parse each bucket holds the latest of the positions entered in it, all of them or more than `quality`, and at most twice as many. |
| Zlib.FixedDecodes | cuda/chapter3/stb_image_write.h:975-978 | With end of block, padding and checksum it is a zlib stream of the data. |
| Zlib.StoredInflates | cuda/chapter3/stb_image_write.h:987-997 | A stored block with its complemented length inflates to its bytes, whatever bytes follow. |
| Zlib.StoredDecodes | cuda/chapter3/stb_image_write.h:985-1016 | The stored blocks of a non-empty input with the checksum are a zlib stream of it. |
| Zlib.StoredBlocks | cuda/chapter3/stb_image_write.h:985-999 | The loop writes those blocks, within the room of the discarded output. |
| Zlib.Compress | cuda/chapter3/stb_image_write.h:895-1024 | For every input and quality: the result is the header, the block with the bits of the parse padded with zeros or, exactly when they are shorter, stored blocks, and the checksum; it decodes to the input iff the input is not empty, and is never longer than stored blocks. |
| Zlib.EmptyDoesNotDecode | cuda/chapter3/stb_image_write.h:985-999 | The result for the empty input is six bytes that are no zlib stream. |
| Filters.UnfilterInverts | cuda/chapter3/stb_image_write.h:1092-1126 | Unfiltering by section 6 of RFC 2083 inverts each filter on every line. |
| Filters.ReconstructAppend | cuda/chapter3/stb_image_write.h:1146-1174 | A line more in the stream is a row more in the image. |
| Png.Image.RowInside | cuda/chapter3/stb_image_write.h:1099-1100 | Rows lie inside the memory, and the signed stride leads to the row before in the order of output, for strides of any size and sign, flipped or not. |
| Png.Image.EndsInside | cuda/chapter3/stb_image_write.h:1099-1100 | All rows are inside the memory iff the first and the last are. |
| Png.Paeth | cuda/chapter3/stb_image_write.h:1083-1089 | The predictor of section 6.6 of RFC 2083. |
| Png.FirstPixelByte | cuda/chapter3/stb_image_write.h:1107-1117 | The special cases of the first pixel are the filter with nothing to the left. |
| Png.LaterByte | cuda/chapter3/stb_image_write.h:1118-1125 | The other bytes, with the special cases of the first row. |
| Png.EncodeLine | cuda/chapter3/stb_image_write.h:1092-1126 | The line is the filter of RFC 2083 of the row, with zeros above the first row, although that row has filters of its own. |
| Png.BestFilter | cuda/chapter3/stb_image_write.h:1151-1169 | The chosen filter is the first with the least estimate, and the line buffer holds its line. |
| Png.FilterImage | cuda/chapter3/stb_image_write.h:1140-1174 | For every start, stride and flip the result is every row behind its filter byte and filtered, with the forced filter or the best of the row. |
| Png.LinesRebuilt | cuda/chapter3/stb_image_write.h:1140-1174 | Whatever the filters, unfiltering such lines gives back every row. |
| Png.PixelData | cuda/chapter3/stb_image_write.h:1128-1177 | The pixel data inflates to the filtered rows, with the filters that were forced or are best and the parse of the compression level, and unfiltering gives back every row. |
| Rle.PixelRoundTrip | cuda/chapter3/stb_image_write.h:418-450 | The order of the bytes of a TGA pixel is undone by reading it. |
| Rle.PacketLength | cuda/chapter3/stb_image_write.h:563-590 | The search finds length and kind of the packet that `Rle.PacketLaw` describes. |
| Rle.PacketLaw | cuda/chapter3/stb_image_write.h:563-590 | A packet covers 1 to 128 pixels; it is a run exactly where the first two pixels are equal, and takes all that are; a raw packet has no pixel equal to the one two before it and ends one before such a pixel, at the end of the line, or after 128. |
| Rle.TgaExpands | cuda/chapter3/stb_image_write.h:563-603 | Expanding such packets gives back the scanline. |
| Rle.TgaScanline | cuda/chapter3/stb_image_write.h:563-603 | Writes exactly these packets, which expand to the scanline. |
| Rle.DumpStep | cuda/chapter3/stb_image_write.h:664-670 | A literal code of 1 to 128 bytes expands to them. |
| Rle.HdrRunStep | cuda/chapter3/stb_image_write.h:656-662 | A run code of 1 to 127 bytes expands to them. |
| Rle.CodeLaw | cuda/chapter3/stb_image_write.h:724-756 | A run code stands exactly where three bytes are equal or a run goes on, and takes all that are, up to 127; literals end before three equal bytes, at the end of the plane, or after 128. |
| Rle.HdrExpands | cuda/chapter3/stb_image_write.h:724-756 | Expanding such codes gives back the plane, whatever follows. |
| Rle.HdrPlane | cuda/chapter3/stb_image_write.h:724-756 | Writes exactly these codes for a plane of any width, and they expand to it, whatever follows. |
| Rle.HdrScanline | cuda/chapter3/stb_image_write.h:672-757 | A scanline of any width, coded or flat, is read back. |
| MergeSort.Link | algorithms/sort/mergesort.c:9-12 | Relinks one node, or ends the merge through the sentinel. |
| MergeSort.MergeLists | algorithms/sort/mergesort.c:4-16 | The same nodes relinked as the merge of both lists, ending in the sentinel, which points to itself again. |
| MergeSort.MergeSorted | algorithms/sort/mergesort.c:9-12 | The merge of sorted lists is sorted. |
| MergeSort.MergeStable | algorithms/sort/mergesort.c:9-12 | Equal keys keep their order, the left list first. |
| MergeSort.OneStableSort | algorithms/sort/mergesort.c:18-51 | A list has only one stable sort, so the two sorts agree. |
| MergeSort.Middle | algorithms/sort/mergesort.c:21-25 | Both halves are non-empty, whatever the length: following next past the end stays at the sentinel. |
| MergeSort.Cut | algorithms/sort/mergesort.c:26 | Splits a list in two lists that end in the sentinel. |
| MergeSort.Mergesort | algorithms/sort/mergesort.c:18-30 | The result is the stable sort of the same nodes. |
| BottomUp.MergeTwoRuns | algorithms/sort/mergesort.c:41-46 | The next two runs, however short, are cut off and merged. |
| BottomUp.PassRuns | algorithms/sort/mergesort.c:37-49 | A pass over sorted runs of N leaves sorted runs of 2N, for every length. |
| BottomUp.PassSameOrder | algorithms/sort/mergesort.c:37-49 | A pass keeps the nodes and the order of equal keys. |
| BottomUp.Pass | algorithms/sort/mergesort.c:39-48 | The inner loop relinks the list as the pass, and says what `a` is at its end. |
| BottomUp.ExitTest | algorithms/sort/mergesort.c:37 | The exit test fires only on a sorted list, and fires once a run covers the list. |
| BottomUp.Sort | algorithms/sort/mergesort.c:32-51 | The result is the stable sort of the same nodes, and the loop ends. |
| LockFreeStack.AllocStep | concurrent/chapter7/lockfree_stack.cpp:43-45 | A node allocated at an address that may have been used before is private to its pusher. |
| LockFreeStack.LoadNextStep | concurrent/chapter7/lockfree_stack.cpp:46-49 | Loading head into a private node changes nothing for anyone else. |
| LockFreeStack.LinkStep | concurrent/chapter7/lockfree_stack.cpp:46-49 | The successful CAS of a push is the push of the atomic stack. |
| LockFreeStack.IncStep | concurrent/chapter7/lockfree_stack.cpp:22-33 | Counting oneself on head keeps the counts exact; on a null head it is the pop of an empty stack. |
| LockFreeStack.TakeStep | concurrent/chapter7/lockfree_stack.cpp:62 | The successful CAS of a pop is the pop of the atomic stack. |
| LockFreeStack.SwapStep | concurrent/chapter7/lockfree_stack.cpp:64-65 | The data taken out is the value popped. |
| LockFreeStack.SettleStep | concurrent/chapter7/lockfree_stack.cpp:66-70 | Adding external_count - 2 settles the count; the owner frees the node iff nobody else holds it. |
| LockFreeStack.MissStep | concurrent/chapter7/lockfree_stack.cpp:73-77 | A thread that missed leaves the count, and frees the node iff it was the last holder of an unlinked node. |
| LockFreeStack.FreeStep | concurrent/chapter7/lockfree_stack.cpp:69-76 | A node is freed only when it is allocated, unlinked and held by nobody. |
| LockFreeStack.StepRefines | concurrent/chapter7/lockfree_stack.cpp:22-79 | Every step touches allocated memory only, keeps holders = external_count - 1 + internal_count on every linked node, and is a step of the atomic stack or none. |
| LockFreeStack.EveryRunRefines | concurrent/chapter7/lockfree_stack.cpp:22-79 | Along every schedule of any number of threads no step touches or frees unallocated memory, the counts are exact, and the atomic stack makes a step of the same thread or none at every step, with the same calls and the same results at every point. |
| LockFreeStack.QuietMeansNoLeak | concurrent/chapter7/lockfree_stack.cpp:22-79 | When no operation is in progress, exactly the linked nodes are allocated. |
| StackProgress.SoonDone | concurrent/chapter7/lockfree_stack.cpp:22-79 | In any run, an operation still going on has made fewer than eleven turns since another thread last moved head, not counting allocations at a taken address and spurious failures. |
| StackProgress.AloneFinishes | concurrent/chapter7/lockfree_stack.cpp:22-79 | From any state of a run, an operation that is scheduled alone is over within eleven turns. |
| StackProgress.ExpectationSeen | concurrent/chapter7/lockfree_stack.cpp:26-32 | What a thread expects at a compare-exchange was head at a point of the run since which it has expected it: the exchange fails only if head has changed since then, or spuriously. |
| StackProgress.RightResult | concurrent/chapter7/lockfree_stack.cpp:41-79 | An operation that nobody hinders has pushed its value on the stack it started from, or has taken and returns the first element of it, or nothing if it was empty. |
| StackProgress.PopsForEver | concurrent/chapter7/lockfree_stack.cpp:51-79 | Pops are not lock-free: for every number of turns there is a run in which two pops go on without end although an element is there, each counting itself on head before the other one takes it. |
| LockedList.LinkStep | concurrent/chapter6/threadsafe_list.cpp:23-29 | A push puts its node behind the head and disturbs no walk. |
| LockedList.UnlinkStep | concurrent/chapter6/threadsafe_list.cpp:69-74 | A removal takes out the next node, which then only the remover knows. |
| LockedList.FreeStep | concurrent/chapter6/threadsafe_list.cpp:72-75 | A node is destroyed when nobody owns its mutex, waits for it or refers to it. |
| LockedList.StepKeeps | concurrent/chapter6/threadsafe_list.cpp:23-83 | Every step touches live nodes only, unlocks only what the thread owns, and keeps list, locks and places consistent, with no node lost. |
| LockedWalks.NoDeadlock | concurrent/chapter6/threadsafe_list.cpp:30-83 | Waits point forward in the list: while an operation is in progress, some thread can move. |
| LockedWalks.NoOvertaking | concurrent/chapter6/threadsafe_list.cpp:30-83 | A walk that is ahead of another stays ahead. |
| LockedWalks.SweptStep | concurrent/chapter6/threadsafe_list.cpp:44-83 | A walk leaves behind no node that was there when it began and that it has not handed over, nor one it should have found or removed. |
| LockedWalks.FinishedWalk | concurrent/chapter6/threadsafe_list.cpp:44-83 | At the end of the list a walk has handed over every node that is still there since it began. |
| LockedWalks.EveryRunIsSafe | concurrent/chapter6/threadsafe_list.cpp:23-83 | Along every schedule of any number of threads no step touches a destroyed node or misuses a mutex, and the invariant holds at every point with the history of the steps. |
| LockedWalks.NeverStuck | concurrent/chapter6/threadsafe_list.cpp:30-83 | At no point of a run are all the threads that are in an operation blocked. |
| LockedWalks.WalksKeepOrder | concurrent/chapter6/threadsafe_list.cpp:44-83 | Between any two points of a run, two walks that last keep their order in the list. |
| LockedWalks.NothingMissed | concurrent/chapter6/threadsafe_list.cpp:44-83 | A walk that reaches the end has handed every node linked at its beginning and its end to its function, and none of them matches its predicate. |
| LockedProgress.WhyRemoved | concurrent/chapter6/threadsafe_list.cpp:70-75 | A node linked at one point of a run and not at a later one was taken out in between by a `remove_if` that stood before it and whose predicate holds of its data. |
| LockedProgress.WhyLinked | concurrent/chapter6/threadsafe_list.cpp:23-29 | A node linked at one point of a run and not at an earlier one was put behind the head by its push in between. |
| LockedProgress.WalkEnds | concurrent/chapter6/threadsafe_list.cpp:30-83 | A walk ends at the end of the list, or is a search at a node whose data matches its predicate. |
| LockedProgress.FindsFirst | concurrent/chapter6/threadsafe_list.cpp:45-61 | A search that ends before the end of the list ends at the first node that matches, among those linked since it began. |
| LockedProgress.HandedOnce | concurrent/chapter6/threadsafe_list.cpp:30-83 | No walk hands the same node to its function or predicate twice. |
| LockedProgress.OperationsEnd | concurrent/chapter6/threadsafe_list.cpp:23-83 | From its first mutex on, a walk makes at most five turns a node that was linked then, besides those in which it waits, whatever is pushed and removed meanwhile; a push makes four. |
| Atm.HandleConserves | concurrent/appendixc/main.cpp:315-448 | Each handler of the ATM, and each dropped message, conserves money when amounts cannot be confused. |
| Atm.BankConserves | concurrent/appendixc/main.cpp:496-532 | Each handler of the bank does. |
| Atm.RunConserves | concurrent/appendixc/main.cpp:315-538 | Cash issued + withdrawals granted and not handled + balance = 199 after every interleaving of complete handlers. |
| Atm.ConfusionRuns | concurrent/appendixc/main.cpp:315-538 | A run in which the reply for one amount serves the withdrawal of another. |
| Atm.ConservedIffUnconfused | concurrent/appendixc/main.cpp:315-538 | Every run with these amounts conserves money iff no two of them can be confused. |
| Atm.OneAmount | concurrent/appendixc/main.cpp:675-676 | With one amount, like the 50 of the program, every run conserves money. |
| AtmSessions.SessionRuns | concurrent/appendixc/main.cpp:315-447 | One customer whose keys are handled at once: four digits after corrections, and the amount is paid and deducted iff they are the PIN and the balance covers it; nothing else changes and the next customer can come. |
| AtmSessions.DayRuns | concurrent/appendixc/main.cpp:315-538 | Any number of customers one after the other get exactly the amounts asked for with the right PIN for as long as the balance covers them. |
| AtmSessions.BankGrants | concurrent/appendixc/main.cpp:509-521 | In every interleaving the bank takes the amount of a withdrawal off the balance exactly when the balance of the moment covers it. |
| AtmSessions.BalanceShown | concurrent/appendixc/main.cpp:343-374 | Asking for the balance shows it, and the ATM waits for the next wish. |
| AtmSessions.CancelEnds | concurrent/appendixc/main.cpp:315-447 | Cancelling at any point before the money gives the card back and moves no money; the bank hears of a withdrawal. |
| AtmSessions.StopsForGood | concurrent/appendixc/main.cpp:455-472 | An ATM that has taken `close_queue` does nothing any more, whatever happens. |
| AtmSessions.BankStaysClosed | concurrent/appendixc/main.cpp:486-538 | A bank that has closed keeps its balance and stays closed. |
| PrefixSum.BlockInside | concurrent/chapter8/parallel_partial_sum.cpp:50-75 | The blocks are non-empty, adjacent and inside the range, for every length and number of threads. |
| PrefixSum.StepKeeps | concurrent/chapter8/parallel_partial_sum.cpp:15-32 | Each step of a block, in any order with those of the others, keeps what each element and promise must be; no promise is set twice. |
| PrefixSum.AnySchedule | concurrent/chapter8/parallel_partial_sum.cpp:8-77 | All complete schedules leave the same result. |
| PrefixSum.Progress | concurrent/chapter8/parallel_partial_sum.cpp:18-32 | Until all blocks have finished, one of them can move. |
| PrefixSum.StepCounts | concurrent/chapter8/parallel_partial_sum.cpp:15-32 | Every step of a block that does not wait leaves less to do in all. |
| PrefixSum.CanFinish | concurrent/chapter8/parallel_partial_sum.cpp:8-77 | From every point of a run there is a way to the end, and it has no more steps than are left. |
| PrefixSum.ResultIsSums | concurrent/chapter8/parallel_partial_sum.cpp:8-77 | For an associative and commutative operation the result is the sequential partial sum. |
| PrefixSum.CorrectIffCommutative | concurrent/chapter8/parallel_partial_sum.cpp:20-27 | For an associative operation with an identity it is so on every input iff the operation commutes. |

## Left out

- AvlShapes.AVLNode.constructor: `depth` and `cnt` are unbounded here; the code has 32 bits for them, which 2^32 nodes would exceed.
- ZOrder.LessTotal: scores are real numbers; the comparison of IEEE doubles with NaN is not modelled.
- LockFreeStack.StepRefines: counts are unbounded integers, atomic operations are sequentially consistent, and the copy of a value cannot throw.
- LockedList.StepKeeps: a node is named by its allocation, since the code never compares addresses; the functions passed to the walks are total functions of the data and do not call the list.
- Atm.RunConserves: the keyboard presses any key in any order and asks for any amount, while `main` asks for 50 only and quits after a cancel; unsigned arithmetic is unbounded (the guard of the bank excludes wrap-around); of the messages to the display only the balance is kept, and the amount granted rides on the reply as history.
- PrefixSum.StepKeeps: the operation does not throw, so the path that passes exceptions on is not taken.
- Replies.WrongAnswer: arrays in more than 2 GiB of data with a length that cannot be answered for have no exact condition; a server frame has 4096 bytes.
- Zlib.Compress: `data_len` and sums with it are unbounded; in the code `data_len + 32766` is an `int`, which overflows for data near 2 GiB.
- Png.Image.RowInside: an image of width 0 is excluded, for which the code writes a pixel into a line buffer of no bytes; products of stride and height are unbounded.
- Png.BestFilter: the estimate is unbounded; in the code it is an `int`, which lines of more than 16 million bytes could exceed.
- Connection.Serve: a connection starts from nothing received; poll, accept and close are not modelled.
- Rle.HdrScanline: starts from RGBE pixels; the conversion from floating point is not modelled.
- Matches.FindMatch: an allocation of the hash table that fails is not modelled.
- The commands of chapter 11 that use the sorted set (`do_zadd`, `do_zquery`, `out_dbl`): they call functions that do not exist.
- The earlier and later copies of the server, sockets, the poll loop, printing and process start-up: plumbing.
- JPEG, BMP, the CRC and the chunks of PNG, and stdio in `stb_image_write.h`: tables and layout.
- The lock-free queue of concurrent/chapter7: line 62 assigns where it should add, so it keeps no count.
- The CUDA kernels: a foreign runtime. The textbook loops (gcd, sieve, selection and insertion sort) and the mutex-wrapped containers: nothing to say beyond their text.
