# A verified model of phpredis

phpredis is a Redis client written in C for PHP. This project models the parts of it that keep state over long runs
(the session of a `RedisSock`, pipelined transactions, the cluster topology, the connection pool) and the parts that
encode and decode (RESP readers, hash slots, compressed frames, redirection lines, SCAN cursors), and proves what they
keep. Objects whose fields the source updates in place are classes; everything the network or chance decides is a
nondeterministic choice or a parameter.

| File | Subject |
| --- | --- |
| `Options.dfy`, `Decimal.dfy` | optional values; `printf("%ld")` against `strtol` |
| `Resp.dfy`, `SockReader.dfy` | the RESP2 wire format; the stream helpers, with replies arriving in arbitrary chunks |
| `ReplyTrees.dfy` | the two recursive readers of nested replies |
| `BulkLoops.dfy` | the zero-copy array reader beside the plain one |
| `Callbacks.dfy` | the queue of reply callbacks with its NULL markers |
| `Pipeline.dfy` | pipelined transactions: what is queued, what the server answers, what the flush returns |
| `Network.dfy`, `Session.dfy` | the session state machine against a network that loses connections |
| `ConnectionPool.dfy` | sockets sharing a pool of persistent connections |
| `ClusterNodes.dfy`, `SlotMap.dfy`, `Shuffle.dfy`, `Cluster.dfy`, `SlotCache.dfy` | nodes, CLUSTER SLOTS, random order, redirections, the slot cache |
| `Crc16.dfy`, `KeyDistribution.dfy` | hash slots, hash tags, keys grouped by slot |
| `Lz4Frame.dfy`, `Redirection.dfy`, `Scan.dfy` | compressed frames, redirection lines, SCAN cursors |

How it is modelled:

- The server's side of a TCP session (in MULTI, has watches, READONLY, replies owed) is part of the model. A log
  records what was written on which session, what was acknowledged and what was reported as failed; `Safe` says that
  nothing is written on another session than the one an acknowledged WATCH or MULTI lives on, and nothing meant for a
  replica on a session that has not acknowledged READONLY, and that nothing is acknowledged that was not asked for. It
  is kept by every step, and `SameSession`, `ReplicaWritesAreReadonly` and `AckedWasAsked` say what it means for whole
  runs. `Once` and `Quiet` say of a call what the log has gained, AUTH and SELECT apart: `OnceIs` and `QuietIs`.
- Reading is specified by functions on the bytes still to come; the methods, which loop over chunks of any size, are
  proved equal to those functions, and the theorems are about the functions.
- Random numbers are a parameter (`draws`), so a result that holds for all of them holds for every shuffle.
- The answers a cluster request gets are a sequence of `Hop`s, one for each node that takes the command; which nodes
  take it is a nondeterministic choice.

What the code does where its promise is not kept, with the exact condition:

- `CacheAgreesIffUncontested`: a slot cache puts every slot back where it was, under every shuffle, exactly if no two
  masters claim one slot. `EveryOrder` shows that every shuffle does occur.
- `TagsSurviveIff`: keys with one hash tag are hashed alike under a prefix exactly if that has no '{', or a tag of its
  own.
- `StoredIsLoaded`: a value that LZ4 did not compress is read back unchanged unless it looks like a frame: length,
  checksum and body fit. `Misread` is such a value.
- `Process.Disconnect`, `Process.Run`: a stream goes back to its pool with watched keys exactly if an unforced
  disconnect meets an ATOMIC, persistent socket whose server session has watches. The `watching` flag, which a caller
  can check, says so in neither direction. WATCH, MULTI, DISCARD leaves the flag set while the server has forgotten
  (`DiscardThenDestroy`, `RedisSock.Discard`). A WATCH whose reply was never read leaves it clear while the server
  watches (`FlushThenDestroy`); without such a stray watch the flag is set whenever watches are handed on
  (`LeaksIsFlagged`, `Run`).
- `RedisSock.FlushPipeline`: a persistent socket that has to reconnect for the write of a pipeline has lost its
  callbacks. `exec()` then succeeds with an empty array, every reply stays unread, and what was piped, WATCH included,
  is unknown to the flags. A flush that succeeds leaves replies unread in that case only, and one in the middle of a
  transaction that fails gives up with the rest unread. From then on replies and commands are out of step.
- `RedisSock.StartPipeline`: callbacks that a lost MULTI left behind on a non-persistent socket stay in the queue unless
  the socket is FAILED; with such callbacks a flush that writes anything never succeeds, and the `exec()` of a
  transaction loses step exactly then (`Exec`).
- `RedisCluster.SockWrite`: ASKING goes to the announced node, but a readonly command that is distributed over a shard
  is then offered to a random node of the shard. If the announced node, which is filed after ASK, is not in that shard,
  the ASK is honoured exactly if the command is not distributed. `DirectHonours` says so for whole requests.
- `RedisSock.Close`: in the middle of a pipelined transaction it leaves the markers in the queue of a
  non-persistent socket.
- `Iterator.Scan`: a first call that fails leaves the iterator at 0, so that the next call takes the iteration for
  complete.
- `RedisCluster.UpdateSlot`: the node made for a slot that nobody served is not filed in the table of nodes, so no
  cache will know it. A node learnt from a redirection has no ranges, and `cluster_init_cache` reads the first range
  of every master: the cache has to be made right after a mapping, as `CacheIsUsable` supposes.
- `RedisCluster.SendCommand`: REDIR_ASK stays set, and the next request starts with ASKING, exactly if the request
  failed and the last redirection it was sent, or without one the flag it started with, was ASK.

## Model

| member | source | states |
|---|---|---|
| Decimal.StrtolPrint | library.c:4682-4740 | a length printed by the server is read back exactly and reading stops right behind it |
| Resp.ReadHeader | library.c:4682-4740 | a reply header is consumed whole and gives its type and number, over the full range of a long |
| Resp.ReadBody | library.c:804-847 | a bulk body is consumed with its CRLF, and `rxBytes` grows by that |
| Resp.HeaderRefused | library.c:4682-4740 | exactly which replies are refused as a header |
| Resp.OtherErrorsThrow | library.c:344-369 | every error line that is not on the list of quiet ones throws |
| Resp.QuietErrors | library.c:344-369 | those on the list do not |
| SockReader.StreamReader.GetLine | library.h:260-266 | a line is the same however the bytes are chunked, and `rxBytes` counts it |
| SockReader.StreamReader.Getc | library.h:268-274 | one byte consumed and counted, or none |
| SockReader.StreamReader.ReadRaw | library.h:276-282 | what it got is a prefix of what is to come, and is counted |
| SockReader.StreamReader.Gets | library.c:4656-4679 | equals the line reader on the whole stream, including the cut of the last two bytes and the failures |
| SockReader.StreamReader.ReadReplyType | library.c:4682-4740 | equals the header reader on the whole stream, including range checks and exceptions |
| SockReader.StreamReader.ReadBulkReply | library.c:804-847 | for every chunking, the body and the new stream are those of the whole stream |
| ReplyTrees.ReadMultibulkRecursive | library.c:4804-4860 | the loop reads exactly the specified values and bytes |
| ReplyTrees.ClusterMultibulkRespRecursive | cluster_library.c:168-222 | the loop builds exactly the specified tree and consumes the specified bytes |
| ReplyTrees.ReadValuesOfEncoding | library.c:4804-4860 | from the encoding of any replies, exactly those bytes are consumed and the values of the replies result, null bulks as false |
| ReplyTrees.ReadTreeOfEncoding | cluster_library.c:168-222 | the same for the tree reader, null bulks as null |
| ReplyTrees.ReadersAgree | cluster_library.c:2312-2351 | both readers leave the same bytes and build the same value of any nested array, but for null bulks |
| BulkLoops.RedisSockRead | library.c:853-908 | the plain element reader equals its specification for every chunking; what that reads is said by `ElementOfEncoding` |
| BulkLoops.RedisSockReadBulkZstr | library.c:3751-3790 | the body read in place equals the one copied |
| BulkLoops.RedisSockReadZstr | library.c:3797-3848 | the zero-copy element reader meets the specification of the plain one; what that reads is said by `ElementOfEncoding` |
| BulkLoops.ElementOfEncoding | library.c:853-908 | from the encoding of a reply that is no array and throws nothing, exactly those bytes are consumed; a bulk gives its body, be it empty, an integer or a status its line with the type byte, a null bulk or an error false |
| BulkLoops.UnpackOfPacked | library.c:4346-4433 | for a codec and its inverse, unpacking gives the value that was packed |
| BulkLoops.UnpackWithoutCodec | library.c:4386-4433 | where nothing is compressed or packed, unpacking is what the shortcut does |
| BulkLoops.MbulkRespLoop | cluster_library.c:3176-3200 | the plain loop equals its specification; what that reads is said by `RespLoopOfEncoding` |
| BulkLoops.MbulkReplyLoop | library.c:3851-3894 | the zero-copy loop equals its specification in every unserialize mode; what that reads is said by `ReplyLoopOfEncoding` |
| BulkLoops.RespLoopOfEncoding | cluster_library.c:3176-3200 | of the encodings of any such replies the plain loop consumes exactly those bytes and adds one value for each, bulks unpacked |
| BulkLoops.ReplyLoopOfEncoding | library.c:3851-3894 | the same for the zero-copy loop, bulks unpacked at the positions that the mode names |
| BulkLoops.ReadArray | library.c:3851-3894 | either method, on any chunking of such encodings, reads exactly them and returns their values |
| BulkLoops.ZeroCopyRefinesPlain | library.c:3851-3894 | on every byte stream, with UNSERIALIZE_ALL both loops give the same array, the same outcome and the same rest |
| BulkLoops.ZeroCopyLoop | library.c:3851-3894 | the zero-copy method itself computes what the plain loop is specified to compute |
| Callbacks.ScanOverrunsIffUnpaired | redis.c:1206-1229 | the scan for closing markers leaves the queue exactly if their number is odd |
| Callbacks.NoMarkersInRun | redis.c:1206-1229 | the scan passes handlers only and stops at the first marker |
| Callbacks.PairedTail | redis.c:1206-1229 | behind a closing marker the rest of the queue is paired again |
| Callbacks.CallbackList.Add | library.c:4016-4028 | the queue grows by the item, and a full buffer grows to 8, then doubles up to 32768, then grows by 4096 |
| Callbacks.CallbackList.Realloc | library.c:4025 | a buffer of the new capacity with the same contents |
| Callbacks.CallbackList.Free | library.c:4031-4045 | the queue is empty and has no buffer |
| Pipeline.ResponseEnqueued | redis.c:1185-1197 | equals the reading of one +QUEUED |
| Pipeline.ReplayTransaction | redis.c:1200-1246 | equals the reading of one transaction between two markers |
| Pipeline.MultiReplyLoop | redis.c:1200-1246 | the reply loop equals the flush of the queue against the stream |
| Pipeline.EnqueueAllIs | redis.c:1012-1069 | what well-nested calls leave in the queue and in the buffer |
| Pipeline.QueueOfParity | redis.c:1012-1069 | the markers of well-nested calls are paired, one being open inside a transaction |
| Pipeline.PipelineRoundTrip | redis.c:1127-1182 | for all well-nested calls the flush consumes exactly the server's bytes and returns one value per command and one nested array per transaction, in order |
| Pipeline.MultiRefused | redis.c:1219-1223 | any other line than +OK for MULTI fails the transaction |
| Pipeline.RefusalFails | redis.c:1225-1229 | an error or another status than QUEUED for any command of a transaction fails the flush there |
| Network.SameSession | library.c:405-481 | after an acknowledged WATCH or MULTI everything written, EXEC in particular, goes out on that session until a call loses the connection or the application ends it |
| Network.AckedWasAsked | redis.c:874-898 | a WATCH or MULTI is acknowledged only after one was written on that very session, except by a flush with callbacks from before its pipeline |
| Network.OnceIs | library.c:3995-4012 | the call that succeeds has written its bytes once, on the session in use, and besides only AUTH and SELECT |
| Network.ReplicaWritesAreReadonly | cluster_library.c:387-392 | a replica command is only ever written on a session that has acknowledged READONLY |
| Session.RedisSock.CheckEof | library.c:405-481 | alive, replaced by a session in step with the flags, or failed; never replaced in MULTI or while watching; a connection lost once is replaced if there is a retry |
| Session.RedisSock.Disconnect | library.c:3532-3564 | the flags that live on the server are cleared with the stream |
| Session.RedisSock.Write | library.c:3995-4012 | written whole and once on the old session or on one reborn, or the connection is given up |
| Session.RedisSock.ServerOpen | library.c:3493-3526 | ready, with AUTH and SELECT acknowledged on that session if they are needed, or failed with the invariant kept; nothing else is written |
| Session.RedisSock.Multi | redis.c:1012-1069 | MULTI written once and acknowledged on the session in use, or a marker queued and nothing written; a refusal ends no watch |
| Session.RedisSock.StartPipeline | redis.c:1248-1269 | PIPELINE mode, refused inside MULTI; which callbacks are still in the queue |
| Session.RedisSock.Succeed | redis.c:874-898 | a WATCH arms the session, an UNWATCH ends that |
| Session.RedisSock.ProcessCmd | redis.c:682-730 | outside a pipeline the command is written once on the session in use, and an accepted WATCH has the server watch; in one it is appended to the buffer and nothing is written; one callback for each; a refusal ends no watch or transaction |
| Session.RedisSock.Discard | redis.c:1072-1097 | ATOMIC with an empty queue; DISCARD written once, or nothing from a pipeline; the server forgets its watches and the flag stays |
| Session.RedisSock.Reset | redis.c:826-872 | RESET written once; ATOMIC, nothing watched, no database selected, the server's session as new |
| Session.RedisSock.Exec | redis.c:1127-1182 | in MULTI, EXEC once on the session of the transaction, and the array exactly if the server has executed it, the session staying in step exactly without stale callbacks; a marker; or the flush, whose buffer is written once and in which nothing fails without a loss, a stale callback or a WATCH inside a transaction; the mode afterwards |
| Session.RedisSock.FlushPipeline | redis.c:1127-1182 | the buffer is written once, by the call that succeeds; every reply is read and the session in step, except exactly if a persistent socket had to reconnect for the write, and then all replies stay unread; unhindered it succeeds and the watching flag is what the commands say; nothing left queued whatever happens |
| Session.RedisSock.ReplyLoop | redis.c:1200-1246 | the loop stays inside the queue, reads one reply for each callback, stays in step if the replies are those the callbacks wait for, and leaves no transaction open unless the session is given up; an error reply outside a transaction does not fail it |
| Session.RedisSock.Close | redis.c:794-802 | the queue matches the mode afterwards exactly if the socket is persistent or no marker was queued; outside a pipeline everything stays valid |
| Session.RedisSock.Reconnect | redis.c:804-823 | a fresh session with nothing left of the old one, or FAILED; one connection at most, none on a socket that is not connected |
| Session.RedisSock.SendReadonly | cluster_library.c:369-381 | the flag is set exactly if the session in use has acknowledged READONLY, which is written once or was before |
| Session.RedisSock.SendReplicaPayload | cluster_library.c:387-392 | success means the payload was written once and last, on a session in READONLY mode |
| Session.RedisSock.SendPayload | cluster_library.c:327-331 | success means the payload was written once and last on the live session |
| Session.RunScript | redis.c:1012-1246 | whatever is called in whatever order and whenever connections are lost, flags match the server as long as replies and commands are in step, which they only are with every reply read; the queue matches the mode and in MULTI what the server has queued, the buffer holds exactly the commands its callbacks wait for, a ready socket has had its AUTH and SELECT acknowledged, and the log is safe |
| ConnectionPool.Process.GetPool | library.c:145-170 | found or created empty, all counts kept |
| ConnectionPool.Process.Disconnect | library.c:3532-3564 | closed and no longer counted, or at the head of the list; only ATOMIC sockets give streams back, and a watched session exactly if the server has watches |
| ConnectionPool.Process.SetMode | redis.c:874-898 | flag and server watches change apart, and a watch without the flag has strayed |
| ConnectionPool.Process.LeaksIsFlagged | library.c:3532-3564 | a socket that would hand watches on has its flag set or they have strayed |
| ConnectionPool.Process.FlushThenDestroy | redis.c:193-203 | a watch piped on a socket that reconnects for the flush, and only then, is pooled with the flag clear |
| ConnectionPool.Process.DiscardThenDestroy | redis.c:1072-1097 | after WATCH, MULTI, DISCARD the flag is set, yet the session pooled has no watches |
| ConnectionPool.Process.TakeOldest | library.c:3368-3374 | a live pooled stream leaves the list for the socket and stays counted |
| ConnectionPool.Process.ForgetOldest | library.c:3372-3377 | a dead one leaves the list and the count |
| ConnectionPool.Process.Connect | library.c:3322-3459 | which stream is taken, opened or refused, and the pool afterwards: the oldest idle stream if it is alive, else a new one if there is room and an answer; the limit is never exceeded |
| ConnectionPool.Process.Reconnect | library.c:3466-3487 | a new stream or none, never a pooled one, and one if there is room and an answer; the idle lists are untouched |
| ConnectionPool.Process.ReplaceLost | library.c:405-481 | a lost stream never comes back; it is replaced exactly if the socket neither watches nor is in MULTI and the first retry that gets through is not refused, with at most one new stream a retry; the idle lists lose their oldest only, and other sockets are untouched |
| ConnectionPool.Process.Destroy | redis.c:193-203 | the socket is gone with its stream released or closed |
| ConnectionPool.Process.Run | library.c:3322-3564 | over any run `nb_active` is idle plus held streams, within the limit, and every live stream has one place; watches are pooled only from a flagged socket or after one has strayed |
| ConnectionPool.NoSharing | library.c:3322-3564 | no stream is held twice, listed twice, or both held and listed |
| ConnectionPool.FirstReleasedFirstTaken | library.c:3368-3370 | streams are taken in the order they were given back, after those already idle |
| ConnectionPool.Process.ReleaseAll | library.c:3532-3564 | any number of disconnects put the streams in the list in the order of the calls |
| ConnectionPool.Process.TakeAll | library.c:3322-3459 | any number of connects take the oldest streams, oldest first |
| ConnectionPool.Process.ReleaseThenTake | library.c:3322-3564 | sockets that disconnect and others that connect: the first gets the stream released first, and so on |
| ConnectionPool.CountedAfter | library.c:3532-3564 | a change to one socket and its pool that keeps that pool's balance keeps all counts |
| ConnectionPool.MarkedRelease | library.c:3532-3564 | a pooled stream carries watches exactly if its server session had some |
| ClusterNodes.KeyInjective | cluster_library.c:796-805 | two nodes share a `host:port` key exactly if they are the same address, colons included |
| ClusterNodes.ClusterNode.AddSlave | cluster_library.c:708-722 | replicas get the indices 1, 2, ... in the order they are attached |
| SlotMap.EntryRoundTrip | cluster_library.c:757-842 | an element of a CLUSTER SLOTS reply, low and high slot, master and replicas, is read as the entry it was sent for |
| SlotMap.ParsedIsElement | cluster_library.c:757-842 | an element that is accepted has that shape, and the entry has its slots and its hosts |
| SlotMap.LastElementOwns | cluster_library.c:830-833 | a slot belongs to the master named by the last element of the reply that spans it |
| SlotMap.OwnerIsTheLast | cluster_library.c:830-833 | a slot belongs to the last entry that covers it |
| SlotMap.OwnerCovers | cluster_library.c:830-833 | a slot has a master exactly if some entry covers it, and that entry names the master |
| SlotMap.MastersNamed | cluster_library.c:801-806 | one node for each address named, and no other |
| SlotMap.FirstIsFirst | cluster_library.c:801-829 | replicas and lowest slot of a master come from the first entry that names it |
| SlotMap.RangesAreEntries | cluster_library.c:835-837 | a master's ranges cover a slot exactly if one of its entries does |
| SlotMap.KeysFit | cluster_library.c:796-799 | an accepted host and port never overflow the key buffer |
| Cluster.RedisCluster.AttachReplicas | cluster_library.c:805-825 | the usable replicas, in order |
| Cluster.RedisCluster.FillSlots | cluster_library.c:830-833 | the slots of the range and no others |
| Cluster.RedisCluster.MapSlots | cluster_library.c:757-842 | succeeds exactly if every entry is valid, and then each slot is served by the host named in the last element of the reply whose range, low to high, spans it; table, nodes, ranges and replicas are those of the entries before the first invalid one |
| Cluster.RedisCluster.MapKeyspace | cluster_library.c:1183-1218 | mapped from the first seed with a valid answer; on failure the table is unchanged if no seed answered and all null otherwise |
| Cluster.RedisCluster.UpdateSlot | cluster_library.c:1542-1614 | exactly the announced slot moves to the announced address, one node is filed at most, and it fails exactly for an unknown node where the owner has no replicas |
| Cluster.RedisCluster.AskingNode | cluster_library.c:858-877 | a node with the announced address, the table untouched |
| Cluster.RedisCluster.SockWrite | cluster_library.c:1467-1527 | who is sent ASKING, who is offered the command first, who took it; when an ASK is honoured; it fails only after every node of the shard or every other filed master was tried |
| Cluster.RedisCluster.FallBack | cluster_library.c:1511-1526 | the node that took the command is the one the request goes on with; without one, every other filed master was tried and nothing changes |
| Cluster.RedisCluster.SendCommand | cluster_library.c:1703-1809 | without a failover the table is the first one with the MOVED targets folded in; each round sends ASKING exactly after ASK, to the announced node, and a command that is not distributed goes there first; when the result is 0; what is left of REDIR_ASK; which redirections took effect; nodes stay filed |
| Cluster.DirectHonours | cluster_library.c:1475-1500 | in any request that is not distributed, every ASK is honoured |
| Cluster.FoldUntouched | cluster_library.c:1542-1614 | slots no MOVED named keep their master |
| Cluster.FoldIsLastMoved | cluster_library.c:1542-1614 | a slot goes to the last MOVED that named it |
| Cluster.RedisCluster.SlotSock | cluster_library.c:225-244 | index 0 is the master, 1..k its replicas, anything else nothing |
| Cluster.RedisCluster.DistWrite | cluster_library.c:1397-1442 | nodes are tried in shuffled order up to the first that takes the payload; `cmd_sock` changes to that one only; it fails after all were tried |
| Cluster.EveryNodeOnce | cluster_library.c:1411-1424 | under every shuffle each replica is tried once, and the master once unless excluded |
| Shuffle.FyShuffle | cluster_library.c:638-649 | the array becomes the specified permutation of itself |
| Shuffle.EveryOrder | cluster_library.c:638-649 | every permutation comes out for some random numbers |
| SlotMap.CacheAgrees | cluster_library.c:1079-1137 | uncontested slots keep their master in a cache under every shuffle |
| SlotMap.CacheDisagrees | cluster_library.c:1079-1137 | a contested slot changes hands under some shuffle |
| SlotMap.CacheAgreesIffUncontested | cluster_library.c:1079-1137 | the exact condition for the cache to agree with the map |
| SlotCache.CacheCreate | cluster_library.c:990-1031 | the masters in their order, with ranges and replicas; slaves are skipped |
| SlotCache.CacheOfMapped | cluster_library.c:990-1031 | the cache of a mapped cluster is what its entries say |
| SlotCache.CloneMaster | cluster_library.c:1048-1061 | a node with the address, ranges and replicas of the cached master |
| SlotCache.InitCache | cluster_library.c:1079-1137 | every cached master is filed with its ranges and replicas, and each slot goes to the last master put back that serves it |
| SlotCache.CacheIsUsable | cluster_library.c:1055-1056 | every master of a mapping has a range to read |
| SlotCache.TableOfMapped | cluster_library.c:829-833 | a mapping of an empty table serves each slot as its entries say |
| SlotCache.MapAndRestore | cluster_library.c:757-1137 | from a valid CLUSTER SLOTS reply with uncontested slots to a cluster restored from the cache: both serve every slot as the last entry that covers it says |
| SlotCache.CacheRoundTrip | cluster_library.c:990-1137 | caching a mapped cluster and rebuilding it gives every slot the same address and every master the same ranges and replicas in order, whatever the shuffle, and files no other node |
| Crc16.TableIsRemainders | crc16.h:46-79 | each of the 256 entries is the remainder of its index |
| Crc16.Crc16 | crc16.h:81-87 | the table-driven loop computes the remainder of long division by x^16 + x^12 + x^5 + 1 |
| Crc16.CrcIsRemainder | crc16.h:81-87 | the same for every byte string, as a law |
| Crc16.CrcLinear | crc16.h:81-87 | checksums of equal lengths add up |
| Crc16.CrcSplits | crc16.h:81-87 | the checksum of a concatenation continues that of its first part |
| Crc16.CrcOfConcatenation | crc16.h:81-87 | it is the sum of the padded first checksum and the second |
| Crc16.CrcAppended | crc16.h:81-87 | a message followed by its checksum has checksum 0 |
| KeyDistribution.HashKey | cluster_library.c:561-582 | the slot of the non-empty tag between the first '{' and the next '}', else of the whole key; the number is given by the next two |
| KeyDistribution.SlotOfPlain | cluster_library.c:561-582 | the slot of a key without '{' is the remainder of its polynomial division, modulo the 16384 slots |
| KeyDistribution.SlotOfTagged | cluster_library.c:561-582 | with a tag it is that of the tag alone; an empty or unclosed one is no tag |
| KeyDistribution.PrefixKeepsTag | library.c:4642-4649 | a prefix without '{' leaves the hashed part alone |
| KeyDistribution.TagsSurviveIff | library.c:4642-4649 | the exact condition on the prefix for keys with one tag to be hashed alike |
| KeyDistribution.SharedTagSharesSlot | cluster_library.c:484-508 | such keys end up in one list |
| KeyDistribution.DistList.Add | cluster_library.c:472-481 | the key is appended, nothing is lost when the buffer doubles |
| KeyDistribution.Distribution.AddKey | cluster_library.c:484-508 | accepted exactly if the slot has a master, and every slot's list is the accepted keys of that slot in call order |
| Lz4Frame.Crc8 | library.c:4097-4112 | the two loops compute the specified register |
| Lz4Frame.Crc8IsRemainder | library.c:4097-4112 | the checksum is the remainder of the input, first byte complemented and eight zeros appended, on long division by x^8 + x^5 + x^4 + 1 |
| Lz4Frame.Crc8SeesOneByte | library.c:4097-4112 | one changed byte always changes the checksum |
| Lz4Frame.FrameLayout | library.c:4169-4211 | a value is framed exactly if it is not empty, its length is an `int` and the codec does not give up; the frame is checksum, length with the lowest byte first, and body |
| Lz4Frame.IntOfIsSigned | library.c:4279-4304 | the length read is the two's complement integer of the four bytes |
| Lz4Frame.FrameRoundTrip | library.c:4169-4207 | a frame is restored exactly |
| Lz4Frame.StoredIsLoaded | library.c:4279-4325 | what any stored value is read back as, by the guards a reader checks |
| Lz4Frame.Misread | library.c:4279-4325 | a value that was not compressed and is read back as another |
| Lz4Frame.HeaderByteChanged | library.c:4279-4325 | a frame with one changed header byte is rejected |
| Redirection.TargetRoundTrip | cluster_library.c:1223-1270 | printed slot, host and port are parsed back, colons in the host included |
| Redirection.ParsedIsLine | cluster_library.c:1223-1270 | only such lines are accepted |
| Redirection.Redirections.SetRedirection | cluster_library.c:1223-1270 | a rejected line leaves every `redir_*` field unchanged, an accepted one sets them to the parsed target; only MOVED counts |
| Redirection.Redirections.Announced | cluster_library.h:21-31 | a line printed by a server sets exactly its target |
| Scan.CursorRoundTrip | library.c:5108-5146 | every 64-bit cursor survives the int-or-string carrier, complete exactly at 0 |
| Scan.StringCursor | library.c:5108-5146 | what a caller's own string cursor stands for: saturated above, modulo 2^64 below zero, over exactly for 0 |
| Scan.Iterator.Scan | redis.c:1622-1720 | which cursors are sent, which page is returned and where the iterator stands, also on failure |
| Scan.Iterator.ScanAll | redis.c:1694-1719 | against any server that answers cursors: the first command asks for 0, each other for the cursor of the answer before, down to 0; the arrays of the whole iteration concatenate to the server's batches, and with SCAN_RETRY none but the last is empty |

## Left out

- PHP itself: argument parsing, reference counts, object handlers, INI settings, TLS contexts, exceptions beyond a
  pending flag. Hash tables are insertion-ordered maps.
- Serializers, LZF, ZSTD and the LZ4 codec are abstract; for LZ4 an inverse pair is assumed. `int` is 32 bits,
  `long` 64 bits, and the length in a frame is little-endian.
- Command builders, RedisArray, Sentinel and the session handler.
- Cluster transactions: `cluster_send_multi`, `cluster_send_exec`, `cluster_abort_exec` and
  `cluster_multi_mbulk_resp`. In `SendCommand` the flag `multi` only ends the request at a redirection.
- `backoff.c`, timeouts as times (a late round is a flag of its hop), and handlers that only dispatch on a mode.
- ReadersAgree: for replies whose lines fit the 1024-byte buffer of the cluster's reader; longer lines are cut
  differently.
- PipelineRoundTrip: each plain handler reads one reply and appends one value; no connection is lost, the pipeline is
  not closed and the socket does not reconnect during the flush.
- SameSession: standalone `Redis` objects; `close()` and `reconnect()` count as the application giving the session up,
  and raw commands are not modelled. A WATCH inside a pipelined MULTI is only refused when the pipeline is flushed; the
  reply loop then stops in the middle of the replies and the session is out of step.
- RunScript: does not call `close()` in the middle of a pipeline; its effect on the queue is stated by
  `Session.RedisSock.Close` alone.
- Session.RedisSock.FlushPipeline: once replies have stayed unread, nothing is said about what later calls make of them,
  except what goes out on which session.
- Session.RedisSock.CheckEof: `dbNumber` is a flag for whether SELECT is sent; which database is selected is not
  modelled, nor is a pooled session with another database. A retry opens a new session here; that a retry may borrow a
  pooled one is part of `ConnectionPool`.
- ConnectionPool.Process.ReplaceLost: AUTH and SELECT during a retry, which in the source may enter the retry again, are
  part of the outcome `Try` of that retry.
- ConnectionPool.Process: pooling is enabled, the limit is constant and the key of a socket is fixed. The process and
  its sockets are maps of values updated in place, not linked objects; `next` numbers stand for stream pointers, so
  reuse of freed memory is not captured.
- Cluster.RedisCluster.MapSlots: slots that no entry covers keep their pointers, which after a remap are nodes no
  longer filed and, in the source, freed. That a remap covers every mapped slot is the assumption under which this
  does no harm.
- Cluster.RedisCluster.SendCommand: after a failover only the invariants and the result are stated, not the table
  (which is that of `MapKeyspace`). A remap that leaves the slot without a master makes the source follow a null
  pointer; here the request ends with -1. For a distributed command, whose first node is random, `SockWrite` says
  for each round what `SendCommand` says only of commands that are not distributed.
- Cluster.RedisCluster.SockWrite: the slot of the command can be one without a master after ASK for an unmapped slot
  and a fallback to the node announced; distributing then makes the source follow a null pointer, and here no node of
  the shard is tried.
- Cluster.RedisCluster.DistWrite: whether a node takes the payload is a flag; liveness and READONLY on the way are
  part of `Session.RedisSock.SendReplicaPayload`.
- SlotCache.InitCache: host and port fit the key buffer, which has HOST_NAME_MAX bytes; the seeds it also fills are not
  modelled.
- Redirection.Redirections: holds the `redir_*` fields on their own; `RedisCluster` receives targets already parsed.
- Scan.Iterator.Scan: arrays are lists of strings; that HSCAN and ZSCAN build keyed arrays is not modelled.
- Scan.Iterator.ScanAll: supposes that the server's cursors reach 0 and that no command fails on the way.
