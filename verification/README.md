# Eggress components in Dafny

A model of the stateful core of Eggress and proofs about it. Each module follows one
component, in the component's own form: objects that change their fields are classes,
loops are loops with invariants, and each method is tied to a specification function
about which the properties are proved.

| module | component |
|---|---|
| `Topology`, `ReleasePlan`, `Publisher` | the resumable crates.io publisher |
| `FramePlugins` | the verify-simple and verify-deflate stream plugins |
| `Rc4`, `Nonces` | RC4 and RC4-MD5, the AEAD nonce counter, EVP key derivation |
| `StreamReader`, `StreamWriter`, `OverlappingDrains` | the asyncio stream adapter |
| `ProxyChain`, `Scheduler` | proxy chains on the wire and server scheduling |
| `CloseWaiter` | the concurrent close coordinator |
| `PacScript` | the proxy auto-configuration script |
| `SocksCodec` | SOCKS addresses, UDP headers and SOCKS4 requests |

`Common` and `Ordering` hold shared types, number formats and the string order.

## How the outside world is modelled

- Library functions are function-valued parameters, so every result holds for all of them:
  CRC-32 and the random paddings, zlib (with its laws as a precondition, shown to be
  satisfiable), MD5, the AEAD primitive, Python's `int`, URI parsing.
- The registry, the transports and the peers answer from scripts. A theorem quantifies over
  all scripts, and a script that ends early stands for a run that stops there. The registry's
  answer `present` is taken to be true. Between any two steps of a publisher run the registry may
  make any number of moves: releases become visible, and others upload releases whose prerequisites
  are visible. `Publisher.OverlappingRunsStayClosed` shows that overlapping runs of the publisher are
  such others to each other.
- Concurrency on an event loop is a transition system whose steps are the stretches of code
  between await points (`CloseWaiter`, `OverlappingDrains`), or writes and closes by other tasks at each
  await (`StreamWriter`).
- Bytes are integers below 256; a Dafny `char` is a Unicode scalar value.
- RC4-MD5 is documented as RC4 whose first keystream bytes are combined with MD5(key + IV); the code
  keys RC4 with MD5(key + IV), and the model follows the code.

## Where a promise does not hold

Each of these has the exact condition under which the promise holds; every input outside it fails.

- A drain handing over what was buffered: `StreamWriter.DrainSendsAll` (if and only if
  the transport's next calls cover the buffer), `StreamWriter.DrainForgets`. A failed drain forgets the rest.
- `write_eof` flushing all buffered data before the EOF: `StreamWriter.EofLeavesNothing` (if and only if no
  other task wrote during the calls of its flush), `StreamWriter.EofStrands`.
- Bytes going out in the order in which they were written: `OverlappingDrains.InOrderExactly` (if and only if no
  drain sends after a younger one has) and `OverlappingDrains.OrderAtRisk` (from which states the order can
  still be broken), `OverlappingDrains.BytesOvertake`. `OverlappingDrains.SerialKeepsOrder`: drains that do not
  overlap keep it.
- Nobody returning from `close` or `wait_closed` before the cleanup is over: `CloseWaiter.NobodyReturnsEarly`
  and `CloseWaiter.OvertakesIffMarked` (a waiter can overtake if and only if another party marked the waiter
  while the cleanup was running), `CloseWaiter.MarkOvertakesCleanup`.
- Reads depending only on the bytes that are left: `StreamReader.BytesDecide` (except for `read(n)` with n
  below -1 on a stream without bytes), `StreamReader.NegativeReadSeesEof`. Together with whether the end has
  been seen, the bytes decide every read.
- Round robin picking the least recently used server: `Scheduler.LastUseExactly` (if and only if no server is
  listed twice, or only one is listed), `Scheduler.RepetitionBreaksLastUse`. It always picks by the least
  recently used entry of the list, `Scheduler.PicksLeastRecentEntry`.
- `decrypt` inverting `encrypt`: `Nonces.DecryptInverts` (if and only if the nonce set has twelve bytes).
- SOCKS addresses surviving a round trip: `SocksCodec.UdpRoundTrip` and `SocksCodec.Socks4RoundTrip` give the
  exact set of hosts; `SocksCodec.LeadingZeroIsLost` shows a family outside it.
- Cutting a `__`-list apart again: `ProxyChain.SplitJoin` (if and only if no URI contains the separator and
  none but the last ends in an underscore).

## Model

| member | source | states |
|---|---|---|
| Topology.TopologicalOrder | scripts/publish-crates.py:165-182 | succeeds if and only if a ranking of the graph exists; the order lists every crate once and after its prerequisites, round by round; a failure names, sorted, the largest set whose members all wait for each other or for a non-crate |
| Topology.OrderIsDetermined | scripts/publish-crates.py:165-182 | the sort is deterministic: any two orders in rounds of one graph are equal |
| Topology.StuckNotRankable | scripts/publish-crates.py:171-176 | a nonempty stuck set rules out every ranking |
| ReleasePlan.InternalEdges | scripts/publish-crates.py:124-162 | a crate has an edge to exactly those other publishable crates on which a package of its name has a normal or build dependency; fails if and only if one of these has an empty or star requirement, and names such a one |
| ReleasePlan.ValidateVersions | scripts/publish-crates.py:185-214 | accepts exactly the workspaces in which every package has the version and every internal normal or build dependency is pinned to it |
| ReleasePlan.ValidatedIsPinned | scripts/publish-crates.py:185-214 | after version validation the unpinned-edge check can no longer fire |
| ReleasePlan.ComputePlan | scripts/publish-crates.py:383-394 | a plan exists if and only if there are a version and packages, every pin is exact and the graph read off the metadata can be ranked; every crate stands in it behind each crate it has a normal or build dependency on; which failure is reported when, and every member of a reported cycle has a prerequisite among them |
| Publisher.StaysClosed | scripts/publish-crates.py:468-498 | a registry that starts dependency-closed stays so under every history in which commands follow observed prerequisites, including late acceptances and what others upload |
| Publisher.OrderedMeans | scripts/publish-crates.py:483-498 | in an ordered run, all prerequisites were observed present before each publish command |
| Publisher.ClosedAtEveryMoment | scripts/publish-crates.py:468-498 | and so at every prefix of the history, wherever a run stopped |
| Publisher.ViewIsHonest | scripts/publish-crates.py:468-498 | in any interleaving of runs, what one run sees of the others is a registry as `Registry.Execute` is proved against |
| Publisher.RunsOrderHistory | scripts/publish-crates.py:468-498 | if every run orders its commands by what it saw itself, the interleaving does |
| Publisher.OverlappingRunsStayClosed | scripts/publish-crates.py:468-498 | under any interleaving of any number of runs, each ordering its commands by its own observations, the registry is closed at every moment, and each run met an honest registry in the very state it is in |
| Publisher.OverlappingExecutionsStayClosed | scripts/publish-crates.py:468-498 | any number of executions, each with the guarantee of `Registry.Execute` and interleaved in any way, keep the registry closed at every moment, and every completed one has its releases visible at the end |
| Publisher.PresentIsVisible | scripts/publish-crates.py:240-270 | what was observed present is still visible later |
| Publisher.Registry.WaitForVisibility | scripts/publish-crates.py:273-287 | true exactly when an answer was `present`, false only after thirteen other answers and none of them; issues no command; one answer of a cooperating registry is enough |
| Publisher.Registry.PublishOne | scripts/publish-crates.py:307-366 | returns normally exactly when it observed the release present; at most five commands, all for this release, each but the first after a retryable report; which failure is raised when, and never after the release was observed; interrupted only when cut off; succeeds in three exchanges with a cooperating registry |
| Publisher.Registry.Execute | scripts/publish-crates.py:483-498 | for every registry behaviour and all uploads by others, commands respect the graph, go only to releases observed missing and never observed present, at most five each; completion means every crate is visible; any other end is at one crate, after observing exactly those before it, with a reason; a cooperating registry lets the run complete |
| Publisher.CmdExecute | scripts/publish-crates.py:468-498 | planning and running together: fails if and only if there is no plan, and then touches nothing; otherwise a run of the planned order with all that `Registry.Execute` promises, in which a command for a crate comes after all its normal and build dependencies in the workspace were seen published; a completed run leaves every publishable crate visible |
| Publisher.Campaign | scripts/publish-crates.py:22-27 | for any sequence of runs, each stopped anywhere, what happened is one segment for each run, made of the exchanges chosen for it and with all that run promises; what a completed run released is visible at the end; the registry is dependency-closed at every moment |
| FramePlugins.Decoder.Decrypt | python/pproxy/plugin.py:91-107 | one call leaves exactly the undecoded tail; a call that raises delivers nothing and keeps everything from the bad frame on |
| FramePlugins.SimpleHead | python/pproxy/plugin.py:94-107 | verify-simple waits exactly until the announced length has arrived, yields a chunk exactly when the piece is its length, a counted padding, the chunk and the inverted CRC-32 of all that in little-endian order, and raises otherwise |
| FramePlugins.DeflateHead | python/pproxy/plugin.py:127-136 | verify-deflate waits likewise, and yields exactly what zlib makes of the piece behind the header 78 9c |
| FramePlugins.DrainRest | python/pproxy/plugin.py:94-107 | a call raises exactly when what is left starts with a bad frame, and otherwise leaves nothing decodable |
| FramePlugins.DrainSplit | python/pproxy/plugin.py:91-107 | decoding x ++ y at once raises, leaves and yields exactly what decoding x and then y does |
| FramePlugins.Fragmentation | python/pproxy/plugin.py:91-107 | every chunking of the same bytes raises exactly when one call would; otherwise output and residual buffer agree, and before a raise the output is a prefix |
| FramePlugins.Receive | python/pproxy/plugin.py:127-136 | a receiver passing chunks to the decoder realises that sequence of calls |
| FramePlugins.BadIsSticky | python/pproxy/plugin.py:98-104 | a bad frame at the head raises on every later call and never yields a byte |
| FramePlugins.ShortHeaderIsSticky | python/pproxy/plugin.py:94-97 | a header below the minimum stalls the decoder for good, without raising |
| FramePlugins.DrainAccounts | python/pproxy/plugin.py:94-107 | the input is exactly the consumed frames followed by the residual buffer |
| FramePlugins.DrainYieldsPayloads | python/pproxy/plugin.py:94-107 | the output is the payloads of those frames, in order |
| FramePlugins.Frames | python/pproxy/plugin.py:94-107 | every consumed piece is one complete frame by itself |
| FramePlugins.EncodeFrame | python/pproxy/plugin.py:113-116 | the length field is the length of the frame and never overflows two bytes |
| FramePlugins.FrameDecodes | python/pproxy/plugin.py:138-145 | one frame of either plugin decodes to its chunk; dropping and restoring the zlib header loses nothing |
| FramePlugins.Encrypt | python/pproxy/plugin.py:109-117 | the data is cut into pieces of 8100 or 32700 bytes and a last one, and each becomes one frame in the layout of its plugin, in order |
| FramePlugins.RoundTrip | python/pproxy/plugin.py:87-148 | for all messages, paddings and fragmentations of the wire, the decoder never raises, yields the messages and ends with an empty buffer |
| FramePlugins.NeverAhead | python/pproxy/plugin.py:87-148 | while the wire is still arriving, the output is a prefix of what was sent |
| FramePlugins.LawfulIsPossible | python/pproxy/plugin.py:134-141 | the assumptions made on zlib can be met |
| Rc4.Scheduled | python/eggress/cipher.py:26-30 | S is a permutation of 0..255 after every round of key scheduling |
| Rc4.After | python/eggress/cipher.py:34-37 | and after every keystream step |
| Rc4.CryptAt | python/eggress/cipher.py:34-38 | byte k of the output is byte k of the data combined with byte k of a keystream that no data influences |
| Rc4.XorIsBitwise | python/eggress/cipher.py:38-38 | the combination is exclusive or, bit by bit |
| Rc4.BitsDetermine | python/eggress/cipher.py:38-38 | and its bits determine a byte |
| Rc4.CryptIsRc4 | python/eggress/cipher.py:21-39 | the tables, indices and output of the model obey the equations of RC4: 256 rounds of scheduling with key[i mod len(key)], then one exchange and one keystream byte for each byte of data |
| Rc4.KeyEnters | python/eggress/cipher.py:26-30 | every byte of a key can be read off its schedule |
| Rc4.ScheduleDeterminesKey | python/eggress/cipher.py:26-30 | keys of one length, at most 256, with the same schedule are equal |
| Rc4.CryptSplit | python/eggress/cipher.py:477-492 | processing a message in two pieces is processing it whole |
| Rc4.ChunkingIrrelevant | python/eggress/cipher.py:477-492 | the concatenated outputs of any chunking are the one-shot encryption |
| Rc4.CryptTwice | python/eggress/cipher.py:494-498 | the same keystream a second time gives the message back |
| Rc4.DecryptsUnderAnyChunking | python/eggress/cipher.py:494-498 | a fresh cipher with the same key decrypts under any other chunking |
| Rc4.KeySetup | python/eggress/cipher.py:466-475 | the in-place scheduling loop computes the scheduled table |
| Rc4.Generate | python/eggress/cipher.py:481-492 | the in-place keystream loop computes output and final state |
| Rc4.OneShot | python/eggress/cipher.py:21-39 | the ciphertext that the equations of RC4 give for the key and the data; an empty key is an error |
| Rc4.Cipher.Process | python/eggress/cipher.py:477-492 | each call continues the keystream where the last one stopped; scheduling happens on first use |
| Rc4.Cipher.SetupIv | python/eggress/cipher.py:96-102 | stores the given IV or sixteen random bytes; plain RC4 ignores it, and for RC4-MD5 it has no effect once the keystream has started |
| Rc4.ProcessAll | python/eggress/cipher.py:533-549 | successive calls on a fresh object are one RC4 encryption, under the key itself or, for RC4-MD5, under the MD5 digest of the key and the IV, or of the key and sixteen zeros without one |
| Nonces.IncrementNonce | python/eggress/cipher.py:42-50 | adds one to the little-endian counter in the first eight bytes: bytes 255 before the first other one become 0, that one grows by one, the rest stays; fails exactly when the first eight bytes, or all of a shorter nonce, are 255 |
| Nonces.Aead.SetupNonce | python/eggress/cipher.py:254-259 | the given nonce, of any length, or twelve random bytes |
| Nonces.Aead.SealNext | python/eggress/cipher.py:289-293 | succeeds exactly when the primitive does and the counter has room, and then advances the nonce by one; a failed call changes nothing and says why |
| Nonces.Aead.Encrypt | python/eggress/cipher.py:278-294 | nonce followed by ciphertext, under the nonce that was current |
| Nonces.Aead.EncryptAndDigest | python/eggress/cipher.py:315-332 | ciphertext and tag together are the sealed text, the tag its last sixteen bytes |
| Nonces.Session | python/eggress/cipher.py:278-332 | in any mix of calls, each is made under the start nonce advanced by the successful calls before it, fails exactly when the package is missing, the primitive refuses or the counter is used up, and otherwise returns the text sealed under that nonce; a nonce that sealed a message is never current again; with a primitive that never refuses exactly the calls within the headroom succeed |
| Nonces.NoncesDistinct | python/eggress/cipher.py:290-292 | the nonce of a successful call differs from that of every later call |
| Nonces.HeadroomUsed | python/eggress/cipher.py:290-292 | if calls succeed whenever there is room, the first ones do, as many as there is room for |
| Nonces.CountedUnique | python/eggress/cipher.py:42-50 | the nonce k steps after a start is one particular nonce |
| Nonces.DecryptInverts | python/eggress/cipher.py:296-307 | whatever its own counter, a receiver gets the sealed message back if and only if the nonce it was sealed under has twelve bytes |
| Nonces.DecryptAnswers | python/eggress/cipher.py:296-307 | less than twelve bytes are too short; otherwise the primitive decides on the first twelve and the rest |
| Nonces.AeadIsPossible | python/eggress/cipher.py:278-307 | the laws assumed of the primitive can be met |
| Nonces.EvpBytesToKey | python/eggress/cipher.py:53-61 | key ++ iv are the first bytes of a chain of MD5 digests, the first of the password and each later one of its predecessor and the password; so the key does not depend on the IV length; both have the requested length |
| Nonces.DeriveTwice | python/eggress/cipher.py:53-61 | of two keys derived from one password the shorter is a prefix of the longer, whatever the IV lengths, and both are the bytes of that password's digest chain |
| StreamReader.Find | python/eggress/_asyncio_adapter.py:134-135 | the first occurrence, or none |
| StreamReader.FindInPrefix | python/eggress/_asyncio_adapter.py:133-142 | an occurrence found in what has arrived is the first in the whole stream |
| StreamReader.Reader.FillBuffer | python/eggress/_asyncio_adapter.py:55-69 | filling never changes what can be read, stops with enough bytes or at the end, and sees the end exactly when there are fewer bytes than asked for |
| StreamReader.Reader.ReadUpTo | python/eggress/_asyncio_adapter.py:75-102 | the first n bytes of the logical stream, or all of it; a length below -1 is refused, except at an end that has been seen |
| StreamReader.Reader.ReadExact | python/eggress/_asyncio_adapter.py:104-122 | exactly n bytes, or all that is left inside the error |
| StreamReader.Reader.ReadUpToSeparator | python/eggress/_asyncio_adapter.py:124-144 | through the first separator of the logical stream; without one the error carries the stream, which stays readable |
| StreamReader.Reader.ReadOneLine | python/eggress/_asyncio_adapter.py:146-166 | through the first newline of the logical stream, or all of it |
| StreamReader.Reader.Rollback | python/eggress/_asyncio_adapter.py:188-190 | the data comes first in the logical stream again |
| StreamReader.Reader.Perform | python/eggress/_asyncio_adapter.py:75-166 | for every call, result and remaining stream are functions of the bytes left and of whether the end has been seen, never of the chunks |
| StreamReader.ServeConserves | python/eggress/_asyncio_adapter.py:75-166 | what an operation takes and what is left are the stream |
| StreamReader.RunConserves | python/eggress/_asyncio_adapter.py:75-166 | over any run, bytes handed out (those inside a failed readexactly included) and the remainder are the original stream |
| StreamReader.UntilIsShortest | python/eggress/_asyncio_adapter.py:124-144 | readuntil returns the shortest prefix ending in the separator, and fails exactly when there is none |
| StreamReader.ServeKeepsPromise | python/eggress/_asyncio_adapter.py:75-166 | read(n) takes n bytes or all there are, read(-1) all, readexactly(n) exactly n or fails with all there are, readuntil the shortest prefix ending in the separator, readline the shortest ending in a newline, or everything; each leaves the rest, and has seen the end exactly when it needed more than there was |
| StreamReader.IncomingIsChunks | python/eggress/_asyncio_adapter.py:55-69 | what can arrive is the transport's chunks up to the first empty one or exception |
| StreamReader.Run | python/eggress/_asyncio_adapter.py:46-166 | any run of reads over any chunking has the results of the whole stream, keeps the promise of each operation and conserves the stream |
| StreamReader.ReadAndRollback | python/eggress/_asyncio_adapter.py:188-190 | rolling back what a read took restores the logical stream |
| StreamReader.BytesDecide | python/eggress/_asyncio_adapter.py:81-92 | the bytes left decide the result by themselves except for a read below -1 when there are none |
| StreamReader.NegativeReadSeesEof | python/eggress/_asyncio_adapter.py:81-92 | two runs on a transport at its end: such a read is refused when it comes first and answered after another read has seen the end |
| StreamWriter.Writer.Append | python/eggress/_asyncio_adapter.py:248-254 | appended, or refused after half-close or close |
| StreamWriter.WriteAnswers | python/eggress/_asyncio_adapter.py:248-254 | accepted exactly before half-close and close |
| StreamWriter.Writer.SendAll | python/eggress/_asyncio_adapter.py:271-281 | the loop of partial writes, with what other tasks write and close during each call, is the recursive run of offers that ends when all is taken or a call fails |
| StreamWriter.SendShape | python/eggress/_asyncio_adapter.py:271-281 | of the data exactly the bytes the calls took are sent, in order; what was written meanwhile, up to a close by another task, is appended to the buffer |
| StreamWriter.TakenIsSum | python/eggress/_asyncio_adapter.py:271-281 | the calls take as many bytes as the counts up to the first failure add up to, and not more than there are |
| StreamWriter.ToldIsWrites | python/eggress/_asyncio_adapter.py:248-254 | what is accepted of other tasks during a call is all they write before one of them closes |
| StreamWriter.StartsOpen | python/eggress/_asyncio_adapter.py:236-242 | a fresh writer is open and has sent nothing |
| StreamWriter.Writer.Flush | python/eggress/_asyncio_adapter.py:261-282 | a drain: the offers, then the flush, with the outcome of the call that ended it |
| StreamWriter.DrainShape | python/eggress/_asyncio_adapter.py:261-282 | after a drain, sent are the bytes taken, buffered is exactly what other tasks wrote during its calls before one of them closed the writer, and it is closed exactly if one did |
| StreamWriter.DrainSendsAll | python/eggress/_asyncio_adapter.py:261-282 | everything buffered is handed over if and only if the next calls of the transport cover it, and exactly then nothing is lost |
| StreamWriter.DrainAnswers | python/eggress/_asyncio_adapter.py:261-282 | a drain completes exactly when there is nothing to send, or the transport covers the buffer and the flush after it returns; no progress is reported only after a call that took nothing |
| StreamWriter.DrainForgets | python/eggress/_asyncio_adapter.py:261-282 | an input on which a drain that raises forgets a byte |
| StreamWriter.Writer.HalfClose | python/eggress/_asyncio_adapter.py:288-298 | a drain, then the flag, then the half-close call; idempotent; nothing is half-closed when the drain fails |
| StreamWriter.EofLeavesNothing | python/eggress/_asyncio_adapter.py:288-298 | everything buffered before is sent; the buffer is empty afterwards if and only if no other task wrote during the flush |
| StreamWriter.EofAnswers | python/eggress/_asyncio_adapter.py:288-298 | a second half-close does nothing, a failed drain is passed on and sets no flag, and otherwise the transport is half-closed exactly when its call returns |
| StreamWriter.EofStrands | python/eggress/_asyncio_adapter.py:288-298 | an input on which a byte stays behind and is sent after the EOF |
| StreamWriter.StepConserves | python/eggress/_asyncio_adapter.py:248-308 | for every call, what was there and what is accepted is what is sent, lost and buffered, in this order |
| StreamWriter.RunConserves | python/eggress/_asyncio_adapter.py:248-308 | over any sequence of calls from any state, sent and buffered bytes are the earlier ones followed by the accepted ones if and only if no flush lost a byte |
| StreamWriter.LosslessExactly | python/eggress/_asyncio_adapter.py:261-298 | no flush of a run loses a byte if and only if at each of them the next calls of the transport cover the buffer |
| StreamWriter.AcceptedIsSentAndBuffered | python/eggress/_asyncio_adapter.py:248-308 | in particular from a fresh writer |
| StreamWriter.ShutIsFinal | python/eggress/_asyncio_adapter.py:248-254 | a writer that refuses writes refuses every later one and accepts no byte in any way |
| StreamWriter.NothingAfterShut | python/eggress/_asyncio_adapter.py:288-308 | after a close, by a call of the run or by another task during a flush, or a completed half-close, at any point of any run, every later write is refused and the accepted bytes stay the same |
| StreamWriter.Run | python/eggress/_asyncio_adapter.py:248-308 | any sequence of calls on one writer has those replies and ends in that state |
| OverlappingDrains.Reachable | python/eggress/_asyncio_adapter.py:261-282 | in every schedule of overlapping drains, they hold separate stretches of the accepted bytes, older drains earlier ones |
| OverlappingDrains.BytesAccountedFor | python/eggress/_asyncio_adapter.py:261-282 | in every schedule, each byte that has left the buffer is on the wire once, lost by a failed drain, or in one drain's hand |
| OverlappingDrains.DrainAlone | python/eggress/_asyncio_adapter.py:261-282 | a drain that runs by itself sends, loses and keeps what `StreamWriter` says of it |
| OverlappingDrains.BeginTakesBuffer | python/eggress/_asyncio_adapter.py:263-266 | a drain takes everything in the buffer |
| OverlappingDrains.InOrderExactly | python/eggress/_asyncio_adapter.py:271-281 | bytes go out in the order in which they were accepted if and only if no drain sends after a younger one has |
| OverlappingDrains.SerialKeepsOrder | python/eggress/_asyncio_adapter.py:261-282 | drains that do not overlap keep the order |
| OverlappingDrains.OrderAtRisk | python/eggress/_asyncio_adapter.py:271-281 | from a reachable state the drains in progress can put bytes out of order if and only if there are two of them, or one older than a drain that has sent, or the order is broken already |
| OverlappingDrains.WireIsPrefix | python/eggress/_asyncio_adapter.py:261-282 | when the turns were kept, nothing was lost and no drain is in progress, the wire carries exactly the accepted bytes that left the buffer |
| OverlappingDrains.BytesOvertake | python/eggress/_asyncio_adapter.py:261-282 | an input on which a byte accepted later is sent earlier |
| ProxyChain.ProxiesByUri | python/pproxy/server.py:154-158 | the chain is the right fold of the URIs; refused if and only if a URI is |
| ProxyChain.SplitJoin | python/pproxy/server.py:156-156 | a joined list is cut back into its URIs exactly when they can be told apart |
| ProxyChain.SplitSeparable | python/pproxy/server.py:156-156 | the pieces of any text join back to it and can be told apart |
| ProxyChain.PrepareConnection | python/eggress/_pproxy_proxy.py:545-583 | the recursion sends the chain's handshakes in order until one fails |
| ProxyChain.CredentialOf | python/eggress/_pproxy_proxy.py:562-572 | the first user is the user name without colon, a colon and the password; no user or an empty one means no credential |
| ProxyChain.AttemptedIsPrefix | python/eggress/_pproxy_proxy.py:573-583 | what is sent is a prefix of the full exchange, ending with the failing handshake |
| ProxyChain.TcpConnect | python/eggress/_pproxy_proxy.py:513-543 | refuses exactly a hop without a host or with no port or port 0, without dialling; dials the host and port of the first hop; closes after a failed handshake |
| ProxyChain.ChainHandshakes | python/eggress/_pproxy_proxy.py:558-579 | n hops make n handshakes: handshake i goes over hop i with hop i's credential to hop i + 1, the last to the target |
| ProxyChain.ChainRelays | python/eggress/_pproxy_proxy.py:558-579 | handshake i is in the first protocol of hop i, with the part of its first user before the first colon and the part behind it, for the host and port of hop i + 1 or at the end of the chain for the target |
| ProxyChain.DirectEndsTheChain | python/pproxy/server.py:122-123 | a direct hop ends the chain and drops everything after it |
| ProxyChain.ConnectThrough | python/eggress/_pproxy_proxy.py:513-583 | the whole wire trace of a `__`-list: the host and port dialled, and every request with its protocol, credential and destination |
| Scheduler.Pool.Schedule | python/pproxy/server.py:70-85 | each algorithm's choice among the eligible servers; only `rr` changes the list; any other name is an error |
| Scheduler.RunPermutes | python/pproxy/server.py:77-79 | the list is a permutation of the original after any run |
| Scheduler.PickedWithin | python/pproxy/server.py:74-80 | a server at position p that stays eligible is picked within p + 1 calls |
| Scheduler.BoundedWaiting | python/pproxy/server.py:74-80 | a server eligible on every call is picked in any window as long as the list, whatever the others do |
| Scheduler.PicksLeastRecent | python/pproxy/server.py:74-80 | without repetitions in the list, at every call of every run the pick is the least recently used eligible server |
| Scheduler.PicksLeastRecentEntry | python/pproxy/server.py:74-80 | for every list, the pick is the server of the least recently used entry whose server is eligible, and the entries stay sorted by last use |
| Scheduler.EntryRun | python/pproxy/server.py:74-80 | a run on a list with repetitions is the run on its entries |
| Scheduler.LastUseExactly | python/pproxy/server.py:74-80 | every run picks servers by last use if and only if none is listed twice or only one is listed |
| Scheduler.RepetitionBreaksLastUse | python/pproxy/server.py:74-80 | the run that shows it: a server listed twice is picked twice in a row although another was used earlier |
| Scheduler.RunKeepsLastUse | python/pproxy/server.py:77-79 | a list without repetitions stays sorted by last use |
| Scheduler.RunRoundRobin | python/pproxy/server.py:70-80 | a run of `rr` calls on one pool realises those picks |
| CloseWaiter.Reachable | python/eggress/_asyncio.py:238-322 | every reachable state has the invariant |
| CloseWaiter.CleanupAtMostOnce | python/eggress/_asyncio.py:286-309 | cleanup starts at most once in every interleaving |
| CloseWaiter.ClosedInCleanup | python/eggress/_asyncio.py:243-258 | while a cleanup runs, the waiter is closed if and only if another party has marked it during that cleanup |
| CloseWaiter.NobodyReturnsEarly | python/eggress/_asyncio.py:295-322 | unless another party marked the waiter while the cleanup was running, no `wait_closed` and no `close` comes back before cleanup has returned or raised, and none starts later |
| CloseWaiter.OvertakesIffMarked | python/eggress/_asyncio.py:295-322 | while a cleanup runs, a pending waiter can come back before its end without a further mark if and only if such a mark has arrived |
| CloseWaiter.OutcomeIsOfClosingStep | python/eggress/_asyncio.py:238-322 | the outcome is that of the step that closed the waiter: the exception its cleanup raised, none if it returned, or what another party said; every completed waiter has observed exactly that |
| CloseWaiter.OutcomeIsFinal | python/eggress/_asyncio.py:243-270 | the recorded result or exception never changes once closed, nor what a waiter observed |
| CloseWaiter.WaitersAgree | python/eggress/_asyncio.py:313-322 | all waiters that complete observe the same outcome |
| CloseWaiter.WaiterCanProceed | python/eggress/_asyncio.py:249-258 | no wake-up is lost: a pending waiter completes once the event fires and it is scheduled |
| CloseWaiter.CloserCanProceed | python/eggress/_asyncio.py:286-302 | and so does a closer that waits for the cleanup of another or has yet to start |
| CloseWaiter.LateWaiterReturns | python/eggress/_asyncio.py:313-322 | once the event is set, `wait_closed` comes back without waiting |
| CloseWaiter.CancelEndsOne | python/eggress/_asyncio.py:286-322 | cancelling a pending closer or waiter ends that one and touches nothing else |
| CloseWaiter.MarkOvertakesCleanup | python/eggress/_asyncio.py:238-258 | from every reachable state with a cleanup running and nothing recorded, one mark by another party lets any pending waiter return before the cleanup is over |
| CloseWaiter.CleanupCanRun | python/eggress/_asyncio.py:286-309 | such a state is one `close` away |
| PacScript.JsEscape | crates/eggress-admin/src/pac.rs:3-24 | the escaping loop computes the escaped string |
| PacScript.EscapedReads | crates/eggress-admin/src/pac.rs:3-24 | by the rules for JavaScript string literals, reading an escaped string stops exactly at the closing quote and yields the string, under the rules before and after ES2019 |
| PacScript.EscapedIsPrintable | crates/eggress-admin/src/pac.rs:3-24 | no control character and no line or paragraph separator gets into the script |
| PacScript.ShortEscapes | crates/eggress-admin/src/pac.rs:7-11 | the five escapes of two characters |
| PacScript.GeneratePac | crates/eggress-admin/src/pac.rs:26-87 | the generator writes the script |
| PacScript.ItemsRead | crates/eggress-admin/src/pac.rs:35-45 | an emitted array reads back to exactly its items |
| PacScript.PacReadsBack | crates/eggress-admin/src/pac.rs:26-87 | every generated script reads back to a loop over the sorted hosts, a loop over the sorted suffixes, each with its tests, and the directive |
| PacScript.PacDecides | crates/eggress-admin/src/pac.rs:26-87 | run on any host, the script answers DIRECT exactly for a plain name, a direct host or a name matching `*.` and one, and a name matching `*.` and a direct suffix, and otherwise the proxy directive |
| PacScript.ScriptDeterminesConfig | crates/eggress-admin/src/pac.rs:26-87 | configurations with the same script have the same hosts, suffixes and directive |
| PacScript.UnitsInjective | crates/eggress-admin/src/pac.rs:3-24 | a string is determined by its code units |
| Ordering.SortedStrings | crates/eggress-admin/src/pac.rs:32-33 | sorted, and a permutation of the input |
| Ordering.BeforeMeans | crates/eggress-admin/src/pac.rs:32-33 | the order compares at the first difference, where the shorter string or the smaller code point comes first |
| SocksCodec.DecodeEncoded | python/eggress/protocol.py:86-128 | decoding consumes exactly the encoded address and recovers port and canonical host |
| SocksCodec.DecodeExactly | python/eggress/protocol.py:86-128 | decoding succeeds exactly on data that starts with an IPv4, name or IPv6 address in the layout of section 5 of RFC 1928, and yields its host, its port and the bytes behind it |
| SocksCodec.EncodeExactly | python/eggress/protocol.py:889-908 | encoding succeeds exactly for a 16-bit port and a host that is four numbers or an ASCII name of at most 255 bytes |
| SocksCodec.QuadExactly | python/eggress/protocol.py:891-896 | a host is taken for an IPv4 address exactly if it is four dot-free parts that `int` reads as its bytes |
| SocksCodec.SplitJoinDots | python/eggress/protocol.py:892-892 | the parts between dots join back to the host |
| SocksCodec.Ipv6Layout | python/eggress/protocol.py:113-119 | two hexadecimal digits for each byte and a colon after every second one |
| SocksCodec.AddressLayout | python/eggress/protocol.py:893-908 | type byte, address bytes and the port in network order, as section 5 of RFC 1928 lays them out |
| SocksCodec.DecimalDenotes | python/eggress/protocol.py:102-102 | each part of a dotted quad denotes its byte and has no leading zero |
| SocksCodec.PrefixFree | python/eggress/protocol.py:889-908 | no encoded address is a proper prefix of another |
| SocksCodec.UdpRoundTrip | python/eggress/protocol.py:874-908 | a datagram survives packing and unpacking if and only if the host is a canonical quad or an ASCII name of at most 255 bytes that is not four numbers |
| SocksCodec.UdpLayout | python/eggress/protocol.py:874-880 | three zero bytes, the address and the data |
| SocksCodec.UdpUnpackExactly | python/eggress/protocol.py:882-889 | unpacking ignores the first three bytes and succeeds exactly when an address follows |
| SocksCodec.QuadRoundTrip | python/eggress/protocol.py:891-896 | in particular for every IPv4 address |
| SocksCodec.LeadingZeroIsLost | python/eggress/protocol.py:893-896 | a quad with a leading zero comes back without it |
| SocksCodec.Ipv6TextInjective | python/eggress/protocol.py:117-122 | the text of an IPv6 address determines its bytes |
| SocksCodec.Socks4RoundTrip | python/eggress/protocol.py:555-627 | `accept` recovers host and port if and only if the host is a canonical quad other than 0.0.0.x with x nonzero, or a NUL-free ASCII name whose request fits one read |
| SocksCodec.Socks4Layout | python/eggress/protocol.py:602-625 | version 4, command 1, port, address or marker, user id, and for a name the name, each of the last two ended by NUL; fails exactly for a bad port or a name outside ASCII |
| SocksCodec.AcceptExactly | python/eggress/protocol.py:555-592 | `accept` succeeds exactly on at least eight bytes with an address other than 0.0.0.x, x nonzero, or on such a marker followed by a user id and an ASCII name, each ended by NUL |

## Left out

- The Rust crates other than the PAC generator: routing, relays, the protocol servers, configuration and the CLI.
- Publisher: uploads of the workspace's crates by anything that does not wait for their prerequisites, the HTTP exchange behind a query, backoff delays and sleeps, preflight and clean-tree checks, package discovery, the dry run and the text matching that classifies cargo's output, whose verdicts are inputs.
- StreamReader: the timeouts of `read_w`, `read_n` and `read_until`, and concurrent reads on one reader.
- StreamWriter, OverlappingDrains: half-closing while another drain is in progress, and `wait_closed`, which only delegates to the transport.
- CloseWaiter: marks from other threads; the lock is not modelled because steps on one loop do not interleave.
- ProxyChain: parsing of a single URI, ciphers and TLS on a hop, text decoding of credentials, and the h2, ssh, quic, h3 and backward proxies.
- Scheduler: the randomness of `rc`, which only has its choice constrained.
- Rc4, Nonces: the other ciphers, packet framing, and `decrypt_and_verify`, which never advances its nonce.
- SocksCodec: the SOCKS5 TCP handshake, whose success reply does not match what the client expects; the replies of SOCKS4; the bytes kept between `guess` and `accept`; user ids containing NUL.
- FramePlugins: the http_simple and tls1.2_ticket_auth prefaces.
- PacScript: what the browser does with the script beyond its string literals.
- `http_channel`, authentication tables, logging, system proxy settings and the probe scripts.
