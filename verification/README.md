# Verified models of the C exercises

Dafny models of the most intricate programs of the repository, with proofs of what they
guarantee. `dafny verify dfyconfig.toml` checks everything.

| part | modules | what is proved |
|---|---|---|
| TFTP download | `TftpPackets`, `TftpDownload`, `TftpSystem`, `TftpProgress`, `TftpFairness` | client, server and a lossy, duplicating, reordering network: safety in every run, the 16-bit bound, completion under fairness, the exact states from which success is reachable |
| TFTP upload, unfiltered download | `TftpUpload`, `TftpUploadNetwork`, `TftpFifoDownload` | the upload against an RFC 1350 receiver, on a lock-step link and on any network, with the exact bound up to which success can be trusted; when the download without a filter is exact |
| chat server | `ChatServer`, `ChatServerLoop`, `ChatFds`, `ChatLock`, `ChatRegistry`, `ChatLockedServer`, `ChatMessages` | descriptor handoff and membership for any number of threads; the shared descriptor set, why its calls are atomic, when it agrees with the connections, and broadcasts from snapshots of it; what is sent for each line |
| semaphores | `ForkCounter`, `SharedMessage`, `SemaphoreRing`, `TicketWindows` | all interleavings of each protocol |
| contact book | `ContactOrder`, `ContactBook` | the heap list refines a sorted sequence; save and load |
| framebuffer | `Framebuffer`, `Rainbow`, `GifInterlace`, `GifDisplay` | clipped drawing byte by byte, the row-copying fast form, the gradient, interlaced frames |

`Basics`, `Arithmetic` and `Runs` hold what the parts share.

How the sources are rendered:

- A sequential loop is a method with the source's own loop and, where it works in place, its
  own array or class. The method is proved equal to a specification function, and the theorems
  are lemmas about that function.
- A concurrent program is a state machine: an `Enabled` predicate and a `Step` function over the
  atomic accesses, so that loads and stores of shared data, semaphore operations and critical
  sections are separate steps. A run is a trace of states with the actions between them, and
  the theorems hold in every state of every run, for any number of threads where the program
  has no bound.
- Every lemma carries `{:induction false}`: an induction is always written out.

Facts about the code that are easily stated wrongly, each with an exact condition and a
witness:

- The download client acknowledges a block only when it takes it. One lost acknowledgement
  therefore stalls the transfer for good, and a lost DATA packet does not (`CanFinishIff`,
  `LostAckStalls`, `LostDataRecovers`, `LossyCompletes`).
- The loop of `newtftp` that downloads has no block filter; on a link that keeps order it is
  exact only when no full block arrives twice (`ExactIffNoRepeat`, `RepeatedBlock`).
- `upload` takes any reply that is neither an ACK nor an error for an acknowledgement
  (`AcknowledgedIff`, `StrayReplyCountsAsAck`). When all replies are the receiver's own
  datagrams, but DATA and replies may be lost, duplicated, delayed and reordered at will, a
  reported success means that the file has arrived exactly for files of fewer than 512 * 65536
  bytes, and, if a copy of the request's ACK may come late too, of at most 512 * 65535 bytes
  (`SuccessMeansStoredIff`, `TailLost`, `LateDuplicate`). `upload` also returns 0 for success,
  a wrong ACK and an error packet alike; the model tells them apart.
- The chat registry can keep the descriptor of a client that left before the accept loop got
  to `addUser` (`StaleEntry`). It stays until the next `delUser` of any handler that works on
  the same descriptor (`Lifetime`, `StaleEntryEnds`); `AgreementIff` says in which runs that
  never happens.
- The shared message buffer loses messages (`FirstMessageLost`), except in the runs in which
  every byte is copied while the consumer has printed all posts and waits (`EachPrintedIff`).
  The rainbow reaches the end of each colour range only for some widths
  (`RainbowSaturatesIff`, `BothKinds`).

## Model

| member | source | states |
|---|---|---|
| TftpPackets.PrefixGrows | 10.network/old_tftp/tftp/tftp.c:68-102 | accepting the next 512-byte or final block extends a prefix of whole blocks to the next prefix, and after the last block to the whole file |
| TftpDownload.DownloadClient.constructor | 10.network/old_tftp/tftp/tftp.c:26-34 | the locals before the loop; the request is still in the text buffer that datagrams are received into |
| TftpDownload.DownloadClient.Fill | 10.network/old_tftp/tftp/tftp.c:45 | a datagram overlays the reused buffer: a longer one is cut, a shorter one leaves old bytes behind it |
| TftpDownload.DownloadClient.HandleDatagram | 10.network/old_tftp/tftp/tftp.c:45-103 | one pass of the loop, for every datagram and every failing call, is the transition that the system theorems are about |
| TftpDownload.DownloadClient.StoreBlock | 10.network/old_tftp/tftp/tftp.c:68-102 | the two branches of the block filter: what num, the file, the buffer and the reply become for full, short, malformed and unwanted blocks |
| TftpDownload.DownloadClient.StartDownload | 10.network/old_tftp/tftp/tftp.c:43-104 | the loop over any arrivals refines the iterated transition, with the same acknowledgements |
| TftpDownload.PassExact | 10.network/old_tftp/tftp/tftp.c:45-103 | what one pass does with any datagram with a whole header, by its bytes: which failing call exits, that an error packet ends the loop, that other opcodes and unwanted blocks have no effect, and what a wanted block of any size leaves and is answered with |
| TftpDownload.ReceiveData | 10.network/old_tftp/tftp/tftp.c:57-102 | of all DATA packets only the one numbered num + 1 has an effect, and then exactly its block is written and its own number acknowledged |
| TftpSystem.FilterExact | 10.network/old_tftp/tftp/tftp.c:68-84 | for packets of true index at most num + 1, the comparison of an int with a 16-bit field passes exactly block num + 1 and only below 65536 |
| TftpSystem.TakeSafe | 10.network/old_tftp/tftp/tftp.c:57-102 | whichever DATA packet in flight arrives, repeated or late, and whichever call fails, the output stays a prefix made of the blocks taken |
| TftpSystem.ReceiveSafe | 10.network/old_tftp/tftp/tftp.c:45-103 | the same for every packet that can be in flight, and a reply is always the acknowledgement of the newest block |
| TftpSystem.ServerReplySafe | 10.network/old_tftp/tftp/tftp.c:76-98 | an RFC 1350 server never moves past the block after the ones acknowledged, though ACK numbers are 16 bits wide and may be old |
| TftpSystem.StepSafe | 10.network/old_tftp/tftp/tftp.c:43-104 | every action of client, server and network keeps the invariant, among it that no packet in flight is beyond block num + 1 |
| TftpSystem.DownloadSafety | 10.network/old_tftp/tftp/tftp.c:68-101 | in every reachable state the output is exactly blocks 1..num of the file, it is the whole file on a successful return, and no packet in flight has a true index above num + 1 |
| TftpSystem.ErrorEnds | 10.network/old_tftp/tftp/tftp.c:52-56 | after an error packet has reached a running client, it has returned in every continuation and neither written nor sent anything since |
| TftpSystem.CompletionBound | 10.network/old_tftp/tftp/tftp.c:26-102 | no run reports success on a file of more than 65535 blocks, and a success comes after exactly length/512 + 1 acceptances |
| TftpProgress.ClientLive | 10.network/old_tftp/tftp/tftp.c:45-103 | without faults each delivery to the client decreases the measure and leaves some packet in flight that carries the transfer on |
| TftpProgress.ServerLive | 10.network/old_tftp/tftp/tftp.c:45-103 | the same for each delivery to the server |
| TftpProgress.RunLive | 10.network/old_tftp/tftp/tftp.c:43-104 | along a loss-free run every delivery uses up potential, whatever is copied, delayed or sent again |
| TftpProgress.LossFreeCompletes | 10.network/old_tftp/tftp/tftp.c:68-102 | a loss-free run of a file of at most 65535 blocks can only stop at success, with the whole file after one acceptance per block, and has got there after a computed number of deliveries |
| TftpFairness.StepAlive | 10.network/old_tftp/tftp/tftp.c:45-103 | no delivery, copy, retransmission or loss of a DATA packet takes away the possibility of success |
| TftpFairness.Nearer | 10.network/old_tftp/tftp/tftp.c:45-103 | the packet that the transfer waits for still carries it on whenever it is delivered, unless the transfer has moved on by then |
| TftpFairness.FairCompletes | 10.network/old_tftp/tftp/tftp.c:43-104 | every infinite run without loss in which each packet in flight is delivered some time reaches success, with the whole file after one acceptance per block, however many duplicates are in flight all the time |
| TftpFairness.LossyCompletes | 10.network/old_tftp/tftp/tftp.c:43-104 | the same with any number of DATA packets lost, infinitely many among them, if the server sends again while it waits, a packet in flight again and again gets through some time, and the client's packets arrive |
| TftpProgress.StalledForever | 10.network/old_tftp/tftp/tftp.c:68-103 | once the request or the one acknowledgement of the block in flight is gone, no continuation succeeds |
| TftpProgress.StallIff | 10.network/old_tftp/tftp/tftp.c:68-103 | while client and server run, success is reachable if and only if the request or that acknowledgement has not been lost |
| TftpProgress.CanFinishIff | 10.network/old_tftp/tftp/tftp.c:43-104 | for every reachable state: success is reachable if and only if it has been reached, or client and server run and are not stalled, or the server is done and the final block is still in flight to a running client |
| TftpProgress.LostAckStalls | 10.network/old_tftp/tftp/tftp.c:68-83 | for every file of at least 512 bytes: a run that takes block 1 and loses its ACK, after which no continuation succeeds though client and server are running |
| TftpProgress.LostDataRecovers | 10.network/old_tftp/tftp/tftp.c:43-104 | a run that loses the DATA packet and leaves nothing in flight, from which success is reachable |
| TftpProgress.DownloadableIff | 10.network/old_tftp/tftp/tftp.c:26-102 | from the start success is reachable if and only if length/512 + 1 is at most 65535 |
| TftpUpload.Receive | 10.network/old_tftp/newtftp/tftp.c:239-243 | a reply lies in a zeroed buffer, so missing bytes read as 0 and surplus ones are cut |
| TftpUpload.Compose | 10.network/old_tftp/newtftp/tftp.c:212-229 | the k-th round puts together the DATA packet of block k with number k mod 65536, and reads nothing exactly when all bytes have been sent; a failing read is told apart from the end of the file |
| TftpUpload.Check | 10.network/old_tftp/newtftp/tftp.c:239-255 | a reply makes the loop stop exactly when it is an ACK with another number or an error |
| TftpUpload.SendAll | 10.network/old_tftp/newtftp/tftp.c:211-256 | the loop sends the DATA packets of the file in order, each after the reply to the one before, and ends as the replies and the failing calls say |
| TftpUpload.Upload | 10.network/old_tftp/newtftp/tftp.c:180-257 | nothing is sent unless the request goes out, ACK 0 answers it and the file opens; a failing recvfrom, which the source only reports, is refused by the zeroed buffer |
| TftpUpload.UploadOutcome | 10.network/old_tftp/newtftp/tftp.c:211-256 | for arbitrary replies and failures: at most one DATA packet unanswered, success exactly when every chunk was sent and nothing stopped the loop, and which reply or call it was otherwise |
| TftpUpload.JudgeExact | 10.network/old_tftp/newtftp/tftp.c:245-255 | how any reply is judged, by its bytes |
| TftpUpload.StoppedBy | 10.network/old_tftp/newtftp/tftp.c:246-255 | a wrong-ACK end comes from a reply with opcode 4 and another number, an error end from one with opcode 5 |
| TftpUpload.ReceiverHolds | 10.network/old_tftp/newtftp/tftp.c:211-236 | after n packets, each arriving any positive number of times, an RFC 1350 receiver with wrapping numbers holds exactly the first n blocks |
| TftpUpload.LockStepUpload | 10.network/old_tftp/newtftp/tftp.c:197-256 | on a reliable lock-step link the k-th DATA packet carries k mod 65536, the receiver's bytes are always a prefix and on success the file, and it has seen the terminating short block if and only if the length is not a multiple of 512 |
| TftpUpload.AcknowledgedIff | 10.network/old_tftp/newtftp/tftp.c:246-255 | a success was acknowledged chunk by chunk with the right numbers if and only if every reply has the opcode of an ACK |
| TftpUpload.Behind | 10.network/old_tftp/newtftp/tftp.c:211-236 | on a link that keeps the order of DATA packets but loses and repeats them, each lost one leaves the receiver a block behind for good, although numbers wrap and a later packet may be taken for it |
| TftpUpload.LossIff | 10.network/old_tftp/newtftp/tftp.c:211-236 | on such a link, for files of any length, once all chunks have been sent the receiver has the file if and only if no DATA packet was lost |
| TftpUploadNetwork.ArrivalExact | 10.network/old_tftp/newtftp/tftp.c:211-236 | of all packets of a file shorter than 65536 blocks, whenever they arrive, exactly the next one is stored, and a packet is acknowledged only once it has been |
| TftpUploadNetwork.ReachedInv | 10.network/old_tftp/newtftp/tftp.c:211-256 | over a network that loses, duplicates, delays and reorders in both directions, the receiver's bytes are always a prefix of such a file and every ACK is one of a stored block |
| TftpUploadNetwork.ArrivedIff | 10.network/old_tftp/newtftp/tftp.c:211-256 | over such a network the receiver has the file if and only if packets 1, 2, ... have arrived in that order, among any others |
| TftpUploadNetwork.TailLost | 10.network/old_tftp/newtftp/tftp.c:246-250 | for every longer file: success on ACKs that the network has kept, to a receiver that lacks the end of the file |
| TftpUploadNetwork.LateDuplicate | 10.network/old_tftp/newtftp/tftp.c:211-236 | for every file of exactly 65536 full blocks: success, and then a late copy of the first packet is appended to the receiver's file |
| TftpUploadNetwork.SuccessMeansStoredIff | 10.network/old_tftp/newtftp/tftp.c:211-256 | over such a network a reported success always means that the receiver has the file if and only if the file is shorter than 65536 blocks, or, when the ACK of the request may come again, needs at most 65535 packets |
| TftpUpload.StrayReplyCountsAsAck | 10.network/old_tftp/newtftp/tftp.c:246-255 | for every file that is not empty: stray replies alone bring about a reported success to a receiver that has not got one packet |
| TftpFifoDownload.HandleDatagram | 10.network/old_tftp/newtftp/tftp.c:121-161 | one pass: what is written and acknowledged for any datagram and any failing call, without a look at the block number |
| TftpFifoDownload.Download | 10.network/old_tftp/newtftp/tftp.c:103-163 | nothing is received unless the request goes out and the file opens; the loop writes and acknowledges in the order of arrival, up to the short, error or malformed packet or the failing call that ends it |
| TftpFifoDownload.PassExact | 10.network/old_tftp/newtftp/tftp.c:121-161 | by the bytes of any datagram: what is written, how the loop ends, and that DATA packets and nothing else are answered, by the ACK of their own block number |
| TftpFifoDownload.AcksInOrder | 10.network/old_tftp/newtftp/tftp.c:141-150 | on a link that keeps order the answers are the ACKs of the blocks received, one for each datagram and in order |
| TftpFifoDownload.WrittenOnce | 10.network/old_tftp/newtftp/tftp.c:134-156 | on a link that keeps order, from any point after which no block is repeated, exactly the rest of the file is written |
| TftpFifoDownload.ExactIffNoRepeat | 10.network/old_tftp/newtftp/tftp.c:120-162 | on a link that keeps order the download is exact if and only if no full block came twice; each repeat adds 512 bytes, and success is reported all the same |
| TftpFifoDownload.RepeatedBlock | 10.network/old_tftp/newtftp/tftp.c:120-162 | for every file of at least 512 bytes: if its first block comes twice, it is in the downloaded file twice, and success is reported |
| ChatServer.CountStep | 10.network/4.tftp/new_code/client_handle.c:23-78 | each action changes the number of handlers at a set of program points by what it creates or moves, for any number of handlers |
| ChatServer.StepTokens | 10.network/4.tftp/new_code/client_handle.c:23-55 | every action of every thread keeps sem + accept loop's token + handlers that have not posted + failed creations = 1 |
| ChatServer.StepPermits | 10.network/4.tftp/new_code/client_handle.c:29-39 | every action keeps free permits + the accept loop's + handlers' permits + lost permits = limits |
| ChatServer.NoReader | 10.network/4.tftp/new_code/client_handle.c:24-50 | whenever the accept loop may write the shared variable no handler still has to read it |
| ChatServer.StepHandoff | 10.network/4.tftp/new_code/client_handle.c:25-50 | every action keeps each handler's own accept and that accept's descriptor |
| ChatServer.StepSockets | 10.network/4.tftp/new_code/client_handle.c:25-74 | every action keeps the open sockets in one-to-one correspondence with handlers that have not closed and the accept loop's pending one |
| ChatServer.RunInv | 10.network/4.tftp/new_code/client_handle.c:12-79 | all four invariants hold in every state of every run |
| ChatServer.DescriptorHandoff | 10.network/4.tftp/new_code/client_handle.c:23-55 | in every run each handler has exactly the descriptor that its own accept returned, none is read twice, none is overwritten before it is read, and the token sum is 1 |
| ChatServerLoop.ReadIff | 10.network/4.tftp/new_code/client_handle.c:50 | a handler gets its own client's descriptor exactly if the shared variable still holds it when it reads |
| ChatServer.Membership | 10.network/4.tftp/new_code/client_handle.c:18-76 | in every run the permits add up to limits, live handlers are at most limits and open client sockets at most limits + 1, and a client is rejected only when no permit is free |
| ChatServerLoop.MemberDecision | 10.network/4.tftp/new_code/client_handle.c:29-34 | in every run a client is turned away if and only if all permits are held by live handlers or lost, and otherwise gets one |
| ChatServerLoop.RejectedClient | 10.network/4.tftp/new_code/client_handle.c:29-34 | the loop's next two actions then close exactly that client's socket and post the token; no thread is created and nothing is added to the set |
| ChatServerLoop.FailedAccept | 10.network/4.tftp/new_code/client_handle.c:25-27 | a failed accept ends the loop for good |
| ChatServerLoop.FailedCreation | 10.network/4.tftp/new_code/client_handle.c:36-42 | after a failed thread creation the loop closes the socket, adds its descriptor all the same and then waits for ever: no client is accepted again |
| ChatServerLoop.NewestAdded | 10.network/4.tftp/new_code/client_handle.c:41 | each addUser of the loop adds the descriptor of the newest connection and nothing else |
| ChatServerLoop.LoopGoesOn | 10.network/4.tftp/new_code/client_handle.c:23-55 | unless one of these calls has failed, the loop can act, or waits for a post that a handler can make |
| ChatFds.FdSet.CopyFds | 10.network/4.tftp/new_code/fds_manage.c:23-27 | the copy has the same bits as the set, in memory of its own |
| ChatLock.StoreExact | 10.network/4.tftp/new_code/fds_manage.c:11-21 | loading one word of the set, changing it and storing it changes one member |
| ChatLock.StaleStore | 10.network/4.tftp/new_code/fds_manage.c:11-15 | without the mutex a store could undo another thread's change to the same word |
| ChatLock.StepInv | 10.network/4.tftp/new_code/fds_manage.c:11-27 | every lock, word access and unlock of any thread keeps the set in step with the calls finished so far |
| ChatLock.CallsAreAtomic | 10.network/4.tftp/new_code/fds_manage.c:5-27 | with any number of threads and any interleaving of word accesses, the set is what the calls make of it one at a time, in the order of their unlocks, and every copy is the whole set at one instant |
| ChatRegistry.ReplaySet | 10.network/4.tftp/new_code/fds_manage.c:7-21 | the addUser and delUser calls of any run, made on the bit array after that of the terminal, leave exactly the set of the state machine |
| ChatMessages.MsgBroadcast | 10.network/4.tftp/new_code/msg_handle.c:40-49 | the message goes to the members of the snapshot as `Ascending` lists them, which `AscendingExact` characterises |
| ChatFds.AscendingExact | 10.network/4.tftp/new_code/msg_handle.c:44-48 | the loop meets every member below its bound exactly once, in ascending order, and nothing else |
| ChatRegistry.AddExact | 10.network/4.tftp/new_code/client_handle.c:41 | addUser keeps set and live connections in agreement if and only if its connection has not been deleted already (or its descriptor is in the set anyway) |
| ChatRegistry.DelExact | 10.network/4.tftp/new_code/client_handle.c:74-75 | delUser keeps the agreement if and only if no other live connection has the same descriptor |
| ChatRegistry.GuardExact | 10.network/4.tftp/new_code/client_handle.c:41-75 | any action at all keeps the agreement if and only if it meets its guard |
| ChatRegistry.AgreementIff | 10.network/4.tftp/new_code/client_handle.c:23-78 | set and live connections agree in every state of a run if and only if each addUser and each delUser in it meets its guard |
| ChatRegistry.Lifetime | 10.network/4.tftp/new_code/fds_manage.c:11-21 | a descriptor stays in the set along every continuation up to the next delUser of a handler that works on it, and no longer |
| ChatRegistry.StaleEntry | 10.network/4.tftp/new_code/client_handle.c:36-75 | a reachable state in which a closed socket is in the set and no live connection accounts for it |
| ChatRegistry.StaleEntryEnds | 10.network/4.tftp/new_code/client_handle.c:23-78 | a continuation in which accept returns that descriptor again and the next delUser takes it out |
| ChatRegistry.SnapshotBroadcast | 10.network/4.tftp/new_code/msg_handle.c:40-49 | among any other steps and broadcasts, each broadcast sends once, in ascending order, to exactly the members of the set at one instant, that of its copyFds |
| ChatRegistry.RegistryAgreement | 10.network/4.tftp/new_code/client_handle.c:41-75 | in every run in which each delUser follows its own addUser and precedes reuse of the descriptor, the set is always STDOUT and the live connections' descriptors, all different |
| ChatRegistry.BroadcastReachesLive | 10.network/4.tftp/new_code/msg_handle.c:40-49 | in such runs a finished broadcast has reached the terminal and every connection live at its copyFds, each once, and nobody else |
| ChatLockedServer.MoveRefines | 10.network/4.tftp/new_code/fds_manage.c:11-27 | with addUser, delUser and copyFds made of lock, word accesses and unlock, each access of any thread is a step of the server whose calls are single steps, or none |
| ChatLockedServer.Refines | 10.network/4.tftp/new_code/client_handle.c:23-78 | so every execution, with any interleaving of the accesses, is one of that server |
| ChatLockedServer.WordsAgree | 10.network/4.tftp/new_code/fds_manage.c:5-21 | registry agreement for the words of the set at every moment, not only when the mutex is free |
| ChatLockedServer.WordsBroadcast | 10.network/4.tftp/new_code/msg_handle.c:40-49 | snapshot broadcast for the words: sends go to the members that they had at one instant, though the copy is taken word by word |
| ChatMessages.SkipBlanks | 10.network/4.tftp/new_code/msg_handle.c:5-9 | a line is taken for empty exactly when all of it is blanks and line ends |
| ChatMessages.FindColon | 10.network/4.tftp/new_code/msg_handle.c:18-23 | the scan stops at the first colon, or runs to the end |
| ChatMessages.MsgHandler | 10.network/4.tftp/new_code/msg_handle.c:4-38 | what is sent to whom for every line and every set, notice to the sender included, or that the scan for a colon runs out of the string |
| ChatMessages.DigitsOfDecimal | 10.network/4.tftp/new_code/msg_handle.c:25-33 | atoi reads back every decimal number, whatever follows it |
| ChatMessages.MessageReadsBack | 10.network/4.tftp/new_code/msg_handle.c:51-53 | different senders or different texts give different messages, so the prefix identifies the sender whatever the text |
| ChatMessages.MessageText | 10.network/4.tftp/new_code/msg_handle.c:51-53 | the message character by character, the descriptor in three digits |
| ChatMessages.AtoiSigned | 10.network/4.tftp/new_code/msg_handle.c:25-33 | the number of a direct message may follow white space and a sign |
| ChatMessages.BlankSendsNothing | 10.network/4.tftp/new_code/msg_handle.c:5-11 | a line of blanks, carriage returns and line feeds sends nothing |
| ChatMessages.NoticeIff | 10.network/4.tftp/new_code/msg_handle.c:16-33 | the sender gets the notice exactly for a direct message with a colon whose number is not in the set; the scan runs out exactly when there is no colon |
| ChatMessages.DirectRoundTrip | 10.network/4.tftp/new_code/msg_handle.c:12-33 | a line "/n:text", with any leading spaces, reaches exactly descriptor n with exactly that text if n is in the snapshot, and otherwise only the notice goes out, to the sender |
| ChatMessages.BroadcastRoundTrip | 10.network/4.tftp/new_code/msg_handle.c:12-49 | any other line that is not blank reaches every member of the snapshot once, unchanged, and nobody else |
| ChatMessages.SentToMembers | 10.network/4.tftp/new_code/msg_handle.c:4-59 | whatever the line, nothing but the notice is sent outside the snapshot, and nobody gets two messages |
| ForkCounter.StepInv | 7.IPC/6.sem/fork/main.c:53-61 | every load, store and semaphore call, failing ones included, keeps exclusion and the count of completed increments |
| ForkCounter.MutualExclusion | 7.IPC/6.sem/fork/main.c:53-61 | in every interleaving the two processes are never in the increment loop together, although semP stops excluding once the semaphore is deleted |
| ForkCounter.LostUpdate | 7.IPC/6.sem/fork/main.c:53-58 | without exclusion the increments are not atomic: two loads before two stores lose one of them |
| ForkCounter.RunLength | 7.IPC/6.sem/fork/main.c:53-64 | steps made and steps left always add up to 4 num + 8 |
| ForkCounter.CounterTotal | 7.IPC/6.sem/fork/main.c:27-64 | every run is finite, stops only with both processes finished, and then the counter is its initial value + 2 num |
| SharedMessage.StepInv | 7.IPC/6.sem/idenpendence/shm_a/main.c:51-55 | every byte copied or printed and every semaphore call keeps the invariant about memory, posts and prints |
| SharedMessage.PrintsFollowPosts | 7.IPC/6.sem/idenpendence/shm_b/main.c:49-52 | in every run prints never outnumber posts, and a print that did not begin in the middle of a copy, and before whose end no byte was copied, shows one whole message, never an older one than its own post |
| SharedMessage.LastPrintIsLastMessage | 7.IPC/6.sem/idenpendence/shm_b/main.c:49-52 | whenever the producer is between messages and the consumer waits with the semaphore at zero, the last print is the last message |
| SharedMessage.EachPrintedIff | 7.IPC/6.sem/idenpendence/shm_a/main.c:51-55 | a run that has come to rest has printed every message, whole and in turn, if and only if each byte was copied while the consumer waited with the semaphore at zero |
| SharedMessage.FirstMessageLost | 7.IPC/6.sem/idenpendence/shm_a/main.c:51-55 | for any two messages a run exists in which the first is never shown and the second is printed twice |
| SemaphoreRing.StepInv | 9.Thread/6.sem/practice1/main.c:9-37 | every step keeps a single token at the place that the output so far determines |
| SemaphoreRing.Ring | 9.Thread/6.sem/practice1/main.c:9-47 | in every interleaving the output is a prefix of ABCABC..., semaphores and threads between wait and post total 1, and exactly one thread can move |
| SemaphoreRing.Pace | 9.Thread/6.sem/practice1/main.c:9-37 | one letter for every three steps, so no thread starves |
| TicketWindows.EveryTicketServed | 9.Thread/6.sem/practice2/main.c:14-36 | for any tickets and windows every run stops after a fixed number of steps with exactly one service per ticket |
| TicketWindows.ShownInRange | 9.Thread/6.sem/practice2/main.c:16-24 | the number shown after the r-th successful trywait lies in r..N, though trywait and getvalue are separate steps |
| TicketWindows.FewSmallNumbers | 9.Thread/6.sem/practice2/main.c:20-24 | for every n at most n services show a number up to n |
| TicketWindows.ShownIsTaken | 9.Thread/6.sem/practice2/main.c:20-24 | the number shown is the count of tickets taken at that getvalue |
| TicketWindows.OneWindow | 9.Thread/6.sem/practice2/main.c:14-27 | a single window shows each customer the own rank |
| ContactOrder.NameOrder | 5.link-list/dynamic/contacts.c:25-42 | nameCmp is a total preorder that ties exactly the names differing in case alone |
| ContactOrder.TiesIff | 5.link-list/dynamic/contacts.c:25-42 | two names tie if and only if they are equally long and at every place have the same byte or the two cases of one letter |
| ContactOrder.LessIff | 5.link-list/dynamic/contacts.c:25-42 | one name is before another if and only if, where they first differ but for case, it has ended or has the smaller byte, capitals counting as small letters |
| ContactOrder.CompareFields | 5.link-list/dynamic/contacts.c:41 | the byte loop of strcmp over two zero-terminated arrays has the sign of the lexicographic comparison |
| ContactOrder.CompareNames | 5.link-list/dynamic/contacts.c:25-42 | lowering two local copies in place and comparing them has the sign of that preorder |
| ContactOrder.InsertExact | 5.link-list/dynamic/contacts.c:121-145 | insertion by index: nothing for "exit", otherwise one more contact before the first greater one and all others where they stood |
| ContactOrder.DeleteExact | 5.link-list/dynamic/contacts.c:156-166 | deletion by index: the first contact with exactly the name is missing and all others stand where they stood |
| ContactOrder.InsertSorted | 5.link-list/dynamic/contacts.c:131-144 | insertion keeps a sorted book sorted, and puts the contact after all contacts not greater and before all greater ones |
| ContactOrder.DeleteSorted | 5.link-list/dynamic/contacts.c:156-166 | deletion keeps a sorted book sorted |
| ContactOrder.DeleteAfterInsert | 5.link-list/dynamic/contacts.c:131-166 | deletion right after insertion restores the book unless the same spelling was there before, in which case the older contact goes |
| ContactOrder.ApplySorted | 5.link-list/dynamic/contacts.c:103-169 | a sorted book stays sorted over every sequence of insertions and deletions and gains only what was inserted |
| ContactOrder.SavedMembers | 5.link-list/dynamic/contacts.c:12-22 | the file holds exactly the contacts not named HEAD_NODE |
| ContactOrder.SavedAll | 5.link-list/dynamic/contacts.c:12-22 | the file is the whole book if and only if no contact has that name |
| ContactOrder.SavedSorted | 5.link-list/dynamic/contacts.c:81-100 | the file of a sorted book is sorted |
| ContactBook.LinkAfter | 5.link-list/dynamic/contacts.c:138-144 | two stores splice a node into a null-terminated chain of distinct nodes, the other nodes in order |
| ContactBook.UnlinkAfter | 5.link-list/dynamic/contacts.c:162 | one store takes exactly one node out of it |
| ContactBook.List.LinkListInit | 5.link-list/dynamic/contacts.c:45-78 | any file, with whatever stale pointers in its records, becomes an acyclic null-terminated list of its records in order |
| ContactBook.List.Place | 5.link-list/dynamic/contacts.c:131-143 | the search stops before the first greater contact |
| ContactBook.List.LinkIn | 5.link-list/dynamic/contacts.c:138-144 | the relinked chain is valid and is the old one with the new node at that place, all other nodes the same and in the same order |
| ContactBook.List.AddNode | 5.link-list/dynamic/contacts.c:110-145 | exactly one node, a new one, is added, behind all names that are not greater; the others are the same nodes in the same order |
| ContactBook.List.InsertNode | 5.link-list/dynamic/contacts.c:103-145 | the list refines insertion into the sequence by one new node among the same others, or, for the name "exit", leaves the nodes alone; nothing that stays in use is freed |
| ContactBook.List.RemoveNode | 5.link-list/dynamic/contacts.c:162-163 | the found node leaves the chain and is freed, the others are the same nodes in the same order |
| ContactBook.List.DeleteNode | 5.link-list/dynamic/contacts.c:147-169 | exactly the first node with the exact name is unlinked and freed, once, the others being the same nodes in the same order; or nothing changes and that is reported |
| ContactBook.List.SaveNodeData | 5.link-list/dynamic/contacts.c:12-22 | a node named HEAD_NODE leaves no record |
| ContactBook.List.LinkListDestory | 5.link-list/dynamic/contacts.c:81-100 | the saved records are the book's contacts in order, every node with the head is freed exactly once and none is used after that; if the file cannot be opened, nothing changes |
| ContactBook.SaveAndLoad | 5.link-list/dynamic/contacts.c:45-100 | saving and loading gives a valid list of fresh nodes with the same contacts in order, less those named HEAD_NODE |
| ContactBook.Perform | 5.link-list/dynamic/main.c:35-52 | each menu choice that changes the list keeps it valid and refines the operation on the sequence |
| ContactBook.Session | 5.link-list/dynamic/main.c:29-52 | load, any operations, save: the new file is that of the sequence after those operations |
| ContactBook.SessionSorted | 5.link-list/dynamic/main.c:29-52 | starting from a sorted file, the file is sorted after every session |
| Framebuffer.PixelRange | 12.imx6ull/3.libjpeg-turbo/test-code/myfb.c:12 | a byte lies in the range that a pixel address begins if and only if it belongs to that pixel, so ranges are disjoint |
| Framebuffer.OnScreenInside | 12.imx6ull/3.libjpeg-turbo/test-code/myfb.c:12-107 | every on-screen pixel lies wholly inside the mapped size |
| Framebuffer.FrameBuffer.FbInit | 12.imx6ull/3.libjpeg-turbo/test-code/myfb.c:107-110 | the mapped size follows from resolution and depth |
| Framebuffer.FrameBuffer.FbDisplayPixel | 12.imx6ull/3.libjpeg-turbo/test-code/myfb.c:10-47 | at any position and depth exactly the bytes of that pixel change, to the packed colour, and off the screen none |
| Framebuffer.PixelColor | 12.imx6ull/3.libjpeg-turbo/test-code/myfb.c:25-45 | the bytes in memory after a pixel is drawn: 3 + 3 + 2 or 5 + 6 + 5 bits of its red, green and blue, or all of them, lowest byte first; no change at other depths |
| Framebuffer.WholeWord | 12.imx6ull/3.libjpeg-turbo/test-code/myfb.c:42-44 | at 32 bits the four bytes are the whole colour word |
| Framebuffer.FrameBuffer.FbDisplayLineData | 12.imx6ull/3.libjpeg-turbo/test-code/myfb.c:59-67 | exactly the on-screen pixels of a line change, each to its own colour |
| Framebuffer.FrameBuffer.FbDisplayImage | 12.imx6ull/3.libjpeg-turbo/test-code/myfb.c:70-77 | for any position, width and height, negative ones included, the nested loops leave the memory that the image determines byte by byte |
| Framebuffer.ImageExact | 12.imx6ull/3.libjpeg-turbo/test-code/myfb.c:10-77 | in coordinates: each on-screen pixel of the rectangle shows its packed image colour and every byte of every other pixel is unchanged |
| Framebuffer.ImageColor | 12.imx6ull/3.libjpeg-turbo/test-code/myfb.c:10-77 | each on-screen pixel of an image has in memory the red, green and blue of its own three bytes, at all three depths |
| Framebuffer.FrameBuffer.FbShowImage | 12.imx6ull/3.libjpeg-turbo/test-code/myfb.c:81-93 | at any depth and position, a negative column on a lower row included, at which all copies stay inside the mapping, they are the rows of the image, a screen line apart |
| Framebuffer.FrameBuffer.CopyRow | 12.imx6ull/3.libjpeg-turbo/test-code/myfb.c:89-91 | one memcpy adds one row and moves both pointers to the next |
| Framebuffer.CopiedIsShown | 12.imx6ull/3.libjpeg-turbo/test-code/myfb.c:81-93 | on the screen at 16 bits the copies fill exactly the pixels of the rectangle, and no other byte changes |
| Framebuffer.PackedRow | 12.imx6ull/3.libjpeg-turbo/test-code/myfb.c:34-41 | each row of the packed image is that row of the RGB888 image, packed as fbDisplayPixel packs it |
| Framebuffer.PackedColor | 12.imx6ull/3.libjpeg-turbo/test-code/myfb.c:34-41 | two bytes of the packed image hold 5 + 6 + 5 bits of the red, green and blue of their pixel's three bytes |
| Framebuffer.ShowRefinesDisplay | 12.imx6ull/3.libjpeg-turbo/test-code/myfb.c:34-93 | at 16 bits per pixel, for a rectangle on the screen, fbShowImage of the RGB565 data and fbDisplayImage of the RGB888 source leave identical memories |
| Rainbow.AreasPartition | 12.imx6ull/4.rainbow/rainbow.c:12-17 | the six areas sum to the width and differ by at most 1 |
| Rainbow.Areas | 12.imx6ull/4.rainbow/rainbow.c:12-17 | the two loops compute those areas |
| Rainbow.StartExact | 12.imx6ull/4.rainbow/rainbow.c:12-17 | where each area begins: the columns left over go to areas 1, 2, ... |
| Rainbow.LevelClosed | 12.imx6ull/4.rainbow/rainbow.c:27-32 | clamping after every column comes to clamping the total change once, and stays in 0..255 |
| Rainbow.SaturationIff | 12.imx6ull/4.rainbow/rainbow.c:19-32 | a columns, a = W/6, cover the range if and only if 255 mod a <= (a + 1)/2 |
| Rainbow.RgbInRange | 12.imx6ull/4.rainbow/rainbow.c:27-32 | all three components stay in 0..255 at every column |
| Rainbow.RainbowSaturatesIff | 12.imx6ull/4.rainbow/rainbow.c:19-36 | for every width the first area ends at 255 if and only if 255 mod a <= (a + 1)/2, and then all six saturate and the colour returns to (255,0,0) |
| Rainbow.ColumnChange | 12.imx6ull/4.rainbow/rainbow.c:21-32 | green rises, red falls, blue rises, green falls, red rises, blue falls, by 255/a in odd columns of an area and one more in even ones, within 0..255 |
| Rainbow.Corners | 12.imx6ull/4.rainbow/rainbow.c:7-36 | a rainbow that saturates goes from red through yellow, green, cyan, blue and magenta back to red |
| Rainbow.BothKinds | 12.imx6ull/4.rainbow/rainbow.c:12-36 | at 768 columns green does not reach 255 in the first area, at 1530 it does |
| Rainbow.ColumnsInOrder | 12.imx6ull/4.rainbow/rainbow.c:21-36 | the k-th call draws column k with a 24-bit colour, at every point of the loops |
| Rainbow.EveryColumnOnce | 12.imx6ull/4.rainbow/rainbow.c:21-36 | columns 0..W-1 are each drawn once, in order |
| Rainbow.ColumnDrawn | 12.imx6ull/4.rainbow/rainbow.c:33 | each column is drawn at its place in the colour 65536 red + 256 green + blue of that moment |
| Rainbow.DrawColumn | 12.imx6ull/4.rainbow/rainbow.c:27-33 | one column changes only the area's component, calibrated, and draws with the new colour |
| Rainbow.DrawArea | 12.imx6ull/4.rainbow/rainbow.c:22-35 | the inner loop takes the components and the calls through one area |
| Rainbow.FbShowRainbow | 12.imx6ull/4.rainbow/rainbow.c:4-37 | the program's calls are the specified columns, for every width of at least 6 |
| GifInterlace.PassRow | 12.imx6ull/5.gif-studio/1116-test/gif/main.c:141 | a pass visits exactly the rows of the frame at its offset modulo its jump |
| GifInterlace.InterlacedOnce | 12.imx6ull/5.gif-studio/1116-test/gif/main.c:112-145 | for every height the four passes visit each row exactly once |
| GifInterlace.InterlacedOrder | 12.imx6ull/5.gif-studio/1116-test/gif/main.c:112-145 | the row of the k-th line for every height, in closed form: 0, 8, ..., 4, 12, ..., 2, 6, ..., 1, 3, ... |
| GifInterlace.Interlaced | 12.imx6ull/5.gif-studio/1116-test/gif/main.c:139-145 | as many lines as rows, none outside the frame |
| GifInterlace.PlacedAt | 12.imx6ull/5.gif-studio/1116-test/gif/main.c:143-151 | line k is found in its row at the frame's columns, and all other bytes of the buffer are as before |
| GifInterlace.InterlacedIsProgressive | 12.imx6ull/5.gif-studio/1116-test/gif/main.c:137-153 | interlaced decoding of the permuted lines and progressive decoding of the image leave the same buffer |
| GifInterlace.ReadPass | 12.imx6ull/5.gif-studio/1116-test/gif/main.c:141-144 | the inner loop reads the lines of one pass to their rows |
| GifInterlace.ReadInterlaced | 12.imx6ull/5.gif-studio/1116-test/gif/main.c:137-146 | the nested loops read line k to row k of the interlaced order |
| GifInterlace.ReadProgressive | 12.imx6ull/5.gif-studio/1116-test/gif/main.c:147-153 | the other branch reads line k to row k |
| GifDisplay.BgrRowAt | 12.imx6ull/5.gif-studio/1116-test/gif/main.c:65-70 | bytes 3k..3k+2 of a converted row are blue, green and red of entry k |
| GifDisplay.ConvertRow | 12.imx6ull/5.gif-studio/1116-test/gif/main.c:62-70 | one row is converted to its bytes and nothing before it changes |
| GifDisplay.GifBufferToRgb888 | 12.imx6ull/5.gif-studio/1116-test/gif/main.c:51-72 | every row of the byte buffer is its row of the frame buffer through the colour map |
| GifDisplay.LcdWritePoint | 12.imx6ull/5.gif-studio/1116-test/gif/main.c:23-27 | at any depth and position at which the store stays inside the mapping, exactly its four bytes change |
| GifDisplay.FrameBufferDraw | 12.imx6ull/5.gif-studio/1116-test/gif/main.c:30-48 | under the same condition for every point, the nested loops make these stores row by row, each with the colour of its own three bytes |
| GifDisplay.FrameIsDrawn | 12.imx6ull/5.gif-studio/1116-test/gif/main.c:23-48 | on a 32-bit screen the stores are the drawing of the rectangle, pixel by pixel |
| GifDisplay.FrameAt | 12.imx6ull/5.gif-studio/1116-test/gif/main.c:30-48 | byte by byte: the pixels of the rectangle, each from its own entry, and no others |
| GifDisplay.FrameShows | 12.imx6ull/5.gif-studio/1116-test/gif/main.c:23-72 | conversion followed by drawing shows each entry's colour-map colour at its screen pixel and leaves every other pixel |
| GifDisplay.ShowFrame | 12.imx6ull/5.gif-studio/1116-test/gif/main.c:161-163 | one frame through the fixed byte buffer: conversion, drawing and what the screen shows then |
| GifDisplay.WithImageAt | 12.imx6ull/5.gif-studio/1116-test/gif/main.c:132-153 | which bytes of the row buffer an image replaces |
| GifDisplay.ReadFrame | 12.imx6ull/5.gif-studio/1116-test/gif/main.c:132-153 | the lines of an image, interlaced or not, put the image into the row buffer at the frame's place |
| GifDisplay.DisplayFrame | 12.imx6ull/5.gif-studio/1116-test/gif/main.c:132-163 | a frame from its lines to the screen, interlaced or not; without a colour map it is read and nothing is shown |
| GifDisplay.ImageOnScreen | 12.imx6ull/5.gif-studio/1116-test/gif/main.c:132-163 | the four bytes at (x + left + c, y + top + r) are then blue, green, red and 0 of the colour-map entry of the image's pixel in column c of row r |

## Left out

TFTP

- Sockets, file names, argument parsing and the `main` functions; the transfer loops only. One server endpoint is assumed, as the clients do not check transfer identifiers.
- Short writes: a write stores all its bytes or fails.
- TftpFairness.LossyCompletes: DATA packets may be lost, but not the request and the ACKs, which the client never sends again; where one of those is lost, `CanFinishIff` says whether success is still reachable.
- A second transfer that a repeated write request may open at the server.
- A server or receiver that does anything but roll its block numbers over to 0 after 65535; RFC 1350 leaves this open.

Chat server

- The notices of connection, disconnection and rejection, `getpeername`, a received buffer without a terminating 0, and messages longer than the buffers they are put together in.
- ChatMessages.MsgHandler: on a direct message without a colon the source scans past the string; the model reports that and says nothing more. Overflow in `atoi` and descriptors outside 0..1023 in `FD_ISSET` are not modelled.
- ChatRegistry.RegistryAgreement: holds under the stated order of calls; `AgreementIff` gives the exact condition and `StaleEntry` a run in which it fails.
- `accept` is taken to return a descriptor in 0..1023 that is not open and is not the terminal's.

Semaphores

- Integer overflow of the forked counter, the undo of semaphore operations at process exit, failing `fork`, `shmget` and `shmat`, and a second pair of processes on the same key.
- For the shared message: deletion by the signal handler, and a late start that initialises the semaphores again. At end of input `fgets` leaves its buffer, which the model covers as the same message posted again.

Contact book

- Prompts, `fgets`, newline stripping, the menus, printing, and the two stubs for change and search; names and numbers reach the model as the strings that end up in the node's fields.
- Failing `malloc`, write errors, and the signal handler. `free` is recorded in a ghost sequence, so freeing twice and use after free are excluded by proof, not by a memory model. Fields other than `next` never change after a node has been filled in and are constants.
- The `malloc` and `free` of the node for a contact named "exit", which never joins the list.

Framebuffer

- Overflow of `int` and `unsigned int` in addresses and colours; shifts and ors are written as arithmetic.
- The message for unsupported depths, which the 32-bit case also falls into, as it leaves the memory alone.
- Stores and copies outside the mapped memory, which `fbShowImage` and the GIF program do not prevent: their callers must. Positions whose address would be negative are excluded with them: in unsigned arithmetic it lies some 500 megabytes behind the start of the memory.
- `fbClean`, opening and closing the device.
- Rainbow.FbShowRainbow: not for widths below 6, where the source divides by zero; the calls of `fbDisplayColumn` are recorded, and its loop over the rows is not modelled.
- GIF: opening, extensions, the record loop, background and errors of the library. The callers' part that the source does not check: a frame lies in the row buffer, that takes at most 384000 bytes at 3 bytes an entry, and entries are within the colour map.

Elsewhere: near-duplicate sources, the `select` servers, the mutex counters and the demonstrations of single system calls would add only easier members.
