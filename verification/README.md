# Verification of the ssh-keys agent

A Dafny model of ssh-keys, an SSH agent for Windows, with proofs of what it promises: the RSA arithmetic
behind an imported key, the wire format, the request handler, the connection loop, the stored key file, and
the running system in which any number of connections, a user with a mouse and a "reload" menu share one mutex.

`dafny verify dfyconfig.toml` checks everything.

## How the model is laid out

- `Wire`, `WireIo`, `Utf8`: lengths, strings and mpints as pure functions, the base-256 loops of the big
  numbers, and the advancing reader and growing vector of src/agent/wire.rs as classes proved against them.
  `as u32` keeps only the low 32 bits, and a zero mpint cannot be written, as in the source.
- `NumberTheory`, `RsaSigning`: Fermat's little theorem and Chinese remainder uniqueness from first principles,
  and what they say about the exponents that src/key/mod.rs derives.
- `Keys`, `Config`, `Agent`: keys, the key file, and the agent. Strings are their UTF-8 bytes. The classes
  `KeyConfig` and `SshAgent` are the source's objects; each method is proved equal to a function of the state.
- `AgentRuns`, `Persistence`, `Replies`, `SignedExchange`: what holds over whole runs, and what a client can read
  from the replies.
- `Frames`, `Connection`, `Pageant`: the framing loop over a stream with short reads, failed writes and a mutex
  that a panic poisons; the Pageant exchange through shared memory.
- `Transcript`: short exchanges byte by byte, and the examples of the standards.
- `Panics`: which requests bring the agent down.
- `Concurrent`, `ConcurrentSafety`, `ConcurrentInputs`, `ConcurrentResults`, `ConcurrentStalls`, `ConcurrentPanics`,
  `ConcurrentProgress`: the whole process as a step relation.
- `Wrappers`, `Sequences`: options and a few facts of sequences used throughout.
- `Requester`, `CopyId`: which process a confirmation names, and the `authorized_keys` append.

Panics are outcomes, not excluded inputs: a request that panics has no reply, changes nothing, poisons the
mutex and ends its thread, and every later lock attempt panics too; in the main thread, reloading, that is a crash.

OpenSSL's signing and the PEM text of a key enter as functions, in the record `Crypto`. Theorems that need more of
them say so: that PEM text reads back (`PemRoundTrips`), that signing follows section 8.2.1 of RFC 8017 on valid keys
(`SignsAsRfc8017`), that the signature in a reply is shorter than 2^32 bytes (`FitsReply`). The user's answers, the
outcome of each save and write, the chunks in which input arrives and the order of threads are arbitrary.

## Where the code does not do what one would expect

- With a prime factor 2 the derived exponent is 0, and the CRT form signs the representative 0 wrongly;
  the derived exponents serve a valid key exactly when both factors are odd (`CrtIsPlainIff`).
- An ADD whose save fails keeps the key in memory, and repeating it reports SUCCESS without saving
  (`RetryDoesNotSave`, `FailedRetryExample`). A failed save may also damage the file, because it is truncated before it
  is written (`FailedWriteExample`). What a SUCCESS says about the file is exactly this: for a key already held, the file is right if it was
  right before; for a new one, if no two names are the same with it (`SuccessIsStoredExactly`).
- Keys are told apart by their numbers but stored under their names: after two keys with one name the file no longer
  loads and the agent does not restart (`SharedNameExample`); that is the only way for file and memory
  to part when saves succeed (`RunSyncedExactly`).
- "Reload" can stop the agent for good: no request is ever served again once the main thread waits for the mutex to
  reload while its holder waits for a dialog, or is about to ask (`DoomedForever`). Taking the reload as one step, there
  are exactly two ways in (`DoomedByExactly`): choosing "reload" while the holder is at that point (`DeadlockReachable`),
  and a request that asks getting the mutex between the choice and the reload (`OvertakingReachable`).
- The walk to a process's ancestors goes round for ever if parents form a cycle, which numbers used again allow
  (`CycleExample`), and ends from everywhere exactly when they do not (`WalkEndsExactly`). The mutex is held during the
  walk, so one peer with such ancestors stops the agent for good, without any reload (`StallExample`, `StalledForever`);
  locking the mutex to describe such a peer is the only way to that state (`StalledByExactly`).
- From a state short of a crash the process can finish what is under way exactly when it is not doomed and each
  description under way or to come can end, or a panic can forestall it (`CanFinishExactly`).
- A key whose e or n is zero is accepted, and the next LIST panics: one client can end the agent for all of them with two
  requests (`ZeroKeyExample`). A connection panics exactly when one of its requests adds a key with a factor 1, or lists
  after a key with a zero number (`ServePanicsExactly`, `OneReplyEach`); the same holds of all connections together, in
  the order of the mutex (`PanickedExactly`).
- The dialog shows only a key's name, up to its first NUL. Two keys may share what is shown (`SharedNameExample`,
  `SameLookExample`); the user can recognise each key exactly when they do not (`RecognisedExactly`).
- A name with a newline adds further lines of its own to `authorized_keys` (`TwoLinesExample`, `OneLineExactly`).
- `read_mpint` takes every body as unsigned, where section 5 of RFC 4251 reads a leading 1 bit as a sign
  (`NegativeMpintExample`); the two agree exactly on bodies whose first bit is 0 (`ReadMpintAgreesExactly`).
- In the shared Pageant region, bytes that stand after the request and happen to form a frame are served as further
  requests (`SecondFrameExample`), and no others are (`OneRequestExactly`).

## Model

| member | source | states |
|---|---|---|
| Wire.ReadWrittenString | src/agent/wire.rs:8-13 | reading back a written string gives the bytes its truncated length covers, so the string itself exactly when it is under 2^32 bytes |
| Wire.WrittenReadString | src/agent/wire.rs:8-13 | whatever `read_string` accepts is the written form of what it returns, followed by what it leaves |
| Wire.FromBe32IsBigEndian | src/agent/wire.rs:9 | the length prefix is the big-endian number of its four bytes |
| Wire.ReadWrittenMpint | src/agent/wire.rs:19-39 | `read_mpint` undoes `write_mpint` for every positive number |
| Wire.MpintBodyCanonical | src/agent/wire.rs:33-39 | `write_mpint` gives the unique shortest two's complement body of section 5 of RFC 4251: any other body of the same number is longer |
| Wire.MpintBodyLength | src/agent/wire.rs:33-39 | the body has floor(bits / 8) + 1 bytes |
| Wire.WrittenReadMpint | src/agent/wire.rs:19-39 | writing after reading keeps the body without its redundant leading zeros, plus one zero where the sign bit needs it |
| Wire.ReadMpintAgreesExactly | src/agent/wire.rs:19-21 | `read_mpint` returns the unsigned number of the body, which is the number of section 5 of RFC 4251 if and only if the first bit is 0 |
| Wire.NegativeMpintExample | src/agent/wire.rs:19-21 | the body 80 (hexadecimal) means -128 and is read as 128 |
| Utf8.EncodedIsValid | src/agent/wire.rs:15-17 | every UTF-8 encoding of scalar values is accepted as a string |
| Utf8.ValidIsEncoded | src/agent/wire.rs:15-17 | everything accepted as a string is the encoding of some scalar values |
| Utf8.TextReadExactly | src/agent/wire.rs:15-17 | a string that is sent is read as text if and only if it encodes some scalar values, and fails otherwise |
| WireIo.BigNumFromSlice | src/agent/wire.rs:20 | the base-256 loop computes the unsigned big-endian number |
| WireIo.BigNumToVec | src/agent/wire.rs:34 | the division loop computes the bytes of the number, most significant first |
| WireIo.Cursor.ReadString | src/agent/wire.rs:8-13 | the advancing reader returns and leaves what the pure reader says |
| WireIo.Cursor.ReadStringUtf8 | src/agent/wire.rs:15-17 | the same, failing on text that is not UTF-8 |
| WireIo.Cursor.ReadMpint | src/agent/wire.rs:19-21 | the same, for numbers |
| WireIo.ByteBuffer.WriteString | src/agent/wire.rs:27-31 | appends the length prefix and the bytes |
| WireIo.ByteBuffer.WriteMpint | src/agent/wire.rs:33-39 | appends the canonical mpint of a positive number |
| NumberTheory.Fermat | src/key/mod.rs:38-40 | Fermat's little theorem, on which reducing d modulo p - 1 rests |
| NumberTheory.ChineseUnique | src/key/mod.rs:42-45 | a number below p * q is determined by its residues modulo two distinct primes |
| RsaSigning.DerivedExponents | src/key/mod.rs:38-40 | for a valid key the derived dp and dq are the CRT exponents of section 3.2 of RFC 8017, and the only numbers in range that are |
| RsaSigning.CrtIsPlain | src/key/mod.rs:38-45 | for a valid key with odd factors, signing with the derived exponents (section 5.2.1 of RFC 8017, second form) equals m^d mod n, for every m |
| RsaSigning.ImportedSignsAlike | src/key/mod.rs:42-45 | the two forms of the imported key, (n, d) and the five-part one, sign every representative alike |
| RsaSigning.VerifyUndoesSign | src/key/mod.rs:38-45 | raising such a signature to e modulo n (section 5.2.2 of RFC 8017) gives the representative back |
| RsaSigning.CrtIsPlainIff | src/key/mod.rs:38-45 | among valid keys, the derived exponents sign every representative correctly if and only if neither factor is 2 |
| RsaSigning.OddFactorExample | src/key/mod.rs:38-45 | a valid key with odd factors exists, so the hypotheses above can be met |
| RsaSigning.EvenFactorExample | src/key/mod.rs:38-45 | a valid key with a factor 2 on which they fail |
| Keys.PrivateKeyFromWire | src/key/mod.rs:27-49 | reads the six numbers in order, fails on another key type or a cut message, panics when a factor is 1, and derives dp and dq |
| Keys.KeyPairFromWire | src/key/mod.rs:142-150 | the same with the name after it |
| Keys.PairFromWrittenWire | src/key/mod.rs:142-150 | a key and name sent in the form of draft-miller-ssh-agent-04 arrive with each of the six numbers in its own field, the two derived exponents, the public half of e and n, and the name |
| Keys.OtherTypesRefused | src/key/mod.rs:27-32 | an ADD or a blob that names another key type than "ssh-rsa" fails |
| Keys.ImportedFits | src/key/mod.rs:142-150 | whatever arrives in under 2^32 bytes can be listed again within 32-bit lengths |
| Keys.AlgorithmForFlags | src/key/mod.rs:69-73 | bit 2 of the flags selects rsa-sha2-512 and wins over bit 1, which selects rsa-sha2-256; otherwise ssh-rsa |
| Keys.Sign | src/key/mod.rs:62-83 | the signature blob is the algorithm's name and the signature, or nothing if signing fails |
| Keys.EncodePublic | src/key/mod.rs:94-106 | writes the blob that `Encode` describes |
| Keys.DecodePublic | src/key/mod.rs:108-117 | reads what `Decode` describes |
| Keys.DecodeEncode | src/key/mod.rs:94-117 | a blob decodes to its key whatever follows it, leaving exactly what follows |
| Keys.EncodeInjective | src/key/mod.rs:94-106 | different keys have different blobs, and none is a prefix of another |
| Keys.EncodeAfterDecode | src/key/mod.rs:94-117 | encoding after decoding keeps the key, and normalising a blob twice changes nothing more |
| Config.SerializeKeyPairs | src/key/ser.rs:60-78 | one table per key, in order |
| Config.DeserializeKeyPairs | src/key/ser.rs:37-54 | one key per table, in order, or failure if any PEM text is bad |
| Config.LoadConfig | src/config.rs:43-58 | a missing file is an empty list; unreadable, garbled or repeated tables fail |
| Config.KeyConfig.Save | src/config.rs:27-31 | the file becomes the serialized keys, or what a failed save leaves |
| Config.KeyConfig.Reload | src/config.rs:33-36 | the key list becomes the stored one, and stays as it is if loading fails |
| Config.LoadAfterSave | src/config.rs:27-58 | a saved list loads back to itself if and only if its names are distinct and its public halves match its private halves |
| Agent.FindKey | src/agent/mod.rs:73-80 | the first key with these public numbers, and none only if there is none |
| Agent.SshAgent.GetKey | src/agent/mod.rs:73-80 | the search loop finds that key |
| Agent.SshAgent.Add | src/agent/mod.rs:82-88 | appends and saves a key whose numbers are new, does nothing for one it holds |
| Agent.SshAgent.ListIdentities | src/agent/mod.rs:96-103 | writes the whole answer, or panics at a key that cannot be encoded |
| Agent.SshAgent.HandleRequestInternal | src/agent/mod.rs:90-131 | every arm leaves the result and the state that the specification of the request gives |
| Agent.SshAgent.HandleRequest | src/agent/mod.rs:133-141 | the same with every error turned into one FAILURE byte |
| AgentRuns.Start | src/main.rs:54-56 | the agent starts if the file loads and can be saved back, with the loaded keys |
| AgentRuns.ReloadAgent | src/platform/win/taskbar.rs:74-79 | the reload arm does to the agent what `Reloaded` does to its state |
| AgentRuns.RequestEffect | src/agent/mod.rs:82-131 | a request changes keys or file only by appending the one key of a readable ADD with new numbers, and then replies by the outcome of the save |
| AgentRuns.ErrorAtomicity | src/agent/mod.rs:90-141 | a request that fails at any depth replies [FAILURE] alone and changes nothing, except that an ADD whose save fails leaves its one key appended |
| AgentRuns.PanicExactly | src/agent/mod.rs:90-131 | a request panics exactly when it lists a key with a zero number or adds a readable key with a factor 1, and then changes nothing |
| AgentRuns.AnswerMattersOnlyIfAsked | src/agent/mod.rs:117 | the user's answer affects only requests that ask |
| AgentRuns.RunKeepsCoherence | src/key/mod.rs:133-150 | in every run, with reloads and edits, each public half is the public part of its private half |
| AgentRuns.RunKeepsDistinct | src/agent/mod.rs:73-88 | in every run without reload stored public keys stay pairwise distinct and the list only grows at its end |
| AgentRuns.AddRepeated | src/agent/mod.rs:82-88 | after a first ADD of a key, any two runs without reload that differ only in further ADDs of it, under whatever names and wherever they stand, end in the same state |
| Persistence.RunSyncedExactly | src/config.rs:27-36 | after any run of requests whose saves succeed and of reloads, the file loads back to the same ordered keys if and only if names are distinct, and a reload changes nothing |
| Persistence.RestartAfterRun | src/main.rs:54-56 | after such a run the agent restarts if and only if names are distinct, and with the same keys |
| Persistence.FirstStart | src/config.rs:49-56 | without a file the agent starts empty and in agreement with its new file |
| Persistence.ReloadReadsFile | src/platform/win/taskbar.rs:74-79 | after the user has put a saved list of keys in the file, a reload makes it the list in memory if its names are distinct, and otherwise leaves the keys as they are |
| Persistence.ReloadOfBadFile | src/config.rs:33-36 | a file that is no key file, or cannot be read, changes no keys on reload; a missing one empties the list |
| Persistence.StartOnBadFile | src/main.rs:54-56 | with such a file, or if the first save fails, the agent does not start |
| Persistence.OneBadTable | src/key/ser.rs:37-54 | one table with bad PEM text, or a repeated one, makes a reload change nothing and a start fail |
| Persistence.FailedWriteExample | src/config.rs:27-31 | a save that fails half way can leave a file with which the agent does not start |
| Persistence.RetryDoesNotSave | src/agent/mod.rs:82-88 | after a failed save, repeating the ADD reports SUCCESS and leaves the file alone |
| Persistence.FailedRetryExample | src/agent/mod.rs:82-88 | a key added twice to an agent just started, the first save failing: SUCCESS, the file still empty, and no key after a restart |
| Persistence.SuccessIsStoredExactly | src/agent/mod.rs:82-88 | after an ADD answered SUCCESS the file loads to the keys in memory if and only if it did so before, for a key already held, or no two names are the same with the new key |
| Persistence.SharedNameExample | src/agent/mod.rs:82-88 | two keys under one name, added with successful saves, stop the agent from restarting |
| Replies.RunKeepsFit | src/agent/wire.rs:27-31 | over every run of framed requests without reload no listed length overflows 32 bits |
| Replies.EveryReplyParses | src/agent/mod.rs:90-141 | every reply parses with no byte left over, to exactly the failure, success, key list or signature that the request called for, if that signature fits 32 bits of length |
| Replies.TrailingIgnored | src/agent/mod.rs:90-131 | bytes after a whole request in its frame make no difference |
| Transcript.EmptyAgent | src/agent/mod.rs:16-38 | in bytes: an agent without keys answers 11 with 12 and a zero count, and anything unknown or empty with 5 |
| Transcript.AddAnswered | src/agent/mod.rs:104-108 | the 47 bytes of an ADD are answered with 6, or 5 if the save fails, and leave the key they spell out |
| Transcript.ListAnswered | src/agent/mod.rs:96-103 | the bytes of the list with that key |
| Transcript.SignAnswered | src/agent/mod.rs:109-126 | the bytes of a SIGN request for it are answered with 14 and the nested algorithm and signature on yes, and with 5 on no |
| Transcript.Rfc4251Examples | src/agent/wire.rs:27-39 | the examples of section 5 of RFC 4251 are written as they stand there |
| Transcript.Rfc4251Negatives | src/agent/wire.rs:19-21 | its negative examples have their values, which the agent does not read |
| Replies.ListThenSign | src/agent/mod.rs:96-123 | the i-th blob of an IDENTITIES answer, sent back in a SIGN request, selects exactly the i-th key, which signs if the user agrees |
| Replies.SameNumbersSameKey | src/agent/mod.rs:109-115 | blobs that decode to the same numbers select the same key |
| SignedExchange.ImportListSignVerify | src/agent/mod.rs:96-123 | a valid key added, listed and asked to sign, with the user agreeing, gives a signature that passes every step of section 8.2.2 of RFC 8017 (length, range, padded message) with the listed blob |
| Frames.FramesAndLeftover | src/utils.rs:34-47 | the frames read and the bytes left account for the whole stream, and no further frame starts in what is left: cut header, zero length or cut body |
| Frames.FramesUnique | src/utils.rs:34-47 | there is no other way to cut a stream into valid frames and such a rest |
| Connection.Stream.Read | src/platform/win/pipe.rs:26-42 | one read takes from the first chunk alone, as much of it as fits the buffer, leaves the rest, and loses nothing |
| Connection.Stream.ReadExact | src/utils.rs:46-47 | reading exactly n bytes gives the next n delivered bytes however they are split, or fails if there are fewer |
| Connection.ConnectionHandler | src/utils.rs:32-59 | for every stream and every split into reads the loop ends, having served exactly the complete non-empty frames in order up to the first panic or failed write, with the state their handling leaves |
| Connection.AgentMutex.HandleLocked | src/utils.rs:49-52 | one request under the mutex, with poisoning |
| Connection.OutputExactly | src/utils.rs:49-54 | a connection is sent its replies, framed, in order; the first that cannot be written ends it, with as much of it sent as could be and no later frame handled |
| Connection.ReplyStreamDecodes | src/utils.rs:49-54 | the client's frame reader recovers from the output exactly one non-empty reply per handled request, in order, with nothing left over |
| Panics.ServePanicsExactly | src/agent/mod.rs:90-131 | serving a connection panics if and only if one of its requests adds a key with a factor 1, or lists while a key with a zero number is stored or has been sent before |
| Panics.OneReplyEach | src/utils.rs:49-54 | every frame is answered if and only if no such request is among them |
| Panics.ZeroKeyExample | src/agent/mod.rs:96-103 | ADD with e = 0, then LIST: SUCCESS, a panic, and no reply to anyone after that |
| Pageant.Exchange | src/platform/win/pageant/mod.rs:81-90 | the region ends as the output followed by its own old bytes if that fits, and unchanged otherwise or after a panic |
| Pageant.SingleRequest | src/platform/win/pageant/mod.rs:81-90 | with one request in the region, that output is the framed reply and the client reads it back |
| Pageant.PanicLeavesRegion | src/platform/win/pageant/mod.rs:81-90 | if any request in the region panics it is left as it was, even if others were answered before |
| Pageant.OneRequestExactly | src/platform/win/pageant/mod.rs:82-85 | a region that starts with a request holds just that one if and only if no frame starts after it |
| Pageant.SecondFrameExample | src/platform/win/pageant/mod.rs:81-90 | the same request in a region of the same size is answered when zeros follow it, and gets no answer at all when a second request does |
| ConcurrentSafety.ReachableInv | src/utils.rs:49-54 | every reachable state keeps the invariants: one mutex holder, one question, the log replays, streams agree with the log, a panic poisons, clicks agree with the answers used |
| ConcurrentResults.Serializable | src/utils.rs:34-55 | in every interleaving keys, file and replies are those of one sequential agent in mutex order; each connection's requests are handled in its own order, and its replies written in that order; an idle or finished client has had all of them |
| ConcurrentResults.ReplayIsRun | src/utils.rs:49-52 | keys and file after any log are those of a run of the agent alone, over its requests, reloads and edits |
| ConcurrentInputs.WorldDecides | src/platform/win/confirmation.rs:230 | in every run the clicks recorded are the buttons pressed, each thread has received what its client sent, a thread ends for a failed write only if one failed, the failed saves and edits are those that happened, and the reloads made are those chosen, each in its order |
| ConcurrentResults.LoggedByHolder | src/utils.rs:49-52 | requests and reloads enter the log only while their thread holds the mutex |
| ConcurrentResults.ClientReadsReplies | src/utils.rs:49-54 | a client that is idle or has ended its stream reads back exactly its replies, in order, from what was written to it |
| ConcurrentResults.LoneConnection | src/utils.rs:32-59 | after a run with one connection, no reload and no edit of the file, once its thread is up to date or has ended for any reason, output and shared state are those of the connection loop over the stream the client sent |
| ConcurrentResults.OneConfirmation | src/platform/win/confirmation.rs:267-280 | at most one confirmation is outstanding; its asker holds the mutex and waits, the answer goes to it, and the key shown is the one that will sign, which the user can recognise if the names shown are distinct |
| ConcurrentResults.SignaturesHaveConsent | src/agent/mod.rs:114-122 | all signatures ever given map one to one into the moves by which the user pressed OK, each on that connection's dialog and about the key that signed, recognisable if the names shown for the keys then held are distinct |
| ConcurrentResults.RecognisedExactly | src/platform/win/confirmation.rs:102 | the dialog tells each of several different keys from the others if and only if the names shown are distinct, as distinct names without NUL are |
| ConcurrentResults.SameLookExample | src/platform/win/confirmation.rs:102 | two different names that are shown alike |
| ConcurrentStalls.StalledForever | src/platform/win/pipe.rs:105-115 | once a thread holds the mutex on a walk that never ends, no step of anyone ever serves a request again |
| ConcurrentStalls.StalledByExactly | src/platform/win/pipe.rs:105-115 | a step leads there if and only if it locks the mutex, not poisoned, to describe a peer whose ancestors never end |
| ConcurrentStalls.StallReachable | src/platform/win/pipe.rs:105-115 | any such peer brings any agent there in two steps, without reload |
| ConcurrentStalls.StallExample | src/platform/win/pipe.rs:105-115 | the case of two processes that are each the parent of the other |
| ConcurrentPanics.PanickedExactly | src/utils.rs:49-52 | in runs without reload the mutex is poisoned if and only if the requests served, in its order, bring a panic |
| ConcurrentPanics.HarmlessClients | src/utils.rs:49-52 | if all keys can be listed at first and no client has sent a factor 1 or a zero number, nothing has panicked |
| ConcurrentProgress.Progress | src/platform/win/mod.rs:107-116 | a reachable state with a request under way has an enabled step, unless it is deadlocked or the process has crashed; the step may be one more of a walk that never ends |
| ConcurrentProgress.DoomedForever | src/platform/win/taskbar.rs:74-76 | once the main thread waits for the mutex while its holder waits for a dialog, or is about to ask, no step of anyone ever serves a request again |
| ConcurrentProgress.DeadlockReachable | src/platform/win/taskbar.rs:74-76 | for any SIGN request that asks, five steps doom the agent before it asks, and a sixth completes the deadlock |
| ConcurrentProgress.CanFinishExactly | src/platform/win/taskbar.rs:74-76 | short of a crash, the process and its user can finish all that is under way if and only if the state is not doomed, and every description under way or to come ends or a panic can come first; never from a stalled state |
| ConcurrentProgress.OvertakingReachable | src/platform/win/taskbar.rs:74-76 | for any SIGN request that asks, a run in which "reload" is chosen before the request has the mutex, and the request gets it first |
| ConcurrentProgress.DoomedByExactly | src/platform/win/taskbar.rs:74-76 | a step dooms the agent if and only if it chooses "reload" while the holder waits for an answer or is about to ask, or gives the mutex to a request that asks while the main thread wants to reload |
| ConcurrentProgress.FinishableAfterReload | src/platform/win/taskbar.rs:74-76 | in any reachable state, with "reload" chosen all can still be finished if and only if the holder of the mutex neither waits for an answer nor is about to ask, and the walks end or a panic can come first |
| ConcurrentProgress.NoDeadlockWithoutReload | src/platform/win/mod.rs:107-116 | in runs without reload the state is never doomed, something can always move while a request is under way, and all can be finished if and only if the walks end or a panic can come first |
| ConcurrentProgress.InternalRunsEnd | src/utils.rs:34-55 | left to itself with its user the process makes only finitely many steps, each step of a walk counted, unless it stalls |
| ConcurrentProgress.StalledWalksOn | src/platform/win/utils.rs:275-280 | a stalled process makes as many steps as one likes |
| ConcurrentProgress.CanSettle | src/utils.rs:34-55 | from any reachable state some such run reaches one where nothing can move, or that is stalled; the former if all walks end |
| ConcurrentProgress.EveryRequestAnswered | src/utils.rs:34-55 | without reload, when nothing can move any more, every connection, open or ended by its client, has had every complete request handled and one reply written for each, in order, unless a write to it failed, or the requests served bring a panic, which those of harmless clients do not |
| Requester.FindPrimaryWindow | src/platform/win/utils.rs:179-211 | the first visible window of the process, else its first window, else none |
| Requester.PrimaryReflectsOwnership | src/platform/win/utils.rs:179-211 | the window found is one of the process, there is one if and only if the process has any, and it is visible if and only if the process has a visible one |
| Requester.CollectProcesses | src/platform/win/utils.rs:275-280 | when no process is its own ancestor the walk ends with the process and all its ancestors, nearest first, each with its primary window |
| Requester.WalkEndsExactly | src/platform/win/utils.rs:275-280 | the walk ends from every process if and only if none is its own ancestor |
| Requester.CycleExample | src/platform/win/utils.rs:275-280 | two processes that are each the parent of the other, from which it never ends |
| Requester.ChooseRequester | src/platform/win/utils.rs:282-290 | the nearest process owning any visible window, else the nearest owning any window, else the requester |
| CopyId.SextetAlphabet | src/copy_id.rs:71 | the alphabet of section 4 of RFC 4648 |
| CopyId.TestVectors | src/copy_id.rs:71 | the test vectors of section 10 of RFC 4648 |
| CopyId.FromBase64Base64 | src/copy_id.rs:71 | base64 text determines the blob |
| CopyId.KeyLineForm | src/copy_id.rs:78-87 | the line is "ssh-rsa", the base64 and the name, with a space between |
| CopyId.AppendKey | src/copy_id.rs:64-90 | the file becomes `WithKey` of itself, or stays as it is if it is not text |
| CopyId.AppendKeepsLines | src/copy_id.rs:73-87 | old lines survive in order, the base64 occurs afterwards, and a second run changes nothing; for a name without a newline at most one line is added, and only if the base64 was absent |
| CopyId.OneLineExactly | src/copy_id.rs:78-87 | a key that is added takes one line and one more for each newline in its name, so exactly one if and only if the name has none |
| CopyId.TwoLinesExample | src/copy_id.rs:78-87 | a name that adds two lines |

## Left out

- OpenSSL: digests, PKCS#1 padding, the actual signing code and PEM text; they are the functions of `Crypto` and `Padding`.
- TOML text: the file is the ordered list of its tables, and loading fails on repeated names.
- Win32: windows, dialogs' layout, tooltips, handles, named pipe creation, process queries; they appear as arbitrary inputs.
- `describe`: the texts shown for processes, and panics while they are made.
- Changes of the relation of parents while the process runs: it is one relation, any one.
- Message loss inside the modal menu: the menu choice and the reload are each one step.
- The nested loop of the error box of a failed reload, shown while the main thread holds the mutex: a "reload" chosen there makes the thread wait for itself.
- What is logged: the errors of a request differ only there, so `Outcome` has one.
- "Quit" in the menu, which ends the process.
- The listener threads' own loops: each connection is introduced by a step of its own, so more interleavings are allowed than one listener per channel makes.
- What happens after a panic in the main thread: the process is taken to be gone.
- Memory exhaustion on large declared lengths.
- AgentRuns.PanicExactly: takes numbers of every size to be read; OpenSSL bounds them, and a longer one panics too.
- The unix platform, whose `handle_request` call has an older signature.
- `copy_id` networking and argument handling, failed writes to the remote file, and the erase option.
- Agent messages that are only declared as constants: they all take the FAILURE arm of `Process`.
- Config.LoadAfterSave: assumes that PEM text reads back to the same key, which is a property of OpenSSL.
- Replies.EveryReplyParses: assumes fewer than 2^32 stored keys and a signature under 2^32 bytes, because larger ones overflow the 32-bit counts.
- Connection.ReplyStreamDecodes: assumes replies under 2^32 bytes and writes that succeed, for the same reason.
