# brokit: models and proofs of its hard parts

brokit is a runtime library in C++ and JavaScript. This project models the parts of it
whose correctness rests on an argument rather than on a call to another library, in the
form the source has them (in-place loops as methods over arrays and objects, protocols as
machines of single steps), and proves what they promise for every input and every run.
`dafny verify dfyconfig.toml` checks all of it.

* **Web Crypto constructions.** AES Key Wrap, CTR with a partial-width counter,
  multiplication in GF(2^128), GHASH and the generic GCM, HKDF and base64url, over a block
  cipher that is any keyed permutation of 16-byte blocks and an HMAC that is any function
  of fixed output length (`KeyWrap`, `CounterMode`, `GaloisField`, `Gcm`, `Hkdf`; shared
  facts in `Common`, `Arith`, `Octets`, `BlockCipher`).
* **Protocols between threads.** The event ring of `FsWatcher`, the wake flag and wake
  pipe of the socket wait, the piped stdio of a child process with its poll loop, and the
  pool behind the asynchronous fs calls. Every atomic access, locked section, system call
  and JavaScript turn is one step; the theorems quantify over all interleavings
  (`WatchRing`, `WakePipe`, `ChildPipe`, `FsPool`), and tie what the machines record to the
  steps taken alone (`RingHistory`, `WakeHistory`, `ChildClose`, `PoolHistory`).
* **A TCP handle** with the kernel's answers as inputs (`TcpHandle`), and what it does told
  by them (`TcpTranscript`).
* **Streaming codecs.** The gzip/zlib/raw shell over an abstract inflater and deflater
  (`Inflate`, `GzipHeader`, `Codec`, `CodecState`, `Compressor`; its formats written out in
  `CodecMeaning`, `PackMeaning`), the streaming `TextDecoder` and `encodeInto` (`Utf8`,
  `TextDecoder`, `TextEncoder`, `TextMeaning`).
* **Parsers against printers.** Path normalization, join and resolve on POSIX and Windows
  (`PathNormal`, `PathLaws`, `PathMeaning`; for join `PathJoin`, `PathSecond`, `PathFirst`,
  `PathJoinLaws`; `PathResolve`; failing inputs in `PathJoinCases`), Windows argument
  quoting against the C runtime's splitter (`CommandLine`, `CommandCounts`), the base64
  codecs (`Base64`, `Base64Laws`, `Base64Meaning`) and the localStorage file (`Storage`,
  `StorageText`).

Each algorithm has a specification function or step function; the method that follows the
source is proved to compute it, and the laws are proved about it. Where code and
specification share a helper, a lemma says what the helper means without it.

## Properties that turned out to be conditional

Each of these is proved as an equivalence; where the failing inputs are not plain from it,
a lemma shows one.

* `path.normalize` is idempotent on POSIX. On Windows it fails exactly for a path without a
  drive whose first kept segment is `:.` under the root, or one character and `:.` without
  one (`PathLaws.NormalizeTwice`); at `.\C:.` the second pass reads a drive
  (`PathLaws.DotLostTheSecondTime`).
* On POSIX `join(normalize(a), normalize(b)) = join(a, b)` holds when `b` does not begin
  with a separator; when it does, exactly if `a` is not empty and `b` does not climb above
  its start or `a` is the root (`PathJoinLaws.JoinOfNormalsOnPosix`,
  `PathJoinCases.ClimbBehindRootIsLost`). `join(join(a, b), c) = join(a, b, c)` fails
  exactly if `a` and `b` are empty and `c` begins with a separator
  (`PathJoinLaws.JoinFlattensOnPosix`).
* On Windows both laws also depend on drives. `PathJoinLaws.JoinOfNormals` and
  `PathJoinLaws.JoinFlattens` give the exact condition on either platform, empty parts
  included (`JoinsAsNormal`, `Flattens`). For `a` and `b` that are not empty, the first law
  depends on how the normal form of `a` is read in front of more:
  - as `a` is. Then the law holds exactly if `b` is tame, or `a` has a root and the climbs
    normalizing leaves in `b` take all its names off. Tame are: no drive, and no climb behind a
    root; drive and root, and no climb behind them; a drive alone, and behind it nothing, a
    `..`, or a name that is not climbed past (`PathSecond.Kind`). It fails at `a`, `C:.`
    (`PathJoinCases.DotBehindDriveIsLost`) and at `a`, `C:\..\x`
    (`PathJoinCases.ClimbBehindDriveIsLost`).
  - as a drive with a root, where `a` comes to its drive alone. Then it fails, as at `C:.`,
    `x` (`PathJoinCases.DriveAloneIsRooted`).
  - as on a drive where `a` is not. Then it holds exactly if `b` is tame and the name taken
    for a drive is not climbed past, has no lone `.` behind its colon and, with nothing
    behind its colon, is not left alone. It fails at `.\C:x`, `..`
    (`PathJoinCases.NameTakenForDrive`).

  The second law holds under the same conditions on the text of `a` and `b` in place of `a`,
  and whether or not `c` is tame. It fails at `.`, `C:x`, `..` (the same lemma).
* `resolve` is changing directory part by part on POSIX, and on Windows under a directory on
  a drive (`PathResolve.ResolveUnderDirectory`). Under any other text it is for one more
  relative part exactly if the text gathered before it and the part flatten as in `join`
  (`PathResolve.ResolveIsChangingDirectory`, which also covers a working directory that
  could not be read); on a share it can fail (`PathJoinCases.ShareTakenForDrive`).
* The whole argv comes back from the Windows command line exactly when no argument holds a
  NUL, the program name holds no quote and, if it had to be quoted, it does not end in a
  backslash (`CommandLine.ArgvComesBack`). The arguments behind the program name come back
  exactly when none of them holds a NUL and the quoted name is read to its end, out of its
  quotes or in them when nothing follows (`CommandCounts.ArgumentsComeBack`); the name
  `a" b` is not (`CommandLine.OpenNameSpills`).
* A decompressor's verdict does not depend on how its input is cut, whatever the input's
  length, if and only if every push offers the stream less than 2^32 bytes
  (`Codec.FitsExactlyWhenCuttingDoesNotShow`), because `avail_in` is a 32-bit count
  (src/api/compression.cpp:239 and 260). Pieces below 2^32 bytes always fit
  (`Codec.ShortPiecesFit`). `Codec.LongChunkGoesUnseen` is a family of inputs that show it.
  For the same reason compressing and decompressing gives the data back if and only if no
  chunk of it was 2^32 bytes or longer (`Compressor.DecompressOfCompress`).
* A completed `wakeNetWait` ends the current select if and only if the wake pipe could be
  created and its descriptor is below FD_SETSIZE (`WakePipe.WakesTheSelect`;
  `WakePipe.PipeFailureLosesAWake`, `WakePipe.HighDescriptorLosesAWake`).
* api.h:158-161 promises that `waitForNetEvents` returns true when `wakeNetWait` is called.
  The code can answer a wake and return false, exactly when the last thing the wait's select
  did was to report nothing ready or to fail (`WakePipe.WakeAnsweredWithFalse`,
  `WakePipe.WakeReportedAsTimeout`). The model follows the code.
* A stored localStorage item is read back exactly when its key is not empty
  (`Storage.LoadOfSave`).
* A clean TCP close means every accepted byte was handed over, if and only if JavaScript did
  not close the open handle with output pending (`TcpHandle.CleanCloseSentEverything`,
  `TcpHandle.CloseDropsAByte`).
* On the drained path a child's `close` comes after every byte written, unless and only
  unless a reader's poll or read failed while its pipe held bytes or with bytes still to
  come (`ChildPipe.DrainedCloseMissesNothing`, `ChildPipe.DrainedCloseWithABytePending`).
  Without the eofs it comes only after 2000 ms of silence
  (`ChildClose.CloseWaitsOutTheGrace`).

## What the models take for granted

* Atomics are sequentially consistent, and one call of `recv`, `send`, `read`, `write` or
  `select` is one step. `recv` gives at least a byte or none, and none after end of file
  (`TcpHandle.Legal`); `send` takes at least one byte of what it is offered when it takes any.
* A connecting handle's descriptor is below FD_SETSIZE: src/api/net.cpp:680-681 puts it into
  a set with no guard.
* In the pool, thread ids are not reused, and settling a promise does not call back into an
  fs operation before the tick is over.
* The inflater is a function of the bytes it has eaten, and its stream leaves no output
  pending unless it filled its buffer; the deflater takes a whole input on its first call.
* The decoder behind `TextDecoder` undoes the UTF-8 encoder on well-formed input, as
  `Utf8.Decode` does (`Utf8.DecodeIsFaithful`).

## Model

| member | source | states |
|---|---|---|
| KeyWrap.UnwrapOfWrap | src/api/crypto_subtle_kdf.cpp:613-659 | For every key permutation, key data of 16 bytes or more in multiples of 8 is wrapped, and unwrapping gives it back. |
| KeyWrap.WrapOfUnwrap | src/api/crypto_subtle_kdf.cpp:636-659 | An unwrap that succeeds was given the wrapping of its own answer. |
| KeyWrap.UnwrapAcceptsTheImage | src/api/crypto_subtle_kdf.cpp:654-656 | Unwrap accepts a string if and only if it is the wrapping of something, of one thing only. |
| KeyWrap.WrapIsShiftForm | src/api/crypto_subtle_kdf.cpp:613-634 | Wrapping is the shift-register form of section 2.2.1 of RFC 3394, stated over the bytes of the step number and of the initial value, and refuses exactly short or ragged key data and a key without a cipher. |
| KeyWrap.XorTIsNumber | src/api/crypto_subtle_kdf.cpp:588-591 | What the step number changes in the register, read as a big-endian number, is the step number, for all of 64 bits. |
| KeyWrap.RunsCancel | src/api/crypto_subtle_kdf.cpp:621-653 | Any number of unwrap steps undoes as many wrap steps, and the other way round. |
| KeyWrap.XorTInPlace | src/api/crypto_subtle_kdf.cpp:588-591 | The byte loop, which takes the step number apart from its low byte, xors it into the register. |
| KeyWrap.AesKwWrap | src/api/crypto_subtle_kdf.cpp:613-634 | The in-place loops compute the wrapping, and refuse exactly the lengths the source refuses. |
| KeyWrap.AesKwUnwrap | src/api/crypto_subtle_kdf.cpp:636-659 | The in-place loops compute the unwrapping with its integrity check. |
| CounterMode.IncrementIsBump | src/api/crypto_subtle_kdf.cpp:573-583 | Read as a big-endian number, the increment adds one modulo 2^bits to the low bits and keeps the rest. |
| CounterMode.CounterBlockValue | src/api/crypto_subtle_kdf.cpp:602-605 | The b-th counter block is the first with b added modulo 2^bits. |
| CounterMode.CtrRefusesExactlyRepeats | src/api/crypto_subtle_kdf.cpp:597-598 | On n blocks, the last perhaps not whole, the call goes through if and only if no two of the n counter blocks coincide and, if there is a block, the key has a cipher. |
| CounterMode.RepeatsAfterPeriod | src/api/crypto_subtle_kdf.cpp:573-583 | After 2^bits increments the block is back where it started. |
| CounterMode.CtrIsItsOwnInverse | src/api/crypto_subtle_kdf.cpp:595-611 | Applying the call to its own output gives the input back. |
| CounterMode.CtrByte | src/api/crypto_subtle_kdf.cpp:606-609 | Byte k is the input byte against byte k mod 16 of the enciphered block k / 16 (section 6.5 of NIST SP 800-38A). |
| CounterMode.CtrIncrement | src/api/crypto_subtle_kdf.cpp:573-583 | The in-place loop with its mask and early return computes the increment. |
| CounterMode.AesCtr | src/api/crypto_subtle_kdf.cpp:595-611 | The method computes the specification, refusal included. |
| GaloisField.GfMul | src/api/crypto_subtle_kdf.cpp:198-211 | The loop over hi and lo words computes the bit-string product of section 6.3 of NIST SP 800-38D. |
| GaloisField.MulIsBilinear | src/api/crypto_subtle_kdf.cpp:197-211 | The product distributes over xor on both sides. |
| GaloisField.MulCommutes | src/api/crypto_subtle_kdf.cpp:197-211 | The product commutes. |
| GaloisField.MulAssociates | src/api/crypto_subtle_kdf.cpp:197-211 | The product associates. |
| GaloisField.OneIsIdentity | src/api/crypto_subtle_kdf.cpp:197-211 | The block 1 followed by 127 zeros is the identity. |
| GaloisField.PowersMultiply | src/api/crypto_subtle_kdf.cpp:198-211 | Bit i stands for the i-th power: below 128 the exponents of a product add up. |
| GaloisField.TopPowerWraps | src/api/crypto_subtle_kdf.cpp:198-211 | The 128th power is 1 plus the first, second and seventh. |
| Gcm.StoreOfLoadBlock | src/api/crypto_subtle_kdf.cpp:183-195 | Storing a loaded block gives the same 16 bytes. |
| Gcm.LoadOfStoreBlock | src/api/crypto_subtle_kdf.cpp:183-195 | Loading a stored block gives the same words. |
| Gcm.LoadBlockBits | src/api/crypto_subtle_kdf.cpp:183-189 | The words of a loaded block are the block's bits, most significant first. |
| Gcm.BitsOfBlock | src/api/crypto_subtle_kdf.cpp:183-195 | Bit 8i + r of a block is bit r of byte i by its mask, the most significant first, and the block of those bits is the block. |
| Gcm.Load | src/api/crypto_subtle_kdf.cpp:183-189 | The two shifting loops load the block's words. |
| Gcm.GhashOfConcat | src/api/crypto_subtle_kdf.cpp:213-232 | Hashing in pieces of whole blocks is hashing the concatenation. |
| Gcm.GhashIsPolynomial | src/api/crypto_subtle_kdf.cpp:213-225 | GHASH is the polynomial in the hash key with the blocks for coefficients, the last at the first power. |
| Gcm.Ghash.Update | src/api/crypto_subtle_kdf.cpp:215-225 | The state moves on by GHASH of the zero-padded data (section 6.4 of NIST SP 800-38D). |
| Gcm.Ghash.Lengths | src/api/crypto_subtle_kdf.cpp:226-231 | The state moves on by GHASH of the block of the two bit lengths. |
| Gcm.GcmCounterIsInc32 | src/api/crypto_subtle_kdf.cpp:252-264 | The counter blocks are J0 under repeated inc32, the top 12 bytes unchanged. |
| Gcm.AesGcmGeneric | src/api/crypto_subtle_kdf.cpp:234-293 | The method computes J0, counters, keystream, text and tag of sections 7.1 and 7.2, and opens only on an equal tag. |
| Gcm.GctrByte | src/api/crypto_subtle_kdf.cpp:252-270 | Byte k of the text is byte k of the input against byte k mod 16 of the enciphered counter block k / 16 + 1. |
| Gcm.TagByte | src/api/crypto_subtle_kdf.cpp:272-277 | Byte k of the tag is that of the GHASH of additional data, ciphertext, each padded with zeros, and their bit lengths, against the enciphered J0. |
| Gcm.MakeJ0 | src/api/crypto_subtle_kdf.cpp:241-250 | The initial counter block for an IV of any length. |
| Gcm.InitialCounterIs | src/api/crypto_subtle_kdf.cpp:241-250 | J0 is a 12-byte IV with the counter at one, and otherwise the GHASH of the padded IV, 64 zero bits and its bit length. |
| Gcm.SealIs | src/api/crypto_subtle.cpp:485-512 | A seal is the text and as many bytes of the tag as the length asked for, one of seven; sealing fails without an IV, for another length or without a cipher, in that order. |
| Gcm.OpenFails | src/api/crypto_subtle.cpp:485-522 | Opening fails for the same reasons, on less than a tag, and on a wrong tag, each with its error. |
| Gcm.OpenOfSeal | src/api/crypto_subtle.cpp:485-522 | For every non-empty IV, additional data and allowed tag length the data is sealed, and decrypting ciphertext and truncated tag returns it. |
| Gcm.SealOfOpen | src/api/crypto_subtle.cpp:485-522 | What opens is the seal of the text it opens to. |
| Gcm.OpensExactlyTheSeals | src/api/crypto_subtle.cpp:485-522 | Decryption accepts exactly the seals made with the same inputs, each of one text only. |
| Hkdf.Derive | src/api/crypto_subtle_kdf.cpp:548-567 | With its one-byte block counter the loop gives the first octets of T(1), T(2), ... of section 2.3 of RFC 5869, or nothing past 255 blocks, for an unknown hash or if an HMAC call fails. |
| Hkdf.DerivedIs | src/api/crypto_subtle_kdf.cpp:548-567 | What is derived is the first bytes of any blocks that satisfy T(i) = HMAC(PRK, T(i - 1), info, i). |
| Hkdf.DerivedWhen | src/api/crypto_subtle_kdf.cpp:548-567 | Nothing is derived if and only if the hash is unknown, the length is past 255 blocks, or there are no such blocks because a call of HMAC fails. |
| Hkdf.ShorterIsPrefix | src/api/crypto_subtle_kdf.cpp:558-565 | A shorter derivation is the beginning of a longer one. |
| WatchRing.EveryInterleaving | src/api/fs_watch.cpp:36-64 | Drained events then ring contents are the accepted pushes in order, the sides never share a slot, at most kCap - 1 are held, the flag is up exactly while a drop is unreported, and the exchange that ends a drain emits one Error exactly then. |
| WatchRing.DropsOnlyWhenFull | src/api/fs_watch.cpp:38-45 | A push is turned away exactly when kCap - 1 slots are still the reader's. |
| WatchRing.ContentsAreTheRest | src/api/fs_watch.cpp:52-60 | Under the invariant, what is in the ring is what was accepted and not drained. |
| RingHistory.EveryPushIsSettled | src/api/fs_watch.cpp:36-50 | The pushes, each as it was called, are in order those accepted or dropped and the one on its way. |
| RingHistory.DrainsEndInTheExchange | src/api/fs_watch.cpp:52-64 | Every drain that has ended went through the exchange of the flag. |
| RingHistory.StopsExactlyWhenEmpty | src/api/fs_watch.cpp:54-56 | A drain leaves its loop if and only if everything accepted has been handed out. |
| WatchRing.FsWatcher.PushEvent | src/api/fs_watch.cpp:36-50 | Appends to the queue, or with the ring full leaves it and raises the flag. |
| WatchRing.FsWatcher.Drain | src/api/fs_watch.cpp:52-64 | Hands out the whole queue in order and the Error if the flag was up, and leaves both clear. |
| WakePipe.NoLostWakeUp | src/api/net_wait.cpp:68-93 | In any interleaving an unanswered wake keeps the flag up, turns the next wait away, and for a wait past its check has a byte in the pipe or a writer about to put one there. |
| WakePipe.WakesTheSelect | src/api/net_wait.cpp:105-160 | With the wakers returned, an unanswered wake ends the select, and keeps it from reporting nothing, if and only if the pipe exists and its descriptor is below FD_SETSIZE. |
| WakePipe.PipeFailureLosesAWake | src/api/net_wait.cpp:71-72 | A run in which, the pipe missing, a wake does not end the select. |
| WakePipe.HighDescriptorLosesAWake | src/api/net_wait.cpp:105-117 | A run in which the pipe is there with a byte in it, its descriptor is too high for select, and the wake does not end the select. |
| WakePipe.WakeAnsweredWithFalse | src/api/net_wait.cpp:150-160 | A wait that answered a wake returned false if and only if, by the order of the run's steps, its last select reported nothing ready or failed. |
| WakePipe.TimeoutCameFirst | src/api/net_wait.cpp:150-160 | If that select did not fail and watched the pipe, it ended before any call the wait answered had written its byte. |
| WakePipe.WakeReportedAsTimeout | src/api/net_wait.cpp:156-160 | A run in which a wake is answered by a wait that returns false. |
| WakeHistory.StateIsHistory | src/api/net_wait.cpp:52-82 | The flag is up exactly if some call exchanged it since it was last cleared, those calls are the unanswered ones, and the pipe's existence and contents are what the steps made of it. |
| WakeHistory.EveryWaitsResult | src/api/net_wait.cpp:84-160 | Every wait that is over returned false exactly if it took that way round the select, or its select reported nothing ready or failed. |
| WakeHistory.OneWriterPerClearing | src/api/net_wait.cpp:68-82 | Between two clearings the first call to exchange the flag writes to the pipe, and no other. |
| ChildPipe.NothingLostOrReordered | src/api/child_process_spawn.cpp:93-141 | Delivered, held by the poll, buffered, in the reader's hand and in the kernel are, in order, what the child wrote; the buffer stays within the high-water mark. |
| ChildPipe.CloseIsLast | src/api/js/child_process.js:403-415 | `close` fires at most once, last, right behind the two `end`s. |
| ChildPipe.DrainedCloseMissesNothing | src/api/js/child_process.js:461-467 | A close on the drained path comes after exit, and what was delivered of a stream differs from what was written if and only if that reader's poll or read failed while the pipe held bytes or with bytes still to come. |
| ChildPipe.DrainedCloseWithABytePending | src/api/child_process_spawn.cpp:109-113 | A run in which poll fails with a byte in the pipe and the close is a drained one all the same. |
| ChildPipe.KernelIsFailure | src/api/child_process_spawn.cpp:93-141 | At a drained close bytes are left in a pipe if and only if its reader failed too soon. |
| ChildClose.CloseWaitsOutTheGrace | src/api/js/child_process.js:461-467 | `close` without both eofs and without an error comes only when, with exit emitted, the clock reads more than 2000 ms past the last sign of life, since when nothing was handed over. |
| ChildClose.ClosesExactly | src/api/js/child_process.js:461-471 | At the end of a turn the loop closes if and only if exit was emitted and either both eofs are known or more than 2000 ms are over; otherwise it re-arms and emits nothing. |
| ChildClose.GotIsData | src/api/js/child_process.js:431-436 | A turn counts as one with data, which restarts the grace period, exactly if it handed some over. |
| ChildClose.CloseThrewIsThrown | src/api/js/child_process.js:424-446 | A `close` for an error comes only from a native that threw. |
| ChildClose.ExitIsExit | src/api/js/child_process.js:440-459 | `exit` has been emitted if and only if the process had exited before some poll. |
| ChildClose.DeliveredIsWritten | src/api/child_process_spawn.cpp:93-141 | What a stream's listeners get is the beginning of what the writers put into its pipe. |
| ChildClose.ReaderMoves | src/api/child_process_spawn.cpp:99-138 | A reader below the mark with bytes in the pipe can move any number that fits the mark and its 262144-byte buffer. |
| ChildPipe.EofIsFinal | src/api/child_process_spawn.cpp:541-552 | Once `take` has reported eof, no continuation delivers another byte of that stream. |
| ChildPipe.PipeBuf.Take | src/api/child_process_spawn.cpp:541-552 | Hands out the whole buffer, leaves it empty, and reports eof as it was under the same lock. |
| ChildPipe.PipeBuf.Append | src/api/child_process_spawn.cpp:136-137 | The chunk goes behind what is buffered. |
| TcpHandle.EveryRun | src/api/net.cpp:380-430 | Events are Connect? Data* End? and one ending; nothing is done on a closed socket; one FIN with no send behind it; bytes taken by the kernel then outBuf are the bytes accepted. |
| TcpHandle.PhaseIsGrammar | src/api/net.cpp:152-187 | The event automaton accepts only histories of that shape, an Error always directly before Close(true). |
| TcpHandle.StepInv | src/api/net.cpp:628-756 | Every native call, poll, tick and sweep keeps the invariant. |
| TcpHandle.ClosedIsFinal | src/api/net.cpp:142-170 | A closed handle does nothing more to the socket and queues nothing more. |
| TcpHandle.CleanCloseSentEverything | src/api/net.cpp:723-754 | Behind a Close without error every accepted byte was handed over if and only if no close call was made on the open handle with bytes waiting; without any close call the peer's end was seen and the FIN sent. |
| TcpHandle.CloseDropsAByte | src/api/net.cpp:421-430 | A run in which such a close call drops a byte. |
| TcpTranscript.Transcript | src/api/net.cpp:246-756 | In every run the events queued are in order those of the kernel's answers and of what was asked for; bytes accepted are those of writes to an open handle not asked to end; bytes handed over are the first of what was there, as many as the kernel took; polls and sweeps count as the source has it. |
| TcpTranscript.ReceivedIsGiven | src/api/net.cpp:712-722 | In every run the bytes of the `Data` events, end to end, are the bytes recv gave. |
| TcpTranscript.EndsInTime | src/api/net.cpp:246-268 | A connected, open handle asked to end with nothing left to send has sent its FIN, and with the peer's end seen as well it is closed. |
| TcpTranscript.FlushIs | src/api/net.cpp:246-268 | A flush hands over the first bytes, as many as the kernel takes; then the FIN if all are gone and it is due, or the failure if the kernel refused. |
| TcpTranscript.ReceiveIs | src/api/net.cpp:712-745 | A tick's reads become one event each, up to eight and none after one that ends the loop. |
| TcpHandle.NetHandle.FlushOutBuf | src/api/net.cpp:246-268 | The send loop computes the flush step, FIN and failure included. |
| TcpHandle.NetHandle.ReceiveAll | src/api/net.cpp:712-745 | The bounded read loop computes the receive step. |
| TcpHandle.NetHandle.TickOnce | src/api/net.cpp:675-756 | A connection's turn in the tick computes the tick step. |
| TcpHandle.NetHandle.WriteBytes | src/api/net.cpp:380-396 | Accepts the bytes, or refuses on a closed, ending or shut-down handle. |
| TcpHandle.NetHandle.EndWriting | src/api/net.cpp:401-416 | Requests the FIN, and closes at once if the peer has ended already. |
| TcpHandle.NetHandle.FailHandle | src/api/net.cpp:160-170 | Error, closed socket, Close(true); nothing on a closed handle. |
| FsPool.EveryJobInOnePlace | src/api/fs_async.cpp:271-336 | In every interleaving an issued job is being submitted, queued, running or run exactly once, and its run's record is in exactly one place. |
| FsPool.SettledOnceWithItsResult | src/api/fs_async.cpp:678-693 | A promise is settled at most once, with a result its job's run gave, and is outstanding exactly while issued and not settled. |
| FsPool.OnlyTheOwnerSettles | src/api/fs_async.cpp:678-693 | Only the owner's tick settles a job, and no other step settles any. |
| FsPool.NoPromiseLeftBehind | src/api/fs_async.cpp:271-336 | With nothing queued, running, finished or in a tick, no promise is outstanding. |
| PoolHistory.FirstComeFirstServed | src/api/fs_async.cpp:274-283 | The jobs started and those queued are in order the calls handed to the pool, numbered from 1 for each owner. |
| PoolHistory.SettledWithWhatWasWorked | src/api/fs_async.cpp:317-326 | A promise is settled with what its own job came to when a pool thread ran it. |
| PoolHistory.SettledInOrder | src/api/fs_async.cpp:285-294 | An owner's promises are settled in the order its jobs were finished in. |
| FsPool.StepInv | src/api/fs_async.cpp:271-336 | Every step of submitters, pool threads and ticks keeps the counts. |
| GzipHeader.ParseGzipHeader | src/api/compression.cpp:139-169 | The answer is the length of the header the bytes start with, 0 if and only if they start with none (section 2.3 of RFC 1952). |
| GzipHeader.HeaderUnique | src/api/compression.cpp:139-169 | Headers are prefix-free. |
| GzipHeader.HeaderStable | src/api/compression.cpp:139-169 | A header stays one under appended bytes. |
| GzipHeader.BadMagicIsFinal | src/api/compression.cpp:228-229 | After two wrong bytes no continuation has a header, so the early throw is right. |
| CodecMeaning.HeaderIsWritten | src/api/compression.cpp:139-169 | A string starts with a header of n bytes if and only if those are magic, method, flags, six bytes and the parts the flags announce, in order. |
| CodecMeaning.MagicIsCheckedAtOnce | src/api/compression.cpp:228-229 | Two wrong bytes at the front are refused by the push that brings the second. |
| Inflate.FeedConcat | src/api/compression.cpp:111-137 | Feeding the inflater in two pieces is feeding it at once. |
| CodecState.Decompressor.PumpInflate | src/api/compression.cpp:111-137 | However much each inflater call eats, the loop puts out exactly what the input makes and stops with all of it eaten or at the stream's end. |
| CodecState.Decompressor.Push | src/api/compression.cpp:193-280 | The object takes the push step, header buffering and trailer collection included. |
| CodecState.Decompressor.Finish | src/api/compression.cpp:326-343 | The object takes the finish step with its length, CRC and size checks. |
| Codec.DecompressIsDecoded | src/api/compression.cpp:171-344 | However long the input and however it is cut into pieces that fit, pushing and finishing accepts exactly the well-formed inputs and gives out what they decompress to. |
| CodecMeaning.GzipMeaning | src/api/compression.cpp:193-344 | However it is cut into pieces that fit, a gzip member is decompressed to what the inflater makes of it if and only if eight bytes follow with the checksum and the length of that, lowest byte first. |
| CodecMeaning.PlainMeaning | src/api/compression.cpp:252-280 | In the other formats nothing may follow the stream. |
| CodecMeaning.BrokenMeaning | src/api/compression.cpp:193-344 | A stream that breaks or does not end, and a gzip member without a header, is refused. |
| CodecMeaning.OutputIsPrompt | src/api/compression.cpp:111-137 | What the pushes have given out so far is all the inflater makes of what they brought. |
| CodecMeaning.FinishedIsClosed | src/api/compression.cpp:174-176 | A codec that has finished takes no more. |
| Codec.FitsExactlyWhenCuttingDoesNotShow | src/api/compression.cpp:236-260 | The pieces fit if and only if for every inflater and checksum the outcome is that of the uncut input. |
| Codec.ShortPiecesFit | src/api/compression.cpp:236-260 | Pieces below 2^32 bytes always fit, in every format. |
| Codec.ChunkingDoesNotMatter | src/api/compression.cpp:171-344 | Any two cuttings of one input into pieces that fit reach one verdict and one output. |
| Codec.LongChunkGoesUnseen | src/api/compression.cpp:258-260 | Junk of a multiple of 2^32 bytes behind a raw stream is accepted in one chunk and refused as a chunk of its own. |
| Codec.CrcConcat | src/api/compression.cpp:120-124 | The running CRC over the pieces is the CRC of the output. |
| Compressor.DecompressOfCompress | src/api/compression.cpp:193-212 | Whatever chunks the data came in and however the result is cut, decompressing gives the data back if and only if no chunk was 2^32 bytes or longer. |
| Compressor.RunIs | src/api/compression.cpp:289-323 | For all chunks the compressor's output is one header, the packed data as far as the deflater got it, and the CRC and size of everything pushed. |
| PackMeaning.CompressIs | src/api/compression.cpp:193-323 | Chunks below 2^32 bytes come out as the ten header bytes, the deflated data, and checksum and length lowest byte first; in the other formats as the deflated data alone. |
| Compressor.Packer.Push | src/api/compression.cpp:193-212 | The object takes the compressing push step. |
| Compressor.Packer.Finish | src/api/compression.cpp:291-323 | The object takes the compressing finish step. |
| TextDecoder.StreamingIsOneCall | src/api/js/encoding.js:92-160 | For well-formed UTF-8 in any chunks, the texts of the streaming calls and the last one are the text of one call. |
| TextDecoder.StreamingDecode | src/api/js/encoding.js:92-160 | The same with the decoder of this project behind it, with nothing assumed. |
| TextDecoder.OneCall | src/api/js/encoding.js:123-150 | A streaming call decodes whole code points only and keeps the start of the next. |
| TextDecoder.CutIsPartial | src/api/js/encoding.js:124-144 | The cut falls exactly in front of an unfinished code point, and nowhere else. |
| TextMeaning.CutIs | src/api/js/encoding.js:124-144 | Whatever the bytes, a streaming call keeps the last k if and only if they are one to three bytes that start a longer code point. |
| TextMeaning.EncodeSorts | src/api/js/encoding.js:8-57 | UTF-8 sorts as the code points do, with bytes from 0x80 to 0xBF behind the first. |
| TextMeaning.EncodeAtTheEnds | src/api/js/encoding.js:8-57 | The encodings at both ends of each length and of the surrogates' gap, byte by byte. |
| TextMeaning.ScalarsStart | src/api/js/encoding.js:20-34 | A surrogate pair is one code point, a surrogate without its half is U+FFFD, any other unit is itself. |
| TextDecoder.NothingLost | src/api/js/encoding.js:106-149 | For arbitrary bytes, what is decoded and what is kept are what came in, at most 3 bytes kept, none after a last call. |
| TextDecoder.Decoder.Decode | src/api/js/encoding.js:92-160 | The method with its pending buffer computes that cut. |
| TextEncoder.EncodeInto | src/api/js/encoding.js:8-83 | The loop writes the fitting prefix in place, reports units read and bytes written, and leaves the rest of the buffer. |
| TextEncoder.FitIsMaximal | src/api/js/encoding.js:58-60 | The buffer holds the encoding of what was read, no pair is split, and the next code point would not have fitted. |
| TextEncoder.DecodeOfFit | src/api/js/encoding.js:8-83 | Decoding the buffer gives the code points read. |
| TextEncoder.TextSurvives | src/api/js/encoding.js:20-34 | Well-formed text comes back whole from a large enough buffer. |
| PathNormal.NormalizeInto | src/api/path.cpp:54-91 | The in-place pass with its counters and truncation computes the fold of the segments over a stack. |
| PathNormal.FoldKeepsClean | src/api/path.cpp:65-89 | The stack never holds an empty or "." segment, and ".." only in front of a relative path. |
| PathMeaning.NormalTexts | src/api/path.cpp:54-91 | On POSIX a text is its own normal form if and only if it is `.`, the root, or names behind `..` or behind the root with one slash between each two. |
| PathMeaning.SamePath | src/api/path.cpp:54-91 | Behind any text a second slash, a `.`, a name with `..` behind it and a slash at the end make no difference. |
| PathMeaning.SameStart | src/api/path.cpp:54-91 | Nor do they at the front, and the root stops `..`. |
| PathMeaning.EitherSlash | src/api/path.cpp:33-89 | A backslash separates on POSIX as a slash does. |
| PathMeaning.WindowsIsPosix | src/api/path.cpp:35-91 | On Windows two characters that end in a colon stay in front, and the rest is normalized as on POSIX and written with backslashes. |
| PathLaws.NormalizeTwice | src/api/path.cpp:54-91 | Normalizing is idempotent, except exactly on Windows for a driveless path whose first kept segment reads as a drive and a dot. |
| PathLaws.DotLostTheSecondTime | src/api/path.cpp:42-59 | The input at which it fails. |
| PathJoinLaws.JoinOfNormals | src/api/path.cpp:102-115 | On both platforms, for all `a` and `b`: joining the normal forms is joining the paths if and only if `JoinsAsNormal`, a condition on the drives, the climbs and the first segment. |
| PathJoinLaws.JoinFlattens | src/api/path.cpp:102-115 | On both platforms, for all `a`, `b` and `c`: joining in two steps is joining at once if and only if the text of `a` and `b` flattens before `c`. |
| PathJoinLaws.JoinOfNormalsOnPosix | src/api/path.cpp:102-115 | On POSIX the condition is: if `b` begins with a separator, `a` is not empty and `b` does not climb or `a` is the root. |
| PathJoinLaws.JoinFlattensOnPosix | src/api/path.cpp:102-115 | On POSIX it is: `a` or `b` is not empty or `c` does not begin with a separator. |
| PathSecond.Kind | src/api/path.cpp:51-86 | What normalizing does to the reduced segments a second part brings: nothing exactly if it is tame, climbs taken away if it is deep, and otherwise other names or more of them. |
| PathJoinCases.DotBehindDriveIsLost | src/api/path.cpp:102-115 | On Windows `a` and `C:.` join to `a\C:.`, and their normal forms to `a\C:`. |
| PathJoinCases.ClimbBehindDriveIsLost | src/api/path.cpp:102-115 | On Windows `a` and `C:\..\x` join to `a\x`, and their normal forms to `a\C:\x`. |
| PathJoinCases.DriveAloneIsRooted | src/api/path.cpp:102-115 | On Windows `C:.` and `x` join to `C:x`, and their normal forms to `C:\x`. |
| PathJoinCases.NameTakenForDrive | src/api/path.cpp:102-115 | On Windows `.`, `C:x` and `..` join to `.`, and in two steps to `C:`; and the same for `.\C:x` and `..` against their normal forms. |
| PathJoinCases.ClimbBehindRootIsLost | src/api/path.cpp:102-115 | On POSIX `a` and `/../b` join to `b`, and their normal forms to `a/b`. |
| PathLaws.Join | src/api/path.cpp:102-115 | The loop joins the non-empty parts and normalizes; nothing gives ".". |
| PathMeaning.JoinIsGluing | src/api/path.cpp:102-115 | Joining one path is normalizing it, joining nothing is `.`, an empty part makes no difference, and two others may be put together with the platform's separator first. |
| PathLaws.Replay | src/api/path.cpp:65-89 | A relative path may be reduced on its own before it is applied to another. |
| PathResolve.Resolve | src/api/path.cpp:139-155 | The loop from the right gathers the text that is normalized. |
| PathResolve.ResolveIsChangingDirectory | src/api/path.cpp:139-155 | On both platforms and under any working directory: one part more leads where changing directory from the result so far does, if and only if it is empty, absolute, or goes on from the gathered text. |
| PathResolve.ResolveUnderDirectory | src/api/path.cpp:139-155 | On POSIX, and on Windows under a directory on a drive, it always does. |
| PathJoinCases.ShareTakenForDrive | src/api/path.cpp:139-155 | On Windows under `\\:a`, `..` resolves to `\`, and changing directory ends in `\:`. |
| PathResolve.ResolveIsAbsoluteAndNormal | src/api/path.cpp:139-155 | Under an absolute directory the result is absolute and normal. |
| CommandLine.QuoteArg | src/api/child_process.cpp:121-140 | The loop with its backslash counter computes the quoting. |
| CommandLine.QuotedWhen | src/api/child_process.cpp:121-140 | An argument is left as it is if and only if it is not empty and holds no space, tab, line feed, vertical tab or quote; otherwise it is put between quotes. |
| CommandLine.LineOfBoth | src/api/child_process.cpp:241-246 | The line of two argument lists is theirs with one space between. |
| CommandLine.BuildLine | src/api/child_process.cpp:241-246 | The arguments quoted and joined with spaces. |
| CommandLine.ScanOfQuoted | src/api/child_process.cpp:115-140 | The C runtime reads one quoted argument back, whatever is in it. |
| CommandCounts.ArgumentsComeBack | src/api/child_process.cpp:115-119 | Splitting the line gives back the arguments behind a program name without a NUL if and only if none of them holds a NUL and the quoted name is read to its end. |
| CommandLine.PlainNamesClose | src/api/child_process.cpp:121-140 | It is for every name without a quote. |
| CommandLine.OpenNameSpills | src/api/child_process.cpp:121-140 | A name whose quotes do not close, and the argument it turns into. |
| CommandLine.ArgvComesBack | src/api/child_process.cpp:241-246 | The whole argv comes back exactly under the condition named above. |
| Base64.Btoa | src/api/base64.cpp:15-58 | The loops compute the encoding of the Latin1 bytes, or refuse. |
| Base64.Atob | src/api/base64.cpp:69-127 | The loops strip white space, decode group by group with the source's checks, and give UTF-8. |
| Base64Laws.AtobAccepts | src/api/base64.cpp:79-104 | A string is accepted if and only if, stripped, its length is not 1 modulo 4 and every character is a digit or a pad in a place where one may stand. |
| Base64Laws.AtobOfTwoTexts | src/api/base64.cpp:89-114 | Pads may stand inside: a padded text with another behind it is the bytes of both. |
| Base64.Base64Encode | src/api/blob.cpp:158-185 | The loop and its tail compute the padded encoding. |
| Base64.Base64urlEncode | src/api/crypto_subtle_kdf.cpp:665-688 | The loop and its tail compute the unpadded encoding in the URL alphabet. |
| Base64.Base64urlDecode | src/api/crypto_subtle_kdf.cpp:690-712 | The 32-bit accumulator loop accepts exactly the digits up to a pad whose count is not 1 modulo 4, and unpacks them. |
| Base64.WrapDoesNotMatter | src/api/crypto_subtle_kdf.cpp:704-708 | The accumulator's wrapping never reaches a byte that is put out. |
| Base64Laws.AtobOfBtoa | src/api/base64.cpp:15-127 | btoa accepts exactly the Latin1 strings, and atob gives each back. |
| Base64Meaning.AtobOfSpaced | src/api/base64.cpp:73-77 | Spaces, tabs, line feeds, carriage returns and form feeds, put in anywhere, and missing pads make no difference to what atob makes of an encoding. |
| Base64Meaning.AtobPassesOver | src/api/base64.cpp:73-77 | One of those five characters, anywhere in any text, makes no difference to atob. |
| Base64Meaning.AtobAcceptsText | src/api/base64.cpp:79-104 | A text without them is accepted if and only if its length is not 1 modulo 4 and each character is a digit of the written-out alphabet, or a pad that ends its group of four. |
| Base64Meaning.AtobIsNumber | src/api/base64.cpp:89-114 | The digits of a text come to the bytes of the number they make to base 64, less the bits that fill no byte. |
| Base64Meaning.AtobOfConcat | src/api/base64.cpp:89-114 | A first part in whole groups is decoded on its own. |
| Base64Meaning.AtobOfPadded | src/api/base64.cpp:91-93 | Pads that complete the last group change nothing. |
| Base64Meaning.EncodedIsNumber | src/api/base64.cpp:38-56 | Base64 text is the digits, in the written-out alphabet, of the bytes' number to base 64, filled with zero bits, and pads up to whole groups if it is padded. |
| Base64Meaning.UrlIsNumber | src/api/crypto_subtle_kdf.cpp:690-712 | The base64url decoder reads up to the first pad, accepts exactly digits, not 1 modulo 4 of them, and gives the bytes of their number. |
| Base64Laws.UrlDecodeOfEncode | src/api/crypto_subtle_kdf.cpp:665-712 | base64urlDecode undoes base64urlEncode, padded or not. |
| Base64Laws.UrlEncodeOfDecode | src/api/crypto_subtle_kdf.cpp:690-712 | An accepted string is the encoding of its decoding exactly if it has no padding and its spare bits are zero. |
| Base64Laws.EncodersAgree | src/api/blob.cpp:158-185 | The encoders agree up to alphabet and padding. |
| Storage.EscapeJson | src/api/storage.cpp:87-99 | The loop computes the escaping. |
| Storage.LoadStorage | src/api/storage.cpp:24-78 | The cursor parser computes the reading of a file. |
| Storage.LoadOfSave | src/api/storage.cpp:24-109 | What was written is read as the items without the empty key, so whole exactly when that key is absent. |
| StorageText.LoadOfText | src/api/storage.cpp:33-78 | A file is read as the assignments of its entries in order, whatever stands for white space and commas between them, whichever way their characters are escaped, and whatever comes before and after. |
| StorageText.EscapeOf | src/api/storage.cpp:87-99 | Escaping writes quotes, backslashes, line feeds and tabs with a backslash and leaves every other character alone. |
| StorageText.EscapeSpells | src/api/storage.cpp:87-99 | What is escaped spells what it was. |
| StorageText.SmallFiles | src/api/storage.cpp:101-108 | The file of no items, and of one, character by character. |
| Storage.StorageState.SaveStorage | src/api/storage.cpp:80-109 | Writes a file of the items, each once. |
| Storage.StorageState.SetItem | src/api/storage.cpp:122-130 | Stores the value, and the file again agrees with the items. |
| Storage.StorageState.Remove | src/api/storage.cpp:181-183 | Removes the item and writes only if there was one; the file agrees either way. |

## Left out

- AES, SHA, HMAC, CRC32 and the miniz codecs: a permutation with its inverse, functions, a
  fold over bytes, and a transducer of bytes.
- The CryptoAPI and OpenSSL paths of AES-GCM: `Gcm` models the generic one they stand in for.
- Weak memory ordering: atomics are sequentially consistent steps.
- Concurrency inside the objects `FsWatcher` and `PipeBuf`: their methods are proved for
  one caller at a time; the interleavings are proved on step machines over values.
- Several threads waiting on the wake pipe, and its Windows socket.
- The Windows pipe reader and stdin of a child. A `close` after the grace period or for a
  thrown native is not claimed to come after every byte; when it comes is.
- A child stream's text encoding, with the flush of its decoder before `end`: chunks are bytes.
- Teardown of a child's readers: no claim that the join ends.
- TCP listeners, UDP handles and address text; a listener may not call back into a handle
  during `close` itself.
- Lengths of 2^31 bytes and more in one send, and of 2^32 and more in an output array.
- Failure to allocate a codec, and the chunk objects of compression.js.
- What the native decoder makes of malformed UTF-8: only conservation of bytes is claimed
  there.
- CommandCounts.ArgumentsComeBack: for a program name without a NUL; behind one the line
  ends, and no file name holds one.
- Storage without a path (in memory only) and files that cannot be opened.
- dirname, basename and extname, the sorted order of the items in the localStorage file
  (any order is proved), and text-mode line endings on Windows.
- PBKDF2, AES-CBC, key import and export: plumbing around calls into other libraries.
- Fetch, WebSocket, SQLite, images, noise, console and DOM-style classes.
