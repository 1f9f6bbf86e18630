# Verified models of the server's core algorithms

The server is a Teeworlds/DDNet-style game server in C++ (with one Python table generator).
This project models its self-contained algorithms and protocols in Dafny and proves what they
are for. One module, or a pair of them, stands for one component:

| file | component |
|---|---|
| `AsyncRing.dfy` | the growable ring buffer of `ASYNCIO`, method by method, refining a queue |
| `AsyncProtocol.dfy` | every interleaving of its callers with the drain thread |
| `Sha256Spec.dfy`, `Sha256Constants.dfy`, `Sha256.dfy` | streaming SHA-256 against FIPS 180-4 |
| `SnapIdSpec.dfy`, `SnapIdPool.dfy` | the snapshot id pool: two lists threaded through one array |
| `EditDistance.dfy` | the two-row Levenshtein distance |
| `Utf8.dfy`, `Utf8Truncation.dfy` | the UTF-8 codec (RFC 3629) and cutting strings to a size |
| `Base64.dfy` | base 64 (RFC 4648) |
| `Confusables.dfy` | skeleton tables (UTS #39) and their generator |
| `NameBans.dfy`, `ClientNames.dfy` | trimming, search without regard to case, name bans and unique client names |
| `PrngPeriod.dfy`, `Prng.dfy` | the PCG generator and its period |
| `Register.dfy` | registration with the master server, all interleavings with its jobs |
| `BoxMovement.dfy` | `MoveBox` against a tile map, over exact reals |
| `MapTransfer.dfy` | the map download window |
| `ServerInfo.dfy`, `ServerInfoReading.dfy` | the packing of server info into packets, and reading them back |
| `Bytes.dfy`, `Bits.dfy`, `Division.dfy` | bytes, bit operations on numbers, division facts |

Code that changes state is modelled by methods and classes over arrays and fields, each proved
against a function of the old state; the properties are lemmas about those functions. Code
that runs on several threads is in addition a state machine whose steps are the locked
sections, with lemmas about all of its runs. Unsigned wrap-around, truncating casts and
narrow fields are written out where they matter.

## What the proofs found

* `CSnapIDPool::CID::m_Timeout` is an `int`, but the clock counts nanoseconds in 64 bits. The
  five-second quarantine of a freed id is kept exactly while the clock plus five seconds is
  below 2^31 (`QuarantineKeptIff`, `HeldForFiveSecondsIff`); with 10^9 ticks a second it is
  never kept (`QuarantineNeverKept`), and past 2^31 on the clock a freed id is the very next
  one handed out (`FreedIsReissuedAtOnce`).
* For the same reason the queue need not be sorted: two ids freed a tenth of a second apart
  leave an expired id behind one that has not expired (`UnsortedInNanoseconds`), and with all
  ids taken there is then no new id although one has expired (`StuckInNanoseconds`). When the queue
  is sorted, when the loop of `NewID` releases exactly the expired ids, and when -1 means
  exhaustion is stated exactly for every run (`EveryRun`). What the server does past 2^31 on
  its clock is `EveryRunInNanoseconds`: each `NewID` empties the queue, and -1 means that every
  id is in use. `ClockedInOrder` is about a clock whose timeouts fit; it does not apply with
  10^9 ticks a second.
* When the handle of the log writer is given up, another call can still be between its unlock
  and its signal (`SignalAfterFree`) or waiting for the lock (`LockAfterFree`), and then touch
  memory that is gone. That is possible if and only if the drain thread has been told to leave,
  or is going to be by a call already waiting for the lock, and can do so before some call is
  through (`FreeIsSafeIff`).
* `next_buffer_size` loops for ever exactly when the needed size is above 2^31
  (`GrowthTerminatesIff`), because the doubled size wraps around to 0. From 2^32 on the needed
  size itself has wrapped around: the loop ends, and the new buffer is too small
  (`GrowsEnoughIff`).
* `sha256_update` truncates a length to 32 bits; the whole message is hashed exactly when
  every piece is shorter than 2^32 bytes (`NothingDroppedIff`).
* A request that the master server's "need info" reply triggers at once can still omit the
  info (`ImmediateResendMayOmit`), because a reply reaches the protocol's fields before it
  reaches the shared serial. When a request omits the info is stated exactly
  (`OmitsIffAccepted`).
* A skeleton is its own skeleton for every text if and only if each entry of the table is
  (`StableIff`). The generator's tables are of that kind when no replacement contains a code
  point that another one removes (`CleanIsStable`); without that they need not be
  (`UncleanMayBeUnstable`).
* The table generator checks the number of lengths against its 3-bit field, but not the
  offsets against their 13 bits. The tables represent the map if and only if each key's offset
  fits, or the same code points happen to stand where it wraps to (`PackedRepresentsIff`); with
  8193 different code points they do not (`PackedMayMiss`).
* The loop that renames a client ends exactly if some candidate is available. One of the first
  64 is when the table keeps digits and ")" apart (`OneIsAvailable`, `DigitsApartSuffices`); with
  a table that drops the digits there may be none (`NoneAvailable`). What is stored is cut once
  more than what is checked; for valid UTF-8 that changes nothing (`StoredIsChosen`).
* Testing the corners of a box is enough exactly for boxes of up to 32 pixels
  (`CornersSufficeIff`).
* A map whose size is a multiple of 896 bytes is followed by a second, empty last chunk
  (`EmptyLastIff`). Chunk offsets are exact only for the first 4793491 chunks
  (`OffsetExactIff`); in-order requests deliver the map faithfully exactly as long as no later
  offset wraps around into it (`RangeIsIff`). Every chunk is read inside the map exactly when
  the map is smaller than 2^32 - 896 bytes (`ReadsInsideIff`).

## Model

| member | source | states |
|---|---|---|
| AsyncRing.GrowthTerminatesIff | src/base/system.cpp:597-604 | doubling a reachable buffer size in 32-bit arithmetic ever reaches the needed size if and only if that is at most 2^31 |
| AsyncRing.GrowsEnoughIff | src/base/system.cpp:636-664 | the loop ends with room for the unread bytes, the payload and one more byte if and only if their sum is at most 2^31; from 2^32 on it ends at once with a buffer that is too small |
| AsyncRing.NextBufferSize | src/base/system.cpp:597-604 | the result is the first doubling that is large enough, and again a size a buffer can have |
| AsyncRing.UnreadAfterWrite | src/base/system.cpp:617-635 | bytes laid behind the unread ones, without filling the ring, are appended to the unread bytes, wrapped or not |
| AsyncRing.UnreadAfterRead | src/base/system.cpp:515-534 | moving the read position on by n drops exactly the n oldest unread bytes |
| AsyncRing.FillLocal | src/base/system.cpp:515-533 | the local buffer gets the oldest bytes of the two pieces in order, as many as it holds |
| AsyncRing.AsyncIo.constructor | src/base/system.cpp:546-583 | a new ring is empty, running, and has two owners |
| AsyncRing.AsyncIo.BufferPtrs | src/base/system.cpp:453-468 | the one or two pieces are inside the buffer and together are the unread bytes in order |
| AsyncRing.AsyncIo.BufferLen | src/base/system.cpp:585-595 | the unsigned difference is the number of unread bytes |
| AsyncRing.AsyncIo.WriteUnlocked | src/base/system.cpp:617-665 | the payload is appended to the queue, over the wrap and through growth, and nothing else changes |
| AsyncRing.AsyncIo.WriteInPlace | src/base/system.cpp:621-635 | the branch that fits appends in one or two copies and never fills the ring |
| AsyncRing.AsyncIo.WriteGrowing | src/base/system.cpp:636-664 | the growing branch moves the unread bytes in order into a new buffer and appends |
| AsyncRing.AsyncIo.DrainLocked | src/base/system.cpp:498-535 | the drain thread's locked section leaves, sleeps or takes the oldest bytes, as the queue and the finish flag say |
| AsyncRing.AsyncIo.TakeOldest | src/base/system.cpp:515-534 | up to 64 KiB of the oldest bytes go to the local buffer and out of the queue |
| AsyncRing.AsyncIo.SetClose | src/base/system.cpp:707-712 | closing sets the finish flag and nothing else |
| AsyncRing.AsyncIo.SetExit | src/base/system.cpp:716-726 | waiting asks the thread to leave unless it has already been told to close; the protocol takes the same step |
| AsyncRing.AsyncIo.Release | src/base/system.cpp:470-484 | one owner goes; the memory goes with the last one |
| AsyncProtocol.StepKeepsInv | src/base/system.cpp:486-730 | every step of any thread keeps: bytes in order, no lost wakeup, mutual exclusion, ownership, complete exit |
| AsyncProtocol.StepKeepsBytes | src/base/system.cpp:486-665 | every step keeps the bytes in order, and what the thread has written when it leaves is all that was enqueued by then |
| AsyncProtocol.StepKeepsOwnership | src/base/system.cpp:470-484 | every step keeps mutual exclusion, and the reference count equal to the owners left |
| AsyncProtocol.StepKeepsWakeup | src/base/system.cpp:498-513 | a drain thread that waits at 0 while there is work has a caller that still owes it a signal |
| AsyncProtocol.SemaphoreCounts | src/base/system.cpp:510-512 | in every run from creation the semaphore counts the signals that have not woken the drain thread yet |
| AsyncProtocol.TouchesFreedIff | src/base/system.cpp:606-615 | once the last owner has let go, the steps that touch memory that is gone are the signals of callers past their unlock and the lock acquisitions of calls that were waiting |
| AsyncProtocol.FreeIsSafeIff | src/base/system.cpp:696-705 | after `aio_free` gives up the handle such a step is possible if and only if the thread has been told to leave, or a waiting `aio_close` or `aio_wait` will tell it, and it can leave before some call that is waiting for the lock, holding it or owing its signal; never when every other call has returned or is in its join |
| AsyncProtocol.NoUseAfterFree | src/base/system.cpp:470-484 | in every run from creation that gives up the handle only when that is safe in this sense, no step can touch memory that is gone |
| AsyncProtocol.SignalAfterFree | src/base/system.cpp:611-615 | a run from creation in which the handle is closed and freed between another caller's unlock and signal, and that signal touches memory that is gone |
| AsyncProtocol.LockAfterFree | src/base/system.cpp:606-609 | a run from creation in which a closed handle is freed while another caller waits for the lock, and taking it touches memory that is gone |
| AsyncProtocol.RunKeepsInv | src/base/system.cpp:486-730 | what holds of a state holds of every state reached from it |
| AsyncProtocol.EveryRunIsSafe | src/base/system.cpp:486-730 | in every interleaving of any set of threads, written bytes, then the local buffer, then the ring are the payloads in order, and nothing enqueued is left when the thread leaves |
| AsyncProtocol.DrainNotStuck | src/base/system.cpp:486-544 | with no caller inside the API, the drain thread can step until its work is done |
| AsyncProtocol.DrainFlushes | src/base/system.cpp:486-544 | left alone, the thread writes every byte enqueued, leaves exactly if it has been told to, and then has closed the file exactly if the flag says close |
| AsyncProtocol.ClosesIff | src/base/system.cpp:502-508 | in every run from creation, the flag says close if and only if an `aio_close` has had its locked section, it says neither close nor exit if and only if no `aio_close` or `aio_wait` has, and the file is closed if and only if an `aio_close` came before the thread left |
| AsyncProtocol.WaitReturns | src/base/system.cpp:716-730 | when the other callers are done, the drain thread's only run ends with the join enabled and everything written |
| AsyncProtocol.WaitFlushes | src/base/system.cpp:716-730 | the `aio_wait` that takes the thread handle returns only when the thread has left, and everything enqueued before the call has then been written, unless the thread had left before |
| AsyncProtocol.EveryCallReturns | src/base/system.cpp:486-730 | once no caller enters or writes any more, every run is finite, in any order of its steps, and where no step is left every call has returned from its signal and its join, and all is written unless the thread has left |
| Sha256.RewrittenFunctions | src/base/hash_libtomcrypt.cpp:55-56 | the rewritten Ch and Maj are those of section 4.1.2 of FIPS 180-4 |
| Sha256.LoadSchedule | src/base/hash_libtomcrypt.cpp:73-79 | W is the message schedule of section 6.2.2 |
| Sha256Spec.WordOfStored | src/base/hash_libtomcrypt.cpp:36-53 | words are loaded most significant byte first: loading what has been stored gives the word back |
| Sha256Spec.StoredWord | src/base/hash_libtomcrypt.cpp:36-53 | and storing a loaded word gives its four bytes back |
| Sha256Spec.SigmaBits | src/base/hash_libtomcrypt.cpp:57-62 | each bit of the four sigma functions is the parity of the three bits of the word that section 4.1.2 names |
| Sha256Constants.RoundConstants | src/base/hash_libtomcrypt.cpp:15-29 | each round constant is the first 32 bits of the fraction of the cube root of its prime, as in section 4.2.2 |
| Sha256Constants.InitialValues | src/base/hash_libtomcrypt.cpp:112-124 | the initial value is made of those of the square roots of the first eight primes, as in section 5.3.3 |
| Sha256.RoundInPlace | src/base/hash_libtomcrypt.cpp:81-103 | the macro and the rotation of S[] make one round of section 6.2.2 |
| Sha256.RunRounds | src/base/hash_libtomcrypt.cpp:91-103 | 64 of them make all rounds |
| Sha256.CompressInPlace | src/base/hash_libtomcrypt.cpp:64-108 | the state becomes the next intermediate hash value |
| Sha256.PaddedBlocks | src/base/hash_libtomcrypt.cpp:158-184 | one or two last blocks, as the code chooses, are the padding with the least number of zeros of section 5.1.1 |
| Sha256.Context.constructor | src/base/hash_libtomcrypt.cpp:112-124 | an initialised context has absorbed the empty message |
| Sha256.Context.TakeBlock | src/base/hash_libtomcrypt.cpp:133-139 | a whole block is compressed straight from the input |
| Sha256.Context.TakeBytes | src/base/hash_libtomcrypt.cpp:140-154 | other bytes go through the buffer, which is compressed when full |
| Sha256.Context.Process | src/base/hash_libtomcrypt.cpp:126-156 | a piece is appended to the message absorbed so far, however it meets the buffer |
| Sha256.Context.Update | src/base/hash_libtomcrypt.cpp:196-199 | of a piece, the first length modulo 2^32 bytes are absorbed |
| Sha256.Context.FirstPadding | src/base/hash_libtomcrypt.cpp:165-176 | the 1 bit goes into the block at hand; above 56 bytes that block is completed first |
| Sha256.Context.Finish | src/base/hash_libtomcrypt.cpp:158-189 | the output is the digest of section 6.2 for the message absorbed |
| Sha256.Store | src/base/hash_libtomcrypt.cpp:41-53 | storing shifted bytes is big-endian and touches nothing else |
| Sha256.HashPieces | src/base/hash_libtomcrypt.cpp:191-199 | for every way of splitting the input, the digest is that of what the pieces absorb |
| Sha256.NothingDroppedIff | src/base/hash_libtomcrypt.cpp:196-199 | that is the whole concatenation if and only if every piece is under 2^32 bytes |
| Sha256Spec.ZeroCountIsLeast | src/base/hash_libtomcrypt.cpp:168-180 | the number of padding zeros is the least that ends a block |
| Sha256Spec.PaddingInjective | src/base/hash_libtomcrypt.cpp:158-184 | messages under 2^64 bits with the same padding are the same message |
| SnapIdSpec.RunKeeps | src/engine/server/server.cpp:53-136 | in every run, each id is in exactly one place, once, and every timeout is a stored int |
| SnapIdSpec.NewKeeps | src/engine/server/server.cpp:86-105 | a new id is in range and was not in use; -1 leaves the ids in use alone |
| SnapIdSpec.Apart | src/engine/server/server.cpp:53-136 | the three places are disjoint and together hold exactly the ids |
| SnapIdSpec.Conservation | src/engine/server/server.cpp:53-136 | free, quarantined and used ids add up to MAX_IDS |
| SnapIdSpec.ReleaseExactIff | src/engine/server/server.cpp:90-92 | for every pool, the prefix loop releases exactly the expired ids if and only if no unexpired entry stands before an expired one |
| SnapIdSpec.SortedIff | src/engine/server/server.cpp:90-92 | that is so at every time if and only if the queue is sorted |
| SnapIdSpec.RunStaysSortedIff | src/engine/server/server.cpp:114-136 | through any run the queue stays sorted if and only if every id is freed with a stored timeout not before the last one |
| SnapIdSpec.StoredInOrderIff | src/engine/server/server.h:58-58 | two timeouts less than 2^32 apart are stored in order if and only if the int does not wrap between them |
| SnapIdSpec.ClockedInOrder | src/engine/server/server.cpp:114-136 | ids are freed in order while a clock that does not go back gives timeouts that fit an int (never with 10^9 ticks a second) |
| SnapIdSpec.UnsortedInNanoseconds | src/engine/server/server.cpp:86-136 | with 10^9 ticks a second, ids freed at 1.4 s and 1.5 s make an unsorted queue, and at 1.6 s the loop releases nothing although one has expired |
| SnapIdSpec.HeldForFiveSecondsIff | src/engine/server/server.cpp:86-136 | a freed id stays in quarantine through every run of five seconds without `TimeoutIDs` if and only if its timeout fits an int |
| SnapIdSpec.FreedIsReissuedAtOnce | src/engine/server/server.cpp:86-136 | with the clock past 2^31 - 1 a freed id is the next one handed out |
| SnapIdSpec.QuarantineKeptIff | src/engine/server/server.h:53-59 | the quarantine of an id freed at t is kept if and only if t plus five seconds fits an int |
| SnapIdSpec.QuarantineNeverKept | src/engine/server/server.cpp:123-123 | with nanosecond ticks it is never kept |
| SnapIdSpec.ExhaustedMeans | src/engine/server/server.cpp:86-105 | for every pool, -1 is returned if and only if every id is in use or unexpired, or nothing is free and an unexpired entry stands before all expired ones; never both |
| SnapIdSpec.StuckInNanoseconds | src/engine/server/server.cpp:86-136 | a legal run with 10^9 ticks a second: all ids taken, two freed at 1.4 s and 1.5 s; at 1.6 s -1 is returned although one has expired |
| SnapIdSpec.EmptiedPastIntMax | src/engine/server/server.cpp:86-105 | with the clock past 2^31 - 1, `NewID` empties the queue of any pool, and -1 means that all ids are in use |
| SnapIdSpec.EveryRunInNanoseconds | src/engine/server/server.cpp:53-136 | that holds after every legal run of the server |
| SnapIdSpec.EveryRun | src/engine/server/server.cpp:53-136 | after every legal run, at any time: sorted throughout, exact release and -1 each have their exact condition |
| SnapIdPool.Releasing | src/engine/server/server.cpp:69-84 | relinking the first timed entry keeps both chains acyclic, disjoint and ended by -1, and moves the oldest id |
| SnapIdPool.Taking | src/engine/server/server.cpp:94-104 | taking the first free entry keeps the chains and is the specified step |
| SnapIdPool.Freeing | src/engine/server/server.cpp:121-135 | linking an entry behind the last timed one keeps the chains and appends to the queue |
| SnapIdPool.Pool.Reset | src/engine/server/server.cpp:53-67 | all ids are free, in order, whatever was there before |
| SnapIdPool.Pool.RemoveFirstTimeout | src/engine/server/server.cpp:69-84 | the oldest quarantined id goes on top of the free stack |
| SnapIdPool.Pool.NewID | src/engine/server/server.cpp:86-105 | expired ids are released in order, then the top of the free stack is taken |
| SnapIdPool.Pool.TimeoutIDs | src/engine/server/server.cpp:107-112 | every quarantined id is released |
| SnapIdPool.Pool.FreeID | src/engine/server/server.cpp:114-136 | the id leaves the used set and joins the queue with its stored timeout |
| SnapIdPool.Pool.Counters | src/engine/server/server.cpp:53-136 | one counter is the number of used ids, the other of used and quarantined ones |
| EditDistance.DistBuffer | src/base/system.cpp:2992-3026 | two alternating rows in any buffer that meets the assertion give the table's last entry, despite the swap of the arguments |
| EditDistance.FillRow | src/base/system.cpp:3012-3023 | one pass of the inner loop makes the next row without disturbing the one it reads |
| EditDistance.Witness | src/base/system.cpp:2992-3026 | a script of exactly that many insertions, deletions and substitutions turns one text into the other |
| EditDistance.NoShorterScript | src/base/system.cpp:2992-3026 | no script is shorter |
| EditDistance.DistIsLeast | src/base/system.cpp:2992-3026 | the distance is the least number of edits |
| EditDistance.DistIsMetric | src/base/system.cpp:2992-3026 | it is zero if and only if the texts are equal, symmetric, and satisfies the triangle inequality |
| EditDistance.ToUtf32 | src/base/system.cpp:2981-2990 | the code points go into the buffer in order, and what is before them stays |
| EditDistance.Utf8DistBuffer | src/base/system.cpp:3028-3046 | texts and table share one buffer, whose asserted size is always enough, and the result is the distance of the code points |
| EditDistance.Utf8DistIsLeast | src/base/system.cpp:3028-3046 | for valid strings that is the distance of their characters |
| Utf8Spec.EncodeCode | src/base/system.cpp:3642-3673 | every character of the RFC 3629 grammar is the encoding of its code point |
| Utf8Spec.CodeEncode | src/base/system.cpp:3642-3673 | every encoding of a scalar value is in the grammar and has its value |
| Utf8.EncodeInto | src/base/system.cpp:3642-3673 | in a buffer of just the needed size, the bytes written are the encoding and nothing else changes; numbers outside the code space write nothing or one byte |
| Utf8.Decode | src/base/system.cpp:3687-3752 | the decoder's state machine returns what one call means, including the position after an error |
| Utf8.DecodesChar | src/base/system.cpp:3687-3752 | a character of the grammar at the cursor is decoded to its value, and the cursor moves behind it |
| Utf8.DecodedFromChar | src/base/system.cpp:3687-3752 | what is decoded without an error is a character of the grammar |
| Utf8.CheckStep | src/base/system.cpp:3687-3752 | every call moves the cursor on, 0 is returned only at the terminator, and an error means the rest is not valid |
| Utf8.Check | src/base/system.cpp:3754-3765 | exactly the strings of the grammar in section 4 of RFC 3629 are accepted |
| Utf8.RoundTrip | src/base/system.cpp:3642-3752 | decoding the joined encodings of any scalar values gives them back |
| Utf8.OctetsIff | src/base/system.cpp:3754-3765 | the accepted strings are exactly the encodings of sequences of scalar values |
| Utf8Truncation.Rewind | src/base/system.cpp:3604-3613 | the cursor goes to the last start byte before it |
| Utf8Truncation.FixTruncation | src/base/system.cpp:3615-3630 | an undecodable end is cut off the string in place |
| Utf8Truncation.FitIsLargest | src/base/system.cpp:2654-2659 | the counted characters fit, and one more would not |
| Utf8Truncation.FixedIsLongestFit | src/base/system.cpp:3615-3630 | a valid string cut at any byte is repaired to its longest prefix of whole characters that fits |
| Utf8Truncation.StrCopy | src/base/system.cpp:2654-2659 | the buffer holds the repaired prefix of the source, terminated; for size 0, all of it |
| Utf8Truncation.StrAppend | src/base/system.cpp:2637-2652 | the buffer holds the repaired prefix of both strings joined |
| Utf8Truncation.AppendsWholeChars | src/base/system.cpp:2637-2652 | for valid strings that is the longest whole-character prefix that fits |
| Utf8Truncation.Truncate | src/base/system.cpp:2661-2676 | the loop cuts at the end of the last allowed character; a negative limit, or a size below 1, copies the whole string |
| Utf8Truncation.TruncatesWholeChars | src/base/system.cpp:2661-2676 | for a valid string exactly the most characters within both limits are kept |
| Base64.Encode | src/base/system.cpp:3210-3260 | the bit buffer writes the encoding of section 4 of RFC 4648, cut to the size and terminated |
| Base64.DecodeBlock | src/base/system.cpp:3299-3351 | a block of four is decoded, or refused for a bad digit or padding bits that are not zero |
| Base64.Decode | src/base/system.cpp:3287-3354 | the decoded bytes, or the error code for the length, the room, a digit or the padding bits |
| Base64.BlockOfGroup | src/base/system.cpp:3299-3351 | every encoded group decodes to its bytes |
| Base64.GroupOfBlock | src/base/system.cpp:3299-3351 | every accepted block is the encoding of what it decodes to |
| Base64.DecodeEncode | src/base/system.cpp:3210-3354 | decoding inverts encoding on all byte strings |
| Base64.EncodeDecode | src/base/system.cpp:3287-3354 | an accepted string re-encodes to itself |
| Base64.AcceptedIff | src/base/system.cpp:3287-3354 | with enough room, the accepted strings are exactly the encodings |
| ConfusableTables.Lookup | src/base/unicode/confusables.cpp:7-29 | the sorted scan finds a code point's decomposition if and only if the map has one |
| ConfusableTables.ConcatAt | scripts/generate_unicode_confusables_data.py:104-124 | at the running offset the data hold exactly that decomposition |
| ConfusableTables.SliceHolds | scripts/generate_unicode_confusables_data.py:95-101 | a slice stores its offset if and only if that is below 2^13, and then holds its decomposition |
| ConfusableTables.PackedRepresentsIff | scripts/generate_unicode_confusables_data.py:76-132 | the packed tables represent the map if and only if each key's offset is below 2^13, or its decomposition also stands at the offset modulo 2^13 |
| ConfusableTables.Pack | scripts/generate_unicode_confusables_data.py:76-132 | the loops make the packed tables, which represent the decomposition map when the offsets fit their 13 bits |
| ConfusableTables.PackedRepresents | scripts/generate_unicode_confusables_data.py:76-132 | so they do while all offsets fit |
| ConfusableTables.PackedMayMiss | scripts/generate_unicode_confusables_data.py:95-101 | a map of 8193 different code points whose offsets do not fit and whose packed tables do not represent it |
| ConfusableGenerator.KeptInOrder | scripts/generate_unicode_confusables_data.py:50-50 | what is left of a list are the code points at the places that are not ignored, in order |
| ConfusableGenerator.Gen | scripts/generate_unicode_confusables_data.py:41-50 | if the rounds of replacement ever converge, the loop ends with their limit, of which exactly the ignored code points are left out and the others stay in order |
| ConfusableGenerator.ConvergedIsFixed | scripts/generate_unicode_confusables_data.py:41-50 | for clean tables, where no replacement contains a code point that another one removes, every single code point of a limit is left alone by both tables |
| ConfusableGenerator.PiecesAreFixed | scripts/generate_unicode_confusables_data.py:18-52 | for clean tables, no code point in a generated decomposition is decomposed further |
| ConfusableGenerator.StableIff | src/base/unicode/confusables.cpp:45-64 | for any map, every skeleton is its own skeleton if and only if every entry of the map is |
| ConfusableGenerator.CleanIsStable | scripts/generate_unicode_confusables_data.py:18-52 | every map generated from clean tables passes that check |
| ConfusableGenerator.UncleanMayBeUnstable | scripts/generate_unicode_confusables_data.py:41-50 | tables that are not clean, and whose generated map does not |
| Confusables.Skeleton.constructor | src/base/unicode/confusables.cpp:38-43 | a new iterator has the whole skeleton ahead of it |
| Confusables.Skeleton.Next | src/base/unicode/confusables.cpp:45-64 | the next element of the skeleton is returned and dropped, empty decompositions are skipped, 0 comes at the end only |
| Confusables.ToSkeleton | src/base/unicode/confusables.cpp:66-81 | the buffer gets as much of the skeleton as it holds |
| Confusables.CompConfusable | src/base/unicode/confusables.cpp:83-102 | the streaming comparison returns 0 if and only if the skeletons are equal |
| WhiteSpace.IsSpaceIff | src/base/system.cpp:3541-3550 | white space is what is in the table of ranges, and everything up to the blank, decoding errors included |
| WhiteSpace.SkipWhitespaces | src/base/system.cpp:3552-3570 | the cursor stops at the first code point that is not white space |
| WhiteSpace.TrimRight | src/base/system.cpp:3572-3595 | the string is cut in place where the white space at its end starts |
| WhiteSpace.WithoutBackIs | src/base/system.cpp:3572-3595 | only white space is left out at the end, and all of it |
| WhiteSpace.TrimmedMeans | src/engine/server/server.cpp:419-422 | of a valid name, the white space in front goes, as many whole characters as fit stay, and then the white space at the end goes |
| WhiteSpace.TrimmedIsValid | src/engine/server/server.cpp:419-425 | so a trimmed name is valid UTF-8 of at most 15 bytes |
| NoCase.FindNoCase | src/base/system.cpp:3520-3539 | the cursor at the first code point where the needle stands up to the case, or -1 if it stands nowhere; decoding errors equal each other |
| NameBans.MakeBan | src/engine/server/name_ban.h:15-24 | a ban keeps its name cut to size and the first 64 elements of that name's skeleton |
| NameBans.IsNameBanned | src/engine/server/name_ban.cpp:3-21 | the last ban is found whose skeleton is within its distance of the trimmed name's, or whose name stands in the whole request up to the case; the buffer is large enough for every pair |
| NameBans.ExactBan | src/engine/server/name_ban.cpp:15-18 | a ban of distance 0 applies exactly to the names with its skeleton, and one of a negative distance to none |
| NameBans.ConfusableIsBanned | src/engine/server/name_ban.h:15-24 | a ban made of a name applies to every name that is confusable with it, both cut to size |
| ClientNames.IsClientNameAvailable | src/engine/server/server.cpp:370-392 | a name is available if and only if it is not empty, does not start with "/" and no other ready client has a confusable name |
| Bytes.DecimalReads | src/engine/server/server.cpp:432-432 | a number is written with digits that read back as the number, most significant first and without a leading zero |
| ClientNames.CandidateSkeleton | src/engine/server/server.cpp:432-432 | the skeleton of "(i)name" starts with the skeletons of "(", the digits of i and ")", whatever the cut leaves of the name |
| ClientNames.CandidateKeeps | src/engine/server/server.cpp:432-432 | a candidate of a valid name is the number in parentheses and as many whole characters of the name as fit behind it |
| ClientNames.RunsDecide | src/engine/server/server.cpp:432-432 | digits closed by ")" can be read off a skeleton when the table keeps those characters apart |
| ClientNames.DigitsApartSuffices | src/engine/server/server.cpp:430-435 | then the candidates "(1)name" to "(64)name" are pairwise not confusable |
| ClientNames.OneIsAvailable | src/engine/server/server.cpp:430-435 | of candidates pairwise not confusable, one of the first 64 is available, since each other one has a client of its own in the way |
| ClientNames.NoneAvailable | src/engine/server/server.cpp:427-436 | with a table that drops the digits and a client called "()", none is for an empty request, and the loop does not end |
| ClientNames.CandidateStores | src/engine/server/server.cpp:430-443 | a candidate of a valid name is valid UTF-8 of at most 15 bytes, for every int in front, so storing it cuts nothing off |
| ClientNames.Server.Rename | src/engine/server/server.cpp:427-436 | if any candidate is available, the unbounded loop stops at the first one |
| ClientNames.Server.SetClientNameImpl | src/engine/server/server.cpp:394-447 | nothing changes for a client that is not ready or a banned name, and who is to be kicked is told; else the name chosen for the trimmed request, cut to size, is stored for this client only and only if asked to, and the result says whether the chosen name differs from the old one |
| ClientNames.StoredIsChosen | src/engine/server/server.cpp:419-443 | of a valid request, the trimmed name and the chosen name are stored uncut |
| ClientNames.ChosenIsAvailable | src/engine/server/server.cpp:394-447 | the chosen name is available among the clients it is stored with, and pairwise unconfusable clients stay so |
| PrngPeriod.GeometricDivided | src/game/prng.cpp:50-51 | for a multiplier that is 1 modulo 4, the sum of n powers has as many factors 2 as n |
| PrngPeriod.ReturnsIff | src/game/prng.cpp:50-51 | n steps come back modulo 2^k if and only if 2^k divides n |
| Prng.FullPeriod | src/game/prng.cpp:43-54 | with an odd increment every state returns after exactly the multiples of 2^64 calls |
| Prng.NoEarlyRepeat | src/game/prng.cpp:43-54 | no state repeats within 2^64 calls |
| Prng.VisitsEveryState | src/game/prng.cpp:43-54 | one period visits every 64-bit state |
| Prng.OutputDetermines | src/game/prng.cpp:47-53 | the rotation count, the output word and the 27 bits shifted out determine the state |
| Prng.StateFor | src/game/prng.cpp:47-53 | every such triple has a state that gives it |
| Prng.EachOutputOnce | src/game/prng.cpp:43-54 | in one period each triple comes up exactly once |
| Prng.EachWordEquallyOften | src/game/prng.cpp:43-54 | in one period each 32-bit word is output exactly 2^32 times |
| Prng.DescriptionDetermines | src/game/prng.cpp:31-36 | no two seeds have the same description |
| Prng.DescriptionReads | src/game/prng.cpp:34-35 | the description is the name of the generator and the two seeds in hexadecimal digits that read back as the seeds, in this order |
| Prng.CPrng.Seed | src/game/prng.cpp:31-41 | any seed gives an odd increment, the state after one step, and the description of the seed |
| Prng.CPrng.RandomBits | src/game/prng.cpp:43-54 | one step of the recurrence, and the output of the state before it |
| Prng.OutputBits | src/game/prng.cpp:47-53 | bit i of the output is bit j of the state xor the one 18 places above, where j goes round the bits 27 to 58 from the place that the top five bits give |
| Bits.RotateBit | src/game/prng.cpp:26-29 | bit i of a word rotated to the right is bit i + shift of the word, going round |
| Bits.RotateUndo | src/game/prng.cpp:26-29 | rotating on by the rest of the word undoes a rotation |
| RegisterShared.Global.Judge | src/engine/server/register.cpp:464-480 | an OK raises the successful serial, a NEEDINFO for it lowers it by one |
| RegisterShared.Protocol.SendRegister | src/engine/server/register.cpp:258-325 | the request gets the next number and carries the info if and only if the serial is above the successful one |
| RegisterShared.Protocol.Delete | src/engine/server/register.cpp:327-336 | a delete request is due exactly for a registered protocol, which then has no status |
| RegisterShared.Protocol.Answer | src/engine/server/register.cpp:446-463 | a reply counts only if it is newer than the newest one so far |
| RegisterShared.Protocol.CheckChallengeStatus | src/engine/server/register.cpp:370-391 | the next request is due at once exactly if the newest request has been answered and asks for more |
| RegisterShared.ScanTimers | src/engine/server/register.cpp:697-723 | the first loop finds the waiting protocol that is due first and the moment a second has passed |
| RegisterShared.SendNewInfo | src/engine/server/register.cpp:697-739 | a protocol sends if and only if it is due, or it is due first and a second has passed since every other request |
| RegisterShared.AtMostOncePerSecond | src/engine/server/register.cpp:697-739 | at most one waiting protocol sends before its time, and then no other waiting one sends |
| RegisterRuns.RepliesStep | src/engine/server/register.cpp:446-463 | every step keeps: the stored index is the largest answered, the stored status is that reply's unless a delete came after |
| RegisterRuns.VerdictsStep | src/engine/server/register.cpp:258-480 | every step keeps: the current serial counts as successful if and only if its last verdict is OK, and decisions follow it |
| RegisterRuns.MainNotStuck | src/engine/server/register.cpp:258-336 | in every interleaving, the main thread can give new info, register and delete exactly when it is not inside `SendRegister`, and can always go on there |
| RegisterRuns.JobNotStuck | src/engine/server/register.cpp:446-480 | a job can get any reply or none exactly while its request is on its way, and its verdict is due exactly after an OK or NEEDINFO |
| RegisterRuns.SerialCountsChanges | src/engine/server/register.cpp:673-686 | in every interleaving the serial counts the changes of the text, the texts by serial are those given without repeats, and the current one is the last one given |
| RegisterRuns.NewestReplyWins | src/engine/server/register.cpp:446-463 | in every interleaving the newest reply is kept, older ones never replace it, and the successful serial never exceeds the current one |
| RegisterRuns.OmitsIffAccepted | src/engine/server/register.cpp:274-292 | a request for a serial from 0 on omits the info if and only if the last verdict processed for it was OK; else it carries that serial's text; an omission follows an accepted request that carried it |
| RegisterRuns.SettledStays | src/engine/server/register.cpp:370-391 | once the newest request has been answered, no reply still to come changes the protocol's fields |
| RegisterRuns.ImmediateResendMayOmit | src/engine/server/register.cpp:385-388 | a run in which the request sent at once after a NEEDINFO omits the info |
| BoxMovement.RowTiles | src/game/collision.cpp:252-262 | in a map of one row, tile k is the pixels from 32 k to 32 k + 31, and the tiles at the ends go on |
| BoxMovement.StackedTiles | src/game/collision.cpp:252-262 | a map on top of another of the same width: each pixel reads the one it is in |
| BoxMovement.OneTile | src/game/collision.cpp:437-449 | a map of a single tile stops a box everywhere if the tile is 1 or 3, and nowhere else |
| BoxMovement.InMap | src/game/collision.cpp:252-262 | clamped coordinates index a tile of the map |
| BoxMovement.ColumnSpan | src/game/collision.cpp:257-258 | which reals are rounded, divided and truncated into a column |
| BoxMovement.AtMostTwoColumns | src/game/collision.h:35-35 | between points at most 32 pixels apart there is no third column |
| BoxMovement.CornersSuffice | src/game/collision.cpp:437-449 | a box of at most 32 by 32 whose corners are free has nothing solid anywhere under it |
| BoxMovement.CornersMiss | src/game/collision.cpp:437-449 | for any larger box there is a map where that fails |
| BoxMovement.CornersSufficeIff | src/game/collision.cpp:437-449 | 32 pixels are exactly the largest size for which testing corners is enough |
| BoxMovement.MoveBox | src/game/collision.cpp:451-517 | with its early exits the loop ends where Max + 1 plain steps end |
| BoxMovement.StopsOnlyAtWalls | src/game/collision.cpp:482-509 | a coordinate that stops bounces, and stops only if its own move hits or only the diagonal one does |
| BoxMovement.MovedIsFree | src/game/collision.cpp:451-517 | for any elasticity, a box that moves ends with free corners, and so does one that started with them |
| BoxMovement.EndIsFree | src/game/collision.cpp:451-517 | from a free start nothing solid is under the box where it ends |
| BoxMovement.Bounces | src/game/collision.cpp:482-509 | each speed is multiplied by minus the elasticity some number of times |
| BoxMovement.SpeedNeverGrows | src/game/collision.cpp:451-517 | with an elasticity in [0, 1] no speed grows, and with 1 none is lost |
| BoxMovement.WayEnds | src/game/collision.cpp:451-517 | the way of positions after each step goes from the start to where `MoveBox` ends; below a speed of 0.00001 it is the start alone |
| BoxMovement.NoSkipping | src/game/collision.cpp:451-517 | with an elasticity in [0, 1] each step of the way is under one pixel; from a free start its corners are free before and after each step, and up to 32 pixels nothing solid is under it |
| BoxMovement.FreeFlight | src/game/collision.cpp:451-517 | a box that nothing stops ends at its position plus its velocity, coordinate by coordinate, and keeps its velocity |
| BoxMovement.FloorLengthExists | src/game/collision.cpp:457-458 | every velocity has exactly one `Max` |
| MapTransfer.OffsetExactIff | src/engine/server/server.cpp:1219-1223 | the unsigned offset is exact if and only if the chunk number is at most 4793490 |
| MapTransfer.ReadsInsideIff | src/engine/server/server.cpp:1219-1231 | what is read for a chunk lies in the map, for every chunk, if and only if the map is smaller than 2^32 - 896 bytes |
| MapTransfer.MapSender.SendMapData | src/engine/server/server.cpp:1216-1242 | one message with the chunk's bytes goes out, or none for a faulty request |
| MapTransfer.MapSender.RequestMapData | src/engine/server/server.cpp:1469-1499 | the handler does what the requested chunk, the expected chunk and the settings call for |
| MapTransfer.FastDownload | src/engine/server/server.cpp:1483-1498 | after requests 0 to k-1 in order, chunks 0 to W+k-1 have been sent once each in order |
| MapTransfer.PlainDownload | src/engine/server/server.cpp:1483-1487 | without fast download, requests 0 to k-1 get chunks 0 to k-1 once each in order |
| MapTransfer.RequestAgain | src/engine/server/server.cpp:1483-1487 | with it, a request out of turn gets its own chunk alone and does not move the window |
| MapTransfer.SixupDownload | src/engine/server/server.cpp:1474-1481 | n requests of a newer client get the first n windows of chunks in order |
| MapTransfer.RangeIsIff | src/engine/server/server.cpp:1216-1242 | the messages for the first n chunks are numbered without a gap, hold their pieces, are flagged last exactly at the end, and join to a prefix of the map, if and only if no offset among them wraps around into the map |
| MapTransfer.FewChunks | src/engine/server/server.cpp:1219-1225 | the first 4793491 offsets do not wrap, and the next one does into any map of 640 bytes |
| MapTransfer.WholeMap | src/engine/server/server.cpp:1483-1498 | after requests in order that is what a fast download has sent, under exactly that condition, and far enough it is the whole map |
| MapTransfer.WholeMapPlain | src/engine/server/server.cpp:1483-1487 | without fast download the same holds for the chunks requested |
| MapTransfer.EmptyLastIff | src/engine/server/server.cpp:1227-1231 | when no offset wraps, there is a second, empty last message if and only if the size is a multiple of 896 |
| MapTransfer.EveryMessageIsFromTheMap | src/engine/server/server.cpp:1216-1242 | whatever is requested, every message holds the at most 896 bytes of the map from its chunk's offset on, and is flagged last if and only if nothing follows them |
| ServerInfo.ListedOnce | src/engine/server/server.cpp:1982-1984 | the ids listed are exactly those of the clients there, each once, in order |
| PackerText.AddString | src/engine/shared/packer.cpp:29-62 | as many code points as fit the limit and the room left are added, errors as the replacement character, and a terminator; the error is set if and only if the room is too small for what the limit allows, and after an error nothing is added; the terminator is inside the buffer if and only if that was not full |
| PackerText.AddsWholeChars | src/engine/shared/packer.cpp:29-60 | of a valid string, the most whole characters within the limit are added |
| PackerText.ShownIs | src/engine/shared/packer.cpp:41-47 | a decoding error is written as U+FFFD, and every other code point as itself |
| PackerText.TextIsValid | src/engine/shared/packer.cpp:29-62 | of any bytes whatever, what is added is valid UTF-8 |
| PackerText.IntIsAdded | src/engine/server/server.cpp:1864-1869 | a number is added as its decimal text through `AddString` with limit 0, which stands for the whole buffer |
| ServerInfo.RecordFits | src/engine/server/server.cpp:2004-2011 | whatever name, clan and numbers are, a record is at most 57 bytes and fits a fresh packet |
| ServerInfo.PrefixFits | src/engine/server/server.cpp:1871-1927 | whatever its strings and numbers are, the prefix of every type is at most 425 bytes |
| ServerInfo.NeverFull | src/engine/server/server.cpp:1929-2030 | the packer's 2048 bytes are enough for every packet and one more record |
| ServerInfo.CacheClients | src/engine/server/server.cpp:1929-2030 | the loop ends in spite of the retry, for any records that fit a fresh packet; packets list every client once in id order (the first 16 for the small types) and are as full as they can be |
| ServerInfo.CacheServerInfo | src/engine/server/server.cpp:1871-2030 | so for all clients and texts; EXTENDED packets stay under the payload limit, and no packet overflows the packer |
| ServerInfo.Splits | src/engine/server/server.cpp:1986-2000 | a full legacy packet is saved and the client goes into the next one |
| ServerInfo.Retries | src/engine/server/server.cpp:2013-2024 | a record that does not fit saves the packet without it and is taken again, with progress |
| ServerInfo.LegacyOffset | src/engine/server/server.cpp:1990-1995 | each legacy packet starts with the number of players in the packets before it |
| ServerInfoReading.UnpackPacked | src/engine/shared/compression.cpp:10-72 | unpacking gives a packed number back, and leaves what follows it |
| ServerInfoReading.PrefixReads | src/engine/server/server.cpp:1871-1927 | read as strings, a packet that starts with the prefix has each string and each number of the server in its place |
| ServerInfoReading.PacketReads | src/engine/server/server.cpp:1929-2030 | read back, each packet gives the clients listed in it, in order, with name and clan as far as they fit, country, score and player flag; and the server, the offset or the packet number, as its type has it |
| ServerInfoReading.AllRead | src/engine/server/server.cpp:1929-2030 | all packets together give the clients listed in them, in order |

## Left out

* Sockets, files, threads, semaphores, clocks and memory as real objects: threads appear as
  steps, a clock reading is a parameter, a failing `malloc` or `thread_init` does not occur.
- AsyncRing.AsyncIo.WriteUnlocked: requires that the unread bytes, the payload and one more byte fit 2^31 (`HasRoom`). Above that and below 2^32 the source does not return; from 2^32 on it copies past a buffer that is too small (`GrowsEnoughIff`).
- AsyncRing.AsyncIo.WriteGrowing: requires the same.
- AsyncProtocol.EveryRunIsSafe: a run ends before a step that would touch memory that is gone; `FreeIsSafeIff` says when there is one. Memory counts as gone from the moment the last owner lets go. Calls that begin after the handle has been given up, and a second `aio_free`, are not modelled; joining when there is no thread any more returns at once. One `io_write` is one step that takes the whole local buffer; the flush, short writes and the value that `aio_error` returns are not in it.
- AsyncProtocol.EveryCallReturns: a run that stops before such a step is not one in which no step is left.
* `aio_write_newline` is two writes under one lock and adds nothing.
- Sha256.HashPieces: the digest equals FIPS 180-4 for messages under 2^64 bits; beyond that the length field is taken modulo 2^64, as the code does.
- SnapIdPool.Pool.FreeID: the two assertions of the source are its precondition.
- ConfusableTables.Pack: the sorted lists that Python makes of the map are parameters, and the printing of the C source is left out; a length above 255 does not compile in its table.
- ConfusableGenerator.Gen: that the rounds converge is its precondition; reading the Unicode files and the four hand-made entries are left out, the tables are parameters.
* The real Unicode tables: any strictly sorted table without the code point 0 in its values.
- ClientNames.Server.SetClientNameImpl: requires that the trimmed request or some candidate is available, without which the source does not return; the kick itself and the reason texts are left out. `src/game/server/gamecontext.cpp` checks that requests are valid UTF-8.
- NoCase.FindNoCase: the table of lower-case code points and the binary search in it are a map parameter.
* Uniqueness of names in between: only setting a name keeps it; a client that becomes ready is not checked again.
- RegisterRuns.OmitsIffAccepted: the times at which requests are due, challenge tokens and the headers of a request are not part of the state machine; the scheduling of `OnNewInfo` is the method `SendNewInfo`.
- RegisterShared.SendNewInfo: holds the times of the protocols in two arrays instead of in the protocol objects.
- BoxMovement.MoveBox: over exact reals, with `Max` given as the whole part of the speed; rounding of floats is not modelled.
- MapTransfer.WholeMap: for maps under 2^32 - 896 bytes, exactly those of which every chunk is read inside the map (`ReadsInsideIff`), and chunk numbers that fit an int; so are `SendMapData`, `RequestMapData`, `RangeIsIff` and `EmptyLastIff`.
- ServerInfo.CacheServerInfo: the strings and numbers it packs are given, with the numbers within C ints; how the player counts and their limits are computed is left out. `CacheServerInfoSixup` writes a single packet and is left out.
* The rest of the repository: databases, HTTP and JSON, demo recording, the console, tuning,
  the game modes, hook states of `CCharacterCore`, the authentication manager, UPnP and the
  build scripts.
