# TinyOS: serial link, CRC-16 and the TOSSIM containers

This project models the algorithmic cores of the TinyOS tree and proves what they are for.

* **The serial link** of the Python SDK (`support/sdk/python/tos.py`), layer by layer:
  * `Packet.dfy`: the schema-driven packer and parser, with Python's slices, negative indices and
    arithmetic shifts spelled out. `RoundTrip.dfy` and `PacketLimits.dfy`: parsing what was packed gives
    the values back, on every packet of a description, if and only if the description is `Exact`, a
    condition that can be read off the description.
  * `Hdlc.dfy`: byte stuffing (the rule of section 4.2 of RFC 1662), the CRC trailer, and `read` and
    `write` on a byte source that may fall silent at any time. Stripping is the exact inverse of
    stuffing, and `read` computes the automaton `Read`.
  * `HdlcStream.dfy`: frames are read back in order; after arbitrary garbage at most one frame is
    lost. `SilentStream.dfy`: with silences anywhere in the stream, a read gives the next frame intact or
    nothing, and a read that gives nothing costs one frame at most.
  * `FrameDamage.dfy`: exactly which damage to the bytes of a frame the comparison of CRCs misses. Sixteen
    consecutive bits within the body or within the trailer never; across the boundary between them it can.
  * `StopAndWait.dfy`: the acknowledged sender as a state machine over links that deliver in order
    and may drop anything, with its invariant, safety over whole runs, and a way out of every state.
    `AckedWrite.dfy`: the retry loops of the class `AM`. Each method keeps a run of the state machine and a
    log of what it sends, reads and waits for; the log is exactly what `Following` asks for, entry by entry.
  * `WireRuns.dfy` puts the layers together: the same protocol over two streams of bytes and silences,
    read with `read` at both ends. Every such run stands for a run of the state machine, so the far end
    gets each message once and in order, and a write can always be completed.
  * `SerialFrames.dfy`: the frame schemas, and an active message inside a data frame through all
    layers.
* **CRC-16, four ways** (`Word16.dfy`, `Crc.dfy`, `CrcTable.dfy`): the C bit loop, the Python bit loop,
  the loop-free form and the table form compute the same function. `Gf2Poly.dfy` and
  `CrcPolynomial.dfy` show that function to be the remainder of polynomial division over GF(2), with
  burst detection at any length as a consequence. `DamageDetection.dfy`: two messages have the same CRC if
  and only if their difference is a multiple of the generator. So seventeen consecutive bits of damage go
  unnoticed only if they are the generator itself, and an odd number of flipped bits never does.
  `TwoBits.dfy`: two flipped bits do exactly at distances divisible by 32767, so up to three flipped bits in
  a message of at most 32767 bits are always noticed.
* **TOSSIM's hash table**: `HashChains.dfy` has the two rehash algorithms as functions on chains,
  `HashTable.dfy` the pointer code (a bucket array and linked entries relinked in place), and
  `HashTableMap.dfy` the refinement of a finite map over every run. `HashTableHistory.dfy` puts the calls
  on a table object on record: they are such a run, so its answers are the map's. `HashTableOrder.dfy`:
  in which order entries with one key are retrieved, and what growing the table does to that order.
  `HashTableLoad.dfy`: when the table grows, and how full that keeps it.
* **TOSSIM's event queue**: `EventHeap.dfy`: a binary heap in a growing array refines a priority
  multiset; events are conserved over every run and popped in order of time. `EventQueue.dfy`: the queue
  and the clock on top of it, whose actions are such a run; simulated time never runs backwards.
  `EventTies.dfy`: in what order events for one time are delivered.
* **Stateful arithmetic and arrays**: Shellsort (`Shellsort.dfy`), the Oscilloscope's sliding window
  of samples (`SampleWindow.dfy`), the Marsaglia-Zaman generator (`RandomLib.dfy`), and the number
  printer with the width reader of the small printf (`Printf.dfy`). `PrintfText.dfy` says, in alphabets,
  lengths and values, what is printed and read.

`Basics.dfy` holds what several of these share.

Code that changes state in place is modelled by classes, arrays and loops; each such method is proved
against a specification function or relation, and the properties of the source are proved about those.

## Where the code and its documentation differ

* `hashtable.h` (lines 95-98) says that resizing reverses the retrieval order of duplicate keys. Plan A
  does: `HashTableOrder.PlanAReversesKeys`. Plan B reverses the entries with a key exactly if the key changes
  bucket or has not two of them: `HashTableOrder.PlanBReversesKeysIff`, whatever other keys share its hash,
  with an instance in `HashChains.PlanBKeepsOrder`. `HashTableOrder.ExpandedAnswer` says what a search for
  such a key then answers.
* An active message records the length of its data in one byte. It comes back from its bytes
  exactly if the data are shorter than 256 bytes: `SerialFrames.MessageRoundTrip`.
* Packet descriptions are not restricted, but packing and parsing agree only on some: `PacketLimits.ExactIff`.
  A byte left unfinished by bit fields may be followed only by fields of size 0; there may be one blob
  without a size, behind which the declared sizes, bits counted like bytes, must add up to the bytes packed;
  and behind a blob of size 0 nothing may be packed. `UnfilledByteIsReadTwice`, `BitsBehindBlob` and
  `EmptyBlobTakesAll` are instances of the three ways to fail.
* The low byte of the CRC is sent first (tos.py, lines 301-302), so the guarantee for bursts does not carry
  over to damage that straddles the end of the body: `FrameDamage.StraddlingIff`.

## Assumptions about the surroundings

* The mote side of the serial protocol is not part of this model; the far end is assumed to accept
  data frames in the order they arrive and to answer each with an acknowledgement that carries its
  sequence number. Links deliver in order and may drop frames. Frames the host takes for
  acknowledgements come from the far end.
* In `WireRuns` the far end finds frames in its stream as the host's `read` does. A frame gets onto a line whole
  or not at all; silences may fall anywhere, at any time, and each line may begin with the rest of a frame.
* Hash functions and key equality are parameters; the refinement theorem assumes that equality is an
  equivalence, that equal keys hash alike, and that an equal key is removed before an insertion.
* What an allocation returns, the byte stream, silences and the two seeds drawn from `sim_random` are
  parameters.

## Model

| member | source | states |
|---|---|---|
| Crc.BitLoopCrcByte | tos/lib/tosboot/crc.h:53-67 | the do-while loop XORs the byte into the top half and takes eight division steps |
| Crc.NoBitLost | support/sdk/python/tos.py:324-330 | from a masked value no shift or XOR of the Python loop needs more than 17 bits, so no intermediate integer is cut off |
| Crc.PythonCrc16 | support/sdk/python/tos.py:321-331 | the Python double loop, on integers that do not wrap and are masked once a turn, gives the same CRC as folding the C step |
| Crc.StepsLinear | tos/lib/tosboot/crc.h:59-64 | any number of division steps distributes over XOR |
| Crc.AgreeEverywhere | tos/system/crc.h:91-98 | for all 65536 words the loop-free expression is eight division steps |
| Crc.LoopFreeCrcByte | tos/system/crc.h:91-98 | the straight-line code computes the bit loop's result for every state and byte |
| CrcTable.EntryIsEightSteps | tos/chips/xe1205/crc.h:44-77 | each of the 256 table constants is eight division steps of its index shifted left by 8 |
| CrcTable.TableFormIsCrcByte | tos/chips/xe1205/crc.h:79-83 | the table form computes the bit loop's result for every state and byte |
| CrcPolynomial.StepsPoly | tos/lib/tosboot/crc.h:59-64 | n division steps multiply the state's polynomial by x^n, up to a multiple of the generator that is produced |
| CrcPolynomial.CrcQuotient | tos/lib/tosboot/crc.h:44-67 | a quotient q with message * x^16 = q * G + CRC exists for every message |
| CrcPolynomial.CrcIsRemainder | tos/lib/tosboot/crc.h:44-67 | the CRC of any byte sequence is the one polynomial of degree below 16 congruent to message * x^16 modulo x^16+x^12+x^5+1 |
| Gf2Poly.MultipleSpan | tos/lib/tosboot/crc.h:49 | a nonzero multiple of the generator has two terms at least 16 degrees apart |
| Gf2Poly.RemainderUnique | tos/lib/tosboot/crc.h:49 | two remainders of the same polynomial are equal |
| CrcPolynomial.BurstDetected | support/sdk/python/tos.py:266-269 | messages of equal length, however long, that differ only inside 16 consecutive bits have different CRCs |
| CrcPolynomial.AdjacentBytesDetected | support/sdk/python/tos.py:266-269 | any damage to two adjacent bytes anywhere in a message changes the CRC |
| CrcPolynomial.SeventeenBitsMissed | support/sdk/python/tos.py:266-269 | an instance of the exact condition below: the generator's own pattern in a message of three bytes |
| DamageDetection.SameCrcIff | support/sdk/python/tos.py:321-331 | two messages of any lengths have the same CRC if and only if their difference is a multiple of the generator |
| DamageDetection.SeventeenBitsIff | support/sdk/python/tos.py:266-269 | damage within 17 consecutive bits, at any length, goes unnoticed if and only if it is the generator's pattern |
| DamageDetection.OddDamageDetected | support/sdk/python/tos.py:266-269 | an odd number of flipped bits changes the CRC, at any length |
| TwoBits.StepsIsTimes | tos/lib/tosboot/crc.h:59-64 | any number of division steps multiplies a word, modulo the generator, by what those steps make of 1 |
| TwoBits.PeriodIff | tos/lib/tosboot/crc.h:59-64 | the register that starts at 1 is back at 1 after exactly the multiples of 32767 steps |
| TwoBits.TwoBitsIff | support/sdk/python/tos.py:266-269 | two flipped bits, in messages of any length, go unnoticed if and only if 32767 divides their distance |
| TwoBits.ThreeBitsDetected | support/sdk/python/tos.py:266-269 | one to three flipped bits in messages of equal length up to 32767 bits change the CRC |
| Packet.EncodeInt | support/sdk/python/tos.py:519-525 | the loop and the reversal give the big-endian digits base 256 of an integer of any sign |
| Packet.DecodeInt | support/sdk/python/tos.py:513-517 | the loop computes the value of big-endian digits |
| Packet.DecodeEncode | support/sdk/python/tos.py:513-525 | decoding what was encoded in n bytes gives the integer modulo 256^n |
| Packet.ResolveSizes | support/sdk/python/tos.py:535-543 | the backward loop writes into the caller's list how many bytes follow the last unsized field, and changes nothing else; a list that has been through it before is no exception |
| Packet.SizesAreAdded | support/sdk/python/tos.py:535-541 | the sizes are added up as numbers, one filled in before counting as the negative number it is |
| Packet.ResolvedTwice | support/sdk/python/tos.py:535-543 | a list with at most one size missing may serve for further objects: resolving it again changes nothing |
| Packet.PacketObject.constructor | support/sdk/python/tos.py:532-579 | without a packet the schema is the description as resolved in the caller's list, and every value is None |
| Packet.PacketObject.FromTuple | support/sdk/python/tos.py:574-576 | made from a tuple, the object holds those values as they are; the caller's list is resolved |
| Packet.PythonIndices | support/sdk/python/tos.py:547-573 | negative, large and crossing bounds of slices and indices mean what they mean in Python |
| Packet.ReadField | support/sdk/python/tos.py:547-573 | one turn of the parsing loop, with the decoding loop inside, reads what the specification of one field says |
| Packet.WriteField | support/sdk/python/tos.py:646-661 | one turn of the packing loop, with the encoding loop inside, adds what the specification of one field says |
| Packet.PacketObject.Parse | support/sdk/python/tos.py:546-573 | the loop with its byte and bit offsets computes the recursive parser, and raises exactly when that fails |
| Packet.PacketObject.Payload | support/sdk/python/tos.py:643-664 | the loop computes the recursive packer, exceptions and values beyond the schema included |
| RoundTrip.BitOrDisjoint | support/sdk/python/tos.py:655-656 | or-ing a value into the clear low bits of a byte adds it |
| RoundTrip.PackExtends | support/sdk/python/tos.py:643-664 | whatever is packed later, by any schema, keeps the bytes before and the bits above |
| RoundTrip.PackLength | support/sdk/python/tos.py:643-664 | the bytes that fields of fixed size add, bit fields included, for any values in range |
| RoundTrip.Step | support/sdk/python/tos.py:546-573 | for a field both sides handle alike, the packet comes back if and only if what is packed behind the field does |
| RoundTrip.PacketRoundTrip | support/sdk/python/tos.py:532-579 | parsing what `payload` made returns the values, for every exact description and all values in range |
| PacketLimits.BehindFails | support/sdk/python/tos.py:546-573 | a parser left behind the packer never catches up: some values in range come back wrong, unless all fields left have size 0 |
| PacketLimits.Fails | support/sdk/python/tos.py:532-579 | every description that is not exact has values in range that do not come back |
| PacketLimits.ExactIff | support/sdk/python/tos.py:532-579 | all values in range come back if and only if the description is exact, for every description in which only blobs have no size |
| PacketLimits.UnfilledByteIsReadTwice | support/sdk/python/tos.py:554-560 | an instance: after four bits a byte is read from the byte those bits are in |
| PacketLimits.EmptyBlobTakesAll | support/sdk/python/tos.py:564-573 | an instance: a blob of declared size 0 before a byte is parsed as that byte |
| PacketLimits.BitsBehindBlob | support/sdk/python/tos.py:536-542 | an instance: two halves of a byte behind a blob of any length count as eight bytes, and parsing raises |
| PacketLimits.NumberWithoutSize | support/sdk/python/tos.py:535-549 | for any two numbers, the first declared without a size: it takes no bytes, and both come back as 0 |
| Hdlc.EscapePacket | support/sdk/python/tos.py:359-367 | the loop stuffs each byte 7e as 7d 5e and 7d as 7d 5d, keeps all others, and puts each at the place that follows from those before it |
| Hdlc.UnescapePacket | support/sdk/python/tos.py:346-357 | the loop with its one-byte memory computes the recursive unstuffing |
| Hdlc.StuffingBytes | support/sdk/python/tos.py:359-367 | where each byte's image stands in the stuffed sequence, and what it is: 7d 5e for 7e, 7d 5d for 7d, every other byte itself |
| Hdlc.UnstuffingBytes | support/sdk/python/tos.py:346-357 | unstuffing drops each 7d and gives the byte after it 32 more or 32 less, as its sixth bit is clear or set; every other byte stands for itself |
| Hdlc.WireFormat | support/sdk/python/tos.py:283-307 | between two bytes 7e, stuffed: 68, the sequence number, 0, the payload, and the CRC of these from 0, low byte first |
| Hdlc.InterpretIs | support/sdk/python/tos.py:263-279 | what `read` hands over of any packet, however short, and with which bytes it compares the CRC |
| Hdlc.UnescapeEscape | support/sdk/python/tos.py:346-367 | unstuffing a stuffed sequence, whatever follows it, gives it back and leaves no escape pending |
| Hdlc.EscapeHasNoFlag | support/sdk/python/tos.py:359-367 | no flag byte occurs in a stuffed sequence |
| Hdlc.InterpretFrame | support/sdk/python/tos.py:263-279 | what `read` makes of a frame is its body, and the CRCs it compares are equal |
| Hdlc.InterpretFrameWithTrailer | support/sdk/python/tos.py:263-279 | for any 16-bit trailer the body is handed over, and the comparison says whether the trailer is the body's CRC |
| Hdlc.Link.ReadPacket | support/sdk/python/tos.py:228-281 | the three loops of `read` compute the automaton `Read` on any stream of bytes and silences, and leave the stream where it does |
| Hdlc.Link.WritePacket | support/sdk/python/tos.py:283-307 | `write` puts out flag, stuffed data frame and CRC, flag |
| HdlcStream.ReadFrameWithTrailer | support/sdk/python/tos.py:228-281 | a frame with any trailer is read as its body, with the verdict whether the trailer is its CRC |
| HdlcStream.ReadFrame | support/sdk/python/tos.py:228-307 | reading what was written gives the body with a good CRC and leaves what follows untouched |
| HdlcStream.FramesAreRead | support/sdk/python/tos.py:228-307 | after the flag-free tail of a lost frame or none, n reads of n frames give exactly the n bodies, in order, CRCs equal |
| HdlcStream.ReadFromGarbage | support/sdk/python/tos.py:228-281 | one read that starts in garbage shortens the garbage or ends at a frame boundary |
| HdlcStream.Resynchronises | support/sdk/python/tos.py:228-281 | after any bytes and silences whatever, some number of reads leads to a frame boundary |
| HdlcStream.AtMostOneFrameLost | support/sdk/python/tos.py:228-281 | after any garbage g, at most the first frame is lost, and within length(g) + 1 reads all others come in order with good CRCs |
| SilentStream.ReadCarries | support/sdk/python/tos.py:228-281 | silences anywhere: one read gives the next frame's body with equal CRCs, or nothing, and then at most the next frame is lost |
| SilentStream.ReadsCarry | support/sdk/python/tos.py:228-281 | any number of reads give the bodies in order, with gaps only where a read gave nothing |
| FrameDamage.CrcLinear | support/sdk/python/tos.py:321-331 | the CRC of the difference of two messages is the difference of their CRCs |
| FrameDamage.UnnoticedIff | support/sdk/python/tos.py:263-279 | damage to body and trailer goes unnoticed if and only if the CRC of the damage to the body is the damage to the trailer |
| FrameDamage.BurstIsNoticed | support/sdk/python/tos.py:263-279 | a body damaged inside 16 bits under its old trailer is handed over with the CRCs unequal |
| FrameDamage.TrailerDamageIsNoticed | support/sdk/python/tos.py:263-279 | any damage to the trailer alone is noticed |
| FrameDamage.StraddlingIff | support/sdk/python/tos.py:301-302 | damage to the last body byte and the byte after it on the wire goes unnoticed if and only if the second is the CRC of the first |
| FrameDamage.StraddlingBurstMissed | support/sdk/python/tos.py:301-302 | an instance in every frame: 16 consecutive bits across the boundary that go unnoticed |
| StopAndWait.SeqnoTellsNeighbours | support/sdk/python/tos.py:387 | the 8-bit counters of two messages next to each other differ |
| StopAndWait.StepKeepsInv | support/sdk/python/tos.py:386-416 | every step of sender, links and far end keeps the protocol invariant |
| StopAndWait.InvAlways | support/sdk/python/tos.py:386-463 | the invariant holds in every state of every run |
| StopAndWait.OnlyNeighboursUnderWay | support/sdk/python/tos.py:386-416 | every frame and every acknowledgement under way belongs to the current message or the one before |
| StopAndWait.ReturnedMeansAccepted | support/sdk/python/tos.py:457-463 | a blocking write returns only by an acknowledgement, and only after the far end has accepted this very message |
| StopAndWait.ExactlyOnceInOrder | support/sdk/python/tos.py:457-463 | the far end, dropping repeated sequence numbers, holds all messages written, once each and in order; during a write at most the last is missing |
| StopAndWait.CanComplete | support/sdk/python/tos.py:386-416 | from every reachable state a write can be completed without losses |
| AckedWrite.Network.HdlcRead | support/sdk/python/tos.py:397-407 | a packet returned is the oldest one under way at the last step of the run, its arrival is the only move of the host, every happening waited for is in the log, and the run so far is extended to a run of the state machine |
| AckedWrite.OneSendEach | support/sdk/python/tos.py:392-414 | between any two points of a write the frames sent are as many as the timeouts and the acknowledgements of other messages that ask for one |
| AckedWrite.LogIsDetermined | support/sdk/python/tos.py:386-416 | what a write sends, reads and waits for, in which order, and what it leaves of the script, is determined by where it starts and what happens |
| AckedWrite.AnsweredAtOnce | support/sdk/python/tos.py:386-416 | when nothing is under way and the far end takes the frame and answers, exactly these two happenings are used up, and the write ends by the bytes 67 and the message's number modulo 256 |
| AckedWrite.AM.SimpleWrite | support/sdk/python/tos.py:386-416 | true exactly if the acknowledgement of the current message was taken; the log goes on as `Following` asks, a frame being sent first and after each timeout |
| AckedWrite.AM.SkipOthers | support/sdk/python/tos.py:401-411 | the inner loop ends with an acknowledgement or a timeout, skips everything else and sends nothing |
| AckedWrite.AM.Write | support/sdk/python/tos.py:457-463 | one frame is sent, and one more for each timeout and each acknowledgement of another message; when it returns, the far end holds exactly the messages written so far, this one included; it fails to return only by using up the script, and an answer that comes at once makes it return |
| WireRuns.MoveSimulates | support/sdk/python/tos.py:228-307 | every write, read, lost frame, other traffic and silence on the two byte streams is a sequence of steps of the state machine |
| WireRuns.WireRunIsRun | support/sdk/python/tos.py:386-416 | every state of every run over bytes represents a state of a run of the state machine |
| WireRuns.BytesExactlyOnceInOrder | support/sdk/python/tos.py:457-463 | over bytes and silences: when no write is in progress the bodies the far end has read, less repeated sequence numbers, are the messages written, once each and in order, the last body being that of the last message; during a write at most the last is missing |
| WireRuns.WriteCanComplete | support/sdk/python/tos.py:386-416 | from every state of every run, whatever frames, rests of frames and silences are on the lines, undisturbed sends and reads complete the write |
| SerialFrames.AckFrameFields | support/sdk/python/tos.py:676-686 | an acknowledgement of any length parses to its first two bytes, 0 for missing ones |
| SerialFrames.DataFramePacked | support/sdk/python/tos.py:294-300 | the data frame's fields pack to protocol, sequence number, 0 and the payload |
| SerialFrames.DataFrameParsed | support/sdk/python/tos.py:688-700 | and parse back |
| SerialFrames.MessageBytes | support/sdk/python/tos.py:715-740 | the bytes of an outgoing message: destination, high byte first, two zeros, the length modulo 256, zero, the type, the data |
| SerialFrames.MessageFields | support/sdk/python/tos.py:715-740 | those bytes parse, field by field name, to that destination, source 0, length, group 0, type and data |
| SerialFrames.FrameFields | support/sdk/python/tos.py:676-700 | a data frame is 68, the sequence number, 0 and the payload, an acknowledgement 67 and the number, field by field name |
| SerialFrames.MessageRoundTrip | support/sdk/python/tos.py:715-740 | an active message comes back from its bytes if and only if its data are shorter than 256; otherwise only the length differs, modulo 256 |
| SerialFrames.SurvivesTheWire | support/sdk/python/tos.py:283-307 | an active message in a data frame, written and read, arrives with every field intact at every layer |
| HashChains.IndexFor | tos/lib/tossim/hashtable_private.h:32-35 | the bucket number lies in the table |
| HashChains.SameBucketIff | tos/lib/tossim/hashtable_private.h:32-35 | a hash below the length is its own bucket, and two hashes share one if and only if the length divides their difference |
| HashChains.PlanAReverses | tos/lib/tossim/hashtable.c:88-97 | Plan A reverses the retrieval order of the entries with any one hash, for every table |
| HashChains.PlanBOrder | tos/lib/tossim/hashtable.c:101-124 | Plan B reverses it if they change bucket and keeps it otherwise |
| HashChains.PlanBReversesIff | tos/lib/tossim/hashtable.c:101-124 | for the entries with one hash, which may have different keys: Plan B reverses them if and only if the bucket changes or there are not two |
| HashChains.PlanBKeepsOrder | tos/lib/tossim/hashtable.h:95-98 | two entries with hash 0 growing from 53 to 97 buckets keep their order |
| HashChains.RehashKeepsItems | tos/lib/tossim/hashtable.c:83-124 | both plans keep the multiset of entries |
| HashChains.RehashPlaces | tos/lib/tossim/hashtable.c:83-124 | both plans end with every entry in its bucket for the new size, though Plan B meets moved entries again |
| HashTable.MoveToNew | tos/lib/tossim/hashtable.c:83-97 | the pointer loop of Plan A computes `PlanA` |
| HashTable.SiftBucket | tos/lib/tossim/hashtable.c:110-123 | the pointer loop of Plan B over one bucket, with its pointer to a pointer, terminates and computes `Sift` |
| HashTable.SiftInPlace | tos/lib/tossim/hashtable.c:109-124 | the outer loop of Plan B computes the rehash of the whole table |
| HashTable.Table.Create | tos/lib/tossim/hashtable.c:30-55 | null if more than 2^30 is asked for or there is no memory, else an empty table with the first prime length above the size asked for |
| HashTable.Table.Expand | tos/lib/tossim/hashtable.c:72-128 | grows to the next prime by the plan the allocations allow, or fails and changes nothing |
| HashTable.Table.Insert | tos/lib/tossim/hashtable.c:138-161 | perhaps an expansion, whose failure is ignored, then one new entry at the head of its bucket, or none without memory; every field of the table stays consistent |
| HashTable.Table.Search | tos/lib/tossim/hashtable.c:164-181 | the value of the first entry in the bucket with equal hash and equal key, or none |
| HashTable.Table.Remove | tos/lib/tossim/hashtable.c:184-215 | takes out that entry and only that, and returns its value |
| HashTable.Table.Count | tos/lib/tossim/hashtable.c:131-135 | the counter is the number of chained entries |
| HashTable.ExpandedSound | tos/lib/tossim/hashtable.c:72-128 | an expansion, of either kind or failed, keeps every entry once, in its bucket, with the hash of its key |
| HashTableMap.LookupFinds | tos/lib/tossim/hashtable.c:164-181 | a search for a key equal to that of an entry in the table finds that entry |
| HashTableMap.SameAnswers | tos/lib/tossim/hashtable.c:72-128 | tables with the same entries give the same answers, whatever their length and order |
| HashTableMap.AddedAnswers | tos/lib/tossim/hashtable.c:151-159 | after an insertion exactly the keys equal to the new one have a new answer |
| HashTableMap.RemovedAnswers | tos/lib/tossim/hashtable.c:184-215 | after a removal exactly the keys equal to the removed one have none |
| HashTableMap.RunRefinesMap | tos/lib/tossim/hashtable.c:72-215 | after every prefix of every run, across any expansions and failures, each search answers as the map does, the entry count is the map's size, and every entry is in its bucket |
| HashTable.LoadLimit | tos/lib/tossim/hashtable.c:53 | the least integer not below 65 hundredths of the table length |
| HashTableLoad.Lengths | tos/lib/tossim/hashtable.c:15-23 | each table length lies just above three times a power of two, and has none of the first six primes as a divisor |
| HashTableLoad.InsertionGrows | tos/lib/tossim/hashtable.c:138-150 | an insertion enlarges the table if and only if it is at least 65 hundredths full, there is a larger length and memory for it; with that memory it ends within the limit if and only if the next length can hold all entries or is the last |
| HashTableLoad.StillTooFull | tos/lib/tossim/hashtable.c:138-150 | an instance: with 100 entries in 53 buckets, left by failed expansions, one insertion with memory leaves the table too full |
| HashTableLoad.NeverTooFull | tos/lib/tossim/hashtable.c:138-150 | over every run in which no expansion fails for memory, the entries never exceed 65 hundredths of the length, rounded up, unless the table has the last length |
| HashTableOrder.RetrievedInOrder | tos/lib/tossim/hashtable.c:164-215 | duplicate keys allowed: a search answers with the first entry of equal key in its bucket, and a removal takes out that one of them |
| HashTableOrder.PlanAReversesKeys | tos/lib/tossim/hashtable.h:95-98 | Plan A reverses the retrieval order of the entries with any one key, as documented |
| HashTableOrder.PlanBReversesKeysIff | tos/lib/tossim/hashtable.h:95-98 | Plan B reverses the entries with a key if and only if the key's bucket changes or there are not two entries with it |
| HashTableOrder.ExpandedOrder | tos/lib/tossim/hashtable.c:72-128 | for every outcome of the allocations and every size of the table: which keys an expansion reverses, all others keeping their order |
| HashTableOrder.ExpandedAnswer | tos/lib/tossim/hashtable.c:72-128 | after an expansion that reverses it, a search for a duplicated key answers with what was the last entry of that key, otherwise still with the first |
| HashTableHistory.RunGoesOn | tos/lib/tossim/hashtable.c:138-215 | a step from the last state of a run makes a run |
| HashTableHistory.Recorded.Insert | tos/lib/tossim/hashtable.c:138-161 | inserting a key the map does not hold puts the call on record, and the record stays a run |
| HashTableHistory.Recorded.Search | tos/lib/tossim/hashtable.c:164-181 | a search on the object answers as the map of all calls so far |
| HashTableHistory.Recorded.Remove | tos/lib/tossim/hashtable.c:184-215 | a removal answers as that map |
| HashTableHistory.Recorded.Count | tos/lib/tossim/hashtable.c:131-135 | the count is the number of keys that map holds |
| EventHeap.Heap.Insert | tos/lib/tossim/heap.c:146-158 | adds one event to the multiset of pending events, where the array has its place for it, and keeps the heap order, growing if full |
| EventHeap.Heap.Expand | tos/lib/tossim/heap.c:132-144 | doubles the array plus one and keeps what is pending |
| EventHeap.Heap.UpHeap | tos/lib/tossim/heap.c:199-211 | restores the order broken at one node above it, and only rearranges; an event goes up past greater keys only |
| EventHeap.Heap.DownHeap | tos/lib/tossim/heap.c:173-197 | restores the order broken at one node below it, and only rearranges; of two children with one key the right one goes up |
| EventHeap.Heap.PopMinData | tos/lib/tossim/heap.c:116-130 | takes one event with a least key, the first in the array, out of the pending ones |
| EventHeap.Heap.MinKey | tos/lib/tossim/heap.c:98-105 | the least pending key, or -1 for none |
| EventHeap.RootIsLeast | tos/lib/tossim/heap.c:98-130 | local heap order makes the root a least element |
| EventHeap.RunConserves | tos/lib/tossim/heap.c:116-158 | over every run, initial and inserted events are exactly the pending and popped ones |
| EventHeap.TimeIsMonotone | tos/lib/tossim/heap.c:116-158 | if no key inserted is below the last one popped, the popped keys never decrease |
| EventTies.Simultaneous | tos/lib/tossim/heap.c:116-158 | of events for one time the first inserted is delivered first, and then the others, the last inserted first |
| EventTies.TakesPlace | tos/lib/tossim/heap.c:173-197 | what takes the place of an event that goes down: a child of lesser key, and of two equal ones the right |
| EventQueue.Queue.SimQueueInsert | tos/lib/tossim/sim_event_queue.c:50-53 | puts the insertion on record; the record stays a run from the empty queue |
| EventQueue.Queue.SimQueuePop | tos/lib/tossim/sim_event_queue.c:55-58 | takes out a least event and puts it on record |
| EventQueue.Queue.SimQueuePeekTime | tos/lib/tossim/sim_event_queue.c:64-71 | the least time pending, or -1 |
| EventQueue.Queue.SimRunNextEvent | tos/lib/tossim/sim_tossim.c:129-133 | delivers the next event and sets the clock, which never runs backwards if no event was ever scheduled before its time |
| EventQueue.Queue.Conserves | tos/lib/tossim/sim_event_queue.c:46-58 | what was inserted is exactly what is pending and what was delivered |
| Shellsort.StaysSorted | tos/lib/byte_radio/shellsort.h:12-18 | sorting each class of positions modulo one gap keeps an array sorted for any other gap |
| Shellsort.Sink | tos/lib/byte_radio/shellsort.h:14-18 | the innermost loop brings one element to its place in its class |
| Shellsort.GapPass | tos/lib/byte_radio/shellsort.h:13-18 | a pass sorts for its gap, rearranges within classes only, and undoes no earlier pass |
| Shellsort.Sort | tos/lib/byte_radio/shellsort.h:8-19 | a sorted permutation of the first `size` elements, for every array; the rest is untouched |
| SampleWindow.Node.SetEnd | apps/Oscilloscope/java/Node.java:38-81 | room for the new samples: restart below the window, extend in steps, or slide; gaps become -1, and what lies below the message is kept |
| SampleWindow.Node.Update | apps/Oscilloscope/java/Node.java:85-91 | for any number of readings: the window makes room, holds as many of the readings as fit, and the loop ends in an exception exactly if they exceed the array; with NREADINGS of them the object holds exactly the updated window. The array stays a positive multiple of the increment up to the maximum |
| SampleWindow.Node.GetData | apps/Oscilloscope/java/Node.java:94-100 | the sample, or -1 outside the window |
| SampleWindow.Node.MaxX | apps/Oscilloscope/java/Node.java:103-105 | the number of the last sample |
| SampleWindow.SampleIsLatest | apps/Oscilloscope/java/Node.java:38-100 | for every sequence of messages, a sample inside the window is what the last message not starting above it said, -1 if nothing |
| SampleWindow.WindowIsBounded | apps/Oscilloscope/java/Node.java:18-20 | the window never holds more than the maximum |
| SampleWindow.UpdatedAt | apps/Oscilloscope/java/Node.java:38-91 | what a message does to every sample: its ten readings are stored, later samples are gone, and of the earlier ones exactly those more than 99000 below it are dropped, and only when it does not fit |
| SampleWindow.Retained | apps/Oscilloscope/java/Node.java:44-70 | over any run without a restart, a sample has left the window if and only if some message did not fit and lay more than 99000 above it |
| RandomLib.NoZeroDivisors | tos/lib/tossim/randomlib.c:79 | a product of two numbers in 1..178 is not 0 modulo 179 |
| RandomLib.NeverCollapses | tos/lib/tossim/randomlib.c:78-83 | from seeds in range, i, j and k stay in 1..178 for any number of steps |
| RandomLib.FirstSeeds | tos/lib/tossim/randomlib.c:65-73 | any pair of seeds, out of range or not, gives a start in range |
| RandomLib.TableInRange | tos/lib/tossim/randomlib.c:75-89 | for every pair of seeds each of the 97 slots is below 2^24 |
| RandomLib.LaterIs | tos/lib/tossim/randomlib.c:79-83 | after n steps the three product terms are those of the sequence modulo 179, and l is 53^n * l + (1 + 53 + ... + 53^(n-1)) modulo 169 |
| RandomLib.TableDigits | tos/lib/tossim/randomlib.c:55-89 | for all seeds: each of the 24 digits of each of the 97 slots is 1 if and only if l(t) * m(t) modulo 64 is at least 32, the starting numbers being given by division with remainder or, out of range, by the default pair |
| RandomLib.Generator.FillSlot | tos/lib/tossim/randomlib.c:76-88 | the inner loop builds the number with those 24 digits, and leaves the four numbers of 24 steps later |
| RandomLib.Generator.Initialise | tos/lib/tossim/randomlib.c:55-98 | fills the ring with that table, digit by digit, and starts both sequences |
| RandomLib.Remainder | tos/lib/tossim/randomlib.c:114-115 | the remainder of a seed has the seed's sign, as in C, and differs from it by a multiple |
| RandomLib.RingStep | tos/lib/tossim/randomlib.c:119-128 | replacing one slot keeps the ring equal to the last 97 terms of the infinite recurrence |
| RandomLib.Generator.Uniform | tos/lib/tossim/randomlib.c:103-136 | the n-th call, for every n, returns x(n) - c(n) normalised, where x is the lagged recurrence and c(n) = (362436 - n * 7654321) mod 16777213; the first call seeds |
| RandomLib.XInRange | tos/lib/tossim/randomlib.c:119-121 | every term lies in 0..2^24; the first 97 are the slots, and each later one is x(n-97) - x(n-33), plus 2^24 if that is not positive |
| RandomLib.DrawnInRange | tos/lib/tossim/randomlib.c:129-136 | every number drawn lies in 0..2^24 and is x(n) - (362436 - n * 7654321) mod 16777213, plus 2^24 if that is negative |
| Printf.NumeralDenotes | tos/lib/printf/generic_printf.h:111-122 | the digits emitted in base 8, 10 or 16 denote the number |
| Printf.PrintedDenotes | tos/lib/printf/generic_printf.h:100-143 | and so they do behind leading zeros |
| Printf.Strrev | tos/lib/printf/generic_printf.h:81-97 | reverses the text before the NUL in place and touches nothing else |
| Printf.Printer.Digits | tos/lib/printf/generic_printf.h:111-122 | the loop leaves the numeral in the buffer, last digit first |
| Printf.Printer.PrintHexOct | tos/lib/printf/generic_printf.h:100-143 | prints padding, sign, zeros and numeral as `left_val` and `right_val` ask, counts them, and uses up the padding |
| Printf.Printer.FormatVal | tos/lib/printf/generic_printf.h:208-253 | width, precision and result for any text; what cannot be read is printed and counted |
| PrintfText.TextPrinted | tos/lib/printf/generic_printf.h:100-143 | for every number, base, width and precision: blanks, a sign, zeros up to the precision, and the number, modulo 2^32 when unsigned, in the digits of its alphabet; as long as the width or the text behind the blanks, if and only if it is not a negative number with precision above its digits and width above that, which gets one blank too many |
| PrintfText.SentText | tos/lib/printf/generic_printf.h:46-55 | each line feed goes out as carriage return and line feed, every other character as itself |
| PrintfText.TextRead | tos/lib/printf/generic_printf.h:208-253 | what every text reads as: digits, a point, digits, any of them missing, and what is refused from the first other character on; the empty text with the flag has precision 3 |
| Printf.PrintThenRead | tos/lib/printf/generic_printf.h:208-253 | any nonnegative number printed in decimal without width or precision reads back as itself |
| Printf.PrintThenReadBoth | tos/lib/printf/generic_printf.h:208-253 | a width and a precision joined by a point read back as both |
| Printf.PrintThenReadNegative | tos/lib/printf/generic_printf.h:208-253 | a negative number is refused from its sign on |

## Left out

- Sockets, PySerial, wall-clock time, logging and console output of tos.py; `read`'s time stamps.
- `SimpleAM.write` with a finite timeout or without blocking, `SimpleAM.read`, `AM.read` and the hooks: with a finite timeout the loop can end holding a frame that is no acknowledgement.
- Damaged frames in the stop-and-wait runs: `read` only warns when the CRCs differ, so no rejection is claimed; what the comparison tells apart is stated in `CrcPolynomial`, `DamageDetection`, `TwoBits` and `FrameDamage`.
- `sint` and `string` fields of `Packet`, which `payload` has no encoder for, and access to fields by name.
- Termination of `AM.write`: it retries for ever if the link stays silent; the method takes a finite script of happenings and says so when it runs out.
- HashTable.Enlarge: the clearing of the new slots takes all of them; the `memset` at hashtable.c:108 passes a slot's contents and a count of slots.
- The 32-bit mixing in `hash()`, the wrap-around of unsigned counters, `free`, `freekey` and `hashtable_destroy`. The load factor, a C float, is taken as 13/20.
- HashTableLoad.Lengths: that all 26 lengths are prime, as the name of the table says, is not stated beyond divisors up to 13; nothing in the code depends on it.
- HashTable.Table.Remove: the loop is a method of its own, `Locate`, and the entry is unlinked after it, where the source unlinks inside the loop and returns.
- EventQueue.Queue.SimRunNextEvent: hands the event out; running its handler and cleanup, and whether its mote is on, are not modelled.
- `WireRuns` does not run the class `AM` of `AckedWrite`, whose network hands over whole packets; it is tied to it by the state machine both refine.
- Damage to a frame is damage to its bytes before stuffing; flags and escapes made or destroyed on the line are garbage in the sense of `HdlcStream`.
- PacketLimits.ExactIff: numbers without a size are outside it, but for `PacketLimits.NumberWithoutSize`; the library's schemas leave out the size of blobs only.
- EventHeap.Heap.PopMinData: popping an empty heap is undefined in the source and excluded; so is overflow of `int` sizes; allocation failures are not handled there.
- Overflow of Java and C `int` in sample numbers and in `format_val`.
- Printf.Printer.PrintHexOct: requires that precision, sign and NUL fit the source's buffer of 40 characters; `long` has 32 bits.
- Floating point: `RandomGaussian`, `RandomInt`, `RandomDouble`, `float_print` and `sim_lqi_generate`. The generator is modelled in units of 2^-24, in which its doubles are exact.
- `bi_search` in sim_lqi.c: a short recursion on a sorted table, easy beside the rest.
- The `_printf` dispatcher, sim_binary.c, the assembly form of `crcByte`, user interfaces, wrappers, register headers and generated message classes.
