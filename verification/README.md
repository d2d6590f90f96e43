# A verified model of the measurement applications

This project models the six parts of the measurement applications that hold real logic, and proves
what their documentation and their callers rely on. Each module follows one source file; classes,
arrays and loops stand where the source has objects, buffers and loops, and the properties are
lemmas about the functions those methods are proved against. `dafny verify dfyconfig.toml` checks
everything.

**The OTG/OTR wire codec** (`Words`, `Packets`, `PacketFields`, `Udp`). A packet is a byte buffer
with a cursor. Numbers are swapped to network order and then written most significant byte first,
so on a little-endian host the swap happens twice and the bytes go out least significant first.
The model takes the byte order and the signedness of `char` of each host as parameters. Proved:
exactly which 16- and 32-bit numbers survive (the wire bytes after the first must be below 128 when
`char` is signed), that every 64-bit number does, what hosts of opposite byte order see, that a list
of fields that fits the buffer reads back and that one that does not can lose the marker, and that a
version 2 frame decodes to its flow id exactly when 17 bytes arrive. The header comment of
`stampInt16Val` promises a write at the offset that is returned; the code writes at the cursor
instead, after an append has moved it (otg2/lib/core/packet.cpp line 139 against
otg2/lib/otg2/packet.h lines 80 to 87). So an append lands one slot behind the offset returned, and
an explicit offset is ignored. The model follows the code: `Stamp16StandsIff` says that the promise
is kept on all buffers exactly if the offset asked for is the cursor, and so never by an append.
Its consequences are proved too: a run of 16-bit stamps is read back shifted by one, with the exact
condition for the list to come back, and in every version 2 frame the compatibility slot keeps its
old content.

**Streams, generators and clocks** (`Generators`, `Clocks`, `Streams`, `Pacing`). The clock that is
paused by shifting its origin is proved to tell the un-paused wall time; a read between the two
steps of a resume overshoots by exactly the pause just ended. The constant-rate and the burst
generator obey conservation laws over whole runs. The sending loop numbers its packets 1, 2, 3, ...,
and any arrival, after loss, reordering and duplication, decodes to its sender's flow id and number
under exact conditions. `Pacing` interleaves the sending thread with the thread that pauses and
resumes, statement by statement, and proves that no packet leaves early. The loop never tests its
pause flag, so a paused stream goes on sending. `PausedSendsExactly` says when: from any paused state
of any run, n more packets can leave by a wall time t while the pause lasts if and only if the sleep
under way and the sleeps for the packets fetched in the pause fit before t. There is such a time for
every n, so no pause ever stops a stream. The steps of `Pacing` are tied to the sequential methods:
its clock reads the un-paused time in every state of every run (`ReadingInRun`), and an undisturbed
turn of its sender is a turn of the loop of `Streams` (`CalmTurn`).

**Hardware addresses** (`Addresses`). Two scanning passes over the text agree; parsing the printed
form of six bytes returns them.

**The Watts Up? protocol** (`CStrings`, `WattsUpText`, `WattsUp`, `WattsUpRead`). The printer and
the destructive in-place tokeniser invert each other on exactly the packets whose characters are
neither commas nor NUL and whose fields hold no delimiter and start with no white space, and the
tokeniser refines a functional split of the text. The reading loop resets once per
bad streak of at least two, gives up on the third bad record, and reports every good record once.

**The collectd writer** (`Registry`, `RegistrySteps`). `Registry` is the linked list of measurement
points with its search and creation, as one thread runs it. `RegistrySteps` runs any number of
threads through the same code, one step at a time, under the session lock and one lock per point:
one point per name prefix, no deadlock, no overlapping injections, and an exact condition for a row
to fit its columns. That condition can fail: two data sets whose names have one prefix share a point,
and for any two of them both modules show the calls that inject a row of the second into the point
made for the first (`SharedPoint`).

**Two walkers** (`WpaMon`, `Ipv6Walk`). The monitor's duplicate suppression is right although the
tokeniser truncates the remembered message. The walk over IPv6 extension headers keeps a header's
length in eight bits; it ends exactly if it never passes a header of length zero into another
extension header, and it agrees with section 4 of RFC 2460 exactly as long as every length byte is at
most 30. `WalkMayNotEnd` is a packet on which it runs for ever.

Reals stand for the floating-point numbers. Wall clocks, random samples, socket answers, serial
answers and received messages are inputs; what is sent, logged or injected is returned or kept in
a log.

## Model

| member | source | states |
|---|---|---|
| Words.Net64RoundTrip | otg2/lib/otg2/compat.h:16-32 | applying the 64-bit swap built from two 32-bit swaps twice gives the number back, on hosts of either byte order |
| Words.NetBytes64 | otg2/lib/otg2/compat.h:25-32 | the swapped word, written most significant byte first, is the host's own memory order of all eight bytes |
| Words.NetBytes | otg2/lib/core/packet.cpp:113-124 | the same for 16- and 32-bit words: on a little-endian host the double swap sends the least significant byte first |
| Packets.Packet.constructor | otg2/lib/core/packet.cpp:26-32 | a new packet has a buffer of the given length, size and cursor 0, no flow id and no number |
| Packets.Packet.Reset | otg2/lib/core/packet.cpp:42-51 | everything but the buffer and its length is cleared |
| Packets.Packet.SetPayloadSize | otg2/lib/core/packet.cpp:53-62 | the size is set; the buffer is kept if it is long enough and otherwise replaced by one of one and a half times the size |
| Packets.Packet.GetBufferPtr | otg2/lib/core/packet.cpp:210-225 | the buffer is kept if it is long enough and otherwise replaced, its content dropped |
| Packets.Packet.StampPacket | otg2/lib/core/packet.cpp:77-84 | the three marker bytes are at the front of a buffer of at least 32, the rest is kept unless the buffer was shorter, the cursor is 3 |
| Packets.Packet.StampInt64Val | otg2/lib/core/packet.cpp:86-108 | exactly the eight bytes at the returned position change, to the number in memory order; appending moves the cursor by eight |
| Packets.Packet.StampInt32Val | otg2/lib/core/packet.cpp:110-127 | exactly the four bytes at the returned position change, to the number in memory order; appending moves the cursor by four |
| Packets.Packet.StampInt16Val | otg2/lib/core/packet.cpp:129-144 | the two bytes written are at the cursor after it moved, not at the position returned |
| Packets.Packet.CheckStamp | otg2/lib/core/packet.cpp:150-162 | the version byte as a char of the host if the payload in use starts with the marker, with the cursor behind it (so -1 for 255 when char is signed); otherwise -1 and cursor 0 |
| Packets.Packet.ExtractInt64Val | otg2/lib/core/packet.cpp:164-180 | the number whose memory order the next eight bytes are, or 0 without moving if fewer are left |
| Packets.Packet.ExtractInt32Val | otg2/lib/core/packet.cpp:182-195 | the decoding of the next four bytes that Decode32Exact characterises, or 0 without moving |
| Packets.Packet.ExtractInt16Val | otg2/lib/core/packet.cpp:197-208 | the decoding of the next two bytes that Decode16Exact characterises, or 0 without moving |
| Packets.CharSum32 | otg2/lib/core/packet.cpp:187-191 | the sum of shifted chars is the big-endian word minus 2^24, 2^16 and 2^8 for each of the bytes 1 to 3 that is 128 or more with signed char, modulo 2^32 |
| Packets.AssembledExact | otg2/lib/core/packet.cpp:187-191 | the assembled word is the true one if and only if char is unsigned or all bytes after the first are below 128 |
| Packets.Decode32Exact | otg2/lib/core/packet.cpp:182-195 | a 32-bit extraction yields the number held in memory order if and only if the bytes are plain in that sense |
| Packets.Decode16Exact | otg2/lib/core/packet.cpp:197-208 | the same for 16 bits |
| Packets.RoundTrip32 | otg2/lib/core/packet.cpp:110-127 | between hosts of one byte order a 32-bit number comes back if and only if its wire bytes are plain for the receiver |
| Packets.RoundTrip16 | otg2/lib/core/packet.cpp:129-144 | the same for 16-bit numbers |
| Packets.RoundTrip64 | otg2/lib/core/packet.cpp:164-180 | every 64-bit number comes back, whatever the signedness of char |
| Packets.OppositeOrder | otg2/lib/core/packet.cpp:164-195 | a receiver of the opposite byte order sees the bytes of the number reversed |
| PacketFields.StampedFieldsRoundTrip | otg2/lib/core/packet.cpp:77-127 | after the marker, any list of 32- and 64-bit fields that fits is read back in order by the matching extractions, if and only if every 32-bit field is plain |
| PacketFields.RunKeeps | otg2/lib/core/packet.cpp:210-225 | appended fields that fit never reallocate, so everything before the cursor is kept |
| PacketFields.OverflowCanLoseMarker | otg2/lib/core/packet.cpp:210-225 | for every list of fields that does not fit there is a run after which the marker is gone |
| PacketFields.Stamps16Shift | otg2/lib/core/packet.cpp:129-144 | the j-th of n appended 16-bit numbers lands one slot after the offset returned for it |
| PacketFields.Stamps16Keep | otg2/lib/core/packet.cpp:129-144 | the slot at the cursor and all before it keep their content |
| PacketFields.Stamps16ReadShifted | otg2/lib/core/packet.cpp:197-208 | n extractions read the old content of the first slot and then the sequence one late, each value as the receiver decodes it |
| PacketFields.ShiftedValue | otg2/lib/core/packet.cpp:197-208 | between hosts of one byte order such a value is read unchanged if and only if its wire bytes are plain |
| PacketFields.Stamps16ReadBack | otg2/lib/core/packet.cpp:129-208 | the extractions return the list stamped if and only if its first value is what the first slot held before and each further one is what its predecessor decodes to |
| PacketFields.PlainReadBackIsConstant | otg2/lib/core/packet.cpp:129-208 | for numbers that survive the wire that is: a list of one repeated number, the one the first slot already held |
| PacketFields.Stamp16StandsIff | otg2/lib/core/packet.cpp:129-144 | on all buffers of at least any given length the number stands at the position returned if and only if the position asked for is the cursor, so never after an append |
| PacketFields.Append16StandsIff | otg2/lib/core/packet.cpp:134-141 | on a given buffer an appended number stands at the position returned if and only if it stood there before |
| Udp.SendPacket | otg2/lib/port/udp_outport.cpp:97-128 | the payload starts like a version 2 frame of the packet's flow and number; bytes 3, 4 and those from 17 on are kept; what is sent is the payload up to its size |
| Udp.HeaderLayout | otg2/lib/port/udp_outport.cpp:104-107 | after the four stamps bytes 5 to 8 hold only the number and 9 to 16 the flow id: the compatibility number is overwritten |
| Udp.UdpInPort.NextPacket | otg2/lib/port/udp_inport.cpp:63-120 | the datagram, or its longest prefix that fits the buffer, is the payload, and flow id and number are the decoding that the three lemmas below read off the bytes; an error leaves nothing |
| Udp.DecodeByLength | otg2/lib/port/udp_inport.cpp:88-100 | behind the marker, under any version but 1, the flow id is the 64 bits at bytes 9 to 16 or 0, the number the 32 bits at 5 to 8 or 0, by the length received |
| Udp.DecodeVersion1 | otg2/lib/port/udp_inport.cpp:102-105 | under version 1 the flow id is the 16 bits at bytes 3 and 4, or 0 with fewer than 5 bytes, and the number the 32 bits at bytes 5 to 8, or 0 with fewer than 9 |
| Udp.DecodeUnmarked | otg2/lib/port/udp_inport.cpp:88-100 | without the marker the fields are read from the first byte: number at 2 to 5, flow id at 6 to 13, each 0 if not all there |
| Udp.V2FrameDecodes | otg2/lib/port/udp_inport.cpp:88-100 | a version 2 frame, possibly cut, decodes to the sender's full 64-bit flow id if and only if 17 bytes arrived (or the id is 0), and to its number if and only if the number is readable |
| Udp.SequenceReadable | otg2/lib/port/udp_inport.cpp:97-98 | a number is read exactly if and only if it fits 32 signed bits (or is among the last 2^31 of 64 bits) and its wire bytes are plain |
| Udp.FirstNumbersReadable | otg2/lib/port/udp_inport.cpp:97-98 | with signed char 1 to 32767 are read exactly on little-endian hosts and 32768 is not; on big-endian hosts the bound is 127 |
| Generators.CbrGenerator.Update | otg2/lib/generator/cbr_generator.cpp:29-34 | interval times rate is the packet's bits; a zero rate is refused and changes nothing |
| Generators.CbrGenerator.Init | otg2/lib/generator/cbr_generator.cpp:45-50 | the schedule restarts at 0 with the interval of the current size and rate |
| Generators.CbrGenerator.NextPacket | otg2/lib/generator/cbr_generator.cpp:56-63 | the packet has the generator's size and is due one interval after the last stamp, which becomes the stamp |
| Generators.ExpoGenerator.NextPacket | otg2/lib/generator/expo_generator.cpp:66-86 | one step of the burst schedule; the packet is due at the new stamp |
| Generators.BurstLength | otg2/lib/generator/expo_generator.cpp:74-78 | the sample rounded to the nearest number, halves up, but 1 for every sample below 1.5 |
| Generators.BurstsConserved | otg2/lib/generator/expo_generator.cpp:66-86 | packets sent and packets still owed add up to what was owed plus all bursts drawn, over any run |
| Generators.StampsConserved | otg2/lib/generator/expo_generator.cpp:66-86 | the last stamp is the sum of the idle times drawn, the interval at the start and one packet time for each further packet |
| Generators.ExpoConservation | otg2/lib/generator/expo_generator.cpp:47-86 | from a fresh generator, a packet and n further ones plus the packets owed are the sum of the bursts drawn, and the last stamp is the idle times plus the first interval plus n packet times |
| Generators.ExpoOwedIsPartOfLastBurst | otg2/lib/generator/expo_generator.cpp:74-81 | what is still owed is always less than the last burst drawn |
| Clocks.UnixTime.constructor | otg2/lib/core/unixtime.cpp:20-44 | the clock starts at the wall time, not paused |
| Clocks.UnixTime.GetCurrentTime | otg2/lib/core/unixtime.cpp:59-67 | the pause instant while paused, otherwise the wall time since the origin |
| Clocks.UnixTime.PauseClock | otg2/lib/core/unixtime.cpp:74-81 | freezes the current reading; refused on a paused clock |
| Clocks.UnixTime.ResumeClock | otg2/lib/core/unixtime.cpp:87-93 | the origin moves by the time passed since the pause; refused on a running clock |
| Clocks.UnixTime.WaitAt | otg2/lib/core/unixtime.cpp:97-104 | the microseconds slept, short of the time to go by less than one and never too long |
| Clocks.ClockTellsUnpausedTime | otg2/lib/core/unixtime.cpp:59-93 | after any pauses and resumes, repeats included, the clock reads the wall time during which it was not paused |
| Clocks.UnpausedBounds | otg2/lib/core/unixtime.cpp:59-93 | that time is never negative and never more than the wall time elapsed |
| Clocks.ClockNeverDecreases | otg2/lib/core/unixtime.cpp:59-93 | a later reading, after any further events, is no smaller |
| Clocks.HalfResumedOvershoots | otg2/lib/core/unixtime.cpp:90-91 | a read between the two statements of a resume is ahead by exactly the length of the pause that just ended |
| Streams.Stream.SendOne | otg2/lib/core/stream.cpp:82-94 | one turn of the loop: the next number is used up, the frame carries it and the stream's id; the sleep is the time to go in whole microseconds, cut, and 0 for a stamp that is past or not positive |
| Streams.Stream.SendNext | otg2/lib/core/stream.cpp:78-95 | one turn adds the next sending to a numbered and scheduled run, or fails exactly when the send does |
| Streams.Stream.Run | otg2/lib/core/stream.cpp:74-102 | the sendings are numbered consecutively, each is the next packet of the generator, and before each the loop slept the whole microseconds still to go at its reading of the clock, or not at all; the loop ends early exactly on the first failed send |
| Streams.CbrDue | otg2/lib/generator/cbr_generator.cpp:56-63 | the n-th packet of a constant-rate source is due n intervals after the start |
| Streams.CbrSendings | otg2/lib/core/stream.cpp:78-95 | the k-th packet (from 0) sent from a constant-rate source is due k + 1 intervals after the stamp at the start and has the source's size |
| Streams.ExpoDue | otg2/lib/generator/expo_generator.cpp:66-86 | a burst source in the loop follows the run the conservation laws are about |
| Streams.ExpoSendings | otg2/lib/core/stream.cpp:78-95 | the k-th packet sent from a burst source is due after the idle times drawn so far, the interval at the start and k packet times |
| Streams.EndToEnd | otg2/lib/core/stream.cpp:78-95 | whatever is lost, reordered, duplicated or cut, each arrival is some sending; it decodes to the flow id if and only if 17 bytes remain (or the id is 0) and to that sending's number if and only if it is readable, so always for the first 32767 on little-endian hosts |
| Pacing.RunKeepsInv | otg2/lib/core/unixtime.cpp:59-104 | in every interleaving the origin never moves before the start and every reading in flight is at most the wall time since the start |
| Pacing.NeverEarly | otg2/lib/core/stream.cpp:87-94 | in every interleaving of pauses, resumes and torn clock reads each packet leaves no earlier than its stamp after the clock's start, less one microsecond |
| Pacing.CbrRateBound | otg2/lib/generator/cbr_generator.cpp:29-63 | at a positive constant rate at most rate times (t + 1 microsecond) bits have left by wall time t |
| Pacing.ReadingInRun | otg2/lib/core/unixtime.cpp:59-93 | in every state of every interleaving the clock reads the un-paused time of some pauses and resumes in order; in the middle of a pause it reads as before it, in the middle of a resume it is ahead by the pause that is ending |
| Pacing.PauseIsOneEvent | otg2/lib/core/unixtime.cpp:74-81 | the three steps of a pause, with any steps of the sender between them, do to the clock what the sequential call does at the wall time of the first |
| Pacing.ResumeIsOneEvent | otg2/lib/core/unixtime.cpp:87-93 | the three steps of a resume do what the sequential call does at the wall time of the second |
| Pacing.CalmTurn | otg2/lib/core/stream.cpp:82-94 | in a part of any run in which nobody writes to the clock, a turn of the sender reads the clock once and is ready no sooner than the sending loop's own sleep for that reading |
| Pacing.PausedSendsExactly | otg2/lib/core/stream.cpp:54-95 | from every paused state of every run, wherever the sender stands, n more packets can leave by wall time t while the pause lasts if and only if their sleeps fit before t |
| Pacing.NoSooner | otg2/lib/core/stream.cpp:87-94 | the packets that leave in a pause leave no sooner than those sleeps allow |
| Pacing.SendInPause | otg2/lib/core/stream.cpp:87-94 | and whenever the sleeps fit there is a continuation of the pause in which they leave |
| Pacing.FetchedInPause | otg2/lib/core/unixtime.cpp:59-104 | a packet fetched in a pause can leave by t if and only if the sleep for its stamp, counted from the instant of the pause, fits before t |
| Pacing.PausedStreamKeepsSending | otg2/lib/core/stream.cpp:54-95 | from every paused state of every run any number of packets can leave while the pause lasts |
| Pacing.PausedStreamStillSends | otg2/lib/core/stream.cpp:54-95 | for every schedule a stream paused before its first packet can send any number of them |
| Addresses.Address.SetHWAddrFromColonFormat | otg2/lib/core/address.cpp:38-94 | succeeds if and only if the leading hex digits and colons hold at least twelve digits; the address is then those twelve, and otherwise unchanged |
| Addresses.CountDigits | otg2/lib/core/address.cpp:41-61 | the first pass finds the number of leading hex digits, or twelve if there are more |
| Addresses.ConvertDigits | otg2/lib/core/address.cpp:66-91 | the second pass ends, reads nothing behind the twelfth digit and packs the twelve digits |
| Addresses.ConvertDigit | otg2/lib/core/address.cpp:74-89 | one digit of the second pass completes a byte or is kept as half of one |
| Addresses.Address.ConvertHWAddrToColonFormat | otg2/lib/core/address.cpp:97-106 | 17 characters: for each byte its two digits out of 0123456789ABCDEF, high one first, and five colons between the pairs |
| Addresses.AddressRoundTrip | otg2/lib/core/address.cpp:38-106 | parsing the printed form of any six bytes gives them back |
| Addresses.OtherCharacterStops | otg2/lib/core/address.cpp:53-58 | from the first character on that is no digit of either case and no colon, nothing is read |
| Addresses.DigitIsRead | otg2/lib/core/address.cpp:74-82 | each of the sixteen digits, in either case, is read as its value |
| Addresses.ColonsAnywhere | otg2/lib/core/address.cpp:51-51 | a colon anywhere changes nothing |
| Addresses.CaseIrrelevant | otg2/lib/core/address.cpp:52-52 | letters may be of either case |
| Addresses.TailIrrelevant | otg2/lib/core/address.cpp:53-57 | text behind the digits needed does not matter |
| WattsUpText.AtoiDecimal | wattsup/wattsup.c:761-761 | reading a printed count gives it back |
| WattsUpText.DecimalMeaning | wattsup/wattsup.c:656-686 | a printed count holds decimal digits only and starts with 0 only if it is 0 |
| WattsUpText.AtoiMeaning | wattsup/wattsup.c:761-761 | white space, a sign and the decimal digits of n, followed by anything but a digit, are read as n or minus n |
| WattsUpText.AtoiOfNothing | wattsup/wattsup.c:761-761 | text without a digit behind white space is read as 0 |
| WattsUpText.LeftTrimMeaning | wattsup/wattsup.c:793-794 | what is dropped of a field is the longest piece in front of it of blanks, tabs, newlines, vertical tabs, form feeds and carriage returns |
| WattsUpText.CutAtMeaning | wattsup/wattsup.c:728-766 | the header is cut at the first occurrence of each separator |
| WattsUpText.RenderedMeaning | wattsup/wattsup.c:656-686 | the text of a packet is # and its command, sub-command and count, each followed by a comma, but the count of no fields by a semicolon; the fields follow, with commas between and a semicolon at the end |
| WattsUpText.ParseMeaning | wattsup/wattsup.c:700-800 | behind the first # and three commas the command characters and the count are taken, and as many trimmed pieces of the rest as the count says; fewer pieces make it fail |
| WattsUpText.NoHeader | wattsup/wattsup.c:710-759 | a text is rejected if it has no #, or not three commas behind it |
| WattsUpText.SegmentsCons | wattsup/wattsup.c:779-797 | the rest is cut at commas and semicolons and at no other character |
| WattsUpText.SegmentsLast | wattsup/wattsup.c:779-797 | what has neither is one piece |
| WattsUpText.ParseRendered | wattsup/wattsup.c:700-800 | noise without '#', a printed packet of at least one field, and any tail parse to exactly that packet if and only if neither command character is a comma and no field has a delimiter or leading white space |
| WattsUpText.ParsedFieldsSendable | wattsup/wattsup.c:779-797 | no text is ever parsed into a field that holds a comma or semicolon or starts with white space |
| WattsUpText.CommaInHeader | wattsup/wattsup.c:728-766 | a comma for a command character is never parsed back |
| WattsUpText.ParseZeroCount | wattsup/wattsup.c:758-766 | a printed command without fields is accepted if and only if a comma follows it somewhere |
| WattsUpText.ReceivedRoundTrip | wattsup/wattsup.c:656-800 | the bytes received, taken up to the first NUL, parse back to the packet that was printed if and only if its command characters are neither commas nor NUL and its fields are sendable |
| WattsUpText.ReceivedZeroCount | wattsup/wattsup.c:754-766 | a printed command without fields, alone on the line, is always rejected |
| WattsUp.Packet.constructor | wattsup/wattsup.c:78-90 | an empty buffer of 256 and room for 18 fields |
| WattsUp.Packet.Write | wattsup/wattsup.c:656-686 | accepted if and only if the whole text is at most 253 bytes; the first 256 bytes of the buffer then are exactly the text followed by NULs; on overflow it holds the fields that fitted |
| WattsUp.Packet.Append | wattsup/wattsup.c:663-677 | printing at the end keeps what is printed and leaves only NULs behind it |
| WattsUp.Packet.Parse | wattsup/wattsup.c:700-800 | succeeds if and only if the functional parse does; command, sub-command and count agree and every field is, as a C string in the final buffer, its trimmed segment, so none starts with one of the six white-space characters; only the terminator and delimiters of the buffer change |
| WattsUp.Packet.ReadHeader | wattsup/wattsup.c:710-766 | the command characters and the count are those at the positions found |
| WattsUp.Locate | wattsup/wattsup.c:715-759 | the '#' and the three commas behind it, each the first after the one before |
| WattsUp.SplitFields | wattsup/wattsup.c:779-797 | fields are cut off one by one and later turns never disturb earlier fields; fails if and only if there are fewer segments than the count |
| WattsUp.StoreField | wattsup/wattsup.c:779-797 | one turn stores the next trimmed piece without disturbing the earlier ones, or fails on the last piece when more are announced |
| WattsUp.CutField | wattsup/wattsup.c:779-797 | one turn cuts at most one delimiter, yields the trimmed first segment and leaves the other segments |
| WattsUp.DissectLocated | wattsup/wattsup.c:710-766 | the positions of the pointer search are the cuts of the functional dissection |
| WattsUp.FieldsStay | wattsup/wattsup.c:779-797 | a cut at or behind the end of the earlier fields leaves them as they are |
| WattsUpRead.Read | wattsup/wattsup.c:803-832 | true exactly if the bytes received, up to their first NUL, parse; the packet then holds what they parse to |
| WattsUpRead.Take | wattsup/wattsup.c:1074-1082 | what is reported of a good record is read field by field from the packet's buffer and is the record parsed |
| WattsUpRead.ReadData | wattsup/wattsup.c:1052-1088 | gives up exactly on a third bad record in a row, otherwise ends stopped or with the wanted number of good records; the log is that of the records; with a wanted number n at most 3n reads |
| WattsUpRead.Handle | wattsup/wattsup.c:1056-1084 | one turn updates retry, number, count and log as the records so far require |
| WattsUpRead.ReportsAreTheGoodRecords | wattsup/wattsup.c:1074-1079 | the reports in the log are the good records, each once and in order |
| WattsUpRead.GoodRecordIsReported | wattsup/wattsup.c:1074-1082 | a good record adds its content, under its number, to the end of the log |
| WattsUpRead.ReceivedMeaning | wattsup/wattsup.c:803-832 | the records read are the answers of the meter in order, each parsed up to its first NUL, and a failed read is a bad one |
| WattsUpRead.NumbersCount | wattsup/wattsup.c:1066-1075 | the reports are numbered 0, 1, 2, ... from the start and again after every reset |
| WattsUpRead.OneResetPerStreak | wattsup/wattsup.c:1057-1069 | a streak of bad records adds exactly one reset to the log if it is at least two long, and nothing otherwise |
| Registry.Session.constructor | collectd/write_oml/write_oml.c:77-90 | an empty list, not initialized |
| Registry.Strncpy | collectd/write_oml/write_oml.c:159-159 | the copied name, read back, is all of the name, or as much of it as the array is long |
| Registry.SameName | collectd/write_oml/write_oml.c:98-98 | true if and only if what the array holds is all of the name, or its beginning and as long as the array |
| Registry.OnePrefix | collectd/write_oml/write_oml.c:92-167 | two names are the same to this comparison if and only if they agree at every position below the limit and end together or not below it |
| Registry.MPoint.Configure | collectd/write_oml/write_oml.c:110-148 | the table is the six header columns, one column per source with its type, and the terminator |
| Registry.ColumnsMeaning | collectd/write_oml/write_oml.c:119-146 | the columns are time, host, plugin, plugin_instance, type and type_instance, then each source under its own name: counters and derives as int64, gauges as double, absolutes as uint64 |
| Registry.Session.FindMPointStruct | collectd/write_oml/write_oml.c:92-104 | a node of the list registered under the name's prefix, or NULL if and only if none is |
| Registry.Session.CreateMPoint | collectd/write_oml/write_oml.c:152-167 | a new node in front of the list, registered with the data set's columns under a new name; the list stays linked and its names distinct |
| Registry.Session.FindMPoint | collectd/write_oml/write_oml.c:169-180 | the node of the prefix; a registration is added if and only if the prefix was unknown; the name registered is the data set's, all of it or as much as the limit |
| Registry.Session.Write | collectd/write_oml/write_oml.c:182-234 | the registration as above; a row is injected into the point of the prefix exactly if OML is initialized and there are fewer than 58 values; -1 exactly for too many |
| Registry.OnePoint | collectd/write_oml/write_oml.c:92-234 | on any session two writes, one after the other, use one measurement point if and only if the names of their data sets agree below the limit |
| Registry.BuildRow | collectd/write_oml/write_oml.c:197-226 | time, five strings, each source's value in its type, everything else unset |
| Registry.RowMeaning | collectd/write_oml/write_oml.c:197-226 | 64 values: the time, the five strings, empty where missing, each source's bits as signed, unsigned or double by its kind, and nothing in the rest |
| Registry.NewNameKeepsDistinct | collectd/write_oml/write_oml.c:169-180 | registering a name that is not known keeps all names distinct |
| Registry.RowFits | collectd/write_oml/write_oml.c:127-226 | a row gives every column of a point a value of its registered type if and only if the caller's data set has a source of the same type wherever the point's data set has one |
| Registry.OwnRowFits | collectd/write_oml/write_oml.c:127-226 | rows of the data set the point was made from always fit |
| Registry.Session.Init | collectd/write_oml/write_oml.c:366-405 | the session is initialized exactly if OML was |
| Registry.SharedPoint | collectd/write_oml/write_oml.c:169-234 | on any initialized session, writing two data sets whose names have one new prefix registers one point and injects both rows into it; the second fits its columns if and only if the second data set covers the first |
| Registry.OtherRowMayNotFit | collectd/write_oml/write_oml.c:127-226 | two data sets of one name of which the second does not cover the first, so its rows do not fit |
| RegistrySteps.Start | collectd/write_oml/write_oml.c:77-90 | with nothing registered and all threads idle the invariant holds |
| RegistrySteps.StepKeepsInv | collectd/write_oml/write_oml.c:92-234 | every step of every thread keeps locks exclusive, the list complete, each prefix registered once, and what each thread knows at its place true |
| RegistrySteps.Run | collectd/write_oml/write_oml.c:92-234 | the invariant holds after every schedule of any number of threads |
| RegistrySteps.RunGrows | collectd/write_oml/write_oml.c:110-167 | registrations and injections are only ever added |
| RegistrySteps.OnePointPerPrefix | collectd/write_oml/write_oml.c:92-195 | in every run the point is set up at most once per name prefix, and exactly once as soon as a call with that prefix has its point |
| RegistrySteps.SamePointForEver | collectd/write_oml/write_oml.c:92-195 | two calls get the same point, however much happens between them, if and only if their names agree below the limit; its registration never changes |
| RegistrySteps.SentTogether | collectd/write_oml/write_oml.c:182-234 | two rows sent in any run went to one point if and only if the names of their data sets agree below the limit |
| RegistrySteps.WaitingIsForOneThatCanGo | collectd/write_oml/write_oml.c:169-234 | no deadlock: the lock a thread waits for, the session's or its point's, is held by another thread that can take its next step |
| RegistrySteps.InjectionsDoNotOverlap | collectd/write_oml/write_oml.c:226-228 | two threads are never inside the injection on one point |
| RegistrySteps.FindsDoNotOverlap | collectd/write_oml/write_oml.c:169-180 | two threads are never both inside the search, the set-up or the linking of a point or the initialisation |
| RegistrySteps.SentFits | collectd/write_oml/write_oml.c:127-228 | every row injected in any run goes to the point of its caller's prefix and fits its columns if and only if the caller's data set covers the one the point was made for |
| RegistrySteps.InjectedWasSent | collectd/write_oml/write_oml.c:190-228 | nothing is ever sent unless OML was initialized, and a call past its injection has sent its own row to its own point |
| RegistrySteps.FindIsAtomic | collectd/write_oml/write_oml.c:169-180 | however the threads are scheduled, a thread behind the lock leaves the registrations as the sequential find would |
| RegistrySteps.WriteAlone | collectd/write_oml/write_oml.c:182-234 | from any state with free locks a call left alone ends and does what the sequential write does: its name is looked up, and its row is sent to the point of the name exactly if OML is initialized and there are fewer than 58 values |
| RegistrySteps.InitAlone | collectd/write_oml/write_oml.c:366-405 | a call of oml_init left alone ends with the session initialized exactly if OML was, and registers and sends nothing |
| RegistrySteps.SharedPoint | collectd/write_oml/write_oml.c:169-234 | for any two data sets whose names have one prefix there is a run from the start in which the second writes into the point made for the first; that row fits if and only if the second data set covers the first |
| RegistrySteps.CallsEnd | collectd/write_oml/write_oml.c:182-234 | each step brings the call nearer to its end, by place and then by nodes left to compare |
| WpaMon.TokenBounds | wpamon/wpamon.c:186-208 | a token is a longest piece without delimiters behind nothing but delimiters |
| WpaMon.BoundsUnique | wpamon/wpamon.c:186-208 | and only one piece of a string is so |
| WpaMon.NthMeaning | wpamon/wpamon.c:190-212 | the n-th word is the first behind n - 1 others, and empty if there are fewer |
| WpaMon.EventTokenIs | wpamon/wpamon.c:184-188 | the event is the second word of a message; the first ends at a blank or at >, the second at a blank |
| WpaMon.FindToken | wpamon/wpamon.c:186-208 | the span of the next token in the buffer |
| WpaMon.Strtok | wpamon/wpamon.c:186-208 | the token is a C string in place, the rest is left to scan, at most the character behind the token changes |
| WpaMon.Bssid | wpamon/wpamon.c:190-212 | the address is the token its kind of event calls for, by the lemmas below, and empty for other kinds; scan results are not reported |
| WpaMon.Line | wpamon/wpamon.c:190-219 | one line with event, address and full message, exactly as the functional reading of the message says |
| WpaMon.Handle | wpamon/wpamon.c:184-220 | the report of a message; the buffer then holds the message or, if it has no event, its truncation |
| WpaMon.TruncatedYieldsNothing | wpamon/wpamon.c:184-188 | a message without an event, truncated by the tokeniser, has none either |
| WpaMon.SkippingIsRight | wpamon/wpamon.c:183-188 | comparing with what is left of the last message gives the same reports as comparing with the last message |
| WpaMon.ReportsSnoc | wpamon/wpamon.c:179-221 | one message more adds its reports unless it equals the one before |
| WpaMon.Turn | wpamon/wpamon.c:179-221 | one turn adds the reports of the message unless it repeats its predecessor |
| WpaMon.Monitor | wpamon/wpamon.c:179-221 | for every sequence of messages the log is the reports of the messages that differ from their immediate predecessor |
| WpaMon.ConnectedIsReported | wpamon/wpamon.c:192-197 | for every kind that starts with CONNECTED the fourth word behind the event is reported as the address |
| WpaMon.DisconnectedIsReported | wpamon/wpamon.c:199-202 | for every kind that starts with DISCONNECTED the word behind the equals sign is reported |
| WpaMon.AddedIsReported | wpamon/wpamon.c:204-208 | for every kind that starts with BSS-ADDED or BSS-REMOVED the word behind the entry number is reported |
| WpaMon.ScanResultsAreNotReported | wpamon/wpamon.c:209-212 | a kind that starts with SCAN-RESULTS is never reported |
| WpaMon.OtherEventIsReported | wpamon/wpamon.c:214-218 | every other CTRL-EVENT- message is reported, with an empty address |
| WpaMon.OtherMessagesAreNotReported | wpamon/wpamon.c:188-188 | a message whose second word does not start with CTRL-EVENT- is not reported |
| Ipv6Walk.ParseHeaders | trace/trace.c:190-285 | the loop with its recursion reports the sightings of the stepwise walk, and ends whenever the walk is never stuck |
| Ipv6Walk.StepMeaning | trace/trace.c:223-284 | a turn stops at type 59, at an unknown type and at the end of the image, starts afresh at 41, and passes 43, 60 and 135 by the length byte times 8 plus 8, modulo 256 |
| Ipv6Walk.SightingsMeaning | trace/trace.c:235-277 | the log has one entry for every turn that comes to an inner IPv6 header or a mobility header inside the image, with its place and, for mobility, the byte at 2 behind it, in the order of the turns, and nothing else |
| Ipv6Walk.Progress | trace/trace.c:227-284 | a turn that is not stuck leaves fewer bytes ahead, or as many and nothing to pass |
| Ipv6Walk.HaltsIffNeverStuck | trace/trace.c:227-284 | the walk ends if and only if it never passes an extension header of length zero that announces another readable extension header |
| Ipv6Walk.HaltsWithoutZeroLengths | trace/trace.c:232-233 | it ends when no header it passes has a length byte of 31 modulo 32 |
| Ipv6Walk.ExactWalkHalts | trace/trace.c:232-233 | with lengths as RFC 2460 section 4 has them the walk always ends |
| Ipv6Walk.WalkMayNotEnd | trace/trace.c:227-284 | an image of ten bytes on which the program's walk never ends |
| Ipv6Walk.StepAgrees | trace/trace.c:229-233 | a turn agrees with RFC 2460 section 4 if and only if the length byte of the extension header it passes is at most 30 |
| Ipv6Walk.WalkAgrees | trace/trace.c:227-284 | the first n turns agree with the RFC's walk if and only if every length byte it passes in them is at most 30 |

## Left out

- Sockets, the serial device, select, signals, GPS, sigar, libtrace and the OML library itself: inputs and logs stand for them.
- Option parsing and help, logging, metadata injection, build files and ontologies: no logic worth proving.
- nmetrics, the gpslogger, ripwavemon and report_packet_filter: field copies and single subtractions.
- oml_cleanup and all freeing of memory: the registry and codec properties do not depend on it.
- Floating-point rounding and the sampling in randomvariable.cpp: reals and non-negative samples stand for them.
- Overflow of int sizes, of the retry and record counters and of the sequence number beyond 64 bits.
- Packets.Packet.SetPayloadSize: the new buffer has unspecified content, as after new char[]; the absolute clock origin and the time stamp of a packet are not kept.
- Udp.UdpInPort.NextPacket: the allocation of a packet when it is given none and the deletion of the packet after an error are not modelled.
- Generators.ExpoGenerator.NextPacket: a rate of zero, which makes the interval infinite, has no counterpart in the reals and is excluded.
- Pacing.NeverEarly: (and Pacing.NoSooner) usleep is assumed never to return early, neither for a signal nor because a sleep of more than 2^32 microseconds is cut to its argument type.
- Streams.Stream.Run: one turn for each time active_ is found set; the thread's start and the closing of the sender are not modelled.
- Addresses.Address.ConvertHWAddrToColonFormat: the text is a value; the terminator that sprintf writes behind the 17 characters is not modelled.
- WattsUp.Packet.Write: at most 18 fields, as many as a packet has room for.
- WattsUp.Packet.Parse: less than 256 bytes received are required, and that the field table has room for the fields stored: all of those announced, or all pieces but the last when fewer pieces stand there; atoi is taken modulo 2^32 for longer numbers.
- WattsUpRead.ReadData: the sleeps between reads, and the stop, clear and start commands with their dummy read behind a reset, are one event of the log.
- WpaMon.Monitor: messages of at most 99 bytes are required, since the loop writes a terminator behind them; the line on standard output and the time stamp are not kept.
- Registry.Session.Write: the data set has at most as many sources as there are values, as collectd dispatches them; DATA_MAX_NAME_LEN is collectd's and is a parameter here.
- Registry.MPoint.Configure: the character array and the column table of a node are written before it is linked and kept as values from then on, so aliasing between nodes is not modelled.
- RegistrySteps.Run: the lock-protected steps are those of oml_write and oml_init; a data race on memory read without a lock is not modelled, since after creation nodes do not change.
- Ipv6Walk.ParseHeaders: the first step is the size of a pointer in the source and any positive eight-bit constant here, not the 40 bytes of an IPv6 header; the contents of binding updates and acknowledgements are not read.
- DEFAULT_PAYLOAD_SIZE is taken as 512; the size the UDP receiver reserves is a parameter.
