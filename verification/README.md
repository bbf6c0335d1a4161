# A verified model of defib's flash agent and boot protocols

The model covers the bare-metal flash agent, the Python host that drives it, the wire format between them, the
flash drivers underneath, and the boot, USB, TFTP and UBI code around them.

## How it is built

- **Flash stream** (`Flash`, `StreamTypes`, `StreamAgent`, `StreamHost`, `StreamSystem`, `StreamSafety`,
  `StreamTheorems`, `StreamLiveness`, `StreamTermination`, `StreamOutcome`, `StreamBound`, `StreamRing`). Host and
  agent are step functions; two FIFO links join them; a run is any list of events, in any interleaving, with any packet
  lost at any moment, any timeout, and any erase failing. Sector, page and chunk sizes are parameters. `StreamHandler`
  and `StreamClient` are the C handler and the Python client with their own buffers, loops and counters, proved to take
  exactly those steps; `StreamAnswers` says what the client returns on every list of packets. `StreamWire` gives the
  packets their bytes, so that a link of packets is a link of bytes.
- **Wire stack** (`Octets`, `Cobs`, `CobsBlocks`, `CrcAlgebra`, `Crc32`, `Crc16`, `Packet`, `Receiver`, `AgentRx`). The
  encoders back-patch code bytes and the CRC loops walk tables, as in the sources; both are tied to recursive
  specifications about which the laws are proved, and those to descriptions that name none of them: COBS blocks by
  their places, the CRC-32 by its residue and check value. A CRC is a linear map over an abstract word (`CrcAlgebra`),
  so bit patterns only matter in a few one-line lemmas.
- **Drivers** (`Hisfc350`, `Nand`, `NorFlash`). A chip object with the commands of the real chip below, a flat array
  above, the driver's methods between. Program ANDs, erase sets 0xFF.
- **Reading** (`ReadProtocol`, `ReadAnswers`), and what is read after a write (`StreamReadBack`).
- **TFTP** (`Tftp`, `TftpSafety`, `TftpDelivery`, `TftpStats`), **UBI** (`Ubi`, `UbiBuild`, `UbiCopies`), **MaskROM**
  (`Maskrom`, `Rc4`), **boot frames** (`BootFrames`, `FfRuns`), **baud rate** (`UartBaud`).

Loops whose end is described by a recursive function carry a predicate such as `Leads` or `Completes` ("the state so
far and the input still to come lead to the wanted result") as their invariant. Such predicates quantify over the
argument through `Bytes.Is`, which keeps the solver from unfolding the recursive function where only the fact is needed.

## Assumptions

- The host uses the agent's sector size (it learns it from INFO), the write starts at a sector boundary, the chip is
  a whole number of sectors, and `addr + size` does not exceed 32 bits. Pages divide sectors, and sectors fit the
  agent's 128 KiB buffers.
- A corrupted packet is a lost packet: both receivers drop what fails the CRC. `Packet.DamageRejected` says when
  that is certain.
- No packet of an earlier exchange is queued when a stream or a read starts.
- An erase the driver reports as done has cleared the sector, and a program operation has taken place. The driver's
  check after an erase samples 16 bytes at either end (`Hisfc350.Driver.VerifyErased`), so an erase that fails in
  mid-sector goes unnoticed; the return code of a program operation is dropped (agent/main.c:827-828).

## Where the code and its documentation differ

- `page_is_ff` compares whole words, so up to three bytes at the end of an image can be skipped although the agent
  answers ACK_OK. `StreamTheorems.TrueMeansWritten` states exactly when the flash equals the image, and
  `Flash.HiddenTailLost` gives an image for which it does not.
- The header comment of the stream protocol promises ACK_CRC_ERROR at the end (agent/main.c:806); the handler reads
  `expected_crc` and never compares it. The model carries the field and ignores it too.
- The command-loop comment speaks of 20 half-second timeouts before the baud rate falls back (agent/main.c:1376);
  the code counts 60, and so does the model.
- `soft_rx` "must hold ~1 sector" (agent/protocol.c:64). `StreamRing.RingHoldsIff` says for which images it does: no
  data sector, as framed, may be longer than the ring. Sectors of up to 140 chunks always fit (`RingSuffices`), those
  of 142 full chunks, and so full NAND sectors of 256, never do (`RingTooShort`).
- A NAND page program without data commits whatever the chip's cache still holds. `Nand.EmptyProgram` says when that
  is harmless. It is a property of the driver function alone: every command of the agent passes at least one byte.
- A baud rate whose divisor cannot be programmed is answered with ACK_OK and not taken (`UartBaud.ChangeIsScaled`);
  `UartBaud.ProgrammableIff` says which rates those are.
- `verify_crc(append_crc(d))` is false for empty `d`, and only then (`Crc16.AppendVerifies`).
- The final size check of `read_memory` alone makes a returned read correct (`ReadProtocol.ReadSafe`); what the
  sequence check adds is that the bytes received so far are a prefix at every moment (`ReadProtocol.ReadPrefix`).
- With several copies of a logical erase block the last one in the image is kept; the sequence numbers that say which
  is the newest are unpacked and not looked at. `UbiCopies.NewestIff` says when the newest copies are kept all the
  same, and `UbiCopies.StaleImageExtracted` is an image that comes out stale.

## Model

| member | source | states |
|---|---|---|
| `StreamTheorems.TrueMeansWritten` | src/defib/agent/client.py:631-740 | in every run, with packets lost both ways, a True means the agent finished, all covered sectors are new (0xFF ones included), nothing else moved, and the range equals the image if and only if its tail is visible to the word-wise skip test |
| `StreamTheorems.ReachableFlash` | agent/main.c:866-981 | at every reachable state the pending buffer is none or not the one being filled, it holds the previous sector, sectors before it are new, all others old, and a receive abort changes nothing |
| `StreamTheorems.AbortedContent` | agent/main.c:890-981 | a job aborted without a failed erase leaves every sector wholly old or wholly new; with one, at most one covered sector is neither |
| `StreamTheorems.LeftoversRefused` | agent/main.c:1439-1440 | packets left over from a finished or aborted stream get ACK_CRC_ERROR and leave the flash alone |
| `StreamTheorems.WholeWordsVisible` | agent/main.c:810-815 | images whose size is a multiple of four are never cut by the skip test |
| `StreamTheorems.TakesNoMore` | agent/main.c:907-981 | while a sector is received, a data packet is copied behind what is there and cut at the end of the sector, any other packet is dropped; the full sector becomes the pending one of its length |
| `StreamSafety.InvRun` | agent/main.c:835-981 | the joint invariant of host, agent, flash and both links holds after every run |
| `StreamSafety.InvStep` | agent/main.c:835-981 | every single event keeps it |
| `StreamSafety.OnRequest` | agent/main.c:843-875 | ACK_FLASH_ERROR exactly for an empty or too large range, ACK_CRC_ERROR exactly for too short a bitmap, otherwise ACK_OK and sector 0 with nothing pending |
| `StreamLiveness.ExactRun` | agent/main.c:896-981 | without losses the agent's packets are, at every moment, exactly the expected transcript |
| `StreamTermination.BoundedSteps` | src/defib/agent/client.py:685-740 | a loss-free stream changes state a bounded number of times in every interleaving, the bound being the request's, plus one for every idle announcement |
| `StreamTermination.NoDeadlock` | src/defib/agent/client.py:685-740 | no reachable loss-free state is stuck before the host returns |
| `StreamTermination.Completes` | src/defib/agent/client.py:685-740 | every loss-free run can be carried on to the host's True |
| `StreamTermination.LossFreeOutcome` | agent/main.c:896-981 | when it returns: one acceptance, one progress packet per sector in order, one final ACK_OK, and the image is there |
| `StreamOutcome.ReturnTells` | src/defib/agent/client.py:675-740 | erases may fail and requests be refused: if no packet is lost and no time runs out, a host that has returned returned True if and only if the agent finished, and otherwise the agent aborted or refused |
| `StreamOutcome.HostLearns` | src/defib/agent/client.py:675-740 | every such run in which the agent is done is carried on by host steps alone to exactly that answer, without a timeout; only an image of more than 65536 chunks can make the host raise instead, its number no longer fitting |
| `StreamOutcome.Concludes` | src/defib/agent/client.py:675-740 | every such run, at whatever point, can be carried on without loss or timeout until the host has returned that answer, which is True if the request is acceptable and nothing has been aborted so far |
| `StreamHandler.HandleFlashStream` | agent/main.c:835-981 | the C handler, buffers and loops included, sends and flashes exactly what the agent's steps do |
| `StreamClient.WriteFlash` | src/defib/agent/client.py:653-740 | the Python loop, with its own offset, sent and seq counters, slices and wait loops, sends, waits and returns exactly as the host's steps do; `StreamAnswers.ReturnsIff` says what that is, an error ACK while it waits for progress included |
| `StreamAnswers.ReturnsIff` | src/defib/agent/client.py:675-740 | on every list of packets and timeouts: True exactly for an ACK_OK, progress packets alone, and an ACK_OK; False exactly when the first answer is anything else, or when an ACK that is not OK ends the progress packets; READY packets never count |
| `StreamTypes.BuildBitmap` | src/defib/agent/client.py:665-670 | bit s is set if and only if sector s is not all 0xFF |
| `StreamTypes.BitmapMeans` | agent/main.c:896-898 | the bit the agent tests for sector s is set if and only if some byte of the sector is not 0xFF |
| `Flash.EraseProgramContent` | agent/main.c:817-833 | one call makes the whole sector new and changes no byte outside it |
| `Flash.LandedIsImage` | agent/main.c:810-829 | the programmed bytes equal the image if and only if the tail is visible |
| `Flash.HiddenTailLost` | agent/main.c:810-815 | a five-byte image whose last byte is dropped |
| `Flash.PageIsFf` | agent/main.c:810-815 | true exactly when all whole words are 0xFF |
| `Flash.EraseAndProgram` | agent/main.c:817-833 | the loop over pages on arrays: -1 and no program after a failed erase, otherwise erase then program |
| `StreamBound.OneSectorInFlight` | src/defib/agent/client.py:690-726 | in every run the packets on their way to the agent are the request, or chunks of one sector at most |
| `StreamRing.RingHoldsIff` | agent/protocol.c:62-81 | the bytes under way stay below the ring's length in every run if and only if the request and every data sector, as framed, are shorter than the ring |
| `StreamRing.RingSuffices` | agent/protocol.c:62-81 | data sectors of up to 140 chunks of 512 bytes fit in every run; with 64 KiB sectors at most 66,944 bytes are under way |
| `StreamRing.RingTooShort` | agent/protocol.c:62-81 | for every data sector of 142 full chunks or more there is a run that outgrows the ring |
| `StreamRing.WholeSectorInFlight` | src/defib/agent/client.py:690-705 | for every data sector there is a run in which all its packets are under way at once |
| `StreamRing.NumberIsPlace` | src/defib/agent/client.py:692-702 | at every reachable state the next data packet carries the image bytes from 512 times its number on |
| `StreamRing.BytesServeRun` | agent/protocol.c:117-182 | whenever the ring is long enough, the bytes under way meet what proto_recv needs, and what it makes of them is the packet the run delivers next |
| `StreamRing.BytesServeHost` | src/defib/agent/protocol.py:115-253 | the same for the agent's packets at the host, in every run |
| `StreamWire.AgentReadsHost` | agent/main.c:843-852 | the agent unpacks every request and data packet the host packs |
| `StreamWire.HostReadsAgent` | src/defib/agent/client.py:715-735 | the host unpacks every ACK, READY and progress packet the agent packs |
| `StreamWire.HostLayout` | src/defib/agent/client.py:675-702 | command bytes and field positions of request and data packets, number by number, low byte first |
| `StreamWire.AgentLayout` | agent/main.c:908-914 | the same of ACK, READY and progress packets |
| `StreamWire.AckBytes` | agent/protocol.h:35-37 | the three status bytes |
| `StreamWire.DamageIsNothing` | agent/protocol.c:160-181 | a packet damaged within four consecutive bytes of command and data gives the stream handler what a timeout gives it |
| `StreamWire.AgentTakesFirst` | agent/protocol.c:117-182 | on the bytes of a queue of packets the agent receives the first packet and leaves the rest |
| `StreamWire.HostTakesFirst` | src/defib/agent/protocol.py:196-253 | on the bytes of a queue of packets the host receives the first packet and leaves the rest |
| `Cobs.RoundTrip` | src/defib/agent/cobs.py:13-61 | decoding undoes encoding for every byte string |
| `CobsBlocks.EncodeIff` | src/defib/agent/cobs.py:13-41 | e is the encoding of x if and only if it consists of blocks of at most 254 bytes, each behind its length plus one and with a zero of x behind it unless it is full or the last; the relation names no function of the encoder |
| `CobsBlocks.DecodeIff` | src/defib/agent/cobs.py:44-61 | decoding succeeds with d if and only if the bytes are such blocks of d, zero code bytes and overlong codes being the only errors |
| `Cobs.EncodeShape` | agent/cobs.h:10-15 | no zero byte, and at most n + n/254 + 1 bytes |
| `Cobs.EncodeInjective` | src/defib/agent/cobs.py:13-41 | different inputs have different encodings |
| `Cobs.EncodePython` | src/defib/agent/cobs.py:13-41 | the back-patching bytearray loop computes the encoding |
| `Cobs.EncodeC` | agent/cobs.c:8-31 | so does the C loop, inside a buffer of the documented size |
| `Cobs.DecodePython` | src/defib/agent/cobs.py:44-61 | the Python decoder, ValueErrors included |
| `Cobs.DecodeC` | agent/cobs.c:33-51 | the C decoder, 0 for the same inputs |
| `Crc32.CrcC` | agent/protocol.c:17-54 | the table walk computes the division by 0xEDB88320, inverted on the way in and out; `Crc32.Residue` and `Crc32.CheckValue` fix the inversion |
| `Crc32.Residue` | agent/protocol.c:48-54 | for all data, the CRC of the data with its CRC appended, low byte first, is 0x2144DF1C |
| `Crc32.CheckValue` | agent/protocol.c:48-54 | the CRC of "123456789" is 0xCBF43926 |
| `Crc32.Chain` | agent/protocol.c:48-54 | feeding one chunk's result into the next is the CRC of both together |
| `Crc32.BurstDetected` | agent/protocol.c:48-54 | equal-length inputs that differ, and only within four consecutive bytes, have different CRCs |
| `Crc16.CalcCrcPython` | src/defib/protocol/crc.py:50-57 | the unmasked accumulator loop with its two zero bytes |
| `Crc16.ShiftInValue` | src/defib/protocol/crc.py:53 | the split representation is Python's unbounded integer |
| `Crc16.RkCrc16` | src/defib/rockusb/codec.py:25-35 | the masked register loop |
| `Crc16.CalcIsRk` | src/defib/protocol/crc.py:50-57 | the two formulations agree for every seed, the register starting two zero bytes further on |
| `Crc16.Coincide` | src/defib/rockusb/codec.py:25-35 | seeded 0 they coincide on every byte string |
| `Crc16.LongDivision` | src/defib/protocol/crc.py:50-57 | both are the remainder of bitwise long division by 0x11021 |
| `Crc16.Residue` | src/defib/rockusb/codec.py:25-35 | appending the CRC leaves a zero register, for every seed |
| `Crc16.AppendResidue` | src/defib/protocol/crc.py:60-63 | append_crc leaves the data in front, adds two bytes, high byte first, and a zero remainder |
| `Crc16.AppendVerifies` | src/defib/protocol/crc.py:60-78 | what append_crc appended verifies, if and only if there was something to append to |
| `Packet.ParseBuild` | src/defib/agent/protocol.py:74-92 | parse_packet undoes build_packet for every command and payload |
| `Packet.BuildShape` | src/defib/agent/protocol.py:74-79 | one delimiter, at the end, and the length bound |
| `Packet.OnTheWire` | src/defib/agent/protocol.py:74-79 | up to the delimiter a packet decodes to command, data and four bytes that leave the residue 0x2144DF1C |
| `Packet.Residue` | src/defib/agent/protocol.py:76-78 | so every appended CRC does |
| `Packet.BuildInjective` | src/defib/agent/protocol.py:74-79 | different packets have different bytes |
| `Packet.FitsBuffers` | agent/protocol.c:56-60 | payloads up to 1024 bytes fit the agent's 1040- and 1056-byte buffers and the host's 1100-byte cap |
| `Packet.DamageRejected` | src/defib/agent/protocol.py:82-92 | damage within four consecutive bytes of command and data is always rejected |
| `Packet.CrcDamageRejected` | src/defib/agent/protocol.py:88-91 | so is any damage confined to the CRC |
| `Packet.ProtoSend` | agent/protocol.c:93-115 | the C sender emits the bytes of build_packet from its static buffers |
| `Receiver.HostReceiver.RecvSync` | src/defib/agent/protocol.py:115-176 | reading chunk by chunk returns the first packet of the byte stream and leaves exactly the bytes behind it, however the stream is cut |
| `Receiver.HostReceiver.RecvAsync` | src/defib/agent/protocol.py:196-253 | the asynchronous receiver meets the same specification |
| `Receiver.HostReceiver.ReceiveAll` | src/defib/agent/protocol.py:115-253 | repeated receives, of either kind and for every cutting, return the packets of the stream |
| `Receiver.HostReceiver.RecvResponse` | src/defib/agent/protocol.py:256-274 | the first packet that is not READY, and the packets behind it remain |
| `Receiver.ReceiveSplit` | src/defib/agent/protocol.py:156-174 | cutting the stream anywhere changes nothing as long as the frame is kept |
| `Receiver.CapIs` | src/defib/agent/protocol.py:156-174 | a byte is kept while the frame has fewer than 1100; the next one empties it |
| `Receiver.PacketsOfWire` | src/defib/agent/protocol.py:115-176 | the packets of the bytes of a packet list are that list |
| `Receiver.GarbageThenPackets` | src/defib/agent/protocol.py:156-174 | any bytes ended by a delimiter cost no later packet |
| `Receiver.TimeoutBetweenFrames` | src/defib/agent/protocol.py:176 | a timeout between frames loses nothing |
| `Receiver.CutFrame` | src/defib/agent/protocol.py:176 | a timeout inside a frame costs at most that frame |
| `AgentRx.SoftRx.Put` | agent/protocol.c:68-81 | the ring is a FIFO that drops a byte only when it holds 73,727 |
| `AgentRx.SoftRx.Drain` | agent/protocol.c:68-81 | draining appends what has arrived, up to that size |
| `AgentRx.SoftRx.Get` | agent/protocol.c:83-91 | the oldest byte comes out |
| `AgentRx.AgentReceives` | agent/protocol.c:117-182 | a packet from a sender is received inside the agent's buffers, and all bytes behind it are left |
| `AgentRx.Proto.ProtoRecv` | agent/protocol.c:117-182 | ring, line, frame buffer, COBS and CRC together return the verdict on the next frame and lose no byte behind it |
| `Hisfc350.Driver.constructor` | agent/spi_flash_hisfc350.c:268-274 | after init the cached bank is the chip's bank register, whatever that held |
| `Hisfc350.Driver.SelectBank` | agent/spi_flash_hisfc350.c:183-199 | the cache and the register stay equal |
| `Hisfc350.Driver.Read` | agent/spi_flash_hisfc350.c:280-316 | any range, across 16 MiB too, reads as from a flat array |
| `Hisfc350.Driver.Crc` | agent/spi_flash_hisfc350.c:318-333 | the chunked CRC is the CRC of the flat range |
| `Hisfc350.Driver.Erase` | agent/spi_flash_hisfc350.c:351-371 | exactly the addressed sector becomes 0xFF, block-protect bits notwithstanding |
| `Hisfc350.Driver.VerifyErased` | agent/spi_flash_hisfc350.c:339-349 | 0 if and only if the sampled 16 bytes at either end read 0xFF |
| `Hisfc350.SamplesAre` | agent/spi_flash_hisfc350.c:339-349 | the samples are the first 16 bytes of the range and, if it is longer than 32, the last 16 |
| `Hisfc350.Driver.WritePage` | agent/spi_flash_hisfc350.c:373-412 | the 64-byte program cycles AND the data into exactly the addressed bytes |
| `Hisfc350.NoWrap` | agent/spi_flash_hisfc350.c:381-410 | inside one page the chip's wrapping page program is plain programming |
| `Hisfc350.RunAll` | agent/spi_flash_hisfc350.c:308-412 | any sequence of reads, CRCs, erases and page writes answers, and leaves the cells, as a flat NOR array would |
| `Nand.Driver.Read` | agent/spi_flash.c:577-630 | chunked cache reads with the dummy byte return the flat bytes of any range |
| `Nand.Driver.ProgramPage` | agent/spi_flash.c:526-564 | the chunks reach the page through the cache; without data the stale cache is committed |
| `Nand.Driver.WritePage` | agent/spi_flash.c:742-753 | only the addressed data bytes change and spare areas stay, or the program fails with -1 and only its page is affected |
| `Nand.Driver.Erase` | agent/spi_flash.c:506-518 | exactly the block and its spares become 0xFF, or -1 and only the block is affected |
| `Nand.Driver.ProgramOob` | agent/spi_flash.c:779-787 | marking a block bad leaves every data byte unchanged, or fails with -1 |
| `Nand.Driver.ReadOob` | agent/spi_flash.c:789-820 | the spare bytes of the block's first page |
| `Nand.RunAll` | agent/spi_flash.c:506-630 | any sequence of reads, erases, page writes and spare-area programs and reads, failing ones included, behaves as a flat data area beside a list of spares |
| `Nand.ProgramClears` | agent/spi_flash.c:526-564 | programming only clears bits, and only in the bytes it names |
| `Nand.EraseThenProgram` | agent/spi_flash.c:506-564 | what is programmed after an erase reads back |
| `Nand.EmptyProgram` | agent/spi_flash.c:536-560 | a program without data is harmless if and only if the cache has no zero where the page has a one |
| `NorFlash.Controller.Read` | agent/spi_flash.c:632-655 | register-mode reads return the flat bytes below 16 MiB |
| `NorFlash.Controller.Crc` | agent/spi_flash.c:822-850 | the chunked CRC is the CRC of the flat range below 16 MiB |
| `ReadProtocol.HandleRead` | agent/main.c:185-276 | refusals, flash path, RAM path, chunks and 16-bit numbers; which bytes they carry is stated pointwise by `ReadProtocol.ReadSafe` and `ReadProtocol.ReadLive` |
| `ReadProtocol.ServedIff` | agent/main.c:98-142 | a request is served if and only if 1 to 32 MiB that do not wrap lie in the 128 MiB of RAM or, once the flash is readable, in its window |
| `ReadProtocol.ReadMemory` | src/defib/agent/client.py:400-448 | the loop over received packets |
| `ReadAnswers.ReturnsIff` | src/defib/agent/client.py:400-448 | on every list of packets: it returns d exactly when data packets numbered 0, 1, ... that join to d, of the requested size, and an ACK_OK come first, READY packets not counted |
| `ReadProtocol.ReadSafe` | src/defib/agent/client.py:400-448 | over a lossy order-preserving link a read that returns, returns the device bytes: byte i is flash byte addr - flashMem + i inside the flash window and RAM byte addr - ramBase + i otherwise |
| `ReadProtocol.ReadLive` | src/defib/agent/client.py:400-448 | without losses every served read returns those bytes |
| `ReadProtocol.ReadPrefix` | src/defib/agent/client.py:414-425 | at every moment what was received is a prefix of the device bytes, if the read takes at most 65536 packets |
| `ReadProtocol.CapKeepsNumbersDistinct` | agent/main.c:192-195 | the 32 MiB cap keeps every read that short |
| `ReadProtocol.WrapGoesUnnoticed` | src/defib/agent/client.py:414-425 | with one packet more, 65536 lost packets pass the sequence check |
| `StreamReadBack.ReadBackSafe` | src/defib/agent/client.py:631-740 | after a run that returned True, a read of the written range that returns, returns what landed of the image, and the image itself if and only if its tail is visible to the skip test |
| `StreamReadBack.ReadBackLive` | src/defib/agent/client.py:400-448 | and without losses it does return that |
| `TftpSafety.InvRun` | src/defib/network/tftp_server.py:125-253 | the invariant of server, clients and network in every run, datagrams lost, repeated and reordered |
| `TftpSafety.CountedMeansDelivered` | src/defib/network/tftp_server.py:199-206 | a transfer is counted once, and only when its client holds the whole file |
| `TftpSafety.DoneMeansDelivered` | src/defib/network/tftp_server.py:243-253 | a client that saw a short block holds the whole file |
| `TftpSafety.EachBlockOnce` | src/defib/network/tftp_server.py:176-209 | blocks are sent in order, each once (section 4.2.3.1 of RFC 1123) |
| `TftpSafety.BlocksAreTheFile` | src/defib/network/tftp_server.py:243-253 | the blocks join to the file, and only the last is short (section 6 of RFC 1350) |
| `TftpStats.CountersRun` | src/defib/network/tftp_server.py:199-206 | in every run bytes_sent is the sum of the sizes of the files counted as delivered, and requests the number of requests that have arrived |
| `TftpDelivery.LiveRun` | src/defib/network/tftp_server.py:125-253 | in every run each side is at most one block ahead of what it has heard, and what it waits for is on the network |
| `TftpDelivery.CanFinish` | src/defib/network/tftp_server.py:125-209 | from every reachable state of all transfers, one whose client has not given up and whose file fits can be carried on until it is counted |
| `TftpDelivery.CountedIff` | src/defib/network/tftp_server.py:243-253 | a transfer can be counted if and only if the client accepts the block size and the file has fewer than 65535 full blocks of it |
| `Tftp.TftpServerProtocol.HandleRrq` | src/defib/network/tftp_server.py:125-174 | the request handler, option clamp and OACK included |
| `Tftp.AskGranted` | src/defib/network/tftp_server.py:152-174 | every block size from 8 to 65464 is granted as asked, others are moved to the nearer end; 512 is answered with block 1, any other with an OACK |
| `Tftp.NoSuchFile` | src/defib/network/tftp_server.py:140-144 | a missing file is answered with error 1 and starts no transfer |
| `Tftp.TftpServerProtocol.HandleAck` | src/defib/network/tftp_server.py:176-209 | the ACK handler and the completion event |
| `Tftp.TftpServerProtocol.HandleError` | src/defib/network/tftp_server.py:232-241 | an ERROR ends the transfer |
| `Tftp.TftpServerProtocol.SendData` | src/defib/network/tftp_server.py:243-253 | the next block, and completion on a short one |
| `Ubi.ExtractUbifs` | src/defib/ubi.py:43-133 | the dictionary loop, assembly, trimming and every error; the places of the header fields are fixed by `UbiBuild.ExtractsVolume` |
| `UbiBuild.ExtractsVolume` | src/defib/ubi.py:17-133 | of an image described byte by byte (header offset in 16-19, data offset in 20-23, volume in 8-11 and logical block in 12-15 of the volume header, unused blocks in between), extracting a volume gives each of its blocks at its logical number times the block size and 0xFF in the gaps, without the erased tail, or the errors for an empty volume and a missing magic; other volumes contribute nothing |
| `UbiBuild.VolumeOnce` | src/defib/ubi.py:111-133 | that determines the volume and its length |
| `UbiBuild.BuiltIsPeb` | src/defib/ubi.py:25-36 | a builder that writes the header bytes in their places makes such blocks |
| `UbiBuild.BuildExtract` | src/defib/ubi.py:43-133 | so building an image of any list of blocks and extracting a volume gives that volume back |
| `Ubi.OrderIrrelevant` | src/defib/ubi.py:65-133 | erase blocks whose headers lie inside them, in any order, give the same result, if copies of a logical block agree and sizes are uniform; only the test for the leading magic depends on the order |
| `UbiCopies.OrderIrrelevantIff` | src/defib/ubi.py:73-106 | every order gives the same dictionary if and only if copies of a logical block agree |
| `UbiCopies.LaterCopyWins` | src/defib/ubi.py:106 | the dictionary holds exactly the last copy of every logical block |
| `UbiCopies.SqnumBytes` | src/defib/ubi.py:25-29 | the sequence number is the eight bytes from 40 on of the volume header, the highest first |
| `UbiCopies.NewestIff` | src/defib/ubi.py:92-106 | the newest copies are kept if and only if every copy that differs from the last is older than some copy that does not |
| `UbiCopies.ImageNewestIff` | src/defib/ubi.py:73-106 | the same of an image and its dictionary |
| `UbiCopies.NewestIfInOrder` | src/defib/ubi.py:92-106 | with copies that all differ: if and only if the last has the highest sequence number |
| `UbiCopies.OlderCopyKept` | src/defib/ubi.py:106 | of any two copies that differ, one of the two orders keeps the older |
| `UbiCopies.StaleImageExtracted` | src/defib/ubi.py:43-133 | an image from which the copy with sequence number 1 is returned although one with 2 is there |
| `Ubi.ExtractIsVolume` | src/defib/ubi.py:111-133 | the result is the logical volume without exactly its erased tail |
| `Ubi.AssembledSlot` | src/defib/ubi.py:115-120 | every logical block is in its place, gaps read 0xFF |
| `Ubi.TrimExact` | src/defib/ubi.py:122-124 | exactly the trailing all-0xFF blocks go, never the first |
| `Ubi.CollectGathers` | src/defib/ubi.py:73-106 | the dictionary holds exactly what the volume's blocks contribute |
| `Rc4.Rc4Python` | src/defib/rockusb/codec.py:38-58 | the in-place permutation loop is RC4: 256 schedule states and one generator state per byte, permutations of 0..255, each one transposition at the stated indices from the last, and the byte XORed is the entry at the sum of the two exchanged ones |
| `Rc4.CipherIsRc4` | src/defib/rockusb/codec.py:44-58 | so is the function the laws are about |
| `Rc4.Rc4Iff` | src/defib/rockusb/codec.py:44-58 | for every data and key exactly one result stands in that relation |
| `Rc4.SelfInverse` | src/defib/rockusb/codec.py:38-43 | applying it twice gives the data back, for every key |
| `Maskrom.BuildMaskromChunks` | src/defib/rockusb/maskrom.py:63-86 | padding, RC4, CRC, split and terminator |
| `Maskrom.CrcInOneChunk` | src/defib/rockusb/maskrom.py:46-48 | the CRC never straddles a chunk boundary |
| `Maskrom.LastChunk` | src/defib/rockusb/maskrom.py:49-52 | the last chunk is always short, and one byte exactly for the terminator |
| `Maskrom.ChecksOut` | src/defib/rockusb/maskrom.py:78 | the CRC over everything received is zero |
| `Maskrom.RoundTrip` | src/defib/rockusb/maskrom.py:63-86 | reassembly returns the blob, up to the one pad byte |
| `FfRuns.ZeroLongFfRuns` | src/defib/protocol/hisilicon_standard.py:562-591 | exactly the bytes of 0xFF runs of at least the threshold become zero |
| `FfRuns.ZeroedOnce` | src/defib/protocol/hisilicon_standard.py:562-591 | that determines the result |
| `FfRuns.NoRunLeft` | src/defib/protocol/hisilicon_standard.py:562-571 | no such run is left, and a second pass changes nothing |
| `FfRuns.NoRunNoChange` | src/defib/protocol/hisilicon_standard.py:572-573 | the fast path agrees with the loop |
| `BootFrames.EncodeHead` | src/defib/protocol/frames.py:48-56 | the 14-byte HEAD frame |
| `BootFrames.SendStandard` | src/defib/protocol/hisilicon_standard.py:623-642 | the frames the standard sender emits |
| `BootFrames.SendV500` | src/defib/protocol/hisilicon_v500.py:124-181 | the same frames from the inline builder, for all data and addresses |
| `BootFrames.RoundTrip` | src/defib/protocol/frames.py:58-118 | a receiver using the decoders rebuilds data and address |
| `BootFrames.TailNumber` | src/defib/protocol/hisilicon_v500.py:169-172 | the TAIL number is one past the last DATA number, modulo 256 |
| `BootFrames.WireShape` | src/defib/protocol/frames.py:48-118 | on the wire: HEAD with its magic FE 00 FF 01; frames DA n ~n numbered from 1, each with the next 1024 bytes or the rest; the TAIL ED with the next number and its inverse |
| `UartBaud.Agent.UartSetBaud` | agent/uart.c:87-139 | the divisor is rescaled, or left alone when it cannot be programmed |
| `UartBaud.Agent.LoopTurn` | agent/main.c:1366-1390 | one turn of the command loop |
| `UartBaud.InvRun` | agent/main.c:1292-1328 | in every run the divisor is legal and at_default_baud implies the boot divisor |
| `UartBaud.ChangeIsScaled` | agent/uart.c:105-128 | an accepted change takes effect, within half a baud unit of exact scaling, if and only if the scaled divisor fits the registers; otherwise ACK_OK is sent and nothing changes |
| `UartBaud.ProgrammableIff` | agent/uart.c:123 | which rates those are, as two inequalities on rate and boot divisor |
| `UartBaud.BootRateIsBoot` | agent/uart.c:105-112 | at 115200 rescaling gives the boot divisor back |
| `UartBaud.SilenceRestores` | agent/main.c:1378-1386 | 60 empty receives in a row restore it, from every reachable state |
| `UartBaud.ShortSilenceKeeps` | agent/main.c:1378-1386 | fewer than 60 empty receives since the last packet leave rate and flag alone |
| `UartBaud.ReadyEveryFourth` | agent/main.c:1370-1375 | every fourth empty receive since the last packet announces READY, no other does |
| `UartBaud.BadRequests` | agent/main.c:1294-1303 | a short request gets ACK_CRC_ERROR, a rate outside 9600 to 3,000,000 ACK_FLASH_ERROR, and neither changes anything |
| `UartBaud.NoOverflow` | agent/uart.c:109-112 | the 64-bit product and the 32-bit casts lose nothing |

## Left out

- StreamTheorems.TrueMeansWritten: assumes that program operations succeed and that an erase reported as done is one; the agent drops the return code of the former (agent/main.c:827-828) and samples the latter. Erases reported as failed are modelled.
- StreamHandler.HandleFlashStream: the refusals of a request shorter than 12 bytes and of a chip that was not identified, and the byte count in the abort ACK.
- Hisfc350.Driver.WritePage: page writes that leave their page, where the chip would wrap around.
- Hisfc350.RunAll: chips above 32 MiB, of which the driver selects only two banks.
- NorFlash.Controller.Read: ranges past 16 MiB, which three address bytes cannot reach; likewise NorFlash.Controller.Crc.
- AgentRx.Proto.ProtoRecv: stated for frames of at most 1040 bytes, which all senders keep to; noise that fills the frame buffer is not covered.
- ReadProtocol.HandleRead: register regions and eMMC.
- TftpSafety.InvRun: one RRQ per client address; file-name resolution and the bytes of RRQ options are parameters.
- Tftp.TftpServerProtocol.HandleRrq: malformed requests, the file lookup and the parsing of option bytes are parameters.
- Ubi.OrderIrrelevant: volumes whose blocks differ in data offset are covered by Ubi.ExtractUbifs only.
- Ubi.ExtractUbifs: erase block sizes below the 64 bytes of a header, for which the unpacking raises.
- Timing: a timeout is a step that may happen at any moment, and a time budget is a number of turns of a loop.
- UART line errors and the 16-byte hardware FIFO: a byte that reaches the UART reaches the ring or is never sent.
- On-chip ECC of NAND (a failing program or erase may leave any page or block), status polling, and the register writes that carry a command; the 32-bit data registers of HISFC350 are the bytes they hold.
- Erase and program of the NOR half of agent/spi_flash.c: the commands of HISFC350 without banks.
- `_switch_baud` before a fast read or write.
- `write_memory`, `handle_flash_program`, SCAN, SELFUPDATE, REBOOT and MEMBW.
- Liveness of reads and TFTP under loss: neither side retransmits.
- Retransmission of boot frames, handshakes, and the size detection of SPL images.
- The divisor computed from UART_CLOCK when the boot ROM left none.
- Command line, transports, rack and router control, firmware lookup, environment parsing, USB bulk protocol: input, output and easy members.
