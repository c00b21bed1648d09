# Verification of the Space Invaders board software and sprite compiler

This project models six parts of the repository in Dafny and proves properties of the models: the JTAG UART
driver, the sprite compiler, the USB host stack, the tick and wall-clock services, the file descriptor table, and
the SPI transaction with the integer printers. `dafny verify dfyconfig.toml` checks everything.

## How the models are built

- **JTAG UART** (`Ring`, `JtagHost`, `JtagTx`, `JtagRx`, `JtagUart`). The circular buffers are values with array semantics. Each
  direction is a state machine in which one thread performs one shared-memory access per step and a whole interrupt
  round, or a host-activity alarm, may happen between any two steps. The theorems range over every event
  sequence. `JtagUart` has the same driver as an object with arrays: the interrupt routine with its loops, and the two
  non-blocking thread routines with arbitrary interrupts between their accesses.
- **Sprite compiler** (`Clustering`, `SpriteTables`, `SpriteCompiler`). The loops of the script on arrays, sequences
  and maps, and a renderer that says what the generated module shows.
- **USB host** (`UsbDispatch`, `UsbTransfer`, `UsbToggle`, `HidWalk`, `UsbStack`, `UsbDevices`, `UsbHost`). The device, the bus and
  the clock are inputs. `UsbStack` defines one iteration of the main loop as a function of the state and proves
  properties of all runs; `UsbDevices` says what enumeration makes of a device; `UsbHost` is the program as an object whose routines make exactly these steps.
- **Ticks and clock** (`Alarms`, `WallClock`), **descriptors** (`FdTable`), **SPI** (`Spi`), **printing** (`Printing`):
  objects and loops proved against specification functions, and lemmas about those functions over whole runs.

Words are unbounded integers with the source's truncation written out, and bit vectors where the source masks them.
Hardware answers are sequences or sets of bits
given from outside, with no restriction except where the table
below names one, and so are the bytes behind a buffer. The one assumption about the JTAG UART is `PlausibleRun`: an
invalid answer of the DATA register announces no further characters.

## Findings

Each of these is stated as a lemma with the exact condition under which the code does what it is meant to do.

- Palette renaming in place confuses colours when a colour equals the index of an earlier one (`RenamingRoundTrip`).
- Chunk tables are emitted with width and height exchanged; only square chunks are right (`SplitSpriteTable`).
- The exclusive lock looks at one slot too few (`LockKeepsIff`, `OpenOpenLock`).
- The longest alarm delay fires at once (`StartRefinesIff`).
- `settimeofday` truncates a product that `gettimeofday` does not (`SetThenGetIff`).
- A dispatch begun in the last five seconds before the 32-bit millisecond product wraps does not end in time
  (`DeadlineKeptIff`, `InTimeAtBoardRate`); some of them never end (`DeadlineNeverPassesNearWrap`).
- The IN transfer loop stores whole packets and can store more than was asked for (`StoresAtMostIff`).
- The IN transfer loop does not end when its 16-bit length can wrap, or with packet size 0 (`InTransferEndsIff`).
- A poll that fails after an odd number of packets loses toggle agreement, which endpoints with packets of less than
  8 bytes allow (`AllRunsAgreeIff`).
- A bus event counted in the wrong state leaves the named task states (`EnumerationInvariant`).
- A descriptor of length zero on its way makes the HID probe loop for ever (`WalkHangsIff`), and one cut off by the
  end of the buffer makes it read up to seven bytes behind it (`WalkLeavesBufferIff`).

Where code and comments disagree the code is followed: the state that is said to wait for the first frame marker tests
`register | mask` and never waits (transfer.c:298), and so does the model; comments in the SPI routine speak of two bytes
in flight, the code keeps one.

## Model

| member | source | states |
|---|---|---|
| `JtagTx.TransmitIsFifo` | space-invaders/software/usb_kb_bsp/drivers/src/altera_avalon_jtag_uart_write.c:98-205 | for every interleaving of caller, writer accesses, interrupt rounds and alarm changes: bytes sent followed by the ring are the accepted prefixes of all calls in order plus what the running call published; every finished call answered honestly (k means exactly the first k bytes, otherwise the right error; a short blocking write only with an inactive host) |
| `JtagTx.SentWasAccepted` | space-invaders/software/usb_kb_bsp/drivers/src/altera_avalon_jtag_uart_write.c:98-205 | between calls, the bytes sent are a prefix of the bytes the calls reported as written |
| `JtagTx.NoLostWakeUp` | space-invaders/software/usb_kb_bsp/drivers/src/altera_avalon_jtag_uart_write.c:126-139 | whenever the writer is out of the routine or waits in it, a non-empty ring has its interrupt enabled, so that the rounds it causes (there is one only while it is enabled) send everything accepted once they find enough FIFO space; in every state they do so exactly if the interrupt is enabled or nothing is unsent |
| `JtagTx.StaleIndexIsSafe` | space-invaders/software/usb_kb_bsp/drivers/src/altera_avalon_jtag_uart_write.c:103-127 | in the middle of any copy, after any interrupt round, the cells still to be written hold no unsent byte and the bytes already copied are intact, although the space was measured with an old index |
| `JtagTx.StepKeeps` | space-invaders/software/usb_kb_bsp/drivers/src/altera_avalon_jtag_uart_init.c:169-195 | every single step keeps FIFO order, wake-up and copy safety |
| `JtagTx.WaitingWriterGoesOn` | space-invaders/software/usb_kb_bsp/drivers/src/altera_avalon_jtag_uart_write.c:146-191 | a writer waiting with free cells, whatever comes in between, has published or returned as many more bytes as fit after 3 * (bytes left) + 5 of its steps, unless it returned because the host was inactive |
| `JtagTx.CallTakesWhatFits` | space-invaders/software/usb_kb_bsp/drivers/src/altera_avalon_jtag_uart_write.c:98-214 | a call that is non-blocking or whose data fit has returned after 3 * |data| + 3 of its steps, having accepted at least as much as fitted when it began |
| `JtagTx.GoesQuietIff` | space-invaders/software/usb_kb_bsp/drivers/src/altera_avalon_jtag_uart_init.c:169-195 | the transmit interrupt stays enabled exactly while no round has found more space than there was to send |
| `JtagTx.WokenGivesUpIff` | space-invaders/software/usb_kb_bsp/drivers/src/altera_avalon_jtag_uart_write.c:183-191 | a writer released from its wait returns exactly if the inactivity counter is then not zero, and otherwise tries again |
| `JtagTx.BlockedWriterWaitsForHost` | space-invaders/software/usb_kb_bsp/drivers/src/altera_avalon_jtag_uart_write.c:183-188 | a writer stuck on a full ring is released exactly when the last `timeout` alarms have found no activity |
| `JtagRx.ReceiveIsFifo` | space-invaders/software/usb_kb_bsp/drivers/src/altera_avalon_jtag_uart_read.c:113-203 | for every interleaving and any answers of the device: bytes returned, bytes in hand and the ring are the valid characters popped, in order; a short answer means the ring was empty at the last look, an empty blocking one also a host silent for the timeout. If an invalid answer always means an empty FIFO (`PlausibleRun`), reception is off between calls only when the ring is full |
| `JtagRx.FullRingIsReopened` | space-invaders/software/usb_kb_bsp/drivers/src/altera_avalon_jtag_uart_read.c:115-203 | under `PlausibleRun`, when reception is off and nobody reads, a call with room for a byte has returned as many bytes as fit, of the 2047 there are, after 3 * space + 4 steps of its own at most, whatever interrupts come; reception is on when it returns, and whenever nobody reads after that, reception is on or the ring is full again |
| `JtagRx.IsrLosesNothing` | space-invaders/software/usb_kb_bsp/drivers/src/altera_avalon_jtag_uart_init.c:125-167 | one receive round with plausible answers stores exactly the valid characters it reads, stops only at a full ring or an invalid answer, and turns reception off exactly if the ring is full then and the last answer announced more, or nothing was read |
| `JtagRx.StepKeeps` | space-invaders/software/usb_kb_bsp/drivers/src/altera_avalon_jtag_uart_read.c:115-203 | every single step, plausible answers given, keeps receive order and the reception invariant |
| `JtagRx.WaitingReaderGoesOn` | space-invaders/software/usb_kb_bsp/drivers/src/altera_avalon_jtag_uart_read.c:173-199 | a waiting reader does not overlook what arrives: waiting with bytes in the ring, whatever comes in between, it has returned all of them that fit after 3 * space + 6 of its steps |
| `JtagRx.CallTakesWhatIsThere` | space-invaders/software/usb_kb_bsp/drivers/src/altera_avalon_jtag_uart_read.c:113-203 | a call that finds bytes in the ring, blocking or not, has returned all of them that fit after 3 * space + 4 of its steps |
| `JtagRx.NonblockingReaderReturns` | space-invaders/software/usb_kb_bsp/drivers/src/altera_avalon_jtag_uart_read.c:148-149 | a non-blocking call returns within as many steps in any case |
| `JtagRx.BlockedReaderWaitsForHost` | space-invaders/software/usb_kb_bsp/drivers/src/altera_avalon_jtag_uart_read.c:173-178 | a reader stuck on an empty ring is released exactly when the last `timeout` alarms have found no activity |
| `Ring.FreeRunFits` | space-invaders/software/usb_kb_bsp/drivers/src/altera_avalon_jtag_uart_write.c:109-116 | the contiguous run the writer computes is inside the free space and inside the array, and is zero exactly when the ring is full |
| `Ring.DataRunFits` | space-invaders/software/usb_kb_bsp/drivers/src/altera_avalon_jtag_uart_read.c:125-131 | the contiguous run the reader computes is inside the queued data, and is zero exactly when the ring is empty |
| `JtagUart.JtagUart.DrainFifo` | space-invaders/software/usb_kb_bsp/drivers/src/altera_avalon_jtag_uart_init.c:130-154 | the receive loop on the array pushes exactly the characters up to the first invalid answer or the full ring |
| `JtagUart.JtagUart.ReceivePass` | space-invaders/software/usb_kb_bsp/drivers/src/altera_avalon_jtag_uart_init.c:125-167 | the receive branch is the receive step of the state machine |
| `JtagUart.JtagUart.TransmitPass` | space-invaders/software/usb_kb_bsp/drivers/src/altera_avalon_jtag_uart_init.c:169-195 | the transmit branch is the transmit step of the state machine |
| `JtagUart.PassMoves` | space-invaders/software/usb_kb_bsp/drivers/src/altera_avalon_jtag_uart_init.c:119-195 | a round receives exactly if RI is pending, the valid characters before the first invalid answer or the full ring, and sends exactly if WI is, as many of the oldest bytes as there are and fit |
| `JtagUart.PassMakesBothSteps` | space-invaders/software/usb_kb_bsp/drivers/src/altera_avalon_jtag_uart_init.c:119-195 | a round of the object is the receive step and the transmit step of the state machines, each exactly if its bit is pending |
| `JtagUart.JtagUart.Round` | space-invaders/software/usb_kb_bsp/drivers/src/altera_avalon_jtag_uart_init.c:119-195 | one pass of the routine makes that round on the arrays |
| `JtagUart.JtagUart.Irq` | space-invaders/software/usb_kb_bsp/drivers/src/altera_avalon_jtag_uart_init.c:117-197 | the rounds up to the first that finds nothing pending, each as said above: bytes leave and enter the rings in order, a pending transmit interrupt stays enabled while data is left, reception goes off only with a full ring |
| `JtagUart.JtagUart.WriteNonblocking` | space-invaders/software/usb_kb_bsp/drivers/src/altera_avalon_jtag_uart_write.c:98-205 | with interrupts at arbitrary moments: a result k means the first k bytes were queued behind what was there, k is at least what fitted at entry, unsent bytes leave the interrupt on |
| `JtagUart.JtagUart.ReadNonblocking` | space-invaders/software/usb_kb_bsp/drivers/src/altera_avalon_jtag_uart_read.c:113-203 | with interrupts at arbitrary moments: bytes returned followed by the ring are the old ring followed by the arrivals, everything present at entry that fits is returned, and taking bytes turns reception on |
| `JtagUart.JtagUart.Close` | space-invaders/software/usb_kb_bsp/drivers/src/altera_avalon_jtag_uart_init.c:241-255 | with interrupts between the polls: success with a live host means every queued byte was sent; a refusal means unsent bytes in non-blocking mode; it goes on waiting only with unsent bytes; nothing is lost or reordered |
| `JtagTx.BlockedWriterGivesUpIff` | space-invaders/software/usb_kb_bsp/drivers/src/altera_avalon_jtag_uart_write.c:183-188 | a writer stuck on a full ring is released by the alarm exactly if the timeout is within the counter's range, and then returns |
| `JtagRx.BlockedReaderGivesUpIff` | space-invaders/software/usb_kb_bsp/drivers/src/altera_avalon_jtag_uart_read.c:173-178 | the same for a reader stuck on an empty ring |
| `JtagHost.AbsenceIsNoticedIff` | space-invaders/software/usb_kb_bsp/drivers/src/altera_avalon_jtag_uart_init.c:204-226 | whatever the host did before, its counter can reach the timeout exactly if the timeout is at most INT_MAX - 2 |
| `JtagHost.ReachedIffSilent` | space-invaders/software/usb_kb_bsp/drivers/src/altera_avalon_jtag_uart_init.c:210-216 | an alarm that finds the host active starts the count again: a timeout in range is reached exactly when that many alarms in a row have found no activity |
| `JtagHost.RequestIsKept` | space-invaders/software/usb_kb_bsp/drivers/src/altera_avalon_jtag_uart_ioctl.c:60-68 | a timeout request from 2 to INT_MAX - 2 makes calls give up exactly after that many alarms in a row without activity |
| `JtagHost.WaitsForeverIff` | space-invaders/software/usb_kb_bsp/drivers/src/altera_avalon_jtag_uart_ioctl.c:60-68 | after a timeout request, waiting is endless exactly without an alarm or for requests below 2 or above INT_MAX - 2 |
| `Clustering.GroupItems` | space-invaders/On-Chip Memory/scripts/conv_to_sv.py:241-259 | the greedy loop yields a grouping: groups concatenate to the colours, each key is the largest colour in reach of the group's first, consecutive groups are split where the key does not reach |
| `Clustering.CombineChannelsCore` | space-invaders/On-Chip Memory/scripts/conv_to_sv.py:222-267 | for every dictionary of counts: the returned dictionaries describe a greedy grouping of its sorted colours, and no palette of the given colours that covers them within the distance is smaller than the dictionary |
| `Clustering.GroupsPartition` | space-invaders/On-Chip Memory/scripts/conv_to_sv.py:242-263 | every colour is in exactly one group and within the distance of its key |
| `Clustering.GreedyIsOptimal` | space-invaders/On-Chip Memory/scripts/conv_to_sv.py:242-263 | no palette of the image's own colours that covers them all within the distance is smaller than the greedy one |
| `Clustering.KeysCover` | space-invaders/On-Chip Memory/scripts/conv_to_sv.py:261-263 | the keys are image colours and cover all colours within the distance |
| `Clustering.ForeignColourBeatsGreedy` | space-invaders/On-Chip Memory/scripts/conv_to_sv.py:242-263 | the restriction to the image's own colours is needed: a counterexample |
| `Clustering.CountsConserved` | space-invaders/On-Chip Memory/scripts/conv_to_sv.py:261-262 | the pixel counts under the keys add up to the counts of the colours |
| `Clustering.TotalUnderKey` | space-invaders/On-Chip Memory/scripts/conv_to_sv.py:261-262 | no group's count overwrites another's: under each key the dictionary holds all pixels of that group |
| `Clustering.TotalsCountPixels` | space-invaders/On-Chip Memory/scripts/conv_to_sv.py:261-281 | the dictionary of totals counts the pixels of the reduced image colour by colour, and its counts add up to the number of pixels |
| `Clustering.KeysAreApart` | space-invaders/On-Chip Memory/scripts/conv_to_sv.py:244-256 | distinct keys differ by more than the distance |
| `Clustering.CombineChannels` | space-invaders/On-Chip Memory/scripts/conv_to_sv.py:269-281 | in place, every pixel becomes the key of its group, for every list and distance |
| `Clustering.CombinedMoves` | space-invaders/On-Chip Memory/scripts/conv_to_sv.py:277-280 | every pixel moves by at most the distance, onto a colour of the image |
| `Clustering.CombinedIsApart` | space-invaders/On-Chip Memory/scripts/conv_to_sv.py:277-280 | the values left in the image are more than the distance apart |
| `Clustering.CombinedIsSmallest` | space-invaders/On-Chip Memory/scripts/conv_to_sv.py:269-281 | the palette left in the image covers the image's colours within the distance, and no palette of the image's own colours that does so is smaller |
| `Clustering.CombiningTwiceIsOnce` | space-invaders/On-Chip Memory/scripts/conv_to_sv.py:269-281 | replacing again changes nothing |
| `SpriteTables.RenameInPlace` | space-invaders/On-Chip Memory/scripts/conv_to_sv.py:429-439 | the nested loops leave each element renamed by all colours in insertion order |
| `SpriteTables.FirstSeenIsPalette` | space-invaders/On-Chip Memory/scripts/conv_to_sv.py:415-438 | the palette has every colour of the image once, in the order in which the image first shows them |
| `SpriteTables.OrderDecides` | space-invaders/On-Chip Memory/scripts/conv_to_sv.py:415-438 | the order decides: the image 5, 0 has a palette that confuses its colours, the image 0, 5 has not |
| `SpriteTables.OneColourIff` | space-invaders/On-Chip Memory/scripts/conv_to_sv.py:415-424 | the dictionary has fewer than two colours exactly if all pixels agree |
| `SpriteTables.RenamingRoundTrip` | space-invaders/On-Chip Memory/scripts/conv_to_sv.py:429-439 | every colour is found again under its index exactly when no colour is the index of an earlier one |
| `SpriteTables.RenamingCanFail` | space-invaders/On-Chip Memory/scripts/conv_to_sv.py:429-439 | the colours 5, 0 in this order are both shown as 0 |
| `SpriteTables.OnlySmallestCanFail` | space-invaders/On-Chip Memory/scripts/conv_to_sv.py:429-439 | for bytes at least 16 apart there are at most 16 colours and only the smallest decides, by whether it is seen later than its value |
| `SpriteTables.EmptyTables` | space-invaders/On-Chip Memory/scripts/conv_to_sv.py:445-458 | the chunk dictionary has exactly the chunks of the image, each with its exact shape |
| `SpriteTables.FillTables` | space-invaders/On-Chip Memory/scripts/conv_to_sv.py:459-462 | after the pixel loops every pixel is stored in its chunk cell |
| `SpriteTables.ConstructSpriteTable` | space-invaders/On-Chip Memory/scripts/conv_to_sv.py:283-298 | the emitted rows all have the given width and concatenate to the list |
| `SpriteTables.EmitTables` | space-invaders/On-Chip Memory/scripts/conv_to_sv.py:490-501 | each chunk is emitted with its own cells in order but with rows as long as the chunk is high |
| `SpriteTables.ExactlyOneCondition` | space-invaders/On-Chip Memory/scripts/conv_to_sv.py:385-402 | at each pixel exactly one generated condition holds and the chain selects that chunk |
| `SpriteTables.ChunksShowListIfSquare` | space-invaders/On-Chip Memory/scripts/conv_to_sv.py:490-501 | if all chunks are square every pixel reads its own index |
| `SpriteTables.ChunksFailUnlessSquare` | space-invaders/On-Chip Memory/scripts/conv_to_sv.py:494 | if some chunk is not square some pixel reads outside its table |
| `SpriteTables.AllSquareIff` | space-invaders/On-Chip Memory/scripts/conv_to_sv.py:445-458 | with one chunk size, all chunks are square exactly when both sides are multiples of it or the image is a single smaller square |
| `SpriteTables.SplitSpriteTable` | space-invaders/On-Chip Memory/scripts/conv_to_sv.py:403-506 | the palette lists the colours in order of first appearance; the generated module shows the image at every pixel exactly when all chunks are square and no colour is the index of an earlier one; an image of one colour is an error |
| `SpriteCompiler.GeneratePalette` | space-invaders/On-Chip Memory/scripts/conv_to_sv.py:513-525 | the whole channel compiler: the module shows the reduced image exactly under these conditions, with the palette in order of first appearance, and the reduced image is the replacement of the original |
| `SpriteCompiler.ShownColourIsClose` | space-invaders/On-Chip Memory/scripts/conv_to_sv.py:513-525 | every shown colour is within the distance of the original pixel |
| `UsbDispatch.XferDispatchPkt` | space-invaders/software/usb_kb/usb_kb/transfer.c:142-186 | for every sequence of polls: one deadline spans all launches; at most 202 launches, ending at the first reply that is late, or is neither NAK nor TIMEOUT, or is the 200th NAK or the 3rd TIMEOUT; that reply's code is returned; no poll but the last is past the deadline; it is not over only if no poll was past it and no reply was final |
| `UsbDispatch.BoundIsTight` | space-invaders/software/usb_kb/usb_kb/transfer.c:165-183 | 202 launches do happen |
| `UsbDispatch.SteadyReplies` | space-invaders/software/usb_kb/usb_kb/transfer.c:164-183 | 200 NAKs (code 4) or 3 timeouts (code 14) end the dispatch and fewer do not; every other code ends it at once |
| `UsbDispatch.AwaitDone` | space-invaders/software/usb_kb/usb_kb/transfer.c:153-160 | the wait loop of one launch stops at the first poll past the deadline or with the completion bit, whichever is first |
| `UsbDispatch.DeadlineKeptIff` | space-invaders/software/usb_kb/usb_kb/transfer.c:144-153 | for every start and every tick rate: the wait does not end before 4.999 s and ends within 5 s exactly if the first tick that reaches the deadline comes before the 32-bit product wraps |
| `UsbDispatch.InTimeAtBoardRate` | space-invaders/software/usb_kb/usb_kb/transfer.c:144-153 | at 1000 ticks a second the wait ends within 5 s exactly if the dispatch begins with more than 5,000,000 of the 32-bit product left |
| `UsbDispatch.DispatchIsOverInTime` | space-invaders/software/usb_kb/usb_kb/transfer.c:142-186 | whatever the replies, a dispatch that is polled once between its first passing tick and the wrap is over; the 32-bit tick counter is enough for it |
| `UsbDispatch.DeadlineIsFiveSeconds` | space-invaders/software/usb_kb/usb_kb/transfer.c:144 | in whatever epoch of the product the dispatch began: while it has not wrapped since, the deadline has not passed after 4.999 s and has passed after 5 s |
| `UsbDispatch.DeadlineCanBeMet` | space-invaders/software/usb_kb/usb_kb/transfer.c:144-153 | some tick count, at whatever time, passes a deadline exactly when it is at most the largest millisecond count of the 32-bit product |
| `UsbDispatch.DeadlineNeverPassesNearWrap` | space-invaders/software/usb_kb/usb_kb/transfer.c:144-153 | at 1000 ticks a second no tick count ever passes the deadline exactly for dispatches begun with a millisecond count above 4289967 |
| `UsbDispatch.WrappedDeadlineIsPassed` | space-invaders/software/usb_kb/usb_kb/transfer.c:144-153 | a deadline whose own 32-bit sum wraps, which one tick a second allows, is passed at once |
| `UsbDispatch.LateInItsEpoch` | space-invaders/software/usb_kb/usb_kb/transfer.c:144-153 | a dispatch begun at tick 8584935 misses its five seconds although a later epoch passes its deadline |
| `UsbTransfer.Host.XferInTransfer` | space-invaders/software/usb_kb/usb_kb/transfer.c:191-227 | return code, buffer, packets used, bus actions and saved toggle for every outcome sequence |
| `UsbTransfer.Host.XferCtrlReq` | space-invaders/software/usb_kb/usb_kb/transfer.c:77-136 | return code, buffer, bus actions and toggle of a control request for every outcome sequence |
| `UsbTransfer.Host.PollReport` | space-invaders/software/usb_kb/usb_kb/HID.c:208-222 | a poll is one 8-byte transfer from endpoint 1 with the saved toggle |
| `UsbTransfer.SuccessIsWellFormed` | space-invaders/software/usb_kb/usb_kb/transfer.c:77-136 | every successful request is SETUP, then IN packets starting at DATA1 and OUT status, or a lone status packet in the direction the code chooses, and every packet of it succeeded |
| `UsbTransfer.FailureEndsRequest` | space-invaders/software/usb_kb/usb_kb/transfer.c:77-136 | a failed request ends with the packet that failed and returns its code, 0xf0 for a packet without data, or 0xff for a data stage towards the device; the toggle is that of the last IN packet only if the data stage succeeded |
| `UsbTransfer.InRunAllGood` | space-invaders/software/usb_kb/usb_kb/transfer.c:199-225 | the buffer of a successful transfer is the concatenation of its packets, all of which were accepted |
| `UsbTransfer.InRunEnds` | space-invaders/software/usb_kb/usb_kb/transfer.c:199-225 | how every transfer ends: all packets but the last are good, full and leave the 16-bit length below the request; the last fails with the dispatcher's code, or with 0xf0 without data, or is short or completes the request; exactly the good packets are stored, and the toggle is saved only on success |
| `UsbTransfer.InRunIsBounded` | space-invaders/software/usb_kb/usb_kb/transfer.c:213-217 | all packets but the last are full, so their number is bounded by the bytes asked for |
| `UsbTransfer.InTransferEndsIff` | space-invaders/software/usb_kb/usb_kb/transfer.c:213-217 | for every packet size: some bound independent of the device holds for the packets used exactly when nothing is asked for, or the packet size is positive and the 16-bit length cannot wrap; the bytes asked for plus one is then such a bound |
| `UsbTransfer.StoresAtMostIff` | space-invaders/software/usb_kb/usb_kb/transfer.c:208-217 | for every request, packet size and largest packet a device sends: no device makes the loop store more than the bytes asked for exactly if packets are empty, or shorter than the packet size and within the request, or of at most the packet size and that divides the request |
| `UsbTransfer.ReportBufferIsSafeIff` | space-invaders/software/usb_kb/usb_kb/HID.c:208-222 | a poll of 8 bytes never stores more than 8 exactly if packets have at most 8 bytes and the packet size is at least 8 |
| `UsbTransfer.ZeroPacketSizeNeverEnds` | space-invaders/software/usb_kb/usb_kb/transfer.c:217 | with packet size 0 and empty packets the loop never ends |
| `UsbTransfer.InTransferDelivers` | space-invaders/software/usb_kb/usb_kb/transfer.c:199-225 | what a conforming device sends, ended by a short packet or the length, is exactly what is stored |
| `UsbToggle.PollKeepsAgreementIff` | space-invaders/software/usb_kb/usb_kb/transfer.c:198-225 | what decides one poll: host and device toggle stay in agreement exactly when it succeeds or accepted an even number of packets |
| `UsbToggle.RobustIffWholeReports` | space-invaders/software/usb_kb/usb_kb/transfer.c:198-225 | the condition on the endpoint: no poll of it can lose agreement exactly if a packet holds a whole 8-byte report |
| `UsbToggle.AgreementOverRuns` | space-invaders/software/usb_kb/usb_kb/HID.c:203-222 | over every run of configurations, of any packet sizes, and polls: the toggles agree throughout exactly when no poll failed after an odd number of packets |
| `UsbToggle.AllRunsAgreeIff` | space-invaders/software/usb_kb/usb_kb/HID.c:203-222 | for every set of packet sizes: the toggles agree throughout all runs over such endpoints, whichever tokens fail, exactly if every size, cut to a byte as the poll does, is at least 8 |
| `UsbToggle.BootDevicesAlwaysAgree` | space-invaders/software/usb_kb/usb_kb/HID.c:203-222 | one direction of it, run by run: with packet sizes of at least 8 the toggles agree whichever token fails |
| `UsbToggle.LostReportBreaksAgreement` | space-invaders/software/usb_kb/usb_kb/transfer.c:198-225 | the other direction: for every smaller packet size, a full packet followed by a NAK leaves the toggles in disagreement |
| `HidWalk.SkipTo` | space-invaders/software/usb_kb/usb_kb/HID.c:138-142 | a skip loop ends at the descriptor type, the end or a zero length, and reads outside the buffer, as the byte-wise scan says |
| `HidWalk.WalkConfiguration` | space-invaders/software/usb_kb/usb_kb/HID.c:138-200 | the walk on any 256-byte buffer and whatever lies behind it: where it ends, and whether it read a byte behind the buffer |
| `HidWalk.WalkIsTarget` | space-invaders/software/usb_kb/usb_kb/HID.c:138-200 | on every well-formed configuration the walk terminates, reads only bytes of the buffer, and finds exactly the first descriptor of type 4, if its class is 3, its subclass 1 and its protocol the wanted one, and the first of type 5 after it |
| `HidWalk.FieldsAreTheDescriptors` | space-invaders/software/usb_kb/usb_kb/HID.c:160-179 | the copied endpoint fields are bytes 2 and 3, the word at byte 4 and byte 6 of the endpoint descriptor; the interface number is byte 2 of the interface descriptor |
| `HidWalk.SeekHangsIff` | space-invaders/software/usb_kb/usb_kb/HID.c:138-142 | for every buffer a skip loop never returns exactly if a chain of descriptors of other types leads to one of length zero |
| `HidWalk.WalkHangsIff` | space-invaders/software/usb_kb/usb_kb/HID.c:138-200 | for every buffer the walk loops for ever exactly if such a dead end lies before the first interface, or between a matching interface and its endpoint |
| `HidWalk.ZeroBufferHangs` | space-invaders/software/usb_kb/usb_kb/HID.c:138-142 | the smallest failure: a configuration of zeros |
| `HidWalk.ScanLeavesIff` | space-invaders/software/usb_kb/usb_kb/HID.c:138-142 | for every buffer a skip loop reads behind it exactly if a chain of descriptors of other types leads to its last byte |
| `HidWalk.WalkLeavesBufferIff` | space-invaders/software/usb_kb/usb_kb/HID.c:138-200 | for every buffer the walk reads behind it exactly if such a chain exists, or the end of the buffer cuts off the first interface before its protocol byte, or the endpoint behind a matching interface before its interval byte |
| `HidWalk.InsideWalkIgnoresRest` | space-invaders/software/usb_kb/usb_kb/HID.c:138-200 | a walk that stays inside gives the same result whatever lies behind the buffer |
| `HidWalk.CutOffDescriptorLeaves` | space-invaders/software/usb_kb/usb_kb/HID.c:138-142 | a 255-byte descriptor of another type in a 256-byte configuration leads out of the buffer |
| `UsbStack.ProbeOnWellFormed` | space-invaders/software/usb_kb/usb_kb/HID.c:117-201 | on a well-formed configuration, of the length in bytes 2 and 3 of the first fetch but at most 256, the probe never hangs or reads outside the buffer, and answers TRUE exactly when both fetches, the class match, an endpoint and both set requests are given; endpoint 1 is then filled from that descriptor |
| `UsbStack.NamedIffOrderly` | space-invaders/software/usb_kb/usb_kb/MAX3421E.c:241-264 | after the handler the state byte is a named state exactly when a counted bus event met a state with a named successor |
| `UsbStack.IterateKeeps` | space-invaders/software/usb_kb/main.c:147-250 | one iteration of the main loop keeps the enumeration invariant when its bus event is orderly |
| `UsbStack.EnumerationInvariant` | space-invaders/software/usb_kb/usb_kb/transfer.c:246-385 | over every run of the main loop: with orderly bus events the invariant holds at the top of the loop (addresses taken without gaps, a probed or running device on the highest one), and the state stays named exactly as long as the events are orderly |
| `UsbStack.RunningIsSafe` | space-invaders/software/usb_kb/main.c:152-228 | in the running state the polled address is valid, its record points to the HID endpoints, its class is the one the loop polls for, and the control packet size is the one learned |
| `UsbStack.EnumerationOrder` | space-invaders/software/usb_kb/usb_kb/transfer.c:274-374 | in the running state every stage has been passed, in order, since the device was attached |
| `UsbStack.DisconnectWithBusEvent` | space-invaders/software/usb_kb/usb_kb/MAX3421E.c:199-261 | a disconnect served together with a bus event leads to the unnamed state 0x02 |
| `UsbDevices.ConfiguringDecides` | space-invaders/software/usb_kb/usb_kb/transfer.c:360-374 | on well-formed configurations the configuring state ends running with class 2 exactly if the mouse probe's requests succeed on an interface 3/1/2 with an endpoint after it, otherwise with class 1 exactly if the keyboard probe's do on 3/1/1, otherwise in the error state |
| `UsbDevices.AddressingDecides` | space-invaders/software/usb_kb/usb_kb/transfer.c:336-359 | the lowest free address gets the record of device 0 and is kept by a device that accepts it; a refusal, or no free address, is an error |
| `UsbDevices.StaysOnTheWay` | space-invaders/software/usb_kb/usb_kb/transfer.c:274-374 | a healthy boot device is, after any iterations, at exactly the stage that the settling time and the bus reset allow |
| `UsbDevices.HealthyDeviceRuns` | space-invaders/software/usb_kb/main.c:147-228 | a boot keyboard or mouse that answers what it is asked comes to be polled as what it is, at the address it was given and with the packet size it named, after as many iterations without a wait as there are stages left |
| `UsbDevices.DeviceAtStartRuns` | space-invaders/software/usb_kb/main.c:143-158 | so does one that is attached at start-up, at address 1 |
| `UsbDevices.UnpluggingForgets` | space-invaders/software/usb_kb/usb_kb/MAX3421E.c:199-206 | one iteration after a disconnect, from any attached state, nothing is left of the device |
| `UsbDevices.PluggingInStarts` | space-invaders/software/usb_kb/usb_kb/MAX3421E.c:171-195 | a connection, at either speed, starts the way to operation |
| `UsbDevices.ExchangeStartsAfresh` | space-invaders/software/usb_kb/main.c:236-248 | a connection seen while a device is polled clears the table and starts the way to operation again |
| `UsbDevices.ReplacedDeviceRuns` | space-invaders/software/usb_kb/usb_kb/transfer.c:246-385 | however the last device was left, the next one after a disconnect comes to be polled as what it is, at address 1 |
| `UsbDevices.IllegalBusIsWaitedOut` | space-invaders/software/usb_kb/usb_kb/MAX3421E.c:196-198 | the illegal bus state ends whatever was going on |
| `UsbDevices.RestsWithoutInterrupt` | space-invaders/software/usb_kb/usb_kb/transfer.c:255-272 | the waits for a device and for a legal bus, and the error state, are left only by an interrupt |
| `UsbDevices.FailureIsAnError` | space-invaders/software/usb_kb/usb_kb/transfer.c:302-374 | a failed descriptor or address request, a full address table, and a device no probe accepts lead to the error state |
| `UsbHost.Host.MaxBusprobe` | space-invaders/software/usb_kb/usb_kb/MAX3421E.c:163-208 | the bus probe makes the model's step and changes nothing but the state byte |
| `UsbHost.Host.MaxIntHandler` | space-invaders/software/usb_kb/usb_kb/MAX3421E.c:241-264 | the handler makes the model's step and changes nothing but the state byte |
| `UsbHost.Host.InitTables` | space-invaders/software/usb_kb/usb_kb/transfer.c:229-240 | the loop clears the whole device table and leaves only the record of device 0 |
| `UsbHost.Host.HidProbe` | space-invaders/software/usb_kb/usb_kb/HID.c:117-201 | either probe makes the model's step and answers as the model says |
| `UsbHost.Host.AssignAddress` | space-invaders/software/usb_kb/usb_kb/transfer.c:336-359 | the loop tries the lowest free address once |
| `UsbHost.Host.RunTask` | space-invaders/software/usb_kb/usb_kb/transfer.c:246-385 | the task makes the model's step |
| `UsbHost.Host.GetDriver` | space-invaders/software/usb_kb/main.c:33-40 | the loop reports the class of the highest device with a record |
| `UsbHost.Host.MainIteration` | space-invaders/software/usb_kb/main.c:147-250 | the loop body makes the model's step and comes back to the invariant |
| `Alarms.AlarmClock.Start` | space-invaders/software/usb_kb_bsp/HAL/src/alt_alarm_start.c:64-112 | error codes, or the new alarm at the head of the list |
| `Alarms.AlarmClock.Stop` | space-invaders/software/usb_kb_bsp/HAL/src/alt_tick.c:66-73 | the alarm, and only it, leaves the list |
| `Alarms.AlarmClock.Tick` | space-invaders/software/usb_kb_bsp/HAL/src/alt_tick.c:87-141 | the list after a tick and the callbacks in order, for every list and every callback result |
| `Alarms.TickRefines` | space-invaders/software/usb_kb_bsp/HAL/src/alt_tick.c:94-141 | a tick of the 32-bit list fires exactly the alarms due on the unbounded clock and keeps the correspondence |
| `Alarms.StartRefinesIff` | space-invaders/software/usb_kb_bsp/HAL/src/alt_alarm_start.c:80-96 | a started alarm stands for start + nticks + 1 exactly when nticks is below 2^32 - 1 or the counter is about to wrap |
| `Alarms.LongestDelayFiresAtOnce` | space-invaders/software/usb_kb_bsp/HAL/src/alt_alarm_start.c:82-96 | otherwise it fires on the next tick |
| `Alarms.AlarmsImplementSchedule` | space-invaders/software/usb_kb_bsp/HAL/src/alt_tick.c:87-141 | over every run of ticks, stops and starts that meet that condition, across any number of wraps, the callbacks are exactly those of the unbounded schedule |
| `Alarms.FiresExactlyWhenDue` | space-invaders/software/usb_kb_bsp/HAL/src/alt_tick.c:87-141 | in every state of a run: an alarm due at a tick is not called back before, whatever other alarms are started and stopped meanwhile, is called back exactly once on that tick, and is then due after the returned interval; the state reached allows the same again |
| `Alarms.StartedAlarmFires` | space-invaders/software/usb_kb_bsp/HAL/src/alt_alarm_start.c:80-96 | an alarm started with nticks is called back on tick nticks + 1 after the start and not before |
| `Alarms.StoppedAlarmIsSilent` | space-invaders/software/usb_kb_bsp/HAL/src/alt_tick.c:66-73 | a stopped alarm is never called back until it is started again, whatever other alarms do |
| `Alarms.ZeroReturnIsSilent` | space-invaders/software/usb_kb_bsp/HAL/src/alt_tick.c:114-125 | neither is one whose callback returned zero |
| `Alarms.LastStartedIsCalledFirst` | space-invaders/software/usb_kb_bsp/HAL/src/alt_alarm_start.c:98 | the new alarm stands at the head of the list: among those due on the next tick it is called first |
| `Alarms.TickKeepsOrder` | space-invaders/software/usb_kb_bsp/HAL/src/alt_tick.c:94-141 | a tick keeps the list in order and makes its callbacks in list order |
| `WallClock.Clock.SetTimeOfDay` | space-invaders/software/usb_kb_bsp/HAL/src/alt_settod.c:72-96 | reset time and zone, or the error without change |
| `WallClock.Clock.GetTimeOfDay` | space-invaders/software/usb_kb_bsp/HAL/src/alt_gettod.c:71-124 | the two loops carry the raw time into range and clip a negative moment to zero |
| `WallClock.ReadingIsResetPlusElapsed` | space-invaders/software/usb_kb_bsp/HAL/src/alt_gettod.c:91-112 | with a rate dividing 10^6 and any reset time, a negative one included: the reading is normalised and equals reset time plus elapsed microseconds exactly unless it is clipped to zero, which never happens from moment zero on |
| `WallClock.LinearIffRateDivides` | space-invaders/software/usb_kb_bsp/HAL/src/alt_gettod.c:91-93 | the reading is linear in the ticks exactly when the rate divides 10^6 |
| `WallClock.ClockRunsForward` | space-invaders/software/usb_kb_bsp/HAL/src/alt_gettod.c:89-112 | for any reset time, readings grow strictly between wraps from every moment that is not clipped, and from a clipped one exactly to moments after zero |
| `WallClock.ProductsAgreeIff` | space-invaders/software/usb_kb_bsp/HAL/src/alt_settod.c:82-84 | the 32-bit and 64-bit products agree exactly when the lost multiple of 2^32 is a multiple of 5^6 |
| `WallClock.SetThenGetIff` | space-invaders/software/usb_kb_bsp/HAL/src/alt_settod.c:72-96 | setting then reading on the same tick is exact exactly then, or when a zero time is clipped |
| `WallClock.SetThenGetFails` | space-invaders/software/usb_kb_bsp/HAL/src/alt_settod.c:82-84 | the first failure at 1000 ticks a second, after 4294968 ticks, reads back almost a second late |
| `WallClock.ExactBelow32Bits` | space-invaders/software/usb_kb_bsp/HAL/src/alt_settod.c:82-84 | at 64 ticks a second or more that is exactly below 2^32 microseconds since reset |
| `FdTable.Files.GetFd` | space-invaders/software/usb_kb_bsp/HAL/src/alt_get_fd.c:54-101 | the lowest free slot is claimed and the mark raised, or the table is full |
| `FdTable.Files.FileLocked` | space-invaders/software/usb_kb_bsp/HAL/src/alt_open.c:64-92 | the slot is marked as a device; the answer says whether any other slot up to the mark holds it locked |
| `FdTable.Files.OpenFile` | space-invaders/software/usb_kb_bsp/HAL/src/alt_open.c:105-171 | descriptor or error number, and the whole table afterwards |
| `FdTable.Files.FdLock` | space-invaders/software/usb_kb_bsp/HAL/src/alt_fd_lock.c:54-75 | granted exactly when no other slot below the mark holds the device |
| `FdTable.Files.FdUnlock` | space-invaders/software/usb_kb_bsp/HAL/src/alt_fd_unlock.c:52-56 | only the exclusive flag of a device slot is cleared |
| `FdTable.Files.ReleaseFd` | space-invaders/software/usb_kb_bsp/HAL/src/alt_release_fd.c:44-51 | slots above 2 are freed, the standard slots never |
| `FdTable.Files.CloseFile` | space-invaders/software/usb_kb_bsp/HAL/src/alt_close.c:64-101 | result, error number and the whole table afterwards |
| `FdTable.OpenEffect` | space-invaders/software/usb_kb_bsp/HAL/src/alt_open.c:130-164 | open fails exactly without a device (19), with a full table (24), for a device held locked (13) or by the device's own code, and then leaves every slot as it was; otherwise the lowest free slot has the device, the caller's flags and its mark, and no other slot is touched |
| `FdTable.CloseUndoesOpen` | space-invaders/software/usb_kb_bsp/HAL/src/alt_release_fd.c:44-51 | closing a descriptor leaves the slots as they were before it was opened |
| `FdTable.ClosedIsReused` | space-invaders/software/usb_kb_bsp/HAL/src/alt_get_fd.c:77-87 | a closed descriptor is given out again when it is the lowest free one |
| `FdTable.LockShutsOut` | space-invaders/software/usb_kb_bsp/HAL/src/alt_fd_lock.c:54-75 | the lock is granted exactly to a marked slot whose device no other slot below the mark has, with the error numbers otherwise, and then every open of the device fails |
| `FdTable.UnlockLetsIn` | space-invaders/software/usb_kb_bsp/HAL/src/alt_fd_unlock.c:52-56 | unlocking or closing the slot that holds the lock lets the device be opened again |
| `FdTable.OpenKeeps` | space-invaders/software/usb_kb_bsp/HAL/src/alt_open.c:64-92 | open keeps the invariant and never joins a locked device |
| `FdTable.LockKeepsIff` | space-invaders/software/usb_kb_bsp/HAL/src/alt_fd_lock.c:61-69 | a granted lock keeps devices exclusive exactly when the slot at the mark (and standard slots above it) do not hold the device |
| `FdTable.ExclusiveIffSafeLocks` | space-invaders/software/usb_kb_bsp/HAL/src/alt_fd_lock.c:54-75 | over all runs of open, close, lock and unlock devices stay exclusive exactly when every granted lock met that condition |
| `FdTable.OpenOpenLock` | space-invaders/software/usb_kb_bsp/HAL/src/alt_fd_lock.c:61-69 | open, open, lock on the first descriptor is granted and breaks exclusiveness |
| `Spi.Command` | space-invaders/software/usb_kb_bsp/drivers/src/altera_avalon_spi.c:41-118 | for every sequence of status reads: the loop finishes exactly if there is something to transfer and the reads allow every byte to leave and come back; the wire has then, or so far, seen bytes leave and arrive strictly in turn, in the order data then zeros; the read buffer holds exactly the answers after the written part that have come back |
| `Spi.WireCarriesOutgoing` | space-invaders/software/usb_kb_bsp/drivers/src/altera_avalon_spi.c:89-102 | the bytes sent are a prefix of the outgoing ones and the bytes received a prefix of the answers |
| `Spi.OverStoresAnswers` | space-invaders/software/usb_kb_bsp/drivers/src/altera_avalon_spi.c:103-116 | when all is over the read buffer is exactly the answers after the written part |
| `Spi.FairTransactionsFinish` | space-invaders/software/usb_kb_bsp/drivers/src/altera_avalon_spi.c:75-118 | if within any k status reads the bit comes that is waited for, 2 * total * k reads finish every transaction |
| `Spi.MovesNeedReads` | space-invaders/software/usb_kb_bsp/drivers/src/altera_avalon_spi.c:75-102 | every byte sent needs a read with TRDY, every byte received one with RRDY, and none is sent while another is outstanding |
| `Spi.MaxBytesWr` | space-invaders/software/usb_kb/usb_kb/MAX3421E.c:71-93 | the wire carries the command byte and then exactly the data, and the routine finishes exactly if the status reads allow it |
| `Spi.MaxBytesRd` | space-invaders/software/usb_kb/usb_kb/MAX3421E.c:117-136 | the wire carries the command byte and zeros; the stored bytes are the answers after the status byte; the routine finishes exactly if the status reads allow it |
| `Printing.CountDigits` | space-invaders/software/usb_kb_bsp/HAL/src/alt_log_printf.c:248-255 | digit count and largest power, without 32-bit overflow |
| `Printing.EmitDigits` | space-invaders/software/usb_kb_bsp/HAL/src/alt_log_printf.c:281-296 | the falling-power loop prints the digits of the number |
| `Printing.MaskIsNibble` | space-invaders/software/usb_kb_bsp/HAL/src/alt_printf.c:98-106 | on 32-bit vectors: masking with 0xF at a digit's place and shifting back gives that hexadecimal digit of the word's number, and zero exactly for digit zero |
| `Printing.LogInteger` | space-invaders/software/usb_kb_bsp/HAL/src/alt_log_printf.c:238-297 | sign, fill and digits as specified, for every word, base, width and fill |
| `Printing.PrintedCharacters` | space-invaders/software/usb_kb_bsp/HAL/src/alt_log_printf.c:257-296 | character by character: with zero fill the sign comes first and zeros follow, otherwise blanks come first and the sign stands before the digits; the digits end the text, with letters of the case asked for |
| `Printing.FindDigit` | space-invaders/software/usb_kb_bsp/HAL/src/alt_printf.c:98-101 | on 32-bit vectors: the shift found is that of the leading hexadecimal digit |
| `Printing.SmallHex` | space-invaders/software/usb_kb_bsp/HAL/src/alt_printf.c:84-113 | the masking and shifting loop prints the hexadecimal digits of the word |
| `Printing.PrintedTextReadsBack` | space-invaders/software/usb_kb_bsp/HAL/src/alt_log_printf.c:238-297 | reading the text back gives the value, the most negative one included |
| `Printing.PrintedTextLength` | space-invaders/software/usb_kb_bsp/HAL/src/alt_log_printf.c:257-279 | the text is as long as the larger of width and natural length |
| `Printing.NoLeadingZero` | space-invaders/software/usb_kb_bsp/HAL/src/alt_log_printf.c:247-255 | the digits of a positive number do not start with zero |
| `Printing.HexPrintersAgreeIff` | space-invaders/software/usb_kb_bsp/HAL/src/alt_printf.c:84-113 | for every 32-bit word the dividing and the masking printer print the same characters exactly when the width asks for no fill |

## Left out

- JTAG UART: the blocking waits are steps of the state machines but not loops of the object, because they end only when
  the interrupt routine or the host acts; the SMALL driver, the uC/OS-II branches and the branch that resets the ring are not modelled.
- JTAG UART: the two directions are separate state machines; they share only the enable register, whose two bits are
  each changed inside a critical section or the interrupt routine.
- Sprite compiler: the bit and digit widths of the literals (an index is below the number of colours and so fits);
  image files, text layout and index-range direction of the generated text; 10-bit literals for images
  wider or higher than 1023 pixels; the unused helpers `min_dist`, `tuple_distance`, `percentile`, `split_to_palette`.
- USB: the contents of the SETUP packet, string descriptors, LEDs, hexadecimal displays and the report contents; the wait
  for the oscillator in the chip reset. A probe whose walk hangs never returns, and neither does the model's loop.
- BootDevicesAlwaysAgree: does not cover a lost handshake (the host accepts a packet that the device repeats) or an
  acknowledged packet without the data-available bit; the toggle model has packets that arrive and tokens that fail.
- AllRunsAgreeIff: does not cover them either.
- USB: the retries inside one dispatch do not appear in the transfer traces; `XferDispatchPkt` is proved separately and
  its result is an input of the transfers.
- Alarms: callbacks that start or stop alarms themselves; alarms are identified by number instead of by linked cells.
- Wall clock: overflow of the seconds field.
- Descriptor table: what a device's own open, close and ioctl routines do beyond their status codes; the redirection of
  the standard slots at start-up (runs may start with any devices there).
- SPI: a read buffer that overlaps the data to be written; slave selection, chip-select flags, the discarded stale byte and the final wait for the transmitter.
- Printing: parsing of the format string, and the character and string conversions.
