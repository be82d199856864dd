# A verified model of the pump logger

The repository holds the firmware of a water-pump logger, a server that collects its events, and a web
page. This project models the parts of it that have to be exactly right and proves what they promise.

| module | what it models |
|---|---|
| `CrcRegister`, `Crc16`, `Polynomials` | the table-driven 16-bit frame check sequence of RFC 1662, its bit-serial register, and what it and the 8-bit checksum are: remainders of a division |
| `Hdlc`, `HdlcStream`, `HdlcLimits`, `HdlcLines`, `HdlcBatch` | the frame builder, the byte-at-a-time decoder, what it makes of frames of any length, of damaged ones and of any octets at all, and the whole-buffer decoder |
| `Checksum8`, `SignedTimes`, `FlashEvent` | the 8-bit checksum, the order of times, and the 32-octet event record with its two checksum octets |
| `FlashRing`, `FlashLog`, `FlashRuns`, `FlashAcks`, `FlashFaults`, `FlashPower` | the circular event log on NOR flash: slot by slot, octet by octet, over whole runs, what acknowledging reaches, and what a record in the last slot or a power failure costs |
| `StateEvent`, `StateLog`, `StateLogger`, `EventLogger` | the EEPROM event log: events, operations on cells, the class, and its sibling of the pump logger |
| `Decimal`, `Hexadecimal`, `CStrings`, `PumpServer`, `PumpSession`, `SessionHeader`, `ServedSession`, `ServerLearns`, `DeviceReply`, `Delivery`, `DeliveryRuns`, `DeliveryBlocks` | the text protocol between device and server, down to the buffer that is cut in place, and delivery over whole runs |
| `Calendar`, `SoftClock` | seconds to dates and back, and the clock that counts a wrapping millisecond counter |
| `PumpController`, `SystemMonitor` | the two controllers that limit how long a pump runs |

Where the source changes state step by step, the model does too: classes with fields, arrays written in
place, loops. Each such method is proved equal to a function on values (`LogOn`, `AckOn`, `BootOn`,
`Step`, `HandleOn`, ...), and the properties are proved of those functions, for every input and every run.

## What came out

These are the places where the code does not do what it is for in every case. The exact condition is
proved for each.

- The streaming decoder delivers a payload of at most 253 octets unchanged or not at all, and delivers it if
  and only if it is not empty and its content stays below the stated capacity, where octets that reach it
  must be escaped (`HdlcLimits.NoMisdelivery`). Of a longer one the buffer keeps what follows the last wrap
  of the eight-bit length, and that part is delivered, as a payload that was never framed, if and only if
  the part before it has the sum of no octets at all (`HdlcLimits.FrameDeliveredIff`); that happens
  (`HdlcLimits.MisdeliveryHappens`).
- A frame that its sender breaks off, with an escape right before the flag, is delivered all the same, and
  the frame behind it is then delivered if and only if its first octet is sent escaped
  (`HdlcLines.NextAfterAborted`, `HdlcLines.AbortedCostsNext`). A second flag in front of a frame, as the
  line may be filled with, costs it (`HdlcLines.DoubleFlagLosesFrame`). Whatever arrives, nothing is delivered
  but what stands between two flags, from its last wrap on (`HdlcLines.DeliveredFromFlags`).
- Retention is 6143 events, and no more: the slot at the end of the last sector is never used and the
  sector being written has been erased (`FlashRuns.Retention`, `FlashRuns.WindowIsTight`).
- The flash log is safe to write from its first boot on if and only if every later sector, as far as a lap
  uses it, is either blank or does not begin with a blank slot (`FlashRuns.WriteSafeIff`).
- A reboot of the flash log finds the head again if and only if it is on the current lap with all events
  before it processed and the one at it not, and goes on with the numbering if and only if there is an
  event on the current lap (`FlashRing.HeadRecoveredIff`, `FlashRing.NumberingIff`). Right behind a lap
  both fail, with 6143 events held (`FlashRuns.LapForgotten`).
- The head of the flash log never goes from the end of a lap to the start of the next. An event is
  acknowledged if and only if the head stands at one that is held and not too young (`FlashAcks.AckOnIff`).
  After a lap without acknowledgements none succeeds, with 6143 events held (`FlashAcks.LapSilencesAck`);
  after a lap in which each event was acknowledged at once none ever does again without a reboot
  (`FlashAcks.EachAckedThenNone`). Acknowledging in bulk leaves every event processed if and only if those
  it does not reach are (`FlashAcks.AckAllProcessesIff`).
- A record in the slot behind a lap is taken for an event when the head comes to it, and acknowledging it
  erases the last sector. Every run retains the newest events if and only if there is none, or it will be
  erased before (`FlashFaults.AlwaysRetainsIff`).
- If power fails after an event is programmed and before the tail moves on, the tail is found again if and
  only if no erase was due (`FlashPower.TornRecoveredIff`). Otherwise the first sector of the lap is erased
  with the next event, and the newest event can be in it (`FlashPower.NewestLost`).
- An EEPROM event whose checksum octet is 0x00, or becomes 0x00 when acknowledged, is not seen
  (`StateEvent.StorableIffSeen`, and `DeliveryBlocks.UnseenEvent` is one). The device sends exactly its
  pending events if and only if all of them are seen (`DeliveryBlocks.SentIffSeen`); an unseen one silences
  it (`DeliveryBlocks.UnseenSilences`).
- `clear` keeps the newest pending events if and only if its backup loop stops at the bottom of the
  region; in the pump logger's copy of the class, if and only if at least sixteen are pending, because
  unfilled backup entries are stored as events (`StateLog.CompactionIff`,
  `EventLogger.ClearIsCompactionIff`).
- `log` drops no event if and only if it need not clear, or none or two to sixteen are pending: a single
  one is dropped by the guard of `clear` (`StateLog.DropsNothingIff`).
- With seventeen cells the region fills up completely; eighteen are enough
  (`StateLog.SeventeenCellsAreTooFew`).
- The server counts a line whether or not the data base took it, so delivery holds if and only if the
  inserts succeed (`Delivery.SafeIffInserted`).
- A line cut by the server's single read is counted if it reaches past its second comma, and then loses
  its state if nothing of it arrived (`PumpSession.CutEvent`, `PumpSession.ReceivedMatches`).
- The device's receive string is static. A count cut short stays there and is acknowledged again in the
  next session (`Delivery.CutCountObeyed`). With none but the counted events stored, that is safe if and
  only if logging in between has dropped nothing and made nothing up (`Delivery.StaleCountIff`); a run from
  a first boot acknowledges an event that was never stored (`DeliveryRuns.StaleCountLosesEvents`).
- The server stays inside its vector of sixteen lines if and only if fewer than sixteen newlines arrive,
  and needs fewer than 256 octets to find a terminator (`PumpServer.FitsIff`, `ServedSession.SessionServed`).
  The device's header and ten pending events are one line too many (`ServedSession.TenEventsOverrun`), and
  of its sessions that are cut short the one of four characters exceeds the vector of a line
  (`ServedSession.DeviceSession`).
- A hardware address is printed inside its strings if and only if no field is above 0xFFF and not all are
  above 0xFF (`PumpServer.AddressFitsIff`).
- A date comes back from `makeTime` and `breakTime` if and only if it is not after 7 February 2106,
  06:28:15 (`Calendar.MakeThenBreak`).
- The clock counts every second if and only if `now` is called before the counter has wrapped
  (`SoftClock.ExactIff`).
- After a restart the time left until the next rest is shown as the rest time,
  which is right if and only if the two limits are equal (`SystemMonitor.RestartShowsRest`).
- The controller's books agree with its log as long as no action finds the pump at rest and an up time
  longer than what has passed since it was started, and exactly so long (`SystemMonitor.BooksAgreeIff`). A
  change of the up time during a rest can lead to such an action, and the pump then runs past the new up time
  (`SystemMonitor.ResumeOverruns`).
- Stopping for a full tank leaves the relay on, and no later action in the off state switches it off
  (`SystemMonitor.RelayIff`, `SystemMonitor.RelayStaysOn`).

## Assumptions

- Flash: `program` can only clear bits, `erase` sets a 64 KiB sector to 0xFF. The log runs from 0x40000
  to 0x80000.
- EEPROM: its length and the region's start are multiples of the eight octets of an event, and the region
  has at least eighteen cells, as in both sketches (starts 32 and 128).
- The device runs one thread; the mutex of the flash log makes its operations atomic.
- `atoi` and `toInt` read any number of digits; the server narrows the result to 32 bits for the time and
  8 bits for the port, as the C library on the server's machine does; `strtoul` reads into 64 bits there.
- The data base, the network and the hardware are outside the model. What they return is a parameter, or the
  model leaves the call out.

## Model

| member | source | states |
|---|---|---|
| `CrcRegister.TableIsZeroOctet` | loggerFirmware/src/crc.cc:15-49 | Every one of the 256 table entries is what the serial register with polynomial 0x8408 makes of its index in eight zero bits |
| `CrcRegister.UpdateIsFeedOctet` | loggerFirmware/src/crc.cc:52-55 | The table step is eight shift/xor steps, one per bit of the octet, for every register and octet |
| `CrcRegister.FeedBackwards` | loggerFirmware/src/crc.cc:52-55 | One bit step can be read backwards: from registers that agree up to a mask, the registers before agree up to the next mask, and equal registers have been fed equal bits |
| `CrcRegister.FeedInjective` | loggerFirmware/src/crc.cc:52-55 | One bit step loses no register |
| `CrcRegister.FeedParity` | loggerFirmware/src/crc.cc:52-55 | The generator has a factor x + 1: the parity of the register and of the bits fed are tied together |
| `CrcRegister.FcsIndices` | loggerFirmware/src/crc.cc:12-13 | Feeding the complemented register, low octet first, always ends at the constant 0xF0B8 |
| `Crc16.CrcOfBuffer` | loggerFirmware/src/crc.cc:57-66 | The buffer loop computes the check sequence of the first `len` octets |
| `Crc16.CrcFromAppend` | loggerFirmware/src/crc.cc:57-66 | A message may be summed in parts |
| `Crc16.CrcIsSerial` | loggerFirmware/src/crc.cc:52-66 | For every message the table-driven loop equals the bit-serial register of RFC 1662, appendix C |
| `Crc16.SerialReadBack` | loggerFirmware/src/crc.cc:52-66 | From one register, different strings of up to sixteen bits end in different registers |
| `Crc16.SerialInjective` | loggerFirmware/src/crc.cc:52-66 | The same bits never merge two registers |
| `Crc16.FcsIsGood` | loggerFirmware/src/crc.cc:183-196 | The sequence appended by the sender, low octet first, ends in the good value, from any register |
| `Crc16.FcsAcceptedIffCorrect` | loggerFirmware/src/crc.cc:224-226 | A message with two more octets passes the check if and only if those are the low and high octet of its complemented sum |
| `Crc16.SuffixChecks` | loggerFirmware/src/crc.cc:183-196 | A suffix has the check sequence of the whole message if and only if what is before it leaves the sum where it starts |
| `Crc16.BurstDetected` | loggerFirmware/src/crc.cc:224-226 | Any error confined to sixteen adjacent bits changes the sum, at any place and any length |
| `Crc16.AdjacentOctetsDetected` | loggerFirmware/src/crc.cc:224-226 | Any change of two adjacent octets changes the sum |
| `Crc16.OddFlipsDetected` | loggerFirmware/src/crc.cc:224-226 | Any odd number of flipped bits changes the sum |
| `Polynomials.CrcIsRemainder` | loggerFirmware/src/crc.cc:52-66 | The 16-bit sum of any message, from any register, is the remainder of its bits, lowest first, and sixteen zeros, with the register added in front, on division by x^16 + x^12 + x^5 + 1 |
| `Polynomials.ShiftInDivides` | loggerFirmware/src/crc.cc:52-55 | A shift register divides: after any message, and for any divisor, it holds the remainder |
| `Hdlc.AddByte` | loggerFirmware/src/crc.cc:99-123 | One octet is appended, escaped if it is in the list, and nothing else in the buffer changes |
| `Hdlc.HdlcFrame` | loggerFirmware/src/crc.cc:178-201 | The frame builder writes flag, stuffed payload and check sequence, flag, and nothing else |
| `Hdlc.StuffedOctets` | loggerFirmware/src/crc.cc:6-9 | Four octets are sent escaped, as these pairs, and all others as they are |
| `Hdlc.FrameShape` | loggerFirmware/src/crc.cc:164-201 | A frame has between n + 4 and 2n + 6 octets (138 for 66), and the flag octet only at its two ends |
| `Hdlc.StuffAllSize` | loggerFirmware/src/crc.cc:99-123 | Stuffing at most doubles the content and leaves no flag in it |
| `Hdlc.GoodContent` | loggerFirmware/src/crc.cc:224-229 | What is stored passes the check, less its last two octets, if and only if it is payload plus its check sequence |
| `HdlcStream.FrameVar.HdlcPack` | loggerFirmware/src/crc.cc:208-266 | One call of the decoder is one step of the state machine: state, result, delivered octets, and no other cell written |
| `HdlcStream.NoiseIgnored` | loggerFirmware/src/crc.cc:212-216 | Between frames, octets other than the flag change nothing |
| `HdlcStream.StuffedStep` | loggerFirmware/src/crc.cc:244-262 | One content octet, stuffed, is stored, or ends the frame when the capacity is reached by an unescaped octet |
| `HdlcStream.ContentStored` | loggerFirmware/src/crc.cc:244-262 | A content of at most 255 octets is stored if and only if no unescaped octet reaches the capacity |
| `HdlcStream.FitsBelowCapacity` | loggerFirmware/src/crc.cc:208-266 | Below the stated capacity only the payload length counts: 1 to 253 |
| `HdlcStream.FrameDelivered` | loggerFirmware/src/crc.cc:178-266 | A frame fed octet by octet is delivered at its closing flag, not before, and leaves the decoder idle |
| `HdlcStream.StreamDelivered` | loggerFirmware/src/crc.cc:178-266 | Any stream of frames with noise between them delivers exactly the payloads, in order, each at its closing flag, and ends idle |
| `HdlcStream.DeliveredIffCorrectFcs` | loggerFirmware/src/crc.cc:219-232 | In any state the decoder delivers a payload if and only if it has stored it with its correct check sequence and a closing flag arrives |
| `HdlcLimits.WrapQuiet` | loggerFirmware/src/crc.cc:250-261 | The 256th octet of a content sets the length back to 0 inside the frame, if and only if none of the 255 before it reaches the capacity unescaped and the capacity is not 0, or it is escaped itself |
| `HdlcLimits.LongContentStored` | loggerFirmware/src/crc.cc:244-262 | A content of any length leaves in the buffer what follows the last wrap, unless an octet reaches the capacity, and delivers nothing on the way |
| `HdlcLimits.FrameOutcome` | loggerFirmware/src/crc.cc:178-266 | A frame of any length delivers nothing before its closing flag |
| `HdlcLimits.FrameDeliveredIff` | loggerFirmware/src/crc.cc:178-266 | What the closing flag delivers, for any payload and any delivered octets: the part behind the last wrap, if and only if it has 1 to 253 octets, the content survives, and the part before it has the sum of no octets |
| `HdlcLimits.NoMisdelivery` | loggerFirmware/src/crc.cc:178-266 | A payload of at most 253 octets is delivered unchanged at its closing flag, if it fits, and nothing is delivered otherwise |
| `HdlcLimits.WrapMisdelivers` | loggerFirmware/src/crc.cc:250-261 | Behind 256 octets that lead the sum back to its start, every payload that fits is delivered in place of the one framed |
| `HdlcLimits.MisdeliveryHappens` | loggerFirmware/src/crc.cc:250-261 | There are such octets, so every payload that fits can be delivered without having been framed |
| `HdlcLimits.DamagedFrameRejected` | loggerFirmware/src/crc.cc:219-243 | The run over a frame whose content differs from the one sent within sixteen adjacent bits delivers nothing |
| `HdlcLimits.DamagedWireRejected` | loggerFirmware/src/crc.cc:219-262 | The run over a frame in which two octets of the content arrive as any other two, neither flag nor escape, delivers nothing |
| `HdlcLines.DeliveredFromFlags` | loggerFirmware/src/crc.cc:208-266 | Whatever octets arrive, a payload is delivered only at a flag, and only if what has arrived since an earlier flag, its escapes taken out, is the payload and its check sequence, less a multiple of 256 octets where the length has wrapped; the first octet counts as escaped only if a frame was broken off before |
| `HdlcLines.UnescapeStuffed` | loggerFirmware/src/crc.cc:99-123 | Taking the escapes out undoes stuffing |
| `HdlcLines.AbortedDelivered` | loggerFirmware/src/crc.cc:219-243 | A frame broken off by an escape and a flag is delivered, and leaves its escape in the decoder |
| `HdlcLines.NextAfterAborted` | loggerFirmware/src/crc.cc:241-252 | The next frame is delivered if and only if its first octet is sent escaped |
| `HdlcLines.AbortedCostsNext` | loggerFirmware/src/crc.cc:241-252 | The two in a row |
| `HdlcLines.DoubleFlagLosesFrame` | loggerFirmware/src/crc.cc:219-262 | A frame behind two flags is not delivered |
| `HdlcBatch.UnFrame` | loggerFirmware/src/crc.cc:268-325 | The whole-buffer decoder returns what the state machine reads, up to the first closing flag |
| `HdlcLines.BatchBehindFlag` | loggerFirmware/src/crc.cc:268-325 | On any octets the whole-buffer decoder returns what stands behind the first flag, up to the second if there is one, its escapes taken out; an escape left over in front of the flag counts |
| `HdlcLines.BatchWithoutFlag` | loggerFirmware/src/crc.cc:268-325 | Without a flag it returns everything, its escapes taken out |
| `HdlcBatch.UnFrameUndoesFrame` | loggerFirmware/src/crc.cc:178-325 | Decoding a frame gives back the payload and its check sequence, for every payload |
| `HdlcBatch.FrameInjective` | loggerFirmware/src/crc.cc:178-325 | Different payloads have different frames |
| `Checksum8.Crc8Update` | loggerFirmware/src/crc.cc:68-83 | The loop over eight bits computes one step of the 8-bit checksum |
| `Checksum8.Crc8OfRecord` | loggerFirmware/src/crc.cc:85-94 | The loop over a record computes its checksum |
| `Polynomials.Crc8IsRemainder` | loggerFirmware/src/crc.cc:68-94 | The checksum of any record is the remainder of its bits, lowest first, and eight zeros, on division by x^8 + x^5 + x^4 + 1 |
| `Checksum8.ResidueZeroIff` | loggerFirmware/src/crc.cc:85-94 | A record with one more octet sums to zero if and only if that octet is its checksum |
| `FlashEvent.Event.constructor` | loggerFirmware/src/event.cc:20-47 | A new event is fresh, carries the next sequence number, time and fields as given, and moves the counter on |
| `FlashEvent.Event.IsValidEvent` | loggerFirmware/src/event.cc:81-99 | The validity test is: sealed, or processed |
| `FlashEvent.Event.IsProcessedEvent` | loggerFirmware/src/event.cc:131-134 | The processed test is the checksum over the whole record |
| `FlashEvent.Event.SetProcessed` | loggerFirmware/src/event.cc:136-139 | Marking changes the last octet only, to the checksum of the others |
| `FlashEvent.SequenceCounter.SetSeqNumber` | loggerFirmware/src/event.cc:9-13 | The counter is set |
| `FlashEvent.TimeOfRecord` | loggerFirmware/src/event.h:8-20 | The time of a record is the number its octets 11 to 14 stand for, lowest first, in two's complement |
| `FlashEvent.NumberOfRecord` | loggerFirmware/src/event.h:8-20 | And its sequence number that of octets 1 to 4 |
| `SignedTimes.TimesOrdered` | loggerFirmware/src/log.cpp:296 | The order of two times is that of the numbers they stand for |
| `FlashEvent.SealedIff` | loggerFirmware/src/event.cc:81-88 | A record is sealed if and only if its checksum octet is right |
| `FlashEvent.ProcessedIff` | loggerFirmware/src/event.cc:131-134 | A record is processed if and only if its last octet is the checksum of the others |
| `FlashEvent.FreshThenMarked` | loggerFirmware/src/event.cc:34-47 | A fresh event is valid and not processed; marked, it is valid and processed, and only its last octet has changed, to zero |
| `FlashEvent.ProgramBlank` | loggerFirmware/src/log.cpp:90 | Programming a blank slot stores exactly the record |
| `FlashEvent.ProgramMarked` | loggerFirmware/src/log.cpp:302-304 | Programming the marked record over the sealed one stores the marked record: bits are only cleared, no erase is needed |
| `FlashEvent.BlankIsNoRecord` | loggerFirmware/src/event.cc:81-99 | A blank slot is neither sealed nor processed nor valid, and its sequence number ends a scan |
| `FlashLog.CLog.constructor` | loggerFirmware/src/log.cpp:27-78 | The three scans, the numbering and the erases of the start-up, as one function of the flash contents |
| `FlashLog.CLog.FindEntry` | loggerFirmware/src/log.cpp:103-145 | The scan stops where the slot-level search stops, with the same answer |
| `FlashLog.CLog.CheckSpace` | loggerFirmware/src/log.cpp:148-165 | True if and only if all 32 octets are 0xFF |
| `FlashLog.CLog.MakeSpace` | loggerFirmware/src/log.cpp:167-171 | Exactly the slots of the sector become blank |
| `FlashLog.CLog.IncCurrAddr` | loggerFirmware/src/log.cpp:173-202 | The tail moves on, wraps before the last slot, and a sector that is entered and not blank at its start is erased |
| `FlashLog.CLog.LogEvent` | loggerFirmware/src/log.cpp:81-100 | Program at the tail, then move on |
| `FlashLog.CLog.SetSequence` | loggerFirmware/src/log.cpp:204-225 | Numbering goes on from the slot behind the tail |
| `FlashLog.CLog.ReadEvent` | loggerFirmware/src/log.cpp:227-245 | The event at the read position, accepted if sealed |
| `FlashLog.CLog.ReadNext` | loggerFirmware/src/log.cpp:247-270 | The read position moves on and wraps as the writer does |
| `FlashLog.CLog.Acknowledge` | loggerFirmware/src/log.cpp:285-316 | The head event is marked if sealed and not younger than asked, and the head moves on; the state and the answer are stated in full |
| `FlashLog.ProgramIsProgramSlot` | loggerFirmware/src/log.cpp:90 | Programming 32 octets at a slot address is an operation on that slot alone |
| `FlashLog.EraseIsEraseSector` | loggerFirmware/src/log.cpp:167-171 | Erasing at a slot address is an operation on the slots of its sector alone |
| `FlashRing.InvWriteSafe` | loggerFirmware/src/log.cpp:81-100 | In every state of the invariant the slot at the tail is in range and fully erased |
| `FlashRing.LogKeepsInv` | loggerFirmware/src/log.cpp:81-202 | Logging keeps the invariant, inside a sector, across sectors and at the end of a lap, and extends the history by the event |
| `FlashRing.AckKeepsInv` | loggerFirmware/src/log.cpp:285-316 | Acknowledging keeps the invariant and changes at most the head slot, to its marked form |
| `FlashRing.FirstBoot` | loggerFirmware/src/log.cpp:39-74 | Starting on a chip without records gives an empty log in the invariant, numbered from 0 |
| `FlashRing.FindFirst` | loggerFirmware/src/log.cpp:103-145 | A scan from the first slot stops at the first record that matches, at an end mark before it, or behind the last slot |
| `FlashRing.BootStartsOver` | loggerFirmware/src/log.cpp:39-74 | Whatever the flash holds, without a valid record in front of the first end mark the boot starts over |
| `FlashRing.BootGoesOn` | loggerFirmware/src/log.cpp:39-75 | With one it numbers on behind the slot before the tail it finds, and erases at most the sector of the tail, if that is not blank |
| `FlashRing.NextNumber` | loggerFirmware/src/log.cpp:204-225 | The slot before the first is the last of the region |
| `FlashRing.BootRecovers` | loggerFirmware/src/log.cpp:39-75 | From any reachable state, starting again erases nothing, finds the tail, puts the head at the first event of this lap that is not processed, and numbers on after the newest event of this lap, or from 0 if there is none |
| `FlashRing.BootKeepsInv` | loggerFirmware/src/log.cpp:39-75 | Starting again keeps the invariant and the history |
| `FlashRing.FirstLapHead` | loggerFirmware/src/log.cpp:39-75 | Before the first wrap the head found is the head there was |
| `FlashRing.HeadRecoveredIff` | loggerFirmware/src/log.cpp:39-75 | The head is found again if and only if it is on this lap, the events of the lap before it are processed, and the one at it is not |
| `FlashRing.NumberingIff` | loggerFirmware/src/log.cpp:204-225 | Numbering goes on after the newest event if and only if that is on this lap |
| `FlashRuns.ApplyKeepsInv` | loggerFirmware/src/log.cpp:81-316 | Every operation of a run, logging, acknowledging or rebooting, keeps the invariant |
| `FlashRuns.LapForgotten` | loggerFirmware/src/log.cpp:39-75 | After a lap with its first event acknowledged, and any further events, a reboot finds the head at slot 0 instead of 1, and with no further event numbers from 0, while the last 6143 events are in flash |
| `FlashRuns.AlwaysWriteSafe` | loggerFirmware/src/log.cpp:148-202 | After any run of logging, acknowledging and rebooting the tail slot is blank, and the next event is stored exactly |
| `FlashRuns.Retention` | loggerFirmware/src/log.cpp:81-202 | After any run the last 6143 events, or all if fewer, are in flash, in order going back from the tail, as written or marked |
| `FlashRuns.WindowHeld` | loggerFirmware/src/log.cpp:81-202 | The same for every state of the invariant |
| `FlashRuns.WindowIsTight` | loggerFirmware/src/log.cpp:173-202 | One event further back may have been erased |
| `FlashAcks.AckOnIff` | loggerFirmware/src/log.cpp:285-316 | In every reachable state an acknowledgement succeeds if and only if the head stands at an event of this lap, or of what is left of the previous one, that is not later than asked |
| `FlashAcks.AckAllMarksPrefix` | loggerFirmware/src/log.cpp:285-316 | Acknowledging in a loop ends, and has marked exactly a run of slots from the head whose times are not later than asked |
| `FlashAcks.AckAllReach` | loggerFirmware/src/log.cpp:285-316 | These are events up to the first that is later than asked, or to the end of what the log holds of the lap the head is on |
| `FlashAcks.AckAllProcessesIff` | loggerFirmware/src/log.cpp:285-316 | Without a time limit every event held is processed then, if and only if those are that the head does not have in front of it on its lap |
| `FlashAcks.FirstLapAllProcessed` | loggerFirmware/src/log.cpp:285-316 | On the first lap all are |
| `FlashAcks.LapSilencesAck` | loggerFirmware/src/log.cpp:311-315 | After a lap without acknowledgements, from a first boot, none succeeds, with the last 6143 events in flash |
| `FlashAcks.HeadStuck` | loggerFirmware/src/log.cpp:311-315 | At the end of the lap the head stays, over any run without a reboot |
| `FlashAcks.EachAckedThenNone` | loggerFirmware/src/log.cpp:311-315 | After a lap each event of which was acknowledged at once, from a first boot, and any run without a reboot, none succeeds |
| `FlashAcks.AcknowledgeAll` | loggerFirmware/src/menu_log_ack.cpp:43-60 | The menu loop ends in the state the bulk acknowledgement is said to |
| `FlashFaults.AlwaysRetainsIff` | loggerFirmware/src/log.cpp:304-311 | On a chip without records and with clean sectors, every run retains the newest events if and only if the slot behind the lap does not read as a record, or its sector will be erased |
| `FlashFaults.LastSectorLost` | loggerFirmware/src/log.cpp:304-311 | Otherwise a lap each event of which is acknowledged, and one acknowledgement more, lose the newest event |
| `FlashPower.TornRecoveredIff` | loggerFirmware/src/log.cpp:81-100 | From every state a blank chip reaches: power that fails between the program and the erase is survived if and only if no erase is due |
| `FlashPower.NothingTorn` | loggerFirmware/src/log.cpp:173-202 | If none is due, the flash is as after the whole call |
| `FlashPower.TornBoot` | loggerFirmware/src/log.cpp:39-75 | If one is, the boot takes the slot behind the lap for the tail, and numbers on after the one before it |
| `FlashPower.TornThenLog` | loggerFirmware/src/log.cpp:173-182 | The next event is then stored there, and the first sector erased |
| `FlashPower.NewestLost` | loggerFirmware/src/log.cpp:173-202 | For example at the end of the first sector of the second lap: the event programmed last is in no slot after the next one |
| `FlashRuns.ReadNextMovesOn` | loggerFirmware/src/log.cpp:247-270 | Reading on visits the slots between read position and tail one by one and says at the last one, and only there, that there is no more |
| `FlashRuns.WriteSafeIff` | loggerFirmware/src/log.cpp:185-198 | After a first boot, logging is safe for a whole lap if and only if each later sector, as far as the lap uses it, is blank or starts with a slot that is not |
| `StateEvent.CalcCrc` | Arduino/StateLogger/StateLogger.cpp:5-12 | The checksum of a buffer is the exclusive or of its octets |
| `StateEvent.ValidIff` | Arduino/StateLogger/StateLogger.cpp:55-79 | A cell is valid if and only if it is not blank and its last octet is the checksum of the others |
| `StateEvent.NewEventFacts` | Arduino/StateLogger/StateLogger.cpp:23-31 | A new event carries its fields, is not acknowledged, and its checksum is right |
| `StateEvent.AckedFacts` | Arduino/StateLogger/StateLogger.cpp:49-53 | Acknowledging a waiting event changes its mark and flips every bit of its checksum octet |
| `StateEvent.StorableIffSeen` | Arduino/StateLogger/StateLogger.cpp:33-53 | An event is seen both before and after its acknowledgement if and only if its checksum octet is neither 0x00 nor 0xFF |
| `StateEvent.BlankNotSeen` | Arduino/StateLogger/StateLogger.cpp:57-70 | A blank cell is no event |
| `StateLog.RebootRecoversIff` | Arduino/StateLogger/StateLogger.cpp:118-151 | On a region of acknowledged, then pending, then no events, the constructor finds head and tail again if and only if no stored event has a checksum octet that reads as no event |
| `StateLog.RebootRecovers` | Arduino/StateLogger/StateLogger.cpp:118-151 | In every reachable state the constructor recovers head and tail |
| `StateLog.ScansEndInsideIff` | Arduino/StateLogger/StateLogger.cpp:118-151 | The scans of the constructor end inside the EEPROM if and only if the region holds a cell that is no event |
| `StateLog.CompactionIff` | Arduino/StateLogger/StateLogger.cpp:153-198 | With two or more pending and its reads inside the EEPROM, `clear` leaves exactly the newest of them, at most sixteen, in order, in an otherwise blank region, if and only if its backup loop stops at the bottom of the pending events |
| `StateLog.ClearInsideIff` | Arduino/StateLogger/StateLogger.cpp:159-172 | Those reads stay inside the EEPROM if and only if the loop is full or meets an acknowledged event in the region, or finds below it a cell that is no live event or enough cells |
| `StateLog.CompactedInv` | Arduino/StateLogger/StateLogger.cpp:153-198 | The compacted region is in the invariant with exactly those events pending |
| `StateLog.FullStopsAtBottom` | Arduino/StateLogger/StateLogger.cpp:240-245 | When `log` has to clear, the loop does stop there and reads no cell outside |
| `StateLog.LogKeepsInv` | Arduino/StateLogger/StateLogger.cpp:240-253 | Logging keeps the invariant, so a blank cell stays inside the EEPROM, and the pending events are those kept and then the new one |
| `StateLog.DropsNothingIff` | Arduino/StateLogger/StateLogger.cpp:153-198 | `log` drops no pending event if and only if it need not clear, or none or two to sixteen are pending |
| `StateLog.SeventeenCellsAreTooFew` | Arduino/StateLogger/StateLogger.cpp:240-253 | With seventeen cells, logging into a region of pending events leaves no blank cell |
| `StateLog.AckKeepsInv` | Arduino/StateLogger/StateLogger.cpp:209-219 | Acknowledging keeps the invariant and takes the oldest pending event off; with none pending it changes nothing |
| `StateLogger.Logger.constructor` | Arduino/StateLogger/StateLogger.cpp:118-151 | The constructor finds the head and tail that the scans of the region define, and touches nothing |
| `StateLogger.Logger.Load` | Arduino/StateLogger/StateLogger.cpp:33-48 | Reading a cell gives it if it is valid and the empty event otherwise |
| `StateLogger.IsValidCell` | Arduino/StateLogger/StateLogger.cpp:55-79 | The validity test |
| `StateLogger.Logger.Store` | Arduino/StateLogger/StateLogger.cpp:81-84 | Exactly one cell changes |
| `StateLogger.Logger.BackUp` | Arduino/StateLogger/StateLogger.cpp:159-172 | The first loop of `clear` fills the array with the newest pending events, newest first |
| `StateLogger.Logger.Wipe` | Arduino/StateLogger/StateLogger.cpp:174-177 | The second loop blanks the region and nothing below it |
| `StateLogger.Logger.Restore` | Arduino/StateLogger/StateLogger.cpp:181-191 | The third loop puts them back, oldest first, and counts the tail |
| `StateLogger.Logger.Clear` | Arduino/StateLogger/StateLogger.cpp:153-198 | The whole state after `clear` |
| `StateLogger.Logger.GetEvent` | Arduino/StateLogger/StateLogger.cpp:200-207 | The event at the cursor, which moves on |
| `StateLogger.Logger.Ack` | Arduino/StateLogger/StateLogger.cpp:209-219 | The whole state after `ack` |
| `StateLogger.Logger.LogEvent` | Arduino/StateLogger/StateLogger.cpp:240-253 | The whole state after `log`, with the clearing of a full region |
| `StateLogger.Logger.Reset` | Arduino/StateLogger/StateLogger.h:40 | The cursor goes back to the head |
| `EventLogger.NoEventClears` | EclipseArduino/pumpLogger/event_logger.cpp:40-85 | Apart from what the backup array starts out with, the pump logger clears as the other class does |
| `EventLogger.ClearMakesUp` | EclipseArduino/pumpLogger/event_logger.cpp:66-78 | Backup entries left unfilled become pending events in front of those kept |
| `EventLogger.ClearIsCompactionIff` | EclipseArduino/pumpLogger/event_logger.cpp:40-85 | Its `clear` keeps exactly the newest pending events if and only if at least sixteen are pending |
| `EventLogger.MakesNothingIff` | EclipseArduino/pumpLogger/event_logger.cpp:66-78 | Nothing is made up if and only if the log need not clear, sixteen events or more are pending, or the backup starts out empty |
| `EventLogger.LogKeepsInv` | EclipseArduino/pumpLogger/event_logger.cpp:127-140 | `log`, of either logger, keeps a blank cell inside the EEPROM; pending are the events made up, those kept, and the new one |
| `Decimal.AtoiPrint` | loggerd/src/pump_client.cpp:191-193 | A printed number, followed by anything but a digit, reads back as that number |
| `Decimal.DecimalCharacters` | loggerd/src/pump_client.cpp:191-193 | The digits are those from 0 to 9, in this order, and white space is six characters |
| `Decimal.AtoiReads` | loggerd/src/pump_client.cpp:191-193 | Reading a number passes over white space, takes a sign, and then the digits there are, or zero |
| `Hexadecimal.HexCharacters` | loggerd/src/pump_client.cpp:151-152 | The hexadecimal digits, printed in capitals and read in either case |
| `Hexadecimal.HexOnly` | loggerd/src/pump_client.cpp:151 | And no other character is one |
| `Hexadecimal.StrToUlReads` | loggerd/src/pump_client.cpp:151 | Reading a hexadecimal number takes white space, a sign, a prefix and digits, each of which may be missing, and cuts the value at 64 bits |
| `Hexadecimal.HexReadBack` | loggerd/src/pump_client.cpp:152 | A number printed in hexadecimal reads back as that number |
| `Hexadecimal.Hex2ReadBack` | loggerd/src/pump_client.cpp:152 | Also with the zero put in front of a single digit, and all its characters are digits |
| `CStrings.CutString` | loggerd/src/pump_client.cpp:102-107 | A terminator written over the first separator makes two strings of one, each what it was |
| `CStrings.FindChar` | loggerd/src/pump_client.cpp:102 | The first separator of the string, if there is one |
| `CStrings.ParseArgs` | loggerd/src/pump_client.cpp:96-118 | For every text: whether the vector is exceeded; if not, it points at the pieces of the string, in order; nothing outside the string changes |
| `CStrings.PieceCount` | loggerd/src/pump_client.cpp:96-118 | There is one piece more than separators, or than the limit if that is less |
| `CStrings.InsideIff` | loggerd/src/pump_client.cpp:81-83 | A vector of as many entries as the limit is not exceeded if and only if there are fewer separators than that |
| `PumpServer.MeansInsideIff` | loggerd/src/pump_client.cpp:120-204 | Which lines exceed no vector and no string, in numbers of colons and commas and in the values of six fields |
| `PumpServer.AddressFitsIff` | loggerd/src/pump_client.cpp:145-161 | Six fields of an address fit the strings they are printed to if and only if none is above 0xFFF and not all are above 0xFF |
| `PumpServer.FitsIff` | loggerd/src/pump_client.cpp:78-94 | Which texts exceed none: fewer than sixteen newlines, and each line such a one |
| `PumpServer.Client.HandleLine` | loggerd/src/pump_client.cpp:120-204 | For every line: signal strength, address or event are kept, the line is counted if and only if it is an event, and whether it exceeds a vector |
| `PumpServer.Client.HandleClient` | loggerd/src/pump_client.cpp:78-94 | For every text: what the lines leave behind, in order, up to one that exceeds a vector; the number of events; and whether all fit |
| `PumpServer.Client.Serve` | loggerd/src/pump_client.cpp:30-53 | For everything one read can give: no terminator, a vector exceeded, or the answer with the number of events, and what is left behind |
| `PumpServer.AnswerCounts` | loggerd/src/pump_client.cpp:48-53 | The answer is the number of readings handed on, at most sixteen |
| `PumpSession.CutEvent` | loggerd/src/pump_client.cpp:183-199 | An event line as the device prints it, cut after any number of characters, is counted if and only if it reaches past its second comma, with the right time and port |
| `PumpSession.SplitWire` | loggerd/src/pump_client.cpp:83 | As long as the vector is not exceeded, the server finds the lines that arrived whole, each with its carriage return, and the rest of the one behind them |
| `ServerLearns.EventRead` | loggerd/src/pump_client.cpp:191-193 | An event line of any three numbers is a reading with the lowest 32 bits of the first, the lowest eight of the second, and whether the third is zero |
| `ServerLearns.SignalRead` | loggerd/src/pump_client.cpp:124-135 | The signal strength printed in a header is the one kept |
| `ServerLearns.AddressKept` | loggerd/src/pump_client.cpp:147-159 | The address kept is six numbers with colons between them, each the number read from its field, printed in capital digits, at least two |
| `ServerLearns.DeviceAddress` | loggerd/src/pump_client.cpp:147-159 | Of the device's address line each of these is the octet that was sent in its place |
| `ServerLearns.DeviceLearned` | loggerd/src/pump_client.cpp:30-94 | Whatever part of a session arrives behind its header, if it is answered, the server has the signal strength and the address of the device |
| `SessionHeader.DeviceHeader` | EclipseArduino/pumpLogger/event_reporter.cpp:27-37 | The lines the device sends before its events are no events, exceed nothing, and behind the first of them that holds wherever they break off |
| `SessionHeader.DeviceHeaderCut` | loggerd/src/pump_client.cpp:124-133 | Cut inside that header, a session exceeds the vector of a line if and only if exactly four characters arrive |
| `ServedSession.SessionRead` | loggerd/src/pump_client.cpp:78-94 | A session cut after any number of characters fits the server if and only if fewer than sixteen of its lines arrive whole and the header is not broken off where that exceeds a vector; then exactly the whole event lines are handed on, and the cut one under the condition of `PumpSession.CutEvent`, in order |
| `ServedSession.SessionServed` | loggerd/src/pump_client.cpp:30-53 | What the server makes of it, exactly, by the number of lines and characters: no terminator, a vector exceeded, or an answer |
| `ServedSession.DeviceSession` | loggerd/src/pump_client.cpp:30-53 | For the sessions of the device: sixteen whole lines, or four characters, and nothing else |
| `ServedSession.ServeSession` | loggerd/src/pump_client.cpp:30-94 | The connection hands on exactly what is received and answers with its number |
| `ServedSession.TenEventsOverrun` | loggerd/src/pump_client.cpp:81-83 | The device's six header lines and any ten events with one-digit ports are under 256 octets and one line too many |
| `PumpSession.ReceivedMatches` | loggerd/src/pump_client.cpp:183-199 | Each event counted is the one sent in its place; the state is wrong if and only if the cut fell right behind the second comma and the state was not zero |
| `DeviceReply.RepliesHeard` | EclipseArduino/pumpLogger/event_reporter.cpp:85-99 | Replies written one after the other are heard one by one, and nothing is left in the string |
| `DeviceReply.AckHeard` | EclipseArduino/pumpLogger/event_reporter.cpp:127-133 | A count printed by the server is read as that count |
| `DeviceReply.TimeHeard` | EclipseArduino/pumpLogger/event_reporter.cpp:101-104 | A printed time is set as printed |
| `DeviceReply.SettingHeard` | EclipseArduino/pumpLogger/event_reporter.cpp:141-176 | A printed setting is taken as printed under its letter, and under no other than five letters |
| `DeviceReply.CutReplyGlued` | EclipseArduino/pumpLogger/event_reporter.cpp:81-90 | What a broken session left in the static string is glued to the first line of the next one |
| `DeviceReply.CutAckGlued` | EclipseArduino/pumpLogger/event_reporter.cpp:127-133 | A count cut short is then read as its leading digits, which are never more than the count |
| `Delivery.ReplyLogs` | EclipseArduino/pumpLogger/event_reporter.cpp:60-77 | Sends exactly the pending events, in order, and leaves the log as it is |
| `Delivery.SendsPending` | EclipseArduino/pumpLogger/event_reporter.cpp:60-77 | The loop over the cursor meets exactly the pending events |
| `Delivery.AckFromHead` | EclipseArduino/pumpLogger/event_reporter.cpp:129-138 | The acknowledging loop is n calls of `ack` from the head |
| `Delivery.AckManyMoves` | EclipseArduino/pumpLogger/event_reporter.cpp:135-138 | n acknowledgements take the n oldest pending events off, or all if there are fewer |
| `Delivery.Reporter.ServiceServerData` | EclipseArduino/pumpLogger/event_reporter.cpp:79-183 | The receive loop: the string kept, and the log after the acknowledgements of the lines completed |
| `Delivery.CountObeyed` | EclipseArduino/pumpLogger/event_reporter.cpp:79-183 | A reply with a count and other lines acknowledges that many events, if nothing was left over |
| `Delivery.CutCountObeyed` | EclipseArduino/pumpLogger/event_reporter.cpp:79-183 | If a count was left over, its digits are acknowledged instead, and this count is lost |
| `Delivery.StepKeeps` | EclipseArduino/pumpLogger/event_reporter.cpp:60-183 | Every step of the protocol keeps: acknowledged events are stored, no event disappears, and what is under way is true |
| `Delivery.AtLeastOnce` | EclipseArduino/pumpLogger/event_reporter.cpp:60-183 | Over every run, on the log of either class, of logging, sessions, lost and cut replies, acknowledgements and reboots: every acknowledged event is stored, and every logged event is stored, pending, or was dropped by `clear` |
| `Delivery.FirstBoot` | Arduino/StateLogger/StateLogger.cpp:118-151 | A device booted on a blank region starts in the invariant |
| `Delivery.SafeIffInserted` | loggerd/src/pump_client.cpp:183-199 | A session of new, different events is safe if and only if every insert succeeds |
| `Delivery.StaleCountIff` | EclipseArduino/pumpLogger/event_reporter.cpp:81-138 | With a count left over and only the counted events stored, logging an event keeps the next reply safe if and only if it drops nothing and makes nothing up |
| `DeliveryBlocks.SentIffSeen` | EclipseArduino/pumpLogger/event_reporter.cpp:60-77 | On a region of acknowledged, pending and blank cells, exactly the pending events are sent if and only if all of them are seen |
| `DeliveryBlocks.AckedUpTo` | EclipseArduino/pumpLogger/event_reporter.cpp:135-138 | Any number of acknowledgements stops at the first cell that is not seen |
| `DeliveryBlocks.UnseenSilences` | EclipseArduino/pumpLogger/event_reporter.cpp:60-77 | With an unseen event logged where nothing was pending, and any others behind it while the region has room, nothing is sent and nothing acknowledged |
| `DeliveryBlocks.UnseenEvent` | Arduino/StateLogger/StateLogger.cpp:23-31 | There is such an event |
| `DeliveryRuns.StaleCountLosesEvents` | EclipseArduino/pumpLogger/event_reporter.cpp:81-138 | From a first boot: fill the region, let the answer to one event break off, log one more; the next session acknowledges an event that was never stored |
| `DeliveryRuns.SessionIsServeStep` | loggerd/src/pump_client.cpp:30-94 | A session of characters, cut anywhere, that the server answers is a step of the protocol: the count is that of a prefix of the events sent, and the readings are those received |
| `DeliveryRuns.AnswerIsAckStep` | loggerd/src/pump_client.cpp:48-53 | And its answer is obeyed by the device as that many acknowledgements |
| `Calendar.LeapRule` | EclipseArduino/pumpLogger/Time.cpp:147 | The leap years before a year add up to the closed Gregorian formula |
| `Calendar.MonthLaw` | EclipseArduino/pumpLogger/Time.cpp:147-149 | Where each month begins, as a formula without the table: from March on, five months have 153 days |
| `Calendar.YearOf` | EclipseArduino/pumpLogger/Time.cpp:170-178 | The year loop finds the year of a day; neither its 8-bit counter nor its 16-bit comparison is exceeded |
| `Calendar.MonthOf` | EclipseArduino/pumpLogger/Time.cpp:180-201 | The month loop finds the month and always ends by its `break` |
| `Calendar.BreakTime` | EclipseArduino/pumpLogger/Time.cpp:151-202 | Every 32-bit time is broken into an existing date and time of day whose second count it is, with the right weekday |
| `Calendar.FirstDay` | EclipseArduino/pumpLogger/Time.cpp:151-168 | Time zero is Thursday, 1 January 1970 |
| `Calendar.NextDay` | EclipseArduino/pumpLogger/Time.cpp:166 | A day later is the next weekday |
| `Calendar.MakeTime` | EclipseArduino/pumpLogger/Time.cpp:204-233 | The 32-bit second count of any fields with a month up to 13, whether or not they name a date |
| `Calendar.Monotone` | EclipseArduino/pumpLogger/Time.cpp:204-233 | One date is before another if and only if its second count is smaller |
| `Calendar.Unique` | EclipseArduino/pumpLogger/Time.cpp:204-233 | Two dates with the same second count are the same |
| `Calendar.BreaksOnce` | EclipseArduino/pumpLogger/Time.cpp:151-202 | The fields are determined by the time |
| `Calendar.BreakThenMake` | EclipseArduino/pumpLogger/Time.cpp:151-233 | Making a time of the fields it was broken into gives it back |
| `Calendar.MakeThenBreak` | EclipseArduino/pumpLogger/Time.cpp:151-233 | An existing date comes back, except for the weekday, if and only if it is not after 7 February 2106, 06:28:15 |
| `SoftClock.Clock.Now` | EclipseArduino/pumpLogger/Time.cpp:250-272 | `now` counts the whole seconds of the 32-bit difference, while the counter goes on during the loop |
| `SoftClock.Clock.SetTime` | EclipseArduino/pumpLogger/Time.cpp:274-284 | The clock shows the time set and starts counting here |
| `SoftClock.NowCounted` | EclipseArduino/pumpLogger/Time.cpp:250-272 | What a call adds to the seconds counted so far, wrapped or not |
| `SoftClock.ExactIff` | EclipseArduino/pumpLogger/Time.cpp:250-272 | A call brings the clock up to date if and only if the time not counted yet had not wrapped the counter |
| `SoftClock.NoDrift` | EclipseArduino/pumpLogger/Time.cpp:250-284 | After any number of calls, each at most 2^32 - 1000 ms after the one before, exactly the whole seconds passed have been counted, through any number of wraps |
| `SoftClock.ShowsTime` | EclipseArduino/pumpLogger/Time.cpp:250-284 | From `setTime` on, the clock shows the time set plus the whole seconds passed, modulo 2^32 |
| `PumpController.PumpClass.Run` | EclipseArduino/pumpLogger/pump.cpp:46-102 | One pass: the whole new state, the output, and exactly the level change logged |
| `PumpController.PumpClass.Sample` | EclipseArduino/pumpLogger/pump.cpp:104-122 | A change of the level switch is logged once, and the log alternates |
| `PumpController.OffLeft` | EclipseArduino/pumpLogger/pump.cpp:65-70 | After any run, inside the frame, "off" is left for pumping if and only if the switch is set, and the time of the start is noted |
| `PumpController.PumpingLeft` | EclipseArduino/pumpLogger/pump.cpp:71-83 | Pumping is left for "off" if and only if the switch is released, and for a rest if and only if it is not and the up time is exceeded |
| `PumpController.RestingLeft` | EclipseArduino/pumpLogger/pump.cpp:84-91 | Resting is left for pumping if and only if the rest time is exceeded |
| `PumpController.OverrideLeft` | EclipseArduino/pumpLogger/pump.cpp:56-101 | Outside the frame every state goes to override, and override to "off" if and only if the hour is in the frame again |
| `PumpController.NeverStarts` | EclipseArduino/pumpLogger/pump.cpp:63-102 | Over any run without a set switch an idle machine never starts and pumps for no time |
| `PumpController.StartNoted` | EclipseArduino/pumpLogger/pump.cpp:30-44 | Over any run, while the pump runs, the start noted is the time of the pass that started it |
| `PumpController.PumpingBound` | EclipseArduino/pumpLogger/pump.cpp:63-102 | Over any run, whatever switch and hour do, the pumping time is at most one up time and one gap per start |
| `PumpController.DutyBound` | EclipseArduino/pumpLogger/pump.cpp:63-102 | Under constant demand it is at most one up time and gap more than the completed rests |
| `PumpController.RestLasts` | EclipseArduino/pumpLogger/pump.cpp:84-91 | Every rest that ends in a start has lasted longer than the rest time |
| `PumpController.OutputFollows` | EclipseArduino/pumpLogger/pump.cpp:56-101 | Over any run the output is low when off and high in override, and from the second pass on low while pumping and high while resting; a last pass outside the frame leaves override and a high output, unless the hour changed within it |
| `SystemMonitor.SysMon.HandleAction` | loggerFirmware/src/sys_mon.cpp:136-222 | One action: the whole new state, the relay and the log |
| `SystemMonitor.SysMon.StartPump` | loggerFirmware/src/sys_mon.cpp:223-237 | Starting switches and logs once |
| `SystemMonitor.SysMon.StopPump` | loggerFirmware/src/sys_mon.cpp:239-256 | Stopping switches, if asked to, and logs once |
| `SystemMonitor.BooksAfter` | loggerFirmware/src/sys_mon.cpp:136-222 | After any run: whether the pump is on, the noted start and rest, the frame flag and the time left, by what the last action found |
| `SystemMonitor.LogAgrees` | loggerFirmware/src/sys_mon.cpp:136-256 | Over any run, with any settings, the log alternates on and off, ends at the state of the pump, and its gaps add up to the time the pump was on |
| `SystemMonitor.BooksAgreeIff` | loggerFirmware/src/sys_mon.cpp:147-191 | An action keeps the noted start and rest in agreement with the log if and only if it does not go on pumping out of a rest |
| `SystemMonitor.SameUpNeverResumes` | loggerFirmware/src/sys_mon.cpp:147-191 | No action of a run does that as long as the up time stays the same |
| `SystemMonitor.LimitsKept` | loggerFirmware/src/sys_mon.cpp:147-191 | Under settings that change in any way but that, no logged stretch is longer than the longest up time and one gap, and under constant demand every logged pause is longer than the shortest rest time |
| `SystemMonitor.OnWithinLimit` | loggerFirmware/src/sys_mon.cpp:144-203 | Over any such run, when the pump is on the tank is low, the hour is in the frame, and it was switched on, as logged, no longer ago than the up time |
| `SystemMonitor.ResumeOverruns` | loggerFirmware/src/sys_mon.cpp:147-191 | For example, an up time raised from one minute to ten during a rest: the pump goes on one second into it, and 1139 seconds later is still on |
| `SystemMonitor.RestartShowsRest` | loggerFirmware/src/sys_mon.cpp:150-159 | After pumping, rest and restart, under any settings, the time left is shown as the rest time, which is right if and only if that is the up time |
| `SystemMonitor.RelayIff` | loggerFirmware/src/sys_mon.cpp:206-247 | The relay is on if and only if the pump is on or was last stopped by a full tank |
| `SystemMonitor.RelayStaysOn` | loggerFirmware/src/sys_mon.cpp:196-247 | For example, it stays on when the hour then leaves the frame |

## Left out

- Event.constructor: the two constructors of `cEvent` are one, with type, temperature and state as
  arguments; the temperature is four opaque octets and the reserved octets are arbitrary, as in the source.
- SequenceCounter.SetSeqNumber: the static counter of `cEvent` is an object of its own.
- LogEvent: of the flash log, the flash driver's error codes are ignored, as the source ignores them.
- Retention: stated for events whose sequence number is not 0xFFFFFFFF, the value that marks a blank slot.
- AlwaysWriteSafe: for chips on which the slot that is never written does not read as a record, or will be
  erased (`FlashFaults.AlwaysRetainsIff`).
- TornRecoveredIff: for chips that were blank before their first boot, and for power that fails between two
  operations of the flash; what one leaves half done is not modelled.
- UnseenSilences: as long as the region has room; once it is full, `log` clears it.
- DoubleFlagLosesFrame: for payloads of at most 253 octets, the longest that can be delivered at all.
- Logger.constructor: the scans must meet a cell that is no event before the EEPROM ends; the source would
  read on past it. `StateLog.ScansEndInsideIff` says when they do, and `StateLog.RebootRecovers` that they
  do from every reachable state.
- BackUp: a backup loop that leaves the EEPROM at address 0 is excluded. `StateLog.ClearInsideIff` says when
  it does not, and `StateLog.FullStopsAtBottom` that `log` never runs it otherwise.
- EventLogger.Clear: on values; its methods are line by line those of `StateLogger.Logger`.
- ParseArgs: its last loop never runs and is left out. Where the source would write behind its vector, the
  model stops and says so; what the source does then is not modelled.
- Serve: where the source would read on behind a full buffer, the model stops. The settings written after
  the answer are left out, and the data base's login and its answers, which the source ignores.
- HandleLine: a signal line without a colon, whose value the source takes from an unset pointer, counts as
  outside, and so does an address that exceeds one of the strings it is printed to.
- ServiceServerData: clock and pump settings are recognised but not kept.
- AckFromHead: counts below 256, since the loop's counter has eight bits and would never reach more; the
  server's is at most 16 (`PumpServer.AnswerCounts`).
- AtLeastOnce: in whole events; what becomes of the state of an event the server's read cuts is
  `PumpSession.ReceivedMatches`. It holds as long as inserts succeed and nothing is dropped or made up while
  a count cut short is waiting (`Delivery.SafeIffInserted`, `Delivery.StaleCountIff`).
- MakeTime: the month is at most 13; beyond, the source reads past its table of month lengths.
- Now: no external time source is set, so status and the next time to ask it play no part. Less than a
  second passes between two looks at the counter.
- Run: of the pump controller, the hour is what a pass reads, not computed from the clock. The bounds over
  runs need the sums of clock and limits to stay within 32 bits.
- HandleAction: the hour comes with the action, and the log is a list of entries; display and watchdog are
  left out. The relay is taken to be off at the start.
- Post-wrap counting and reading backwards in the flash log, its duration queries, and the cache of the
  last date broken down: the source's own parts disagree on them.
- Modem, wireless connection, menus, display, serial output, web pages, real-time clock drivers and
  watchdog: input and output around the parts modelled.
