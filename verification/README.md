# Metering concentrator: a verified model

This project models the parts of the metering concentrator that compute or keep state, and proves
what they promise. All files verify together with `dafny verify dfyconfig.toml`.

| file | what it models |
|---|---|
| `Crc16`, `CrcCode` | the CRC-16 of Modbus RTU as a linear map on a 16-bit register, the 256-entry table, and both loops of the code: table-driven and bit-by-bit (MODBUS over Serial Line V1.02, sections 2.5.1.2 and 6.2.2) |
| `ErrorDetection`, `ErrorDistance` | which transmission errors the frame check notices: bursts, odd errors, double errors, and the distance of accepted frames |
| `Basics` | an option type and a law of sequences, shared by the others |
| `Bytes`, `Modbus` | the frame builders and response parsers (MODBUS Application Protocol V1.1b3, sections 6.3, 6.6 and 6.12) |
| `Sensor` | the sensor manager's poll: request, answer, parse, shared memory, alarm, over whole runs |
| `ImageTransfer` | the DLMS server's image transfer callbacks (DLMS UA Blue Book Ed. 12, IEC 62056-6-2, section 4.4.6) |
| `ProfileLog` | the load profile: row file, range scan, paging, capture and clear (section 4.3.6 of the same) |
| `ProfileRead`, `ProfileServer` | a read of the profile over the wire: the framework's counters, encoding and data blocks, as functions and as code |
| `ProfileExact`, `ProfileRange`, `ProfileShipped`, `ProfileEntries` | what such a read brings and when that is what was asked for: windows of rows, time ranges, the profile as it is set up, and rows by number |
| `Decimal`, `Download` | the EC200 driver's chunked download over AT answers |
| `Bcd` | the LTU manager's signed BCD items, both decoders |
| `BitMask`, `LedPanel`, `LedControl` | the LTU manager's voltage LEDs: mask, frames, and a display that is told only of changes |
| `Strings`, `Oid`, `OidLaws`, `OidX690` | the object identifier codec and its relation to ITU-T X.690, section 8.19 |
| `Supervisor` | the process supervisor of the watchdog manager |
| `Asn1Clone` | the deep copy of an ASN.1 value on the heap |

Code that changes objects, buffers or files is a class or a method over an array, with loops where
the original has them. Each is proved against a function of the old state, and the main results are
proved about those functions and about runs of them. What the environment decides (answers on a
line, files that fail to open, short writes, the clock, processes that die, forks that fail) is a
parameter, so a result for all runs is a result for all environments.

## What the proofs found

These are statements the code does not meet as one would expect; each is proved with its exact
condition.

- A profile read asks for one row more than is left of its window
  (`src/task-scheduler/GXDLMSBase.cpp:961`). A window that ends before the file does is never
  answered by its rows (`ProfileExact.WindowInsideNeverExact`, and for the shipped profile at every
  PDU size `ProfileShipped.InsideNeverExact`). With pages larger than a block such a read brings
  one row too many if the last rows fit the block they go out in, and otherwise all the rest of the
  file (`ProfileExact.ExtraRowOrRest`).
- A page of 65536 bytes or more loses 65536 bytes at a time to the 16-bit size of its variant. At
  the default PDU of 65535 bytes a read of the ten thousand rows of a fresh log breaks off within
  row 1561, marked as complete (`ProfileShipped.TenThousandRowsBreakOff`).
- A plain response is tested for size without its status byte and cut with it. Three rows and a
  PDU of 68 bytes bring 64 of 65 bytes (`ProfileShipped.ThreeRowsLoseAByte`).
- The last block is tested for size without its own size bytes, and a ciphered plain response
  without its status byte, so either can be up to three bytes longer than the PDU the client asked
  for (`ProfileRead.ResponseWithinPdu`).
- For the shipped profile, at every PDU size: a time range is answered exactly if and only if every row
  of the log is later than it; or no row is, the first page stays below 65536 bytes, and no plain
  response loses its last byte (`ProfileShipped.ShippedRange`). The same condition decides a read of
  the whole log (`ProfileShipped.ShippedAll`).
- A request for rows by number gets rows from the one after the first it asks for
  (`ProfileEntries.RowNumbersShifted`), and a read of row 1 to the last goes round for ever if an
  even number of rows makes a page and the first page is larger than a block
  (`ProfileEntries.RowOneToLastEndsIff`).
- The three leakage current sensors store under one shared memory address
  (`src/sensor-manager/Sensor.cpp:21-23`), and a poll that times out stores the old reading again.
  Shared memory is current over all runs if and only if addresses are distinct
  (`Sensor.CurrentIffDistinct`).
- Activation does not look at the verification status. Only verified images are activated if and
  only if the client checks (`ImageTransfer.ActivationSafeIffChecked`).
- A QFREAD that is repeated writes its payload twice (`Download.RetryAppends`), and a handle of two
  digits shifts the payload: the download is exact if and only if the handle has one digit and the
  chunk count fits 16 bits (`Download.DownloadExactIff`).
- An LED frame that gets lost is not sent again until the mask changes
  (`LedControl.LostFrameStaysLost`).
- The identifier codec keeps second arcs up to 9 only, and writes arcs from 2^28 up with leading
  zero groups (`OidLaws.RoundTripIff`, `OidX690.StandardIff`).
- The supervisor reads its list before the file name is set
  (`src/watchdog-manager/watch.cpp:196-198`), so it watches nothing (`Supervisor.NothingIsWatched`).
- A Modbus read response with an odd byte count is accepted, and its last register contains a CRC
  byte (`Modbus.OddReadTakesCrcByte`).
- Two flipped bits 32767 bits apart are not noticed by the frame check, which only matters beyond
  the 256 bytes of a Modbus frame (`ErrorDistance.TwoBitErrorPasses`, `ErrorDistance.NoLongerBound`).
- The clone replaces nodes of other classes by null pointers in a build without assertions
  (`Asn1Clone.CloneIsSameIff`).

The comment on the OID decoder promises the identifier of the bytes without restriction, and the
comments of the profile functions promise the rows of the range; in both places the model follows
the code.

## Model

| member | source | states |
|---|---|---|
| Crc16.StepBranches | src/ltu-manager/main.cpp:458-463 | the linear form of one shift is the branching shift-and-xor of the bit-by-bit loop |
| Crc16.StepLinear | src/ltu-manager/main.cpp:458-463 | one shift maps the exclusive or of two registers to the exclusive or of their images |
| Crc16.StepsInjective | src/ltu-manager/main.cpp:456-465 | no number of shifts sends two different registers to the same one |
| Crc16.CrcLinear | libs/protocol/modbus/Modbus.cpp:49-60 | the CRC is linear over GF(2) in start value and data together, for strings of any length |
| Crc16.CrcConcat | libs/protocol/modbus/Modbus.cpp:53-57 | the CRC of a concatenation continues from the CRC of its first part |
| Crc16.OwnBytesClear | libs/protocol/modbus/Modbus.cpp:62-81 | two further bytes clear the register exactly when they are its own bytes, low byte first |
| Crc16.StartInverts | libs/protocol/modbus/Modbus.cpp:51 | the start value of all ones is the same as starting from zero with the first two bytes inverted |
| CrcCode.TableIsSteps | libs/protocol/modbus/Modbus.cpp:14-47 | each of the 256 table entries is its index after eight shifts |
| CrcCode.TableRound | libs/protocol/modbus/Modbus.cpp:55-56 | one round of the table loop takes in one byte exactly as eight single shifts do |
| CrcCode.CalculateCRC | libs/protocol/modbus/Modbus.cpp:49-60 | the table-driven loop computes the bit-serial CRC of the first `length` bytes, from all ones: 0xFFFF for no bytes, otherwise that of the bytes with the first two inverted, started at zero |
| CrcCode.ShiftEight | src/ltu-manager/main.cpp:456-464 | the inner loop performs eight shifts |
| CrcCode.CalcCrc16B | src/ltu-manager/main.cpp:445-467 | the bit-by-bit loop gives the same CRC over its bytes, with the same start, and 0 when the length does not exceed the offset |
| CrcCode.ReadRequestCrc | libs/protocol/modbus/Modbus.cpp:49-60 | the CRC of the read request 01 03 00 00 00 0A is 0xCDC5 |
| ErrorDetection.CrcIsBitCrc | src/ltu-manager/main.cpp:453-465 | the CRC of a byte string is the CRC of its bits taken in one by one, least significant bit first |
| ErrorDetection.AcceptedIffZero | libs/protocol/modbus/Modbus.cpp:62-73 | a frame is accepted exactly when the CRC over the whole frame, CRC bytes included, is zero |
| ErrorDetection.ErrorPasses | libs/protocol/modbus/Modbus.cpp:62-73 | an error in an accepted frame goes unnoticed exactly when the CRC of the error pattern, started at zero, is zero |
| ErrorDetection.BurstLeavesTrace | libs/protocol/modbus/Modbus.cpp:49-60 | a nonempty burst within 16 bits leaves a nonzero register, whatever clear bits follow |
| ErrorDetection.BurstDetected | libs/protocol/modbus/Modbus.cpp:62-73 | every burst of at most 16 consecutive bits in an accepted frame of any length is detected, CRC bytes included |
| ErrorDetection.ParityStep | src/ltu-manager/main.cpp:458-463 | one shift keeps the parity of register and incoming bit |
| ErrorDetection.AcceptedIsEven | libs/protocol/modbus/Modbus.cpp:62-73 | an accepted frame has an even number of one bits |
| ErrorDetection.OddErrorDetected | libs/protocol/modbus/Modbus.cpp:62-73 | flipping any odd number of bits of an accepted frame is detected |
| ErrorDistance.PowerActs | libs/protocol/modbus/Modbus.cpp:49-60 | multiplying by the register x^a in GF(2)[x] modulo the CRC polynomial is the same as a shifts |
| ErrorDistance.FullPeriod | src/ltu-manager/main.cpp:458-463 | 32767 shifts bring every register back |
| ErrorDistance.NoShortPeriod | src/ltu-manager/main.cpp:458-463 | no smaller positive number of shifts brings the register 1 back |
| ErrorDistance.PeriodIff | src/ltu-manager/main.cpp:458-463 | the shifts that bring the register back are exactly the multiples of 32767 |
| ErrorDistance.TwoBitErrorPasses | libs/protocol/modbus/Modbus.cpp:62-73 | two flipped bits go unnoticed exactly when their distance is a multiple of 32767 bits |
| ErrorDistance.AcceptedFramesDifferInFourBits | libs/protocol/modbus/Modbus.cpp:62-73 | two different accepted frames of one length, up to 4095 bytes, differ in at least four bits |
| ErrorDistance.NoLongerBound | libs/protocol/modbus/Modbus.cpp:62-73 | the bound is sharp: every accepted frame of 4096 bytes has an accepted neighbour that differs in its first and last bit alone |
| Modbus.AcceptedIffWithCrc | libs/protocol/modbus/Modbus.cpp:62-81 | the accepted frames are exactly those that end in the CRC of what precedes it |
| Modbus.AcceptedIffEndsInCrc | libs/protocol/modbus/Modbus.cpp:62-73 | a frame is accepted exactly when its last two bytes are the CRC of the rest, low byte first |
| Modbus.VerifyCRC | libs/protocol/modbus/Modbus.cpp:62-73 | the check answers yes exactly for accepted frames; fewer than two bytes are refused |
| Modbus.AppendCRC | libs/protocol/modbus/Modbus.cpp:76-81 | fills the last two bytes in place so that the frame carries its own CRC, and changes nothing else |
| Modbus.PopOfU16 | libs/protocol/modbus/Modbus.cpp:83-96 | a field pushed and popped comes back |
| Modbus.FieldFrameFields | libs/protocol/modbus/Modbus.cpp:99-133 | device, function code, two fields high byte first and the CRC low byte first, read back from the eight bytes of a frame |
| Modbus.WriteMultipleFields | libs/protocol/modbus/Modbus.cpp:135-157 | every field and every register of a multiple write, read back from its bytes |
| Modbus.BuildReadHoldingRegistersFrame | libs/protocol/modbus/Modbus.cpp:99-115 | builds the read request of section 6.3 with its CRC: each field is read back from its bytes, and the frame is accepted |
| Modbus.BuildWriteSingleRegisterFrame | libs/protocol/modbus/Modbus.cpp:117-133 | builds the write request of section 6.6 with its CRC: each field is read back from its bytes, and the frame is accepted |
| Modbus.BuildWriteMultipleRegistersFrame | libs/protocol/modbus/Modbus.cpp:135-157 | builds the write request of section 6.12 for any list, quantity and byte count cut to 16 and 8 bits, and the frame is accepted |
| Modbus.ByteCountFits | libs/protocol/modbus/Modbus.cpp:141-142 | the byte count field names the true size exactly for at most 127 values |
| Modbus.ParseReadHoldingRegistersResponse | libs/protocol/modbus/Modbus.cpp:159-190 | accepts exactly the well-formed responses and reads each register, high byte first; a rejected one leaves the output registers unchanged |
| Modbus.ParseWriteSingleRegisterResponse | libs/protocol/modbus/Modbus.cpp:192-213 | accepts exactly eight-byte accepted frames of function 6 and reads both fields; a rejected one leaves the outputs unchanged |
| Modbus.ParseWriteMultipleRegistersResponse | libs/protocol/modbus/Modbus.cpp:215-236 | accepts exactly eight-byte accepted frames of function 16 and reads both fields; a rejected one leaves the outputs unchanged |
| Modbus.ReadResponseParses | libs/protocol/modbus/Modbus.cpp:159-190 | parsing the response that carries any list of at most 127 registers returns the list |
| Modbus.ReadResponsePrints | libs/protocol/modbus/Modbus.cpp:159-190 | an accepted response of even byte count is the one built from the registers read out of it, so no two responses of a device read alike |
| Modbus.OddReadTakesCrcByte | libs/protocol/modbus/Modbus.cpp:183-187 | an odd byte count is not rejected: the last register then takes the low CRC byte as its low half |
| Modbus.FieldFrameParses | libs/protocol/modbus/Modbus.cpp:192-235 | the echo of a write parses back to its address and value |
| Modbus.FieldFramePrints | libs/protocol/modbus/Modbus.cpp:192-235 | an accepted write response is the frame built from the fields read out of it |
| Sensor.SensorHandler.BuildFrame | src/sensor-manager/Sensor.cpp:50-55 | the request is the read of the configured registers |
| Sensor.SensorHandler.SendAndReceive | src/sensor-manager/Sensor.cpp:58-86 | a failed send keeps the previous answer in the buffer, silence empties it, an answer replaces it |
| Sensor.SensorHandler.ProcessData | src/sensor-manager/Sensor_Temperature_Humidity.cpp:11-36 | an empty buffer keeps the registers of the last poll; a rejected answer clears them |
| Sensor.SensorHandler.StoreData | src/sensor-manager/Sensor_Temperature_Humidity.cpp:39-59 | the first register goes to the item of the address unless the store is refused, and the answer of the store is returned; with no register, shared memory is unchanged and -1 is returned |
| Sensor.SensorHandler.SendAlarm | src/sensor-manager/Sensor_Temperature_Humidity.cpp:61-77 | one alarm is sent when the first register is above the alarm value of a threshold sensor or equal to that of a status sensor, and none otherwise |
| Sensor.SensorHandler.ProcessSensorData | src/sensor-manager/Sensor.cpp:89-105 | one poll: new buffer, registers, shared memory and alarms as the reply determines |
| Sensor.SensorManager.ProcessSensor | src/sensor-manager/SensorFactory.cpp:82-103 | polling one sensor is one step of the whole system and leaves all other handlers alone |
| Sensor.HandlersHoldAnswers | src/sensor-manager/Sensor.cpp:58-105 | after every run each handler holds the first register of its last nonempty answer |
| Sensor.AlarmsAreExact | src/sensor-manager/Sensor.cpp:89-105 | the alarms of every run are, in order, those the answers held after each poll call for: above the alarm value of a threshold sensor, equal to that of a status sensor |
| Sensor.PollAlarms | src/sensor-manager/Sensor_Temperature_Humidity.cpp:61-77 | each poll of a run adds exactly one alarm when the register it leaves held calls for one, and none otherwise |
| Sensor.AlarmsCarryReadings | src/sensor-manager/Sensor_Temperature_Humidity.cpp:61-77 | every alarm carries the last accepted reading of its sensor at some point of the run: above the alarm value of a threshold sensor, equal to that of a status sensor |
| Sensor.MemoryHoldsStored | src/sensor-manager/Sensor_Temperature_Humidity.cpp:39-59 | with distinct items, after every run each item holds what its sensor last got stored; rejected answers and refused stores never change it |
| Sensor.MemoryIsCurrent | src/sensor-manager/Sensor_Temperature_Humidity.cpp:39-59 | while no store is refused, each item holds the last accepted reading of its sensor; rejected answers, silence and failed sends never change it |
| Sensor.SilenceRestoresOldReading | src/sensor-manager/Sensor_Temperature_Humidity.cpp:13-16 | two sensors on one item: the silence of one puts its old reading over the newer one of the other |
| Sensor.CurrentIffDistinct | src/sensor-manager/Sensor.cpp:15-29 | shared memory is current over all runs without refused stores exactly when no two sensors store under one item |
| Sensor.ShippedTableNotCurrent | src/sensor-manager/Sensor.cpp:21-23 | the shipped table does not meet that condition: the three leakage current sensors share one address |
| Sensor.ItemsSeparateAddresses | src/sensor-manager/Sensor_Temperature_Humidity.cpp:55-56 | splitting an address of at most 40 bits into item and sub-item loses nothing |
| ImageTransfer.ImageTransferServer.HandleImageTransfer | src/task-scheduler/GXDLMSBase.cpp:1063-1203 | status, file, size, timer and error after each of the four actions, for every way the file can fail |
| ImageTransfer.ImageTransferServer.Invoke | libs/protocol/GuruxDLMS/src/GXDLMSImageTransfer.cpp:320-385 | the framework sets the status to initiated after an initiate and after a block |
| ImageTransfer.FilesAreWritten | src/task-scheduler/GXDLMSBase.cpp:1093-1134 | after every run each file is the concatenation of the bytes the blocks wrote since the last initiate that opened it, short writes included |
| ImageTransfer.TimerIsLastTime | src/task-scheduler/GXDLMSBase.cpp:1134-1200 | after every run the timer is the time of the last block write or success, and a file is there exactly when the run created it or it was there |
| ImageTransfer.ActionOutcome | src/task-scheduler/GXDLMSBase.cpp:1063-1203 | status and error of every action after every run, told from the run: a verify ends verified exactly when the file opens and is there, the bytes written have the declared length, and five seconds have passed; an activation on the wait alone |
| ImageTransfer.TransferSucceeds | src/task-scheduler/GXDLMSBase.cpp:1063-1203 | an opened initiate, blocks written in full, a wait and a verify end verified with the data of the blocks in the file, and a waited activate ends activated |
| ImageTransfer.VerifiedSizeKept | src/task-scheduler/GXDLMSBase.cpp:1157-1179 | in every reachable state a verified image has the declared length |
| ImageTransfer.VerifiedImageIsComplete | src/task-scheduler/GXDLMSBase.cpp:1157-1179 | whenever the status is verified, the bytes written since the last opening initiate are as many as were declared |
| ImageTransfer.VerifyChecksLengthOnly | src/task-scheduler/GXDLMSBase.cpp:1154-1161 | the verdict depends on the length alone: another content of the same length gets the same verdict |
| ImageTransfer.TimerIsRecent | src/task-scheduler/GXDLMSBase.cpp:1134-1200 | under a monotone clock the timer is never older than the last write or success |
| ImageTransfer.SuccessWaits | src/task-scheduler/GXDLMSBase.cpp:1134-1200 | every successful verify or activate comes at least five seconds after every earlier block write and every earlier success |
| ImageTransfer.ActivationSafeIffChecked | src/task-scheduler/GXDLMSBase.cpp:1183-1202 | only verified images are activated exactly when the client itself checks the status, or asks too early, before every activation |
| ImageTransfer.CheckedActivationIsComplete | src/task-scheduler/GXDLMSBase.cpp:1138-1202 | with that check every activated image has the declared length |
| ImageTransfer.VerifiedWasSeen | src/task-scheduler/GXDLMSBase.cpp:1063-1203 | in every reachable state a verified status goes back to a successful verify that saw the same name and the same bytes, five seconds old, with no initiate and no block write since |
| ImageTransfer.ActivatedWasSeen | src/task-scheduler/GXDLMSBase.cpp:1138-1202 | with the check of the client every activated image is one that an earlier verify has seen, byte for byte |
| ImageTransfer.FailedImageActivated | src/task-scheduler/GXDLMSBase.cpp:1183-1202 | without it a truncated image that failed verification is activated: a concrete run |
| ProfileLog.LogFile.Init | src/task-scheduler/GXDLMSBase.cpp:647-664 | the fresh log holds one row an hour, numbered from 1, up to the current hour |
| ProfileLog.HourlyRows | src/task-scheduler/GXDLMSBase.cpp:647-664 | the rows of a fresh log are numbered from 1, one hour apart, and the last one starts the current hour |
| ProfileLog.LogFile.DataCount | src/task-scheduler/GXDLMSBase.cpp:872-893 | the number of rows in the file |
| ProfileLog.LogFile.Capture | src/task-scheduler/GXDLMSBase.cpp:1300-1350 | a capture appends one row; a register without a value gets the next row number |
| ProfileLog.LogFile.Clear | src/task-scheduler/GXDLMSBase.cpp:1352-1365 | the clear action empties the file |
| ProfileLog.LogHoldsCaptures | src/task-scheduler/GXDLMSBase.cpp:1300-1365 | after every run of captures and clears the log holds exactly the captures since the last clear, in order, behind what was there if it was never cleared |
| ProfileLog.LogFile.DataByEntry | src/task-scheduler/GXDLMSBase.cpp:766-812 | the loop over the file returns the rows from `index` on, at most `count` of them |
| ProfileLog.DataByRange | src/task-scheduler/GXDLMSBase.cpp:826-865 | the scan moves both window fields as the range determines, in 16 bits |
| ProfileLog.OpenWindow | src/task-scheduler/GXDLMSBase.cpp:930-960 | the first read of a request sets the window its selector asks for: the whole file, a time range, or rows by number up to the rows there are, cut to 16 bits |
| ProfileLog.PreRead | src/task-scheduler/GXDLMSBase.cpp:899-968 | window and buffer of one page for each selector; other attributes leave the window alone |
| ProfileLog.LogStaysSorted | src/task-scheduler/GXDLMSBase.cpp:1300-1365 | under a clock that does not run backwards every run of captures and clears keeps the log sorted |
| ProfileLog.InitializedLogStaysSorted | src/task-scheduler/GXDLMSBase.cpp:647-664 | from the freshly filled file on, every run of captures and clears keeps the log sorted |
| ProfileLog.RangeIsWindow | src/task-scheduler/GXDLMSBase.cpp:849-862 | on a sorted log the half-open window is exactly the rows with start <= t <= end, if and only if the row numbers fit 16 bits (or no row is in the range) |
| ProfileLog.InvertedRangeIsEmpty | src/task-scheduler/GXDLMSBase.cpp:849-862 | an inverted range gives an empty window |
| ProfileLog.PageContents | src/task-scheduler/GXDLMSBase.cpp:961-967 | one page is a full page, or the rest of the window and the row after it when the file has one |
| ProfileServer.Server.GetData | libs/protocol/GuruxDLMS/src/GXDLMSProfileGeneric.cpp:156-222 | the loop encodes a table row by row, behind the array header while no row has been encoded, and moves counter and begin index on |
| ProfileServer.Server.PickRange | libs/protocol/GuruxDLMS/src/GXDLMSProfileGeneric.cpp:297-329 | with an end index of zero the rows of the range are picked out of the buffer |
| ProfileServer.Server.PickEntries | libs/protocol/GuruxDLMS/src/GXDLMSProfileGeneric.cpp:330-376 | with an end index of zero rows are picked out of the buffer by first number and number of rows |
| ProfileServer.Server.GetProfileGenericData | libs/protocol/GuruxDLMS/src/GXDLMSProfileGeneric.cpp:286-382 | which rows of the buffer are encoded, for each selector and end index |
| ProfileServer.Server.GetLNPdu | libs/protocol/GuruxDLMS/src/GXDLMS.cpp:764-1091 | one response: everything in a plain one or in a last block, which resets the counters, or as much as a block takes |
| ProfileServer.Server.GetRequestNormal | libs/protocol/GuruxDLMS/src/GXDLMSLNCommandHandler.cpp:84-230 | the first page of a request buffered, announced, encoded and answered; a transaction is opened exactly when counters differ or bytes wait, and an earlier one stays otherwise |
| ProfileServer.Server.GetRequestNextDataBlock | libs/protocol/GuruxDLMS/src/GXDLMSLNCommandHandler.cpp:232-334 | one more page while the counters differ and less than a PDU waits, one more response, and the end of the read |
| ProfileRead.SendKeeps | libs/protocol/GuruxDLMS/src/GXDLMS.cpp:1037-1154 | a response neither drops, repeats nor reorders a waiting byte; all of them go out in a final response, a plain one or a last block, except the last byte of a plain one whose status byte makes it one too long |
| ProfileRead.HeadBytes | libs/protocol/GuruxDLMS/src/GXDLMSProfileGeneric.cpp:163-171 | the array tag, and the number of rows in 1, 2, 3 or 5 bytes |
| ProfileRead.ByNumberRows | libs/protocol/GuruxDLMS/src/GXDLMSProfileGeneric.cpp:330-376 | which row of the buffer each picked row is, counted from 1 |
| ProfileRead.ResponseWithinPdu | libs/protocol/GuruxDLMS/src/GXDLMS.cpp:1037-1131 | which response goes out and how much it carries; it stays within the PDU size exactly when it is a block that is not the last, or a last one with room for its size bytes, or a plain one that is not ciphered or has room for its status byte |
| ProfileRead.ResponsesInStep | libs/protocol/GuruxDLMS/src/GXDLMSProfileGeneric.cpp:215-220 | at every PDU size, after every response the bytes sent and waiting are the pages read so far as their 16-bit variants carried them, each byte once and in order |
| ProfileRead.ReadEnds | libs/protocol/GuruxDLMS/src/GXDLMSLNCommandHandler.cpp:321-331 | every read of a window that ends behind row zero comes to a response that is final to the client, at every PDU size |
| ProfileRead.ReadDelivers | libs/protocol/GuruxDLMS/src/GXDLMS.cpp:3466-3530 | with the final response the client has got all pages read, and the framework has dropped the read, unless a plain response lost its last byte, which then waits for a request that never comes |
| ProfileExact.StreamWhole | libs/protocol/GuruxDLMS/src/GXDLMSProfileGeneric.cpp:215-220 | when every page is carried whole, the pages make up the announced array and the rows from the start of the window on |
| ProfileExact.StreamLoses | libs/protocol/GuruxDLMS/src/GXDLMSProfileGeneric.cpp:156-222 | pages that outgrow their 16-bit variant lose a multiple of 65536 bytes, and what the first page loses is never made up for |
| ProfileExact.WholeDelivers | libs/protocol/GuruxDLMS/src/GXDLMSLNCommandHandler.cpp:232-334 | when every page is carried whole, a read has delivered the announced array and a contiguous run of rows from the start of the window, or all of it but one byte |
| ProfileExact.WindowInsideNeverExact | src/task-scheduler/GXDLMSBase.cpp:961-966 | a window that ends before the file does is never answered by its rows: too few of them or at least one too many |
| ProfileExact.ShortReadEndsAtOnce | libs/protocol/GuruxDLMS/src/GXDLMS.cpp:784-793 | a window of a page that fits a block is answered at once, with the row after it when the file has one |
| ProfileExact.EndOfRead | libs/protocol/GuruxDLMS/src/GXDLMS.cpp:1041-1046 | when full pages overflow a block, a read goes to the end of the file or to one row past its window |
| ProfileExact.RunsOn | libs/protocol/GuruxDLMS/src/GXDLMSLNCommandHandler.cpp:283-288 | when full pages overflow a block, a read that has passed its window and has had no final response goes on to the end of the file |
| ProfileExact.ExtraRowOrRest | src/task-scheduler/GXDLMSBase.cpp:961-966 | when full pages overflow a block, a window inside the file is answered with one row too many if everything waiting fits the block that carries its last rows, and with all the rest of the file otherwise |
| ProfileExact.AnswerExactIff | src/task-scheduler/GXDLMSBase.cpp:961-966 | when full pages overflow a block, the answer is the window exactly when the window runs to the end of the file and no plain response loses its last byte |
| ProfileRange.RangeBeforeFirstRow | libs/protocol/GuruxDLMS/src/GXDLMSProfileGeneric.cpp:297-329 | a time range before the first row is answered at once by an empty array |
| ProfileRange.RangeExactIff | src/task-scheduler/GXDLMSBase.cpp:826-865 | on a sorted log whose full pages overflow a block a time range is answered by exactly its rows if and only if no row is later than the range and it is not a single plain response with one byte too many, or every row is later |
| ProfileShipped.InsideNeverExact | src/task-scheduler/GXDLMSBase.cpp:961-966 | for the shipped profile and every PDU size, bytes lost in pages never make up for rows too many or too few: a window inside the file is not answered by its rows |
| ProfileShipped.OutgrownNeverExact | libs/protocol/GuruxDLMS/src/GXDLMSProfileGeneric.cpp:156-222 | a window to the end of the file whose first page outgrows its variant is answered by fewer bytes than its rows take |
| ProfileShipped.ShippedCarries | libs/protocol/GuruxDLMS/src/GXDLMSServer.cpp:763-802 | for a window to the end of the file the first page is the longest: no page outgrows its variant if and only if header and rows of the first stay below 65536 bytes |
| ProfileShipped.ShippedPages | libs/protocol/GuruxDLMS/src/GXDLMSServer.cpp:763-802 | for the shipped profile 14 bytes are reckoned for a row that takes 21, so a full page never fits a block |
| ProfileShipped.EndExactIff | libs/protocol/GuruxDLMS/src/GXDLMSServer.cpp:763-802 | for the shipped profile and every PDU size, a window to the end of the file is answered by its rows exactly when the first page stays below 65536 bytes and no plain response loses its last byte |
| ProfileShipped.ShippedRange | libs/protocol/GuruxDLMS/src/GXDLMSServer.cpp:763-802 | for the shipped profile, at every PDU size from 64 to 65535, every read of a time range ends, and it has brought exactly the rows of the range if and only if every row is later than it; or none is, the first page stays below 65536 bytes, and no plain response loses its last byte |
| ProfileShipped.ShippedAll | src/task-scheduler/GXDLMSBase.cpp:934-937 | for the shipped profile, at every PDU size, a read without selector ends, and it has brought exactly the log if and only if the first page stays below 65536 bytes and no plain response loses its last byte; an empty log is answered by an empty array |
| ProfileShipped.CutAtOnce | libs/protocol/GuruxDLMS/src/GXDLMS.cpp:1127-1131 | a window that is one page of exactly the PDU size less three bytes, without ciphering, is answered once, without its last byte, and the framework keeps that byte for ever |
| ProfileShipped.ThreeRowsLoseAByte | libs/protocol/GuruxDLMS/src/GXDLMS.cpp:1127-1131 | three rows and a PDU of 68 bytes: 64 of 65 bytes arrive and no request follows |
| ProfileShipped.TenThousandRowsBreakOff | src/task-scheduler/GXDLMSBase.cpp:644-659 | the ten thousand rows of a fresh log and the default PDU of 65535 bytes: 32769 bytes arrive, marked as the last block, and break off within row 1561 |
| ProfileEntries.RowsZeroToZero | libs/protocol/GuruxDLMS/src/GXDLMSProfileGeneric.cpp:330-376 | rows 0 to 0 are answered by the first row, at once exactly when it fits a block |
| ProfileEntries.RowNumbersShifted | libs/protocol/GuruxDLMS/src/GXDLMSProfileGeneric.cpp:364-375 | a request for row numbers first to last, counted from 1, gets rows from number first + 1 on, announced with one row less than asked for, up to the end of the log or one row past last; it is never the answer asked for |
| ProfileEntries.EvenNeverEnds | src/task-scheduler/GXDLMSBase.cpp:942-966 | row 1 to the last, with an even number of rows a page and a first page larger than a block: no response is ever final, and at least 32 more bytes of the same rows arrive with each |
| ProfileEntries.RowOneToLastEndsIff | libs/protocol/GuruxDLMS/src/GXDLMSLNCommandHandler.cpp:283-331 | a read of row 1 to the last ends if and only if an odd number of rows makes a page or the first page fits a block |
| Download.NumberOfDigits | libs/Quectel_EC200/src/Quectel_EC200.cpp:2235-2244 | the division loop counts the decimal digits, 0 for 0 |
| Download.StoreFile | libs/Quectel_EC200/src/Quectel_EC200.cpp:2163-2222 | each byte of an answer goes to the file or to the text, by position, for answers of any length; reads past its end, two at most, only add filler to the text |
| Download.PayloadAt | libs/Quectel_EC200/src/Quectel_EC200.cpp:2170-2211 | the payload of any answer by position: behind 25 bytes and two for each digit of the chunk size, up to the last six |
| Download.FillerIsMute | libs/Quectel_EC200/src/Quectel_EC200.cpp:2202-2217 | the filler never makes a text say OK |
| Download.ReadChunk | libs/Quectel_EC200/src/Quectel_EC200.cpp:1322-1335 | the retry loop appends the payload of every try |
| Download.TriesCount | libs/Quectel_EC200/src/Quectel_EC200.cpp:1322-1335 | a modem that never says OK is asked at least once and at most four times, whatever the number of retries |
| Download.OpenModemFile | libs/Quectel_EC200/src/Quectel_EC200.cpp:1253-1267 | the file of the modem is open exactly when the first or one of at most three further tries opened it |
| Download.ReadFile | libs/Quectel_EC200/src/Quectel_EC200.cpp:1244-1342 | nothing is touched when the file of the modem does not open; otherwise the local file is written anew, chunk after chunk, the last one with the remainder |
| Download.EchoPayload | libs/Quectel_EC200/src/Quectel_EC200.cpp:2167-2211 | what is cut out of an echoed answer is its data, preceded by whatever a longer handle pushes past the expected offset |
| Download.EchoSaysOK | libs/Quectel_EC200/src/Quectel_EC200.cpp:1335 | the text left of an echoed answer says OK, so it is read once |
| Download.DownloadedParts | libs/Quectel_EC200/src/Quectel_EC200.cpp:1274-1342 | length and, for a one-digit handle, content of what all chunks together write |
| Download.DownloadExactIff | libs/Quectel_EC200/src/Quectel_EC200.cpp:1244-1342 | with every first try answered, the download reproduces the file exactly when the handle has one digit and the number of chunks of 10240 bytes fits 16 bits |
| Download.RetryAppends | libs/Quectel_EC200/src/Quectel_EC200.cpp:1322-1335 | a repeated read leaves the payload of the first try in the file: the chunk is right exactly when that was empty |
| Bcd.ReadDigits | src/ltu-manager/main.cpp:416-422 | the digit loop computes the number its bytes spell, least significant byte first, as far as a 32-bit int keeps it |
| Bcd.DecodeItem | src/ltu-manager/main.cpp:405-428 | sign and digits of one item, clearing its sign bit in place and touching nothing else |
| Bcd.DecodeItems | src/ltu-manager/main.cpp:397-435 | each item, of any width, is decoded from its own bytes of the received buffer |
| Bcd.ItemFits | src/ltu-manager/main.cpp:405-428 | items of at most four bytes are decoded in full, nothing is cut |
| Bcd.Int32Is | src/ltu-manager/main.cpp:416-428 | a wider item is decoded modulo 2^32, as a signed number |
| Bcd.ThreeByteAgrees | src/ltu-manager/main.cpp:335-342 | the single-item formula equals the general loop on all byte values |
| Bcd.SignedRoundTrip | src/ltu-manager/main.cpp:408-428 | decoding the signed item of v in n bytes returns v exactly when abs(v) < 8*10^(2n-1) |
| Bcd.UnsignedRoundTrip | src/ltu-manager/main.cpp:416-422 | without a sign a number comes back exactly when it has at most 2n digits |
| Bcd.ItemsIndependent | src/ltu-manager/main.cpp:403-428 | the value of an item depends on its own bytes alone |
| BitMask.SetBit | src/ltu-manager/main.cpp:170 | or-ing in one bit sets that bit and keeps all others |
| BitMask.ClearBit | src/ltu-manager/main.cpp:174 | and-ing out one bit clears that bit and keeps all others |
| BitMask.SameBits | src/ltu-manager/main.cpp:158-200 | masks with the same 32 bits are equal |
| BitMask.IsSetShifts | src/ltu-manager/main.cpp:158-200 | bit k of a mask is the lowest bit of the mask shifted down k times |
| LedPanel.AbnormalMaskBits | src/ltu-manager/main.cpp:158-200 | after a pass LED k is set exactly when voltage k is abnormal, for all 27, and no other bit is |
| LedPanel.MaskOfVoltages | src/ltu-manager/main.cpp:158-200 | bits 0 to 2 show which of the three TMU voltages lie outside 110 to 300, bits 3 to 26 which of the three of each of eight LTU devices, and no other bit is set |
| LedPanel.PassForgets | src/ltu-manager/main.cpp:202-208 | the mask after a pass depends on the voltages alone, not on the mask before |
| LedPanel.SameMaskIff | src/ltu-manager/main.cpp:210 | the change test sees no change exactly when the same voltages are abnormal |
| LedPanel.EmptyMaskIff | src/ltu-manager/main.cpp:216 | the mask is zero exactly when all 27 voltages are normal |
| LedPanel.CreateReadDataFrame | src/ltu-manager/main.cpp:479-492 | fills eight bytes with the fields, high byte first and cut to 16 bits, and a CRC the Modbus library accepts |
| LedPanel.ReadDataFrameIsReadRequest | src/ltu-manager/main.cpp:479-492 | with function 3 the frame is, byte for byte, the read request of the Modbus library |
| LedPanel.GetCheckSum | src/ltu-manager/main.cpp:495-504 | the sum of the byte values modulo 256 |
| LedPanel.CreateControlFrame | src/ltu-manager/main.cpp:507-533 | the control frame with its check sum and end byte; a null buffer is refused |
| LedPanel.ControlCommandBytes | src/ltu-manager/main.cpp:507-586 | the ten bytes of a control command, its check sum that of the six bytes before it |
| LedPanel.LedFrameCarries | src/ltu-manager/main.cpp:535-542 | the frame sent for a mask is accepted and carries exactly that mask, big-endian |
| LedPanel.LedFrameFields | src/ltu-manager/main.cpp:535-549 | address 1, function 7, the mask high half first, the CRC, and two spare bytes |
| LedPanel.AlarmCommandCarries | src/ltu-manager/main.cpp:507-533 | a control frame is an alarm command exactly for port 1, and carries its state |
| LedControl.LtuManager.constructor | src/ltu-manager/main.cpp:32-34 | running LED (port 2) lit, alarm LED (port 1) dark, all LEDs off, in that order |
| LedControl.LtuManager.ControlLEDGroup | src/ltu-manager/main.cpp:535-559 | sends one frame of ten bytes and answers 0 or -1 as the line does |
| LedControl.LtuManager.SendRemoteControlCommand | src/ltu-manager/main.cpp:562-586 | sends one control frame of ten bytes and answers 0 or -1 as the line does |
| LedControl.LtuManager.UpdateTMUVoltageLEDs | src/ltu-manager/main.cpp:158-177 | bits 0 to 2 show which TMU voltage lies outside 110 to 300, the rest is kept |
| LedControl.LtuManager.UpdateLTUVoltageLEDs | src/ltu-manager/main.cpp:179-200 | bits 3 to 26 show which LTU voltage lies outside 110 to 300, device by device, the rest is kept |
| LedControl.LtuManager.ControlLTULEDs | src/ltu-manager/main.cpp:202-227 | new mask, and, exactly when it changed, an LED frame with it and an alarm command, state 0 for a mask that is not zero and 1 otherwise |
| LedControl.MaskIsLastPass | src/ltu-manager/main.cpp:202-227 | after every run the mask shows exactly the abnormal voltages of the last pass |
| LedControl.MaskShowsVoltages | src/ltu-manager/main.cpp:158-227 | after every run each bit of the mask shows whether its voltage, TMU or LTU, lay outside 110 to 300 in the last pass |
| LedControl.DisplayShowsLastTaken | src/ltu-manager/main.cpp:210-224 | after every run, whatever was lost, the display shows the last mask and alarm state that got through; LED frames are sent once for each change |
| LedControl.DisplayAgrees | src/ltu-manager/main.cpp:210-224 | while the sends of the passes get through, the display shows the mask and the alarm LED is lit exactly when it is not zero, after every run |
| LedControl.PassAgreesIff | src/ltu-manager/main.cpp:210-224 | exactly when a pass leaves the display in agreement, from any state and with any losses |
| LedControl.LostFrameStaysLost | src/ltu-manager/main.cpp:210-214 | a lost LED frame is never sent again while the same voltages stay abnormal: the display shows the earlier mask after every such run |
| Strings.Split | libs/protocol/GuruxDLMS/src/GXHelpers.cpp:956-982 | the pieces between separators, empty ones dropped on request |
| Strings.SplitOfJoin | libs/protocol/GuruxDLMS/src/GXHelpers.cpp:956-982 | splitting joined nonempty parts gives them back |
| Strings.LaidTokens | libs/protocol/GuruxDLMS/src/GXHelpers.cpp:956-982 | splitting a line gives its tokens back, however many separators stand between them |
| Strings.AtolOfDec | libs/protocol/GuruxDLMS/include/GXAsn1ObjectIdentifier.h:143 | reading a printed number back gives the number, up to the largest `long` |
| Strings.AtolOfSigned | libs/protocol/GuruxDLMS/include/GXAsn1ObjectIdentifier.h:143 | signs, white space in front and text behind a number, saturating at 64 bits |
| Oid.WriteArc | libs/protocol/GuruxDLMS/include/GXAsn1ObjectIdentifier.h:143-182 | the five cases write an arc in 1, 2, 3, 4 or 8 bytes; 2^35 and more is refused |
| Oid.OidStringToBytes | libs/protocol/GuruxDLMS/include/GXAsn1ObjectIdentifier.h:131-190 | first byte and arcs of a text; an error keeps what was written before it; fewer than two parts throw |
| Oid.OidStringFromBytes | libs/protocol/GuruxDLMS/include/GXAsn1ObjectIdentifier.h:95-126 | the text of the bytes read, also past the end of the buffer, and the position reached |
| Oid.SeenBytes | libs/protocol/GuruxDLMS/include/GXAsn1ObjectIdentifier.h:95-126 | the bytes a read of any length sees: those of the buffer, and behind its end the last one again and again |
| OidLaws.TakeArc | libs/protocol/GuruxDLMS/include/GXAsn1ObjectIdentifier.h:108-123 | each arc ends by itself: after any text its bytes add exactly one number, cut to 32 bits |
| OidLaws.DecodeOfEncode | libs/protocol/GuruxDLMS/include/GXAsn1ObjectIdentifier.h:95-190 | encoding succeeds exactly when every later arc is below 2^35; what decoding then prints |
| OidLaws.RoundTripIff | libs/protocol/GuruxDLMS/include/GXAsn1ObjectIdentifier.h:95-190 | encoding and decoding gives an identifier of any number of arcs back exactly when its first arc is at most 6, its second at most 9 and every later one below 2^31 |
| OidLaws.TwoPartsNeeded | libs/protocol/GuruxDLMS/include/GXAsn1ObjectIdentifier.h:135-138 | an identifier of a single arc is refused, and no other for that reason |
| OidLaws.FirstByteOf | libs/protocol/GuruxDLMS/include/GXAsn1ObjectIdentifier.h:136-139 | the byte of the first two arcs is 40 times the first plus the second, modulo 256 |
| OidLaws.ErrorKeepsBytes | libs/protocol/GuruxDLMS/include/GXAsn1ObjectIdentifier.h:143-182 | an arc of 2^35 or more ends the encoding with an error, and the bytes of the arcs before it stay |
| OidX690.SubidentifierShortest | libs/protocol/GuruxDLMS/include/GXAsn1ObjectIdentifier.h:143-166 | the standard form stands for its number and no other subidentifier of it is shorter (X.690, 8.19.2) |
| OidX690.ArcValue | libs/protocol/GuruxDLMS/include/GXAsn1ObjectIdentifier.h:143-178 | the bytes of an arc are a subidentifier of exactly that arc |
| OidX690.DecodedText | libs/protocol/GuruxDLMS/include/GXAsn1ObjectIdentifier.h:95-126 | what is printed of any bytes: two characters for the first, the number of each subidentifier kept to 32 bits, and nothing for a subidentifier that does not end |
| OidX690.ArcShortestIff | libs/protocol/GuruxDLMS/include/GXAsn1ObjectIdentifier.h:161-178 | an arc is written in as few bytes as possible exactly when it is below 2^28; otherwise it starts with the forbidden byte 0x80 |
| OidX690.UniqueParse | libs/protocol/GuruxDLMS/include/GXAsn1ObjectIdentifier.h:108-123 | a string of subidentifiers comes apart in one way only |
| OidX690.StandardIff | libs/protocol/GuruxDLMS/include/GXAsn1ObjectIdentifier.h:131-190 | the bytes are those of X.690 exactly when the first subidentifier fits one byte and every later arc is below 2^28 |
| Supervisor.ProgramWatch.constructor | src/watchdog-manager/program_watch.cpp:17-24 | the list is read from the file with the empty name |
| Supervisor.ProgramWatch.Run | src/watchdog-manager/program_watch.cpp:30-60 | starts the programs in order; a failed fork ends the supervisor |
| Supervisor.LaunchOutcome | src/watchdog-manager/program_watch.cpp:30-60 | the programs are started in order, each with its own process identifier, up to the first fork that fails |
| Supervisor.ProgramWatch.SendSignal | src/watchdog-manager/program_watch.cpp:91-100 | SIGUSR1 once to every running program, and nothing else |
| Supervisor.ProgramWatch.RebootSystem | src/watchdog-manager/program_watch.cpp:108-119 | SIGTERM to every running program, and the reboot flag |
| Supervisor.ProgramWatch.Watch | src/watchdog-manager/program_watch.cpp:68-89 | one pass over the list, for every way programs may die and forks may fail |
| Supervisor.WatchOutcome | src/watchdog-manager/program_watch.cpp:68-119 | a pass without early stop restarts the dead programs to be rerun and does nothing else; one that meets a dead rebooting program sets the flag, signals every running program and restarts nothing behind it |
| Supervisor.RestartsCount | src/watchdog-manager/program_watch.cpp:79-82 | each dead program to be rerun is started exactly once, every other program not at all |
| Supervisor.SignalsCount | src/watchdog-manager/program_watch.cpp:110-116 | each running program gets exactly one signal, of the kind sent, and none of the other |
| Supervisor.RunCounts | src/watchdog-manager/program_watch.cpp:68-119 | over every run the number of starts and of signals of each kind of each program |
| Supervisor.NeedRebootIff | src/watchdog-manager/program_watch.cpp:108-125 | the flag is set exactly when some pass met a dead rebooting program, and is never taken back |
| Supervisor.StartedOnce | src/watchdog-manager/program_watch.cpp:30-89 | after a launch, over every run, programs not to be rerun are started exactly once |
| Supervisor.NothingBehindRestarted | src/watchdog-manager/program_watch.cpp:74-78 | once a rebooting program is dead for good, neither it nor any program behind it is started again |
| Supervisor.StartSupervisor | src/watchdog-manager/program_watch.cpp:17-36 | constructing, naming the file and running, in the order of src/watchdog-manager/watch.cpp, lines 196 to 198: the list comes from the empty name, the name is set afterwards |
| Supervisor.NothingIsWatched | src/watchdog-manager/program_watch.cpp:17-36 | so, as no file has an empty name, nothing is started and no pass ever does anything |
| Asn1Clone.CloneChildren | libs/protocol/GuruxDLMS/include/GXAsn1Helpers.h:52-56 | the loop puts a clone of every child, in order, behind the new node |
| Asn1Clone.Clone | libs/protocol/GuruxDLMS/include/GXAsn1Helpers.h:48-79 | the copy is a tree of fresh nodes with the value `Cloned` gives; the source, which may share nodes, is unchanged; it ends for every finite acyclic source |
| Asn1Clone.CloneIsSameIff | libs/protocol/GuruxDLMS/include/GXAsn1Helpers.h:48-79 | the copy equals the source exactly when every node below is of one of the five known classes |
| Asn1Clone.ClonedAtPath | libs/protocol/GuruxDLMS/include/GXAsn1Helpers.h:48-79 | the copy node by node, along every path: as many children, leaves of known classes with their value, and nothing in the place of any other |
| Asn1Clone.CloneAgainIsSame | libs/protocol/GuruxDLMS/include/GXAsn1Helpers.h:48-79 | the copy holds known classes only, so copying it again changes nothing |

## Left out

- Sockets, serial ports, message queues, shared memory segments and their locking: an exchange is an answer, silence or a failure; shared memory is a map.
- Threads: the fan thread's commands appear in LED runs only as commands between passes, and frames of two threads never interleave byte by byte.
- Floating point: voltages are reals, so a NaN (which the code calls abnormal) does not occur; the scaling of LTU items and the dead band of 0.05 are not modelled.
- CrcCode.CalcCrc16B: takes at most 65535 bytes, because the 16-bit loop counter of the original does not end beyond that.
- Bcd.DecodeItem: an item wider than four bytes can overflow the 32-bit int, which the language leaves undefined; it is taken to wrap. A signed item of no bytes at all, which would read in front of the buffer, is excluded.
- Download.StoreFile: an answer arrives as a whole and is shorter than 2 GiB, so bytes that arrive after the available count is taken are not modelled; how often the line is read after its end is left open.
- Download.ReadFile: the answers to seek commands, which are only reported and never change what is written; a seek that fails shows as a modem that answers from elsewhere.
- The firmware update loop of the modem driver, which is the download loop with another sink; the remaining AT commands and HTTP helpers.
- Image transfer: path prefixes and the joining of directory and file name; block numbers and the framework's table of transferred blocks; a block that is larger than its buffer.
- ImageTransfer.ImageTransferServer.Invoke: only its effect on the status is modelled, not its table of transferred blocks and its activation list, which the handler never reads; whether it follows the handler is left open in every run, so the results hold either way.
- Profile log: the parsing of dates from the file, rows that cannot be parsed, and columns other than time and one value; a row is a time and a value.
- ProfileRead.ReadEnds: states logs of fewer than 65536 rows, the width of the framework's window fields, first pages that are not an exact multiple of 65536 bytes (which would send an empty block; `ProfileShipped.ShippedSound` shows that the shipped profile has none), and windows that end behind row zero. Of the others, `RangeBeforeFirstRow`, `RowsZeroToZero` and `RowOneToLastEndsIff` treat time ranges, rows 0 to 0 and row 1 to the last; nothing is stated of a read from a later row to the last.
- ProfileServer.Server.PickEntries: a request by row numbers that ends at zero and starts past the buffered rows indexes out of range in the framework; nothing is said of it.
- ProfileServer.Server.GetProfileGenericData: the selection of columns by the request's parameters; every row is encoded with all its columns.
- ProfileServer.Server.GetLNPdu: connections with general block transfer, replies that carry an error status, and the framing and ciphering of a message beyond the 22 bytes reckoned for it; the client asks for blocks in order, and the file does not change during a read.
- ProfileLog.DataByRange: starts from an end index of zero, as the read callback calls it.
- OID codec: failures of memory allocation, and platforms whose `long` has 32 bits; products of first arcs that overflow are taken to wrap.
- Supervisor: what a child process does after the fork; how the list is opened and cut into lines (what a line says is `Supervisor.LineRead`); the soft watchdog files and the hardware watchdog.
- Supervisor.NothingBehindRestarted: a process identifier that the system gives out again is excluded by the assumption that the dead program stays dead.
- Asn1Clone.Clone: a build without assertions, so an unknown class gives null; the payload of a variant is one value. A cyclic structure, on which the original does not end, is excluded.
- The power manager, fan control, AT module information, authentication and access tables, and the set-up of the COSEM objects: constant tables or single branches.
- Modbus frames of other function codes, and exception responses: the parsers reject them like any other frame.
