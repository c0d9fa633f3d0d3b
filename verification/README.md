# Verified models of the OpenBMC Intel platform layer

Dafny models of six components of this layer, with proofs of what they promise.
Every component that works by changing state in place is modelled that way: a
class or method with the branches and loops of the source, proved to take the
steps of a state machine on values, about whose runs the theorems are stated.

* **KCS channel and IPMI handler** (`IpmiHandler`, `KcsModel`, `KcsChannel`,
  `KcsProperties`, `KcsTransfer`, `KcsHost`): the interrupt-driven message
  interface U-Boot runs in forced firmware update mode, with the handler behind
  it and a host in front of it.
* **PWM clock divider** (`PwmDivider`): the nested divider search in u8/u32
  arithmetic, and the packing of its result into registers.
* **SST over TPMI** (`TpmiModel`, `TpmiCache`, `PeciBus`, `WakeOnPeci`,
  `FieldUpdate`, `SstModel`, `SstRegisters`, `SstTpmi`): the D-Bus cache fed by
  interleaved events, waking a CPU across partial failures, the register cache,
  and the loops over register instances.
* **Node Manager PowerControl** (`DecimalNames`, `PowerControl`,
  `PowerControlRoutes`): the array laid out by GET and the list PATCH goes by.
* **MDRv2 directory** (`Mdrv2Model`, `Mdrv2`): table locks and stages for two
  agents, and the block read.
* **Host name over IPMI** (`LanHostname`, `LanOemHandler`): the block transfer
  and its reader.

## How the source is read

* `process_kcs_request` is the one of patch 0012, which replaces that of patch
  0011; the command table is the one of patch 0034. Indices are u16. The guards
  against `MAX_KCS_PKT_SIZE` are kept, and proved never to fire: a request of
  64 KiB or more wraps instead. The comparison of `data_in_idx - 2` with a
  `sizeof` is made in 32-bit unsigned arithmetic, so a packet of less than two
  bytes is out of space.
* Registers are a record of input, output, state bits, IBF, OBF and
  command/data. Reading the input clears IBF, writing the output sets OBF, and
  the record remembers the state bits shown when IBF last went clear.
* `BIT` and `unsigned long` are 32 bits wide on this processor, so the divider
  search multiplies in u32 throughout; the probed tick is one second in
  nanoseconds divided by the clock.
* The saved environment variable is the number it parses to; parsing is not
  modelled.
* A PECI transaction succeeds, fails or times out as an arbitrary function of
  its number; one that does not complete changes nothing. `checkPECIStatus`
  is success with completion code 0x40. `mask`, `bit` and `convertMaskToList`,
  which are not part of these files, are bit-field extraction (a register has no
  bits past 63), a single bit and the ascending positions of set bits.
* `validInstances` compares the eight bytes it reads with 0x00000000FFFFFFFF,
  while its comment speaks of a first DWORD of all F's; the code is followed.
* Register memory is a map from the address of an eight-byte register to its
  value. The static register cache is a field of the register set of one CPU.
* In the TPMI cache, an event is one interface added or removed or the answer
  to one pending write; a signal is the run of its interfaces. `featureID` and
  CPU index of a path are given, or `None` where decoding fails.
* In `PowerControl`, a slot is its member id, link, advertised and actual
  related items, and the domain and policy its values are read from.
* `getSessionHandle` hands out handles from an arbitrary sequence; the run
  theorems take each to be nonzero and not in use. The checksum is an arbitrary
  function. Whether the directory service takes a new size is part of the
  command that starts an update.
* `req.size() - 4` in `setLanOem` counts the data bytes: channel, parameter,
  block number and completion flag come before them.

Where the code turns out not to do what it might be taken for, the exact
condition is proved instead: the length of a request that is held, the requests
whose answer is sent from its first byte, the state in which a request reaches
the handler, the clocks and periods for which the divider search is sound, the
duties the register can hold, the answers that make a CPU ready, the runs in
which no completion throws, the levels that stay in their field, the instances
whose core ids are their own, the locks that exclude others, the handles that
belong to a session, the failed starts that leave a trace, the names that
survive the round trip.

## Model

| member | source | states |
|---|---|---|
| KcsTransfer.ExchangeIsFaithful | meta-ast2600/recipes-bsp/u-boot/files/0011-KCS-driver-support-in-uBoot.patch:217-345 | End to end, from any BMC state: a request of 2 to 65535 bytes is held exactly, a host reading while the state bits say READ collects exactly the bytes of its answer, written out for each of the six commands and every error, and after as many READ codes as the answer has bytes the channel is idle without error. The control codes are 0x61, 0x62 and 0x68. |
| KcsTransfer.SessionRefinesServer | meta-ast2600/recipes-bsp/u-boot/files/0011-KCS-driver-support-in-uBoot.patch:217-330 | Over a whole session of exchanges with arbitrary host traffic in between that completes no request, the responses are byte for byte those of a command server without any transport, saved environment included. |
| KcsTransfer.RequestHeld | meta-ast2600/recipes-bsp/u-boot/files/0011-KCS-driver-support-in-uBoot.patch:228-253 | For a request of any length the packet handed on is what follows its last full 64 KiB; it is the request sent if and only if that is shorter than 64 KiB. |
| KcsTransfer.ResponseToAnyLength | meta-ast2600/recipes-bsp/u-boot/files/0012-IPMI-command-handler-implementation-in-uboot.patch:78-148 | For a request of any length, the bytes that are answered: the answer to the held packet, or a refusal (out of space, or wrong LUN) when fewer than two bytes are held. |
| KcsTransfer.WritePhase | meta-ast2600/recipes-bsp/u-boot/files/0011-KCS-driver-support-in-uBoot.patch:223-253 | After WRITE_END and the last byte: index and buffer contents for every request length under the 16-bit index, from every state, and the packet is answered. |
| KcsTransfer.ReadToEnd | meta-ast2600/recipes-bsp/u-boot/files/0011-KCS-driver-support-in-uBoot.patch:255-275 | A response is fetched by as many READ codes as it has bytes, the last of which ends in idle with a zero byte. |
| KcsTransfer.CollectsRest | meta-ast2600/recipes-bsp/u-boot/files/0011-KCS-driver-support-in-uBoot.patch:255-275 | The bytes put out while the state bits say READ are exactly the rest of the response, in order. |
| KcsHost.Transact | meta-ast2600/recipes-bsp/u-boot/files/0011-KCS-driver-support-in-uBoot.patch:217-330 | A host with the write and read loops of section 9.15 of the IPMI 2.0 specification, checking IBF and the state bits throughout: it terminates, never sees an error, leaves the channel idle, and returns the bytes of the answer to the request. |
| KcsHost.WriteAllButLast | meta-ast2600/recipes-bsp/u-boot/files/0011-KCS-driver-support-in-uBoot.patch:228-238 | The host's write loop keeps the write state and stores each byte under the 16-bit index. |
| KcsHost.ReadResponse | meta-ast2600/recipes-bsp/u-boot/files/0011-KCS-driver-support-in-uBoot.patch:255-275 | The host's read loop returns exactly the response and ends with OBF clear in the idle state. |
| KcsProperties.VisibleAlways | meta-ast2600/recipes-bsp/u-boot/files/0011-KCS-driver-support-in-uBoot.patch:105-140 | After every interrupt of every run, whatever the host writes: the input is consumed, the phase fixes the state bits (READ_WAIT is never visible), the u16 fields keep their width, the length error is never raised, and the output register has been written. |
| KcsProperties.StateSettledExactly | meta-ast2600/recipes-bsp/u-boot/files/0011-KCS-driver-support-in-uBoot.patch:217-330 | The state bits a host sees when IBF goes clear are the final ones, except exactly when the driver decides on an error after taking the input byte. |
| KcsProperties.ReadPhaseFaithfulExactly | meta-ast2600/recipes-bsp/u-boot/files/0011-KCS-driver-support-in-uBoot.patch:255-275 | Over every run from start-up, whatever the host writes: throughout the read phase the cursor is inside a response of 3 to 18 bytes and the bytes sent since the request are exactly the response up to the cursor, if and only if every request is handled with the cursor at the start; and that is so if and only if between any two handled requests there is a WRITE_START. |
| KcsProperties.ReadPhaseSendsResponse | meta-ast2600/recipes-bsp/u-boot/files/0011-KCS-driver-support-in-uBoot.patch:255-275 | A host that sends WRITE_END only inside a write transfer meets that condition, across aborts, bad read codes and restarts. |
| KcsProperties.AnswerFaithfulExactly | meta-ast2600/recipes-bsp/u-boot/files/0012-IPMI-command-handler-implementation-in-uboot.patch:156-159 | For any request: the answer starts at the byte of the response where the cursor stood, so the cursor is in range and what was sent is the response up to it if and only if the cursor stood at the start. |
| KcsProperties.UndisciplinedEndEscapes | meta-ast2600/recipes-bsp/u-boot/files/0011-KCS-driver-support-in-uBoot.patch:312-319 | The condition can fail: a concrete run from start-up, a complete exchange and then a stray WRITE_END and byte, puts the cursor past the response. |
| KcsProperties.UndisciplinedEndSkipsBytes | meta-ast2600/recipes-bsp/u-boot/files/0011-KCS-driver-support-in-uBoot.patch:312-319 | A second concrete run, where the cursor stays in range and the host never gets the first two bytes of the response. |
| KcsProperties.ErrorBlocksRequests | meta-ast2600/recipes-bsp/u-boot/files/0011-KCS-driver-support-in-uBoot.patch:312-328 | After GET_STATUS/ABORT or an illegal control code, no request reaches the IPMI handler before the next WRITE_START, whatever else the host writes. |
| KcsProperties.AbortHandshake | meta-ast2600/recipes-bsp/u-boot/files/0011-KCS-driver-support-in-uBoot.patch:277-289 | From every state, 0x60 and two data bytes yield 0x00, 0x01 and 0x00, through WRITE and READ to IDLE. |
| KcsProperties.FillerIsZero | meta-ast2600/recipes-bsp/u-boot/files/0011-KCS-driver-support-in-uBoot.patch:217-330 | Every byte put out that is neither part of a response nor the abort code is 0x00. |
| KcsProperties.BadReadCodeResumes | meta-ast2600/recipes-bsp/u-boot/files/0011-KCS-driver-support-in-uBoot.patch:255-275 | A wrong read code shows ERROR with a zero byte and loses nothing: the next READ goes on where the response was left. |
| KcsProperties.CommandShowsErrorExactly | meta-ast2600/recipes-bsp/u-boot/files/0011-KCS-driver-support-in-uBoot.patch:296-330 | A command shows ERROR exactly for an illegal code, or WRITE_END with an error latched. |
| KcsProperties.EndReachesHandlerExactly | meta-ast2600/recipes-bsp/u-boot/files/0011-KCS-driver-support-in-uBoot.patch:312-319 | In every phase, WRITE_END and one more byte reach the handler if and only if no error is latched, whatever the state bits show. |
| KcsProperties.StrayDataStillReachesHandler | meta-ast2600/recipes-bsp/u-boot/files/0011-KCS-driver-support-in-uBoot.patch:291-319 | In every phase, a data byte shows ERROR exactly where it is out of place; WRITE_END and one byte then reach the handler exactly when no error is latched. |
| KcsProperties.StrayRequestIsRefused | meta-ast2600/recipes-bsp/u-boot/files/0011-KCS-driver-support-in-uBoot.patch:126-140 | What such a request is: the packet is the one byte written last, and the three bytes of the response refuse it. |
| KcsProperties.OnlyHandledRequestsHaveEffects | meta-ast2600/recipes-bsp/u-boot/files/0011-KCS-driver-support-in-uBoot.patch:156-215 | The saved environment and the output buffer change in no step but the one that handles a request. |
| KcsChannel.Channel.constructor | meta-ast2600/recipes-bsp/u-boot/files/0011-KCS-driver-support-in-uBoot.patch:456-471 | Start-up is an initial state: idle, no error, zeroed packet. |
| KcsChannel.Channel.SetKcsState | meta-ast2600/recipes-bsp/u-boot/files/0011-KCS-driver-support-in-uBoot.patch:105-112 | Replaces the state bits and nothing else. |
| KcsChannel.Channel.KcsForceAbort | meta-ast2600/recipes-bsp/u-boot/files/0011-KCS-driver-support-in-uBoot.patch:126-140 | The driver's abort is the state machine's. |
| KcsChannel.Channel.InitKcsPacket | meta-ast2600/recipes-bsp/u-boot/files/0011-KCS-driver-support-in-uBoot.patch:142-154 | Resets the packet, leaving buffers and registers. |
| KcsChannel.Channel.FillResponse | meta-ast2600/recipes-bsp/u-boot/files/0012-IPMI-command-handler-implementation-in-uboot.patch:78-148 | The output buffer gets exactly the response to the packet in the input buffer over its old contents: the bytes of the answer, or of the refusal of a packet of less than two bytes. |
| KcsChannel.Channel.CopyOut | meta-ast2600/recipes-bsp/u-boot/files/0012-IPMI-command-handler-implementation-in-uboot.patch:145-146 | The copy loop writes the result bytes at their place and leaves the rest of the buffer. |
| KcsChannel.Channel.CopyRequest | meta-ast2600/recipes-bsp/u-boot/files/0012-IPMI-command-handler-implementation-in-uboot.patch:128-131 | The copy loop extracts the request data. |
| KcsChannel.Channel.ProcessKcsRequest | meta-ast2600/recipes-bsp/u-boot/files/0012-IPMI-command-handler-implementation-in-uboot.patch:67-159 | The request step of the state machine. |
| KcsChannel.Channel.AcceptWriteByte | meta-ast2600/recipes-bsp/u-boot/files/0011-KCS-driver-support-in-uBoot.patch:228-238 | Storing a written byte, with the length guard. |
| KcsChannel.Channel.AcceptLastByte | meta-ast2600/recipes-bsp/u-boot/files/0011-KCS-driver-support-in-uBoot.patch:240-253 | Storing and handling the last byte. |
| KcsChannel.Channel.SendNextByte | meta-ast2600/recipes-bsp/u-boot/files/0011-KCS-driver-support-in-uBoot.patch:255-275 | Sending the next response byte, the closing zero, or the error answer. |
| KcsChannel.Channel.ReadKcsData | meta-ast2600/recipes-bsp/u-boot/files/0011-KCS-driver-support-in-uBoot.patch:217-294 | The data interrupt is the state machine's step in every phase. |
| KcsChannel.Channel.ReadKcsCmd | meta-ast2600/recipes-bsp/u-boot/files/0011-KCS-driver-support-in-uBoot.patch:296-330 | The command interrupt is the state machine's step for every code. |
| KcsChannel.Channel.KcsIrqHandler | meta-ast2600/recipes-bsp/u-boot/files/0011-KCS-driver-support-in-uBoot.patch:332-345 | The handler dispatches on IBF and command/data. |
| IpmiHandler.IpmiCmdHandler | meta-ast2600/recipes-bsp/u-boot/files/0012-IPMI-command-handler-implementation-in-uboot.patch:259-282 | Scanning the command table gives what the command, identified by network function and code, has to answer, in literal bytes for every network function of six bits. |
| IpmiHandler.RespondInBytes | meta-ast2600/recipes-bsp/u-boot/files/0034-Implement-the-IPMI-commands-in-FFUJ-mode-in-u-boot.patch:120-207 | For every request and environment the whole response in literal bytes: the six commands, extra data (0xC7), foreign LUNs (0xC2), unlisted pairs (0xC1), bad modes (0xCC), and the saved mode with and without a value. |
| IpmiHandler.ExecuteInBytes | meta-ast2600/recipes-bsp/u-boot/files/0012-IPMI-command-handler-implementation-in-uboot.patch:259-282 | The same for the command table alone. |
| IpmiHandler.InvalidCommandExactly | meta-ast2600/recipes-bsp/u-boot/files/0034-Implement-the-IPMI-commands-in-FFUJ-mode-in-u-boot.patch:198-207 | Invalid command is answered exactly for pairs that are not in the table. |
| IpmiHandler.RunGetDeviceId | meta-ast2600/recipes-bsp/u-boot/files/0012-IPMI-command-handler-implementation-in-uboot.patch:203-233 | The sixteen bytes of the device id, or a length error. |
| IpmiHandler.RunGetSelfTestResult | meta-ast2600/recipes-bsp/u-boot/files/0012-IPMI-command-handler-implementation-in-uboot.patch:235-250 | The self test answer, or a length error. |
| IpmiHandler.RunGetExecutionCtx | meta-ast2600/recipes-bsp/u-boot/files/0034-Implement-the-IPMI-commands-in-FFUJ-mode-in-u-boot.patch:120-131 | The execution context, whatever the request data. |
| IpmiHandler.RunGetBufferSize | meta-ast2600/recipes-bsp/u-boot/files/0034-Implement-the-IPMI-commands-in-FFUJ-mode-in-u-boot.patch:133-149 | Buffer sizes in units of four bytes, or a length error. |
| IpmiHandler.RunGetSecurityMode | meta-ast2600/recipes-bsp/u-boot/files/0034-Implement-the-IPMI-commands-in-FFUJ-mode-in-u-boot.patch:151-177 | The saved mode cut to a byte, or the unspecified error while nothing is saved. |
| IpmiHandler.RunSetSecurityMode | meta-ast2600/recipes-bsp/u-boot/files/0034-Implement-the-IPMI-commands-in-FFUJ-mode-in-u-boot.patch:179-196 | Saves a legal mode; refuses wrong lengths and modes. |
| IpmiHandler.SetModeThenGetMode | meta-ast2600/recipes-bsp/u-boot/files/0034-Implement-the-IPMI-commands-in-FFUJ-mode-in-u-boot.patch:151-196 | For every mode byte: set then get returns it if it is legal, and otherwise the set is refused and changes nothing. |
| IpmiHandler.ProvisionChangesOnlyBySet | meta-ast2600/recipes-bsp/u-boot/files/0034-Implement-the-IPMI-commands-in-FFUJ-mode-in-u-boot.patch:179-196 | Over all requests, the saved environment changes exactly for an accepted set, to the mode given. |
| IpmiHandler.ResponseHeaderSetsResponseBit | meta-ast2600/recipes-bsp/u-boot/files/0012-IPMI-command-handler-implementation-in-uboot.patch:314-316 | The response header is the request's first byte with bit 2 set exactly for even network functions, and keeps the LUN. |
| IpmiHandler.ResponseShape | meta-ast2600/recipes-bsp/u-boot/files/0012-IPMI-command-handler-implementation-in-uboot.patch:136-148 | Every response has 3 to 18 bytes and echoes the command. |
| PwmDivider.SearchDivider | meta-ast2600/recipes-bsp/u-boot/files/0030-Add-Aspeed-PWM-uclass-driver.patch:462-470 | At machine width, for every clock of up to 1 GHz and every accepted period: the nested search terminates, by `div_l` 156 at the latest, at the first setting that passes the u32 test, with a tick that is not zero; it is the first setting that reaches the period, with its exact tick, if and only if `clk_tick_ns * 255` stays within 32 bits or, cut to 32 bits, reaches the period all the same. Where it stays within 32 bits, `div_l` never passes 119 and no product of a tried setting wraps. |
| PwmDivider.SearchSoundExactly | meta-ast2600/recipes-bsp/u-boot/files/0030-Add-Aspeed-PWM-uclass-driver.patch:462-470 | For every u32 tick but zero: the first setting that reaches the period is also the first that passes the u32 test if and only if `clk_tick_ns * 255` stays within 32 bits or, cut to 32 bits, reaches the period. |
| PwmDivider.NoWrapExactly | meta-ast2600/recipes-bsp/u-boot/files/0030-Add-Aspeed-PWM-uclass-driver.patch:464-465 | For every accepted period, no product of the search leaves 32 bits if and only if `clk_tick_ns * 255` does not. |
| PwmDivider.ProbedTickUsableExactly | meta-ast2600/recipes-bsp/u-boot/files/0030-Add-Aspeed-PWM-uclass-driver.patch:534-535 | The tick derived from the clock is one the search works with exactly for clocks of up to 1 GHz, and one with which nothing wraps exactly for clocks of 60 Hz to 1 GHz. |
| PwmDivider.ZeroTickNeverReaches | meta-ast2600/recipes-bsp/u-boot/files/0030-Add-Aspeed-PWM-uclass-driver.patch:462-470 | With a zero tick no setting passes the test or reaches a period, so the search never ends. |
| PwmDivider.WrapPassesOverSetting | meta-ast2600/recipes-bsp/u-boot/files/0030-Add-Aspeed-PWM-uclass-driver.patch:464-466 | A concrete tick and period past the condition for which the search passes over the setting asked for. |
| PwmDivider.LessThanTwiceBest | meta-ast2600/recipes-bsp/u-boot/files/0030-Add-Aspeed-PWM-uclass-driver.patch:462-470 | The chosen tick is less than twice any tick in the whole divider space that reaches the period. |
| PwmDivider.DividedHitIsSlowest | meta-ast2600/recipes-bsp/u-boot/files/0030-Add-Aspeed-PWM-uclass-driver.patch:462-470 | A hit with `div_l` of 1 or more has `div_h` 15. |
| PwmDivider.PeriodValueRange | meta-ast2600/recipes-bsp/u-boot/files/0030-Add-Aspeed-PWM-uclass-driver.patch:472-477 | The period count is at most 255, so the second range check never fires, and at least 127 unless the clock is undivided. |
| PwmDivider.PeriodCountFits | meta-ast2600/recipes-bsp/u-boot/files/0030-Add-Aspeed-PWM-uclass-driver.patch:472-477 | With any tick that passes the u32 test the period count is at most 255, so the second range check never fires. |
| PwmDivider.DutyWithinPeriod | meta-ast2600/recipes-bsp/u-boot/files/0030-Add-Aspeed-PWM-uclass-driver.patch:477-479 | A duty within the period is at most the period count, and so fits its field. |
| PwmDivider.DutyRatio | meta-ast2600/recipes-bsp/u-boot/files/0030-Add-Aspeed-PWM-uclass-driver.patch:477-479 | The ratio of the two counts is the requested duty ratio to within one tick either way; the duty count reaches the register as it is only for duties that fit, those within the period among them. |
| PwmDivider.DutyHeldExactly | meta-ast2600/recipes-bsp/u-boot/files/0030-Add-Aspeed-PWM-uclass-driver.patch:477-482 | The duty count survives its 8-bit field if and only if the duty is less than 256 ticks. |
| PwmDivider.DutyWordReadsBack | meta-ast2600/recipes-bsp/u-boot/files/0030-Add-Aspeed-PWM-uclass-driver.patch:480-486 | Each field of the duty register reads back, and the watchdog field is kept. |
| PwmDivider.CtrlWordReadsBack | meta-ast2600/recipes-bsp/u-boot/files/0030-Add-Aspeed-PWM-uclass-driver.patch:475-488 | The divider reads back from the control register exactly when `div_h` fits its field, and no other bit moves. |
| PwmDivider.AspeedPwm.SetConfig | meta-ast2600/recipes-bsp/u-boot/files/0030-Add-Aspeed-PWM-uclass-driver.patch:447-491 | Range error (-34) beyond one second; otherwise, for every channel and by position, word (channel * 0x10 + 4) / 4 holds the period count in bits 31..24, the low byte of the duty count in 15..8, zero in 7..0 and its old watchdog field, word channel * 0x10 / 4 holds the divider in 11..0 and its old rest, and every other word is unchanged. The divider is where the search stops, and the first that reaches the period exactly under the search's condition. |
| TpmiModel.NeverLockedOut | meta-common/recipes-intel/smbios/smbios-mdr/sst_tpmi.cpp:397-451 | Over every interleaving of signals, replies and write completions, a cached feature is never locked while disabled or using PCS. |
| TpmiModel.ReadyExactly | meta-common/recipes-intel/smbios/smbios-mdr/sst_tpmi.cpp:827-845 | Over every run, a CPU is ready if and only if the last event for it adds it with properties that unpack, the last event for its feature adds that in a state that can be used or changed, and every write the feature needed then has been answered with success since. |
| TpmiModel.QuiescentReady | meta-common/recipes-intel/smbios/smbios-mdr/sst_tpmi.cpp:827-845 | Once no writes are pending, a CPU added with its feature is unready if and only if, since the feature was added, some write it needed has been answered with failures only; where none has failed, it is ready. |
| TpmiModel.FailedWriteStaysUnready | meta-common/recipes-intel/smbios/smbios-mdr/sst_tpmi.cpp:116-122 | The exception is real: one failed write leaves the feature cached and unready with nothing pending. |
| TpmiModel.FeatureFollows | meta-common/recipes-intel/smbios/smbios-mdr/sst_tpmi.cpp:116-145 | Over every run, a cached feature is the one last read, with Enabled set and UsePCS cleared exactly where such a write has succeeded since; every write it needed is pending or has been answered. |
| TpmiModel.CpuFollows | meta-common/recipes-intel/smbios/smbios-mdr/sst_tpmi.cpp:375-395 | Over every run, a CPU is cached if and only if the last event that adds or removes it is an add whose properties unpack, and then with exactly those. |
| TpmiModel.FeaturePresentExactly | meta-common/recipes-intel/smbios/smbios-mdr/sst_tpmi.cpp:397-463 | Over every run, a feature is cached if and only if the last event that adds or removes it is an add that unpacks and is not locked while disabled or using PCS. |
| TpmiModel.NeverThrowsExactly | meta-common/recipes-intel/smbios/smbios-mdr/sst_tpmi.cpp:116-145 | Over every run: no completion can throw at any point of it if and only if no event of it drops a feature that has a write pending. |
| TpmiModel.RemovedFeatureThrows | meta-common/recipes-intel/smbios/smbios-mdr/sst_tpmi.cpp:123-126 | A concrete run: a feature removed while it is being enabled makes the completion throw. |
| TpmiModel.OtherCpusUntouched | meta-common/recipes-intel/smbios/smbios-mdr/sst_tpmi.cpp:375-463 | An event for one CPU leaves what is cached of the others. |
| TpmiCache.TpmiDBusCache.InterfacesAdded | meta-common/recipes-intel/smbios/smbios-mdr/sst_tpmi.cpp:190-227 | The signal handler adds the interfaces in order, ignoring other features and undecodable paths. |
| TpmiCache.TpmiDBusCache.InterfacesRemoved | meta-common/recipes-intel/smbios/smbios-mdr/sst_tpmi.cpp:228-243 | The same for removal. |
| TpmiCache.TpmiDBusCache.PropertiesReply | meta-common/recipes-intel/smbios/smbios-mdr/sst_tpmi.cpp:284-301 | A property reply adds its interface. |
| TpmiCache.TpmiDBusCache.AddCpu | meta-common/recipes-intel/smbios/smbios-mdr/sst_tpmi.cpp:375-395 | Caches a CPU, or drops it when its properties do not unpack. |
| TpmiCache.TpmiDBusCache.AddSstFeature | meta-common/recipes-intel/smbios/smbios-mdr/sst_tpmi.cpp:397-451 | The branches of adding a feature. |
| TpmiCache.TpmiDBusCache.WriteCompleted | meta-common/recipes-intel/smbios/smbios-mdr/sst_tpmi.cpp:116-145 | The completion handler sets just the written property on success, throws exactly for a success on a feature no longer cached, and otherwise only drops the pending write. |
| TpmiCache.TpmiDBusCache.Ready | meta-common/recipes-intel/smbios/smbios-mdr/sst_tpmi.cpp:827-845 | `ready()` on the cache: CPU and feature cached, the feature enabled and not using PCS. |
| WakeOnPeci.NothingForgotten | meta-common/recipes-intel/smbios/smbios-mdr/sst_tpmi.cpp:507-579 | Over every run of calls, however they fail and whatever is awake at the start: while the flag is clear nothing is awake that was not awake before, domains outside the die mask are never touched, and a successful disable with the flag set leaves the mask asleep. |
| WakeOnPeci.WakeOnPeciManager.SetWakeOnPeci | meta-common/recipes-intel/smbios/smbios-mdr/sst_tpmi.cpp:507-579 | Each call switches the die mask, or on failure a prefix of it, keeps the flag right, and takes a bounded number of bus transactions. |
| WakeOnPeci.WakeOnPeciManager.WriteWithRetry | meta-common/recipes-intel/smbios/smbios-mdr/sst_tpmi.cpp:548-555 | A domain write takes at most six attempts, all but the last timed out. |
| WakeOnPeci.WakeOnPeciManager.Destroy | meta-common/recipes-intel/smbios/smbios-mdr/sst_tpmi.cpp:477-488 | The destructor leaves nothing awake that was not before, unless its last transaction failed. |
| WakeOnPeci.WakeOnPeciManager.ReadQword | meta-common/recipes-intel/smbios/smbios-mdr/sst_tpmi.cpp:490-505 | A read of a sleeping device wakes its die mask, where that is allowed, and is then repeated as the last transaction; otherwise it is one transaction and wakes nothing. |
| WakeOnPeci.WakeOnPeciManager.WriteQword | meta-common/recipes-intel/smbios/smbios-mdr/sst_tpmi.cpp:490-505 | A write with the same retry takes effect exactly when it reports success. |
| SstRegisters.SstRegisterSet.CachedRead | meta-common/recipes-intel/smbios/smbios-mdr/sst_tpmi.cpp:622-638 | A hit costs no bus transaction; a miss is fetched and cached; a throwing read leaves the cache as it was; every cached key has been fetched once. |
| SstRegisters.SstRegisterSet.Read | meta-common/recipes-intel/smbios/smbios-mdr/sst_tpmi.cpp:653-666 | Bounds error exactly for instances out of range; a success is the register's value; any other failure means that the last bus transaction failed. |
| SstRegisters.SstRegisterSet.Write | meta-common/recipes-intel/smbios/smbios-mdr/sst_tpmi.cpp:668-686 | Writes the addressed register and nothing else, or nothing. |
| SstRegisters.SstRegisterSet.Header | meta-common/recipes-intel/smbios/smbios-mdr/sst_tpmi.cpp:717-720 | With a coherent cache, what an uncached read returns. |
| SstRegisters.SstRegisterSet.PpOffset | meta-common/recipes-intel/smbios/smbios-mdr/sst_tpmi.cpp:595-598 | With a coherent cache, the offset read straight from the registers. |
| SstRegisters.SstRegisterSet.PpLevelOffset | meta-common/recipes-intel/smbios/smbios-mdr/sst_tpmi.cpp:600-606 | The same through two levels of offset registers, for every level. |
| SstRegisters.SstRegisterSet.PpOffset0 | meta-common/recipes-intel/smbios/smbios-mdr/sst_tpmi.cpp:728-731 | The same. |
| SstRegisters.SstRegisterSet.PpOffset1 | meta-common/recipes-intel/smbios/smbios-mdr/sst_tpmi.cpp:733-736 | The same. |
| SstRegisters.SstRegisterSet.BfInfo | meta-common/recipes-intel/smbios/smbios-mdr/sst_tpmi.cpp:748-760 | The same through three levels of offset registers. |
| SstRegisters.SstRegisterSet.TfInfo0 | meta-common/recipes-intel/smbios/smbios-mdr/sst_tpmi.cpp:762-767 | The same. |
| SstRegisters.SstRegisterSet.PpInfo | meta-common/recipes-intel/smbios/smbios-mdr/sst_tpmi.cpp:769-794 | Level registers read without caching, at an offset read through the cache. |
| SstRegisters.SstRegisterSet.PpControl | meta-common/recipes-intel/smbios/smbios-mdr/sst_tpmi.cpp:738-741 | The control register, never cached. |
| SstRegisters.SstRegisterSet.PpStatus | meta-common/recipes-intel/smbios/smbios-mdr/sst_tpmi.cpp:743-746 | The status register, never cached. |
| SstRegisters.SstRegisterSet.ValidInstances | meta-common/recipes-intel/smbios/smbios-mdr/sst_tpmi.cpp:688-715 | On success the ascending list of exactly the instances that answer with a header other than 0x00000000FFFFFFFF, the others having answered that they are absent. |
| SstRegisters.AllOnesHeaderIsListed | meta-common/recipes-intel/smbios/smbios-mdr/sst_tpmi.cpp:690-712 | An instance that answers with a header of 64 ones, as unbacked memory reads, is listed as valid, although the comment there takes all F's for absent. |
| SstTpmi.SstTpmi.SetAllInstances | meta-common/recipes-intel/smbios/smbios-mdr/sst_tpmi.cpp:1021-1037 | For every set of absent instances: if the registers of the valid instances lie in their place, then on success the control register of every valid instance has the field replaced, no valid instance reports an error and nothing else in memory changes; on a throw exactly a prefix of the valid instances is updated, and either the bus has failed or the last one updated reports an error. |
| SstTpmi.SstTpmi.SetInstance | meta-common/recipes-intel/smbios/smbios-mdr/sst_tpmi.cpp:1026-1035 | One round: read, modify, write, and the error bits of the status register; the registers of all valid instances stay in their place and the cache stays coherent. |
| SstTpmi.SstTpmi.WriteControl | meta-common/recipes-intel/smbios/smbios-mdr/sst_tpmi.cpp:796-799 | The control register of the instance, and nothing else, takes the value, or the bus has failed. |
| SstTpmi.SstTpmi.StatusClear | meta-common/recipes-intel/smbios/smbios-mdr/sst_tpmi.cpp:1030-1035 | Passes exactly when the error field is clear, or the bus has failed. |
| SstTpmi.SstTpmi.SetBfEnabled | meta-common/recipes-intel/smbios/smbios-mdr/sst_tpmi.cpp:1000-1005 | The same for bit 8, in numbers: the addresses from the headers, (x & ~0x100) with or without 0x100, and the error in bits 34..32 of the status register. |
| SstTpmi.SstTpmi.SetTfEnabled | meta-common/recipes-intel/smbios/smbios-mdr/sst_tpmi.cpp:1007-1012 | The same for bit 9 and the error in bits 37..35. |
| SstTpmi.SstTpmi.SetCurrentLevel | meta-common/recipes-intel/smbios/smbios-mdr/sst_tpmi.cpp:1014-1018 | The same for bits 2..0, the level written unconfined, and the error in bits 7..4. |
| SstTpmi.FeaturesCommute | meta-common/recipes-intel/smbios/smbios-mdr/sst_tpmi.cpp:1000-1037 | Switching two features with disjoint fields gives the same memory in either order. |
| SstTpmi.BfAndTfAreDisjoint | meta-common/recipes-intel/smbios/smbios-mdr/sst_tpmi.cpp:1000-1018 | BF, TF and the level occupy disjoint fields. |
| SstTpmi.LevelConfinedExactly | meta-common/recipes-intel/smbios/smbios-mdr/sst_tpmi.cpp:1014-1018 | A level stays inside its field exactly up to 7; level 0x100 also sets the BF bit. |
| SstTpmi.InstancesApart | meta-common/recipes-intel/smbios/smbios-mdr/sst_tpmi.cpp:675-676 | Registers inside the feature size of different instances have different addresses. |
| SstModel.UpdateAllAt | meta-common/recipes-intel/smbios/smbios-mdr/sst_tpmi.cpp:1024-1029 | Each listed register is updated once over, whatever the list repeats, and every other is unchanged. |
| SstModel.MaskIsField | meta-common/recipes-intel/smbios/smbios-mdr/sst_tpmi.cpp:597-604 | Bit-field extraction, bit for bit: bit k of the field is bit lo + k of the register, and the field has no others. |
| SstTpmi.OffsetIs | meta-common/recipes-intel/smbios/smbios-mdr/sst_tpmi.cpp:595-598 | Where the control and status registers of an instance are, in numbers: eight times bits 31..24 of its header, and 24 and 32 bytes on. |
| SstTpmi.FeatureBlocksAre | meta-common/recipes-intel/smbios/smbios-mdr/sst_tpmi.cpp:600-606 | Where the BF and TF blocks of a level are, in numbers, from the level pointer and bytes 1 and 2 of the block pointers. |
| FieldUpdate.FrameExactly | meta-common/recipes-intel/smbios/smbios-mdr/sst_tpmi.cpp:1027-1028 | The bits outside the field survive the update of every register if and only if the value is confined to the field. |
| FieldUpdate.UpdatesCommute | meta-common/recipes-intel/smbios/smbios-mdr/sst_tpmi.cpp:1027-1028 | Updates of disjoint fields commute bit for bit. |
| SstTpmi.SstTpmi.GatherCoreList | meta-common/recipes-intel/smbios/smbios-mdr/sst_tpmi.cpp:1060-1079 | The list gathered from the bus, in numbers from the register contents: it is strictly increasing and names core c exactly when instance c/64 is valid, every valid instance up to it has a nonzero core count in bits 15..8 of its level register, and bit c%64 of its mask is set, if and only if the compute instances with a nonzero mask are numbered below 2^26. |
| SstModel.GatheredExactly | meta-common/recipes-intel/smbios/smbios-mdr/sst_tpmi.cpp:1039-1079 | The list is strictly increasing and names core c exactly when instance c/64 is valid, every valid instance up to it has cores, and bit c%64 of its mask is set, if and only if the compute instances with a nonzero mask are numbered below 2^26. |
| SstModel.WideInstanceCollides | meta-common/recipes-intel/smbios/smbios-mdr/sst_tpmi.cpp:1073-1074 | Past the bound two instances share core ids. |
| PowerControl.Document.CollectNmDmtfData | meta-common/recipes-phosphor/interfaces/bmcweb/node-manager/power_utility.hpp:1118-1157 | For all device lists the array has |A|+|P|+|M|+4 slots, and every slot is filled, shows the member id, link and policy of the list element of the same index, and advertises as many related items as it links. The root links to each group and behind it to its devices, a group to its devices in order, a device to nothing. |
| PowerControl.Document.GroupNodes | meta-common/recipes-phosphor/interfaces/bmcweb/node-manager/power_utility.hpp:1090-1116 | A group fills its slots and its own, and the root gains exactly the group's links. |
| PowerControl.Document.ComponentNode | meta-common/recipes-phosphor/interfaces/bmcweb/node-manager/power_utility.hpp:986-1035 | A device's slot is in place; root and aggregator gain one link each and nothing else changes. |
| PowerControl.Document.AggregateNode | meta-common/recipes-phosphor/interfaces/bmcweb/node-manager/power_utility.hpp:1037-1088 | A group's slot is in place and the root gains one link. |
| PowerControl.BuildDomainPolicyMap | meta-common/recipes-phosphor/interfaces/bmcweb/node-manager/power_utility.hpp:1230-1274 | The list built by pushing is the root, then each group's devices followed by the group. |
| PowerControl.ListIs | meta-common/recipes-phosphor/interfaces/bmcweb/node-manager/power_utility.hpp:1230-1274 | The list by position, with every domain, policy and member id in literal text. |
| PowerControl.DeviceEntryIs | meta-common/recipes-phosphor/interfaces/bmcweb/node-manager/power_utility.hpp:85-101 | The two ways a device's policy name is put together agree. |
| PowerControlRoutes.PatchAddressesWhatGetShowed | meta-common/recipes-phosphor/interfaces/bmcweb/node-manager/power.hpp:92-124 | An update is sent by PATCH if and only if some request element carries it and the slot of the same index showed its domain and policy in GET; a power limit names the device of the list element there. |
| PowerControlRoutes.SetPowerCapOverride | meta-common/recipes-phosphor/interfaces/bmcweb/node-manager/power.hpp:92-124 | Request elements update the list elements of their index, in order, up to the first that does not parse or lies past the list; limits carry the device index. |
| PowerControlRoutes.UpdatesForIs | meta-common/recipes-phosphor/interfaces/bmcweb/node-manager/power.hpp:104-120 | For one element the limit goes out between two copies of the OEM part. |
| PowerControlRoutes.GetByMemberId | meta-common/recipes-phosphor/interfaces/bmcweb/node-manager/power_utility.hpp:1293-1349 | For every list element, device index 255 and the root included, the by-name GET rebuilds the member id, link, domain and policy; it finds nothing exactly for names that are no member id. |
| PowerControlRoutes.LinkLeadsToSlot | meta-common/recipes-phosphor/interfaces/bmcweb/node-manager/power_utility.hpp:1000-1002 | Following any link of a collected array, or a slot's own, by the by-name GET with the text behind its last slash gives the node the slot with that link shows. |
| PowerControlRoutes.LinkNamesMember | meta-common/recipes-phosphor/interfaces/bmcweb/node-manager/power_utility.hpp:1000-1002 | Within a chassis, links are equal exactly when the member ids are, and a link ends in the member id. |
| PowerControlRoutes.MemberIdDetermines | meta-common/recipes-phosphor/interfaces/bmcweb/node-manager/power_utility.hpp:1304-1320 | A member id determines domain, policy and device, so the first match is the right one. |
| PowerControlRoutes.MemberIdsDistinct | meta-common/recipes-phosphor/interfaces/bmcweb/node-manager/power_utility.hpp:1230-1274 | With distinct device indices per domain all member ids are distinct. |
| PowerControlRoutes.RebuiltComponent | meta-common/recipes-phosphor/interfaces/bmcweb/node-manager/power_utility.hpp:1334-1341 | Stripping and renumbering a device's name gives its policy and member id back. |
| PowerControlRoutes.RebuiltAggregate | meta-common/recipes-phosphor/interfaces/bmcweb/node-manager/power_utility.hpp:1322-1325 | The name alone gives the policy of every element with device index 255. |
| DecimalNames.AlphaOnlyStrips | meta-common/recipes-phosphor/interfaces/bmcweb/node-manager/power_utility.hpp:1334-1338 | Removing what is not a letter from a numbered name gives the name. |
| DecimalNames.NumberedInjective | meta-common/recipes-phosphor/interfaces/bmcweb/node-manager/power_utility.hpp:1240-1270 | A numbered name determines name and number. |
| DecimalNames.ToStringDigits | meta-common/recipes-phosphor/interfaces/bmcweb/node-manager/power_utility.hpp:85-101 | Numbers below a thousand digit by digit, without a leading zero. |
| Mdrv2Model.ReadLockHolds | meta-common/recipes-core/ipmi/intel-ipmi-oem/0007-Adding-the-ACPI-agent-support-to-Mdrv2-OEM-commands.patch:849-931 | Once a lock for reading is granted, the entry does not change in any way, whatever either agent does, until its own handle is released. |
| Mdrv2Model.LockProtectsExactly | meta-common/recipes-core/ipmi/intel-ipmi-oem/0007-Adding-the-ACPI-agent-support-to-Mdrv2-OEM-commands.patch:849-931 | A granted lock makes the entry refuse every other attempt exactly when it was not taken for a new update. |
| Mdrv2Model.UpdateSessionIsTakenOver | meta-common/recipes-core/ipmi/intel-ipmi-oem/0007-Adding-the-ACPI-agent-support-to-Mdrv2-OEM-commands.patch:879-930 | An update session is not exclusive: the next request is granted and the first handle can no longer be released. |
| Mdrv2Model.StageRules | meta-common/recipes-core/ipmi/intel-ipmi-oem/0007-Adding-the-ACPI-agent-support-to-Mdrv2-OEM-commands.patch:809-931 | Init is never re-entered, Updating is left only to Updated with the entry unlocked and its handle gone, and no command touches the other agent. |
| Mdrv2Model.AlwaysOk | meta-common/recipes-core/ipmi/intel-ipmi-oem/0007-Adding-the-ACPI-agent-support-to-Mdrv2-OEM-commands.patch:809-931 | Over every run with fresh handles, on both agents, for the entries in use: Init implies unlocked, locked implies a handle, handles in use differ, and sizes stay within the storage. |
| Mdrv2Model.HandleFindsItsEntry | meta-common/recipes-core/ipmi/intel-ipmi-oem/0007-Adding-the-ACPI-agent-support-to-Mdrv2-OEM-commands.patch:360-375 | A handle in use is looked up to the entry that holds it. |
| Mdrv2Model.StartExactly | meta-common/recipes-core/ipmi/intel-ipmi-oem/0007-Adding-the-ACPI-agent-support-to-Mdrv2-OEM-commands.patch:1128-1168 | A start succeeds exactly when the length is storable, the entry grants it, memory can be mapped and the service, for the agent that has one, takes the new size; where only the service refuses, the entry is updating all the same. |
| Mdrv2Model.FailedStartUnchangedExactly | meta-common/recipes-core/ipmi/intel-ipmi-oem/0007-Adding-the-ACPI-agent-support-to-Mdrv2-OEM-commands.patch:1128-1168 | A failed start leaves the state as it was if and only if the entry did not grant it, or memory cannot be mapped and the entry was a free updated one; otherwise the entry has moved on, to Updated where memory cannot be mapped. |
| Mdrv2.Directory.constructor | meta-common/recipes-core/ipmi/intel-ipmi-oem/0007-Adding-the-ACPI-agent-support-to-Mdrv2-OEM-commands.patch:171-246 | The directory as initialised, one entry in use per agent and the others zero without storage, keeps the rules. |
| Mdrv2.Directory.SmbiosTryLock | meta-common/recipes-core/ipmi/intel-ipmi-oem/0007-Adding-the-ACPI-agent-support-to-Mdrv2-OEM-commands.patch:849-931 | The locking branches, in place, with a session handle drawn only on success. |
| Mdrv2.Directory.SmbiosUnlock | meta-common/recipes-core/ipmi/intel-ipmi-oem/0007-Adding-the-ACPI-agent-support-to-Mdrv2-OEM-commands.patch:809-845 | The unlocking branches, in place. |
| Mdrv2.Directory.FindLockHandle | meta-common/recipes-core/ipmi/intel-ipmi-oem/0007-Adding-the-ACPI-agent-support-to-Mdrv2-OEM-commands.patch:360-375 | The loop returns the first entry in use with the handle. |
| Mdrv2.Directory.LockData | meta-common/recipes-core/ipmi/intel-ipmi-oem/0007-Adding-the-ACPI-agent-support-to-Mdrv2-OEM-commands.patch:1007-1014 | Locking for reading is the model's command: granted exactly for an initialised entry that is not locked, which is then locked under the handle returned. |
| Mdrv2.Directory.DataStart | meta-common/recipes-core/ipmi/intel-ipmi-oem/0007-Adding-the-ACPI-agent-support-to-Mdrv2-OEM-commands.patch:1128-1168 | Starting an update is the model's command, granted exactly under its four conditions, and returns the handle to release with. |
| Mdrv2.Directory.Release | meta-common/recipes-core/ipmi/intel-ipmi-oem/0007-Adding-the-ACPI-agent-support-to-Mdrv2-OEM-commands.patch:1029-1038 | Releasing a handle is the model's command: it succeeds exactly where the first entry in use with the handle is initialised, and frees that entry and no other. |
| Mdrv2.Directory.GetDataBlock | meta-common/recipes-core/ipmi/intel-ipmi-oem/0007-Adding-the-ACPI-agent-support-to-Mdrv2-OEM-commands.patch:666-739 | Each successful block is exactly the requested range cut to the transfer size and the table, and each error occurs exactly under its condition. |
| Mdrv2Model.BlockSize | meta-common/recipes-core/ipmi/intel-ipmi-oem/0007-Adding-the-ACPI-agent-support-to-Mdrv2-OEM-commands.patch:684-703 | A block is as long as the request, the transfer size and the rest of the table all allow, and no shorter. |
| Mdrv2.Directory.ReadTable | meta-common/recipes-core/ipmi/intel-ipmi-oem/0007-Adding-the-ACPI-agent-support-to-Mdrv2-OEM-commands.patch:666-739 | A reader advancing by what it gets terminates with the whole table, and succeeds when addresses and checksums allow. |
| Mdrv2Model.BlockNeedsSessionExactly | meta-common/recipes-core/ipmi/intel-ipmi-oem/0007-Adding-the-ACPI-agent-support-to-Mdrv2-OEM-commands.patch:360-375 | A handle that is looked up belongs to a session, a read lock or an update, on that entry if and only if it is not zero; zero finds an entry whenever one is idle. |
| Mdrv2Model.ReleasedTableIsServed | meta-common/recipes-core/ipmi/intel-ipmi-oem/0007-Adding-the-ACPI-agent-support-to-Mdrv2-OEM-commands.patch:666-739 | A concrete run from the initial directory: a table written and released is found, unlocked, under handle zero. |
| LanHostname.RoundTrip | meta-common/recipes-phosphor/ipmi/phosphor-ipmi-host/transporthandler_oem.cpp:45-146 | After any history, sending a valid name of at most 64 characters in blocks and reading four blocks gives the zero-padded name if and only if it has at most 63 characters, also when the property comes back as a C string. |
| LanHostname.TransferStores | meta-common/recipes-phosphor/ipmi/phosphor-ipmi-host/transporthandler_oem.cpp:52-99 | After any history the transfer stores the padded name with its last character cut off. |
| LanHostname.OnlyValidNamesStored | meta-common/recipes-phosphor/ipmi/phosphor-ipmi-host/transporthandler_oem.cpp:45-106 | Over any message sequence the stored name is the original or a terminated one that is valid up to its first NUL. |
| LanHostname.CommitExactly | meta-common/recipes-phosphor/ipmi/phosphor-ipmi-host/transporthandler_oem.cpp:81-99 | A message stores a name exactly when it is a well-formed last block and the characters collected are valid up to the first NUL; it then stores those. |
| LanHostname.CodesExactly | meta-common/recipes-phosphor/ipmi/phosphor-ipmi-host/transporthandler_oem.cpp:45-106 | Which completion code every message gets, in the order the conditions are judged, and that a message refused for its form changes nothing. |
| LanHostname.BlockLands | meta-common/recipes-phosphor/ipmi/phosphor-ipmi-host/transporthandler_oem.cpp:74-81 | What an accepted block does to each of the 64 characters, in whatever order blocks come. |
| LanHostname.ValidCharsAre | meta-common/recipes-phosphor/ipmi/phosphor-ipmi-host/transporthandler_oem.cpp:40-42 | The valid characters are the 63 of the literal list. |
| LanHostname.ComparesEqualExactly | meta-common/recipes-phosphor/ipmi/phosphor-ipmi-host/transporthandler_oem.cpp:88-93 | The comparison of the two search results is the validity of the name. |
| LanHostname.ReadAllPads | meta-common/recipes-phosphor/ipmi/phosphor-ipmi-host/transporthandler_oem.cpp:132-142 | Four blocks of any stored name are the name padded with zeroes. |
| LanOemHandler.LanOem.SetLanOem | meta-common/recipes-phosphor/ipmi/phosphor-ipmi-host/transporthandler_oem.cpp:45-106 | The handler's branches, in place on the block buffer. |
| LanOemHandler.LanOem.CopyIn | meta-common/recipes-phosphor/ipmi/phosphor-ipmi-host/transporthandler_oem.cpp:79-80 | The copy overlays the data at its place. |
| LanOemHandler.LanOem.GetLanOem | meta-common/recipes-phosphor/ipmi/phosphor-ipmi-host/transporthandler_oem.cpp:108-146 | The reader's error branches, and the revision byte with one zero-padded block. |

## Left out

- PwmDivider.SearchDivider: a zero tick, from clocks over 1 GHz, for which the loop does not end; a lemma shows that no setting passes then.
- SstRegisters.SstRegisterSet.PpLevelOffset: what a shift by 64 bits or more yields for levels above 7, which C++ leaves undefined and `Mask` takes as no bits; 32-bit wrap of bus addresses.
- SstTpmi.SstTpmi.SetAllInstances: what the loop does where a valid instance's control and status registers do not fit in the feature size, or its control register is also a cached one; registers of valid instances then overlap.
- KcsChannel.Channel.FillResponse: the test of the response length against the output buffer has no branch of its own, because a response is at most 18 bytes.
- KcsHost.Transact: waiting for IBF and OBF, which takes no time here because the interrupt is taken at once.
- Mdrv2.Directory.DataStart: the transfer address check, which is outside the changed lines, and removing the agent's file.
- Mdrv2.Directory.Release: storing the table to flash and telling the service at the end of data done.
- MDRv2 lock timers, shared memory and data block writes: timer expiry acts on the most recently looked-up agent, and the copying of a written block is outside the changed lines.
- The other KCS channels and their address and interrupt registers: straight-line register writes.
- The remaining SST accessors (`tdp`, `coreCount`, frequencies, turbo profile) and `ready()`'s lazy construction: one read and one field each.
- Decoding of TPMI object paths and of D-Bus properties: library behaviour.
- Power readings, limits, thresholds and status texts of PowerControl nodes, and the display names: values copied from D-Bus.
- By-name PATCH of a PowerControl member: it looks the element up as the by-name GET does.
- GPIO, LED, mailbox, eSPI, LPC tools, image and build recipes: device setup and build plumbing.
