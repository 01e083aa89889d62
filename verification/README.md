# Response decoder, buffer lifecycle and buffer sizing of the msm_vidc video driver

This project is a Dafny model of three parts of the Qualcomm `msm_vidc` V4L2
video driver:

- **The HFI response decoder** (`venus_hfi_response.c`). It receives messages
  from the video firmware and applies each one to the core or to one session.
  - A message is a header followed by packets. The header is validated, then
    the packets are visited in several passes, one per range of packet types.
  - A session message's passes run in this order: session errors,
    information, properties, commands.
  - Buffer commands move a queued client buffer to "dequeued". At the end of
    the message every dequeued buffer is completed towards the client exactly
    once: input metadata, then input, then output metadata, then output.
  - Decoder output buffers the firmware still holds as references are kept
    in a read-only list. A DPB-list property makes them eligible for release,
    and the firmware later confirms each release.
- **Buffer counts and sizes** (`msm_vidc_buffer.c`): how many buffers each
  port and each internal kind needs, and how large each client buffer is.
  All of it is u32 arithmetic with explicit wrap-around.
- **The iris3 session decisions** (`msm_vidc_iris3.c`): work mode (stages),
  work route (pipes), quality mode, bitrate boost, and the watchdog bit of
  the interrupt status.

Every operation is a pure function on immutable datatypes:

- A session is an `Instance.Inst` and a handler returns `Out(inst, rc)`.
- What the handlers ask of code outside the model is a parameter. This covers
  state-machine permissions, callbacks, cache operations, fence signalling,
  pool allocation and buffer-size session operations. All of them are
  outcomes in an `Env` record.
- Each such call is appended to the session's event log, so the model can
  state which notifications were sent and in what order.
- Platform constants (minimum counts, metadata sizes, macroblock counts of
  4K and 360p, `DEFAULT_COMPLEXITY`, `MAX_BITRATE_BOOST`) are parameters.

The modules follow the source:

| module | file | what |
|---|---|---|
| `Common` | common.dfy | return codes, u32/u64, wrap-around, 4 KiB alignment, flag words |
| `Hfi` | hfi.dfy | packet types, ranges, flags, ports and buffer types of the firmware interface |
| `Wire` | wire.dfy | little-endian words read from the response buffer |
| `Validate` | validate.dfy | `validate_packet`, `validate_hdr_packet` |
| `Packets` | packets.dfy | packets, payload checks, buffer descriptors |
| `Instance` | instance.dfy | sessions, buffers, the collaborator outcomes |
| `Lookup` | lookup.dfy | the first-match list searches the handlers use |
| `DriverFlags` | flags.dfy | `get_driver_buffer_flags` |
| `ReadOnly` | readonly.dfy | the read-only list and its release |
| `BufHandlers` | bufhandlers.dfy | the per-buffer handlers |
| `Batcher` | batcher.dfy | `handle_dequeue_buffers` |
| `SessionBuffer` | sessionbuffer.dfy | port mapping and `handle_session_buffer` |
| `Properties` | properties.dfy | session and system properties |
| `Commands` | commands.dfy | session errors, information and commands |
| `Response` | response.dfy | the passes and the entry point `handle_response` |
| `BufferCounts` | bufcounts.dfy | buffer counts |
| `BufferSizes` | bufsizes.dfy | buffer sizes |
| `Iris3` | iris3.dfy | the iris3 decisions |

## Model

| member | source | states |
|---|---|---|
| Validate.ValidatePacketAsWritten | vidc/src/venus_hfi_response.c:170-206 | The check as written reads the size word past the end exactly when the packet starts within 4 bytes of the limit. When it accepts, the size is non-zero, at least one packet header, and the packet ends inside the buffer. |
| Validate.ValidPacketAgreesAsWritten | vidc/src/venus_hfi_response.c:170-206 | Wherever the check as written stays inside the buffer, it agrees with the guarded check. An accepted packet's header lies inside the buffer. |
| Validate.OverrunMessageReadsPastEnd | vidc/src/venus_hfi_response.c:170-233 | A 64-byte message whose header claims two packets but holds one makes the walk as written read at offset 64. The guarded header check rejects the same message. |
| Validate.OverstatedCountReadsPastEnd | vidc/src/venus_hfi_response.c:208-233 | For any packet chain that fills the buffer exactly, a count one too high makes the walk as written read past the end. The guarded walk fails on the same message. |
| Validate.WalkPackets | vidc/src/venus_hfi_response.c:218-230 | A successful walk yields exactly the declared number of chained packets. A failed walk names the first packet that fails the check, with all earlier packets valid. |
| Validate.ValidateHeader | vidc/src/venus_hfi_response.c:208-233 | A header is accepted exactly when its size covers a header and a packet and every declared packet validates. The packet offsets are then returned. |
| Validate.ChainStaysInBuffer | vidc/src/venus_hfi_response.c:218-230 | Every packet of a validated chain lies inside the buffer, and the packets follow one another without overlap. |
| Packets.DecodePackets | vidc/src/venus_hfi_response.c:1926-1971 | The decoded packets correspond one-to-one, in order, to the validated offsets. Each packet carries its own size and the bytes after its header. |
| Packets.PayloadCheckCases | vidc/src/venus_hfi_response.c:235-276 | `check_for_packet_payload` per payload kind: none never has a payload; U32, U64 and buffer-structure payloads need their width after the packet header. |
| Packets.BufferDescriptorInsidePacket | vidc/src/venus_hfi_response.c:1363 | A buffer command that passed the payload check has its whole buffer descriptor inside its own packet. |
| DriverFlags.PictureFlag | vidc/src/venus_hfi_response.c:520-568 | The frame-type flag is the one of the first set picture-type bit in the order IDR, P, B, I, CRA, BLA. There is no flag when none of these bits is set. |
| DriverFlags.BufferFlags | vidc/src/venus_hfi_response.c:520-568 | The client flags hold the picture flag, ERROR exactly on corruption, overflow or a tagged empty or partial input, CODECCONFIG exactly when the firmware set it, and LAST exactly for a last buffer without the last-flag event. |
| DriverFlags.MetaBufferFlags | vidc/src/venus_hfi_response.c:1052-1062 | Metadata buffers carry at most the LAST flag. |
| DriverFlags.FlagsConsistent | vidc/src/venus_hfi_response.c:520-568 | A frame is at most one of key, P or B. A metadata buffer is flagged last exactly when its data buffer would be. With the last-flag event enabled, nothing is flagged last. |
| DriverFlags.IdrWins | vidc/src/venus_hfi_response.c:520-568 | An IDR bit makes a key frame whatever else is set. A picture type of zero yields no frame-type flag. |
| ReadOnly.AddReadOnly | vidc/src/venus_hfi_response.c:570-622 | An existing entry for the address is marked read-only; otherwise a new entry is appended if allocation succeeds, and -ENOMEM leaves the list as it was. Other entries are kept, and device addresses stay unique. |
| ReadOnly.HandleReadOnlyBuffer | vidc/src/venus_hfi_response.c:570-622 | Only a decoder buffer that carries READ_ONLY changes the list. |
| ReadOnly.ClearReadOnly | vidc/src/venus_hfi_response.c:624-643 | Exactly the entry at the address loses READ_ONLY. Every other entry and every address is kept. |
| ReadOnly.HandleNonReadOnly | vidc/src/venus_hfi_response.c:624-643 | A decoder raw buffer returned without READ_ONLY clears its entry. Anything else leaves the list alone. |
| ReadOnly.ReleaseOutput | vidc/src/venus_hfi_response.c:1287-1312 | A release is confirmed exactly when an entry at the address is pending release, and that entry loses READ_ONLY and PENDING_RELEASE. Otherwise -EINVAL leaves the list unchanged. |
| ReadOnly.InDpbLoopFinds | vidc/src/venus_hfi_response.c:1590-1605 | The inner search loop finds an address exactly when some whole 4-word entry from the current one on carries it. |
| ReadOnly.MarkReleaseEligible | vidc/src/venus_hfi_response.c:1586-1612 | An entry becomes release-eligible exactly when it is read-only, not pending release, and not named by the firmware's DPB list. Nothing else about any entry changes. |
| BufHandlers.ProcessDrainLast | vidc/src/venus_hfi_response.c:663-679 | The drain last flag succeeds exactly when it is allowed and its processing succeeds. It is only processed when allowed. |
| BufHandlers.ProcessPscLast | vidc/src/venus_hfi_response.c:645-661 | The same as ProcessDrainLast, for the port-settings-change last flag. |
| BufHandlers.FailOnError | vidc/src/venus_hfi_response.c:278-302 | A failing step puts the session in error and changes nothing else. |
| BufHandlers.Av1Tiles | vidc/src/venus_hfi_response.c:733-744 | Non-zero AV1 tile information splits into rows (upper 16 bits) and columns (lower 16 bits) that recombine to the reported word. Zero leaves the power data alone. |
| BufHandlers.HandleInputBuffer | vidc/src/venus_hfi_response.c:681-767 | -EINVAL exactly for an unknown index or an invalid super-buffer batch. A pending sub-frame changes nothing. Otherwise only the matching queued buffer is returned, with the firmware's size and the translated flags. |
| BufHandlers.HandleInputMetaBuffer | vidc/src/venus_hfi_response.c:1000-1066 | The same as HandleInputBuffer, for the input metadata list, with the metadata flags. |
| BufHandlers.ReturnMeta | vidc/src/venus_hfi_response.c:1040-1064 | Returning a metadata buffer changes only that buffer: it takes the firmware's size and the metadata flags. |
| BufHandlers.HandleOutputMetaBuffer | vidc/src/venus_hfi_response.c:1068-1116 | -EINVAL exactly for an unknown index. Otherwise only the matching queued output metadata buffer is returned. |
| BufHandlers.FenceDecision | vidc/src/venus_hfi_response.c:769-836 | No fence without a fence type or id. An invalid fence when fence metadata is on but the id is missing or the type is unknown. A signal for a good synx frame or a non-empty software-fence frame. Destruction otherwise. |
| BufHandlers.HandleFenceSignal | vidc/src/venus_hfi_response.c:769-836 | Fence handling succeeds exactly when the decision is not invalid and any signal succeeds. Each signal or destruction is logged once. |
| BufHandlers.OutputPrelude | vidc/src/venus_hfi_response.c:861-896 | Before the lookup, the drain last flag, a decoder's PSC last flag and the read-only clearing are applied. A refused last flag puts the session in error. |
| BufHandlers.EffectiveFlags | vidc/src/venus_hfi_response.c:900-906 | A last-flag buffer is never treated as read-only. No other flag changes. |
| BufHandlers.ReturnedOutput | vidc/src/venus_hfi_response.c:907-950 | The returned output buffer is dequeued, takes the firmware's offset and timestamp, has size 0 when last, and takes the translated flags. For a decoder, READ_ONLY follows the firmware. |
| BufHandlers.OutputChecks | vidc/src/venus_hfi_response.c:923-945 | The session goes to error exactly on a fatal encoder output or a read-only buffer while the driver supplies the DPB. |
| BufHandlers.OutputReadOnly | vidc/src/venus_hfi_response.c:952-958 | The read-only list is updated, and a failed allocation puts the session in error. |
| BufHandlers.OutputFence | vidc/src/venus_hfi_response.c:960-975 | The fence outcome is the return code. The worst compression ratio is always recorded, and the complexity factor only for a decoder. |
| BufHandlers.ReturnOutput | vidc/src/venus_hfi_response.c:907-998 | Once the queued buffer is found, only it is returned, and all the error and telemetry effects above apply. |
| BufHandlers.OutputRelease | vidc/src/venus_hfi_response.c:848-860 | A decoder's RELEASE_DONE response succeeds exactly when an entry at the address is pending release. |
| BufHandlers.OutputReturn | vidc/src/venus_hfi_response.c:861-998 | A response matching no queued buffer is ignored after the prelude. A matching one is returned as in ReturnOutput. The invariant is kept. |
| BufHandlers.HandleOutputBuffer | vidc/src/venus_hfi_response.c:838-998 | Decoder release responses and ordinary returns are told apart by RELEASE_DONE. A refused drain last flag always puts the session in error. The invariant is kept. |
| BufHandlers.HandleReleaseInternal | vidc/src/venus_hfi_response.c:1239-1285 | Succeeds exactly for an internal type with an entry at the address. A buffer whose release was requested is removed and destroyed; any other is only unqueued. Other kinds are untouched. |
| Batcher.MetaReturned | vidc/src/venus_hfi_response.c:1118-1152 | With metadata enabled, a data buffer's metadata buffer of the same index has been returned or completed. |
| Batcher.MetaCheckFrom | vidc/src/venus_hfi_response.c:1154-1181 | The scan from a position on passes exactly when every dequeued buffer from there on has its metadata back. |
| Batcher.CheckMetaBuffers | vidc/src/venus_hfi_response.c:1154-1181 | Ok exactly when every dequeued data buffer has its metadata back. Otherwise -EINVAL. |
| Batcher.Owed | vidc/src/venus_hfi_response.c:1195-1230 | A list is owed at most one notification per buffer. |
| Batcher.Complete | vidc/src/venus_hfi_response.c:1202-1213 | A completed buffer is no longer dequeued. It is marked done exactly when it was done or dequeued before. Nothing else about it changes. |
| Batcher.CompleteList | vidc/src/venus_hfi_response.c:1195-1230 | Without a cache failure, every buffer is completed and exactly the owed notifications are sent, in list order. |
| Batcher.CompleteAll | vidc/src/venus_hfi_response.c:1183-1237 | On success, all four lists are completed and the events are the owed notifications in the order input metadata, input, output metadata, output. A cache failure gives -EINVAL. |
| Batcher.HandleDequeueBuffers | vidc/src/venus_hfi_response.c:1183-1237 | Missing metadata gives -EINVAL with no change. Otherwise all lists are completed. Only the lists and the log change, and the invariant is kept. |
| Batcher.SettledListIsQuiet | vidc/src/venus_hfi_response.c:1195-1230 | A list with nothing due is left as it is and sends nothing. |
| Batcher.CompletionIdempotent | vidc/src/venus_hfi_response.c:1195-1230 | Completing a completed list changes nothing and notifies nobody, so each returned buffer reaches the client once. |
| Batcher.OwedOnlyDue | vidc/src/venus_hfi_response.c:1195-1230 | Every notification is for a buffer that was due. |
| Batcher.CacheFailureLosesBuffer | vidc/src/venus_hfi_response.c:1195-1230 | On a cache failure, the buffer is already marked done and no longer dequeued, so it is never handed back. Only the buffers before it were notified. |
| SessionBuffer.PortFromHfi | vidc/src/venus_hfi_response.c:84-127 | The bitstream port is a decoder's input and an encoder's output; the raw port is the reverse. |
| SessionBuffer.PortsSwapWithDomain | vidc/src/venus_hfi_response.c:84-127 | Each data port maps to a data port in both domains, and the two domains map it differently. |
| SessionBuffer.ValidTypesAreClientOrInternal | vidc/src/venus_hfi_response.c:148-168 | The valid buffer types are exactly the three client types and the internal ones. |
| SessionBuffer.PortNoneAlwaysRejected | vidc/src/venus_hfi_response.c:129-146 | The ARP/PERSIST exception for PORT_NONE has no effect: only the two data ports are valid, whatever the type. |
| SessionBuffer.TableFor | vidc/src/venus_hfi_response.c:1314-1416 | A handler table exists exactly for a decoder or encoder on a data port. |
| SessionBuffer.Dispatch | vidc/src/venus_hfi_response.c:1397-1405 | Every buffer handler keeps the invariant and the configuration, and never clears the error state. |
| SessionBuffer.LookupHandler | vidc/src/venus_hfi_response.c:1380-1405 | The search finds nothing exactly when no entry has the type. A found handler is an entry of the table for that type. |
| SessionBuffer.LookupIsMembership | vidc/src/venus_hfi_response.c:1380-1405 | In a table without repeated types, the first match is exactly membership. |
| SessionBuffer.TablesDistinct | vidc/src/venus_hfi_response.c:1314-1416 | No table lists a buffer type twice. |
| SessionBuffer.TableMembership | vidc/src/venus_hfi_response.c:1314-1416 | Each table holds exactly its port's data, metadata and scratch-buffer entries. |
| SessionBuffer.RoutesFollowDirection | vidc/src/venus_hfi_response.c:1314-1416 | Each buffer type goes to the handler of the port it arrived on. A type the port does not carry finds no handler. |
| SessionBuffer.HandleSessionBuffer | vidc/src/venus_hfi_response.c:1314-1416 | A payload-less command is ignored. A rejected one puts the session in error but reports success. A missing handler or domain gives -EINVAL. Otherwise the handler runs. The invariant and configuration are kept. |
| Commands.HandleLastFlagInfo | vidc/src/venus_hfi_response.c:278-302 | The PSC and drain last-flag information go to their processing, and any failure puts the session in error. Other information is accepted. |
| Commands.HandleSessionInfo | vidc/src/venus_hfi_response.c:304-342 | Corruption, overflow and fence errors are recorded against the frame, last flags are processed, and anything else is ignored. Only the frame, the error state and the log change. |
| Commands.HandleSessionError | vidc/src/venus_hfi_response.c:344-379 | Any session error puts the session in error and nothing else changes. |
| Commands.HandleStop | vidc/src/venus_hfi_response.c:461-503 | The stop is signalled for the driver port the HFI port stands for. A non-data port or an unknown domain gives -EINVAL. |
| Commands.InputPsc | vidc/src/venus_hfi_response.c:1418-1437 | A refused change gives -EINVAL and a deferred one Ok. An allowed one changes state and then reconfigures, stopping at the first failure. |
| Commands.HandlePortSettingsChange | vidc/src/venus_hfi_response.c:1439-1478 | The raw port reconfigures the output and the bitstream port the input. Any failure or unknown port puts the session in error. |
| Commands.HandleSessionCommand | vidc/src/venus_hfi_response.c:1520-1556 | Each of the twelve session commands reaches its handler, and any other command gives -EINVAL. The error state is monotone, and the configuration and invariant are kept. |
| Commands.CommandTableComplete | vidc/src/venus_hfi_response.c:1520-1556 | The acknowledged commands and the five with actions make up exactly the session command list. |
| Properties.DpbEntriesAreWhole | vidc/src/venus_hfi_response.c:1586-1612 | The marking loop sees exactly the addresses of whole 16-byte entries of the payload. |
| Properties.HandleDpbList | vidc/src/venus_hfi_response.c:1558-1628 | Non-decoders get -EINVAL. An oversized list clears the stored list and puts the session in error. Otherwise the list is stored, and exactly the read-only entries it no longer names become eligible for release. |
| Properties.DpbListIdempotent | vidc/src/venus_hfi_response.c:1558-1628 | Receiving the same DPB list twice changes nothing the second time. |
| Properties.SetSubcr | vidc/src/venus_hfi_response.c:1644-1680 | Storing a subscription parameter sets that field of that port and nothing else. |
| Properties.PictureType | vidc/src/venus_hfi_response.c:1690-1700 | The picture type is stored, a B picture is remembered, and the session's last picture counts as an I frame exactly when it is IDR. |
| Properties.FrameProperty | vidc/src/venus_hfi_response.c:1690-1740 | Each frame property sets its field. Sub-frame input is taken only on the input port, and a uniform tile spacing of zero marks non-uniform spacing. |
| Properties.HandleWithPayload | vidc/src/venus_hfi_response.c:1630-1760 | Subscription, crop, frame, entropy and DPB properties each update their part. Quality mode, stage and pipe change nothing. Only the DPB list can fail. |
| Properties.SubscriptionReadBack | vidc/src/venus_hfi_response.c:1644-1680 | A subscription parameter reads back as sent, and a repeated report changes nothing. |
| Properties.HandleWithoutPayload | vidc/src/venus_hfi_response.c:1762-1795 | An empty DPB list is handled as a DPB list. No-output is recorded only on the input port. Anything else is ignored. |
| Properties.HandleSessionProperty | vidc/src/venus_hfi_response.c:1797-1831 | An unknown port gives -EINVAL, an information-flagged property is ignored, and the payload check picks the handler. |
| Properties.PropertyTouchesNoClientBuffer | vidc/src/venus_hfi_response.c:1558-1831 | A property never returns a client buffer or changes the configuration, and keeps the invariant. It fails only for an unknown port or a bad DPB list. |
| Properties.ImageVersion | vidc/src/venus_hfi_response.c:1833-1861 | A short payload yields nothing. Otherwise the result is 128 bytes: 127 non-NUL bytes with NULs turned into spaces, then a NUL. |
| Properties.VersionIsOneString | vidc/src/venus_hfi_response.c:1833-1861 | The version has exactly one NUL, at the end, and each other byte is the firmware's byte or a space. |
| Properties.HandleSystemProperty | vidc/src/venus_hfi_response.c:1863-1878 | Only the image version is read. A too-short payload gives -EINVAL and keeps the old version. |
| Response.HandleInStage | vidc/src/venus_hfi_response.c:1926-1971 | Every pass's handler keeps the error state monotone, the configuration unchanged and the invariant. |
| Response.StepPacket | vidc/src/venus_hfi_response.c:1940-1958 | A packet is handled by a pass exactly when its type is in the pass's range. A SESSION_ERROR flag puts the session in error. The dequeue flag is raised only by a buffer command. |
| Response.RunStage | vidc/src/venus_hfi_response.c:1940-1958 | One pass handles exactly the in-range packets in order, and records whether any was a buffer command. A flagged error anywhere puts the session in error. |
| Response.RunStages | vidc/src/venus_hfi_response.c:1937-1960 | The passes keep the configuration and invariant. A flagged session error anywhere puts the session in error. |
| Response.SessionPasses | vidc/src/venus_hfi_response.c:1937-1960 | The four passes make exactly the expected handler calls. Dequeueing is requested exactly when the message has a buffer command. |
| Response.StageTraceExact | vidc/src/venus_hfi_response.c:1940-1958 | A pass calls its handler for exactly the packets in its range. |
| Response.StageTraceInOrder | vidc/src/venus_hfi_response.c:1940-1958 | Within a pass, handler calls follow packet order. |
| Response.ExpectedTraceInOrder | vidc/src/venus_hfi_response.c:1926-1971 | Handler calls are ordered by pass (error, information, property, command) and then by packet, and a packet is handled exactly by the pass whose range holds its type. |
| Response.HandleSessionMessage | vidc/src/venus_hfi_response.c:1926-1971 | Exactly the expected handler calls are made, and the batch completes exactly when a buffer command was seen. A successful batch leaves no buffer due. The frame information is reset unless completion failed. The invariant is kept. |
| Response.FinishMessage | vidc/src/venus_hfi_response.c:1963-1970 | Buffers are completed exactly when a buffer command was seen. The frame information is cleared unless completion failed. A successful completion leaves no buffer due. |
| Response.FindInputPsc | vidc/src/venus_hfi_response.c:1984-1999 | Found exactly when some packet is a settings change on the bitstream port. |
| Response.HandleSessionResponse | vidc/src/venus_hfi_response.c:1973-2014 | A message for an unknown session gives -EINVAL with no change. Otherwise only the addressed session changes. |
| Response.HandleSystemError | vidc/src/venus_hfi_response.c:381-408 | A system error tears the core down once (one more deinit) and changes nothing else. |
| Response.HandleSystemInit | vidc/src/venus_hfi_response.c:410-431 | The core counts as initialised exactly after a successful response to the pending init command. |
| Response.SysStep | vidc/src/venus_hfi_response.c:1894-1915 | A system error ends the message after one teardown. Out-of-range packets change nothing. No session changes. |
| Response.SysRunStage | vidc/src/venus_hfi_response.c:1894-1915 | A pass without a system error tears nothing down, and a stopped walk stays stopped. |
| Response.SysRunStages | vidc/src/venus_hfi_response.c:1880-1924 | A stopped walk stays stopped, and the sessions are never touched. |
| Response.HandleSystemResponse | vidc/src/venus_hfi_response.c:1880-1924 | A core message never changes a session. |
| Response.VersionsRead | vidc/src/venus_hfi_response.c:1863-1878 | The version after a run of packets is the one it started with, or one an IMAGE_VERSION packet among them carried; with no readable version among them, it is unchanged. |
| Response.ErrorPassIdle | vidc/src/venus_hfi_response.c:1894-1919 | In a message without system errors, the system-error pass does nothing. |
| Response.PropertyStep | vidc/src/venus_hfi_response.c:1907-1910 | A property packet without a system error either updates the version and goes on, or, as an unreadable IMAGE_VERSION, stops the message with -EINVAL and the core unchanged. |
| Response.PropertyPass | vidc/src/venus_hfi_response.c:1894-1919 | The property pass reads each version up to the first unreadable IMAGE_VERSION. That one ends the message with -EINVAL; otherwise the pass ends with Ok and goes on. |
| Response.InitPass | vidc/src/venus_hfi_response.c:1894-1919 | The init pass marks the core initialised exactly when a packet in it is a SUCCESS command response carrying the pending init id, and changes nothing else. |
| Response.SystemMessageWithoutError | vidc/src/venus_hfi_response.c:1880-1924 | For a core message without a system error, the stored version is the last IMAGE_VERSION read successfully before the first unreadable one. An unreadable one returns -EINVAL and skips the init pass. Otherwise the result is Ok, and the core becomes initialised exactly when a SUCCESS response to the pending init command arrives. Nothing is torn down, and no session changes. |
| Response.SystemErrorStopsMessage | vidc/src/venus_hfi_response.c:1880-1924 | A system error anywhere in a core message, flagged or by type, gives one teardown and Ok. |
| Response.HandleResponse | vidc/src/venus_hfi_response.c:2016-2034 | A message failing validation is handled as a system error. Session id 0 changes no session, and any other id changes at most that session. |
| Response.ResponsePreservesInvariant | vidc/src/venus_hfi_response.c:2016-2034 | Every session keeps its invariant across any message. |
| BufferCounts.Shl1 | vidc/src/msm_vidc_buffer.c:30-33 | `1 << n` is 2 to the n for shifts below 32. |
| BufferCounts.InputMinCount | vidc/src/msm_vidc_buffer.c:16-45 | No domain gives 0 and thumbnail or image gives 1. A decoder uses the platform minimum. An encoder with hier-B layering uses 2^layers + 2, and otherwise the platform minimum. |
| BufferCounts.HierBNeedsLayering | vidc/src/msm_vidc_buffer.c:24-33 | H.264 without layering ignores a hier-B request. |
| BufferCounts.InputMinCountPositive | vidc/src/msm_vidc_buffer.c:16-45 | With platform minimums of at least one, every session with a domain needs an input buffer. |
| BufferCounts.InitialOutputCount | vidc/src/msm_vidc_buffer.c:77-97 | The codec table: 9 exactly for VP9, 11 exactly for AV1, 3 exactly for HEIC, and 4 for H.264, HEVC and any other codec. |
| BufferCounts.OutputMinCount | vidc/src/msm_vidc_buffer.c:47-98 | No domain gives 0, a thumbnail 1 and an encoder the platform minimum. A decoder uses the codec table until the firmware gives a count. After that it uses the firmware count, except that split-mode AV1/VP9 gets min(4, firmware count), so the count is below the firmware's exactly when that count exceeds 4. |
| BufferCounts.FirmwareCountOverridesTable | vidc/src/msm_vidc_buffer.c:59-68 | Outside split mode, the firmware's count wins whatever the codec. |
| BufferCounts.InputExtraCount | vidc/src/msm_vidc_buffer.c:100-133 | A batching decoder's minimum plus extras reaches the batch size. An encoder gets the DCVS headroom. |
| BufferCounts.OutputExtraCount | vidc/src/msm_vidc_buffer.c:135-165 | A decoder gets DCVS headroom (none for AV1), raised to the batch size when batching. |
| BufferCounts.ThumbnailRunsOnOneBuffer | vidc/src/msm_vidc_buffer.c:16-165 | A thumbnail session has one buffer per port and no extras. |
| BufferCounts.BatchingFillsBothPorts | vidc/src/msm_vidc_buffer.c:100-165 | With batching, each port of a decoder holds at least a batch. |
| BufferCounts.InternalBufferCount | vidc/src/msm_vidc_buffer.c:167-198 | An encoder gets one of each internal kind. A decoder gets one of BIN, LINE, PERSIST and PARTIAL_DATA, plus COMV and NON_COMV for H.264, HEVC, HEIC and AV1. |
| BufferSizes.AlignTo | vidc/src/msm_vidc_buffer.c:310-313 | The aligned value is a multiple of the alignment, and where nothing wraps it is the least one not below the input. |
| BufferSizes.DecoderInputScale | vidc/src/msm_vidc_buffer.c:229-256 | The divisor is 1, 2, 4 or 8. Image sessions and cores with more than 16 sessions use the frame's own macroblocks, undivided. |
| BufferSizes.TenBitMonotone | vidc/src/msm_vidc_buffer.c:258-262 | Adding the 10-bit quarter never makes a buffer smaller. |
| BufferSizes.DecoderInputSize | vidc/src/msm_vidc_buffer.c:200-267 | A client override is used as is. Otherwise the size is page-rounded. |
| BufferSizes.DecoderInputSizeIsPageRounded | vidc/src/msm_vidc_buffer.c:254-266 | Without an override, where nothing wraps, the size covers the macroblock budget scaled and divided as the session dictates. |
| BufferSizes.SecureNeverLarger | vidc/src/msm_vidc_buffer.c:243-244 | Where nothing wraps, a secure session's input buffer is never larger than the same non-secure session's. |
| BufferSizes.DecoderOutputMetaSize | vidc/src/msm_vidc_buffer.c:288-296 | The metadata area plus Dolby RPU space when enabled, page-rounded. |
| BufferSizes.EncoderInputFrame | vidc/src/msm_vidc_buffer.c:298-316 | An image session's frame is aligned to the grid, and any other is kept. |
| BufferSizes.DeliverySize | vidc/src/msm_vidc_buffer.c:318-351 | Outside slice delivery of H.264/HEVC with MAX_MB slices, the frame size is kept. Otherwise the size is page-rounded. |
| BufferSizes.CeilShare | vidc/src/msm_vidc_buffer.c:346-347 | Where nothing wraps, the share is the least amount that, over all units, covers the bytes. |
| BufferSizes.PageRoundedShare | vidc/src/msm_vidc_buffer.c:346-349 | A page-rounded share still covers the bytes and exceeds the share by under a page. |
| BufferSizes.SliceHoldsItsShare | vidc/src/msm_vidc_buffer.c:339-350 | A slice buffer holds its share of the frame for SLICE_MAX_MB units. |
| BufferSizes.Yuv2 | vidc/src/msm_vidc_buffer.c:371-374 | Up to 8223 pixels a side, `w*h*3` does not wrap. |
| BufferSizes.EncoderOutputSize | vidc/src/msm_vidc_buffer.c:353-407 | The size is page-rounded and, outside slice delivery and 10-bit codecs, is the page-rounded frame share. |
| BufferSizes.ConstantQualityNeverSmaller | vidc/src/msm_vidc_buffer.c:376-400 | Where nothing wraps, constant quality never gets a smaller bitstream buffer than another rate control. |
| BufferSizes.RoiBytes | vidc/src/msm_vidc_buffer.c:422 | The ROI map is a multiple of 16 bytes. |
| BufferSizes.RoiMetadataSizeLoop | vidc/src/msm_vidc_buffer.c:409-423 | The shift loop computes the closed form as written, a multiple of 16 bytes. |
| BufferSizes.ShrByLcu | vidc/src/msm_vidc_buffer.c:414-420 | Shifting right by the LCU's log2 divides by the LCU size. |
| BufferSizes.RoiAsWrittenRoundsDown | vidc/src/msm_vidc_buffer.c:409-423 | As written, for LCU 16 and 32 the map has width/lcu columns and height/lcu rows, rounded down. |
| BufferSizes.RoiAsWrittenDropsLastRow | vidc/src/msm_vidc_buffer.c:409-423 | 1920x1080 at LCU 16: 67 rows as written against the 68 the frame touches. |
| BufferSizes.RoiMetadataSize | vidc/src/msm_vidc_buffer.c:409-423 | The intended ROI size is a multiple of 16 bytes. |
| BufferSizes.RoiGrid | vidc/src/msm_vidc_buffer.c:409-423 | The intended map has ceil(width/lcu) columns and ceil(height/lcu) rows. |
| BufferSizes.RoiCoversFrame | vidc/src/msm_vidc_buffer.c:409-423 | The intended map's columns and rows cover the frame and exceed it by less than one LCU. |
| BufferSizes.EncoderInputMetaSize | vidc/src/msm_vidc_buffer.c:425-457 | The encoder's input metadata adds the ROI map as written (ROI_METADATA_SIZE's round-down) to the base area. Without ROI or Dolby, it is the base area; otherwise the size is page-rounded. |
| BufferSizes.EncoderInputMetaWith | vidc/src/msm_vidc_buffer.c:432-456 | Given the ROI map's size: the base area without ROI or Dolby, otherwise page-rounded, and with ROI it has room for the base area plus the map where nothing wraps. |
| BufferSizes.EncoderInputMetaSizeIntended | vidc/src/msm_vidc_buffer.c:425-457 | The same buffer with the ROI map sized as intended: the base area without ROI or Dolby, otherwise page-rounded. |
| BufferSizes.RoiAsWrittenShortOfFrame | vidc/src/msm_vidc_buffer.c:409-449 | A 128x4104 H.264 input with a 16384-byte base area: the driver allocates 20480 bytes, 16 bytes short of the base area plus the 257-row map the frame needs. As intended, the buffer is 24576 bytes. |
| BufferSizes.MetadataRoomForBase | vidc/src/msm_vidc_buffer.c:283-296 | Where nothing wraps, every metadata buffer holds the base area. The encoder's input metadata also holds the ROI map the driver sizes as written, and the intended buffer holds the full map. |
| Iris3.Watchdog | variant/iris3/src/msm_vidc_iris3.c:723-733 | 1 exactly when bit 3 is set, and 0 otherwise. |
| Iris3.WatchdogReadsOnlyBit3 | variant/iris3/src/msm_vidc_iris3.c:723-733 | Statuses agreeing on bit 3 give the same answer. |
| Iris3.DecideWorkMode | variant/iris3/src/msm_vidc_iris3.c:856-917 | Images: one stage for decode, two for encode. A video decoder uses one stage exactly for interlaced, low-latency or below-720p input. An encoder uses one stage exactly when something asks for it and neither lossless nor GOP 0 overrides. No domain gives -EINVAL. |
| Iris3.LosslessOrIntraOnlyTakesTwoStages | variant/iris3/src/msm_vidc_iris3.c:900-904 | Lossless coding or an intra-only GOP keeps an encoder on two stages. |
| Iris3.DecideWorkRoute | variant/iris3/src/msm_vidc_iris3.c:919-953 | All the core's pipes, except one for an interlaced decoder or a byte-sliced encoder. No domain gives -EINVAL. |
| Iris3.OnePipeMeansOneStage | variant/iris3/src/msm_vidc_iris3.c:856-953 | A video session narrowed to one pipe also runs on one stage, unless lossless or GOP 0 applies. |
| Iris3.DecideQualityMode | variant/iris3/src/msm_vidc_iris3.c:955-999 | Only an encoder gets a mode. It is max quality exactly for image, lossless or all-intra sessions, or at default complexity or above when non-realtime conditions hold or the load is within the HQ limits. |
| Iris3.LowComplexitySavesPower | variant/iris3/src/msm_vidc_iris3.c:971-975 | Below default complexity, the encoder saves power. |
| Iris3.QualityKeptForSmallerFrames | variant/iris3/src/msm_vidc_iris3.c:977-996 | Where the load does not wrap, a smaller frame never loses max quality. |
| Iris3.BoostBeforeCheck | variant/iris3/src/msm_vidc_iris3.c:1026-1041 | A client's boost is kept. Otherwise the maximum applies up to 4096x2176 at 60 fps, and 0 above. |
| Iris3.CDiv | variant/iris3/src/msm_vidc_iris3.c:1052 | C division agrees with Dafny's on non-negative operands. |
| Iris3.BoostTooHighAsWritten | variant/iris3/src/msm_vidc_iris3.c:1051-1057 | The check as written divides by zero exactly for a boost above 100 or below -100. |
| Iris3.BoostAsWrittenDividesByZero | variant/iris3/src/msm_vidc_iris3.c:1051-1057 | A client boost of 101 makes the check as written divide by zero, while the intended check keeps it. |
| Iris3.BoostAsWrittenOverchecks | variant/iris3/src/msm_vidc_iris3.c:1051-1057 | Bitrate 1000, maximum 1800, boost 75: the check as written removes the boost, and the intended one keeps it. |
| Iris3.BoostChecksAgreeOnDivisors | variant/iris3/src/msm_vidc_iris3.c:1051-1057 | For every boost from 1 to 100 that divides 100, the written and intended checks agree wherever the boosted bitrate fits in a u32. |
| Iris3.AdjustBitrateBoostAsWritten | variant/iris3/src/msm_vidc_iris3.c:1001-1063 | A streaming queue changes nothing, and a failed parent lookup gives -EINVAL. Rate control other than VBR gives 0, and so does a zero pre-check boost. The check divides by zero exactly when the pre-check boost lies beyond 100 either way. A non-zero boost is set only for VBR: it is the pre-check boost, and only when the check as written passes. For VBR with a non-zero boost inside ±100, a boost that passes is kept and one that fails is set to 0. |
| Iris3.BoostAsWrittenAgreesOnDivisors | variant/iris3/src/msm_vidc_iris3.c:1001-1063 | When the pre-check boost is 0, or a divisor of 100 up to 100 whose boosted bitrate fits in a u32, the adjustment as written gives what the intended one gives. |
| Iris3.CDivHundredZero | variant/iris3/src/msm_vidc_iris3.c:1052 | C's `100 / boost` is 0 exactly when the boost is above 100 or below -100. |
| Iris3.AdjustBitrateBoost | variant/iris3/src/msm_vidc_iris3.c:1001-1063 | A streaming queue gets no update, and a missing parent gives -EINVAL. A non-zero boost is set only for VBR: the pre-check boost, and only when the boosted bitrate fits under the maximum. For VBR, the boost drops to 0 exactly when it would not fit. |
| Iris3.SmallerBoostStillFits | variant/iris3/src/msm_vidc_iris3.c:1051-1057 | A boost that fits keeps fitting when lowered. |

## Left out

- Logging, statistics, timestamps reordering, locks, `BUG_ON`s and the system-error recovery work beyond core deinit are not modelled; core deinit is a counter.
- Collaborators outside the three files (state machine, vb2, cache operations, fences, pool allocation, port reconfiguration, buffer_size session op) are `Env` outcomes; their effects appear only as logged events.
- `msm_vidc_dqbuf_cache_operation`'s return code is reported as -EINVAL; `msm_vidc_change_state` and internal-buffer destruction are assumed to return Ok.
- The HFI header constants (packet types, ranges, flags, structure sizes) are not part of this model's source files; values with the same distinctness and range membership are used.
- A word read past the end of a packet's payload is read from the rest of the response buffer, and past the buffer as 0.
- Response.HandleResponse: requires a buffer of at least one header; the driver's response buffer is always that large.
- BufferCounts.Shl1: a shift by 32 or more is undefined in C and is taken as 0.
- BufferSizes.AlignTo: rounds to a true multiple; the kernel's mask agrees only for power-of-two alignments, so a non-power-of-two GRID_SIZE is not modelled exactly.
- BufferSizes.DeliverySize: requires a non-zero LCU count on the slice path, where the source divides by it.
- `video_buffer_size`, `msm_vidc_get_mbs_per_frame`, `msm_vidc_get_fps`, `msm_vidc_get_max_bitrate`, `res_is_less_than` and its siblings are inputs, so `msm_vidc_decoder_output_size` and the raw input size are not computed.
- InternalBufferCount accepts only internal kinds; client buffer types go through the count functions of their port.
- Iris3's power, clock, register and interrupt code apart from the watchdog bit is not modelled.

## Findings

| source | as written | input that shows it | evidently intended | confidence | as-written member | corrected member |
|---|---|---|---|---|---|---|
| vidc/src/venus_hfi_response.c:183-189 | the address check admits `pkt == limit` and reads the size word before checking 4 bytes remain | a 64-byte response whose header claims 2 packets but holds one 32-byte packet | reject a packet whose size word is not inside the buffer | medium, not executed | Validate.OverrunMessageReadsPastEnd | Validate.ValidateHeader |
| variant/iris3/src/msm_vidc_iris3.c:1051-1057 | `bitrate / (100 / boost)` divides by zero for boost above 100 and checks 100% headroom for boost 51 to 99 | client boost 101; or bitrate 1000, max 1800, boost 75 | keep the boost when `bitrate + bitrate * boost / 100` fits under the maximum | low, not executed (the platform's BITRATE_BOOST range may keep these values out) | Iris3.BoostAsWrittenDividesByZero | Iris3.AdjustBitrateBoost |
| vidc/src/msm_vidc_buffer.c:414-420 | the loop shifts `lcu_size` down to 1 before the rounding term `lcu_size - 1` is used, so columns and rows round down | 1920x1080 at LCU 16 gives 67 rows, not 68; a 128x4104 H.264 input gets a metadata buffer 16 bytes short of the base area plus its map | round up with the original LCU size | medium, not executed | BufferSizes.RoiAsWrittenDropsLastRow | BufferSizes.RoiCoversFrame |
