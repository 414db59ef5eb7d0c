# ml8 layer-label keyboard and its `kbp` host tool, in Dafny

This project models two ends of a small USB protocol:

- **The firmware** of the ml8 macro keyboard, a QMK keyboard. It shows a text label for each of its four layers on an OLED display.
  - A host can change a label over raw HID. It sends 32-byte frames starting with the header `"ml"` (0x6d 0x6c).
  - A label is an 87-byte, NUL-terminated buffer.
  - The user labels are kept in EEPROM. The factory (system) labels are snapshotted there too, so that an `OLED_RESET` can bring them back.
- **The host side.**
  - Package `kbp` builds the frames. It splits a label text into chunks of at most 25 bytes and checks that every reply is an ACK.
  - Package `cli` finds the keyboard among the enumerated HID interfaces.
  - The command-line tool `kbp` parses the `-device` query string and the flags.

The modules follow the source files:

| module (file) | models |
|---|---|
| `Config`, `HidCodes` (config.dfy) | widths, sizes and command codes from `config.h`, `hid_codes.h` and `kb.go` |
| `CStrings` (cstrings.dfy) | `strnlen`, `strncpy` and the "NUL in the last byte" idiom, over byte sequences |
| `Qmk` (qmk.dfy) | the QMK services the firmware calls: the EEPROM region as a byte sequence, the OLED driver as a log of calls, `raw_hid_send` as a log of packets, and the highest active layer |
| `LayerText` (layer_text.dfy) | the globals of `oled_handlers.c` (the `Oled` class) and `oled_update` |
| `Persistence` (persistence.dfy) | `persistence.c`: the EEPROM layout as pure image functions, and each C function as a method proved against them |
| `OledHandlers` (oled_handlers.dfy) | `oled_layer_update`, `oled_task_user`, `set_oled_state` |
| `Base` (base.dfy) | `base.c`: the once-only init flag, layer cycling, key processing |
| `HidHandlers` (hid_handlers.dfy) | `hid_handlers.c`: the `Transfer` class over an 87-byte array, the dispatcher, and a pure state machine over a `Firmware` value that the methods are proved against |
| `HidQuery` (hid_query.dfy) | `cli/hid.go`: the match predicate, the `QueryParams` class and its setters, the query filter and the `openDevice` decision |
| `Kb` (kb.dfy) | `kbp/kb.go`: the frame builders over an `array<byte>`, the `Device` class (scripted writes and replies), `handleAckOrNack`, `sendSegmented` and the `Send*` calls |
| `KbpMain` (kbp_main.dfy) | `kbp/cmd/kbp/main.go`: `parse`, `getDev`, the `\n` replacement, and the flag precedence of `main` |
| `Protocol`, `ProtocolRequests` (protocol.dfy) | the host's frames fed to the firmware's handler, and the firmware's replies fed back to the host |

The firmware's C functions become methods over the classes `Transfer`, `Oled`, `Platform` and `Keyboard`. Each method's `ensures` ties the new state to a pure function of the old state, and the properties are lemmas about those functions. The host's `With*` setters, `prepare*` builders, `Device` and `sendSegmented` loop are imperative in the same way.

Some behaviours of the code are easy to miss, and the model follows the code in each:

- `eeprom_config_init` writes no user-config header (`persistence.c:162-173`). After a first boot or a version change, the header byte keeps whatever the EEPROM held; see `InitImageHeader` and `BootOnMismatch`.
- `CONT` and `COMPLETE` check only the layer, never whether a transfer is open, although the comment at `hid_handlers.c:84-85` says the transfer is validated. So a stray `COMPLETE` commits an empty label; see `StrayCompleteClearsLabel`.
- NACK, ACK and ECHO replies are not padded: the firmware initialises only their first 1, 2 and 29 bytes (`hid_handlers.c:31-45, 144-150`). The model logs those bytes, and the host-side model reads the rest of the 32-byte report as zeros. HELLO is the exception: `strncpy` NUL-pads the greeting to 30 bytes (`hid_handlers.c:153-160`), so all 32 bytes are set, and `HelloPacket` has all 32.

Where the code is evidently wrong (see Findings), the model has both halves. The code as written is a pure function beside the model, with lemmas that exhibit the fault. The corrected behaviour is what the methods and the end-to-end lemmas use:

- The capacity check at `hid_handlers.c:112` lets a chunk end at byte 87, and the NULs after it are then stored past the buffer and past the label. `LayerStepAsWritten` follows the code and records each such store. `LayerStep`, the dispatcher methods and the `Protocol` lemmas use the corrected check.
- `oled_handlers.c:49` puts the NUL past the label for data with no NUL in its first 87 bytes. `LayerUpdateLabelsAsWritten` follows the code. `OledLayerUpdate` and the functions it is proved against put the NUL in byte 86.
- `getDev` (`main.go:110-119`) crashes on a malformed `-device` string and goes on with the zero device when no unique device matches. `GetDevAsWritten` follows the code. `GetDev` and `Program` report an error instead.

## Model

Source paths are relative to the repository root.

| member | source | states |
|---|---|---|
| CStrings.StrNLen | firmware/keyboards/ml8/ml8_9/oled_handlers.c:49 | strnlen: the index of the first NUL within the bound, or the bound; every byte before it is non-NUL |
| CStrings.StrNCpy | firmware/keyboards/ml8/ml8_9/persistence.c:155 | strncpy: the bytes before the first NUL are copied and the rest of the n bytes are NUL |
| CStrings.Terminated | firmware/keyboards/ml8/ml8_9/persistence.c:122 | forcing a NUL into the last byte keeps every other byte |
| CStrings.CText | firmware/keyboards/ml8/ml8_9/oled_handlers.c:75 | the C string of a buffer is its NUL-free prefix, followed by a NUL when shorter than the buffer |
| CStrings.FromText | firmware/keyboards/ml8/ml8_9/oled_handlers.c:15-20 | a NUL-padded label holds its text followed by a NUL and is a C string |
| CStrings.CanonicalText | firmware/keyboards/ml8/ml8_9/persistence.c:121-122 | a copy truncated to the label and NUL-terminated in its last byte keeps the text before the first NUL, at most 86 bytes |
| CStrings.CanonicalCText | firmware/keyboards/ml8/ml8_9/oled_handlers.c:48-49 | the C string of a copy truncated to the label and NUL-terminated in its last byte is the text before the first NUL, at most 86 bytes |
| CStrings.CanonicalAt | firmware/keyboards/ml8/ml8_9/persistence.c:121-122 | byte i of that copy is the source byte before the text ends and byte 86, NUL otherwise |
| CStrings.CanonicalOfFromText | firmware/keyboards/ml8/ml8_9/persistence.c:121-122 | a NUL-padded label is its own copy, and its C string is its text |
| CStrings.CanonicalOfCString | firmware/keyboards/ml8/ml8_9/persistence.c:121-122 | when the buffer holds a NUL, the forced last NUL changes nothing |
| CStrings.CanonicalStable | firmware/keyboards/ml8/ml8_9/persistence.c:155 | copying a persisted label again changes nothing |
| Qmk.Written | firmware/keyboards/ml8/ml8_9/persistence.c:88 | eeprom_write_block puts the data at its address |
| Qmk.WrittenAt | firmware/keyboards/ml8/ml8_9/persistence.c:88 | after a block write, bytes inside the block are the data and bytes outside it are unchanged |
| Qmk.Platform.ReadBlock | firmware/keyboards/ml8/ml8_9/persistence.c:101 | eeprom_read_block returns the bytes at the address |
| Qmk.Platform.WriteBlock | firmware/keyboards/ml8/ml8_9/persistence.c:88 | eeprom_write_block changes the image to the block write |
| Qmk.Platform.LayerMove | firmware/keyboards/ml8/ml8_9/base.c:46 | layer_move makes the layer the highest active one |
| LayerText.UpdateEvents | firmware/keyboards/ml8/ml8_9/oled_handlers.c:67-79 | oled_update draws nothing for an invalid layer; otherwise clear, cursor, the label's text, and render exactly when forced |
| LayerText.Oled.constructor | firmware/keyboards/ml8/ml8_9/oled_handlers.c:23-25 | the globals start with empty labels, the display on and the last layer LAYER_COUNT |
| LayerText.Oled.Update | firmware/keyboards/ml8/ml8_9/oled_handlers.c:67-79 | oled_update appends exactly those driver calls |
| Persistence.LayoutOffsets | firmware/keyboards/ml8/ml8_9/persistence.c:21-25 | magic at +0, version at +2, restore slot i at +4+87i, header at +700, user label i at +701+87i; the layout ends at 1049, inside the 8 KiB region |
| Persistence.DecodeEncode | firmware/keyboards/ml8/ml8_9/persistence.c:163-165 | a 16-bit field reads back what was written to it |
| Persistence.WriteSlotsOutside | firmware/keyboards/ml8/ml8_9/persistence.c:83-90 | writing the slots of a block leaves every byte outside the block alone |
| Persistence.WriteSlotsSlot | firmware/keyboards/ml8/ml8_9/persistence.c:83-90 | slot j of the written block holds label j |
| Persistence.LoadWrittenSlots | firmware/keyboards/ml8/ml8_9/persistence.c:152-157 | reading back the slots of a written block gives the strncpy copy of each label |
| Persistence.CanonicalBlockReadsBack | firmware/keyboards/ml8/ml8_9/persistence.c:119-125 | a block of labels written as strncpy copies with a NUL in the last byte reads back, slot by slot, as exactly those copies |
| Persistence.CanonicalAll | firmware/keyboards/ml8/ml8_9/persistence.c:119-125 | every label is persisted as its copy NUL-terminated in its last byte |
| Persistence.PersistRestoreRoundTrip | firmware/keyboards/ml8/ml8_9/persistence.c:109-159 | persisting the user labels and then restoring them gives every label as persisted, whatever was in memory before; a label already in persisted form comes back unchanged |
| Persistence.PersistUserKeepsPrefix | firmware/keyboards/ml8/ml8_9/persistence.c:109-127 | persisting user labels writes only from +700 on: magic, version and the restore blob stay |
| Persistence.VoidOnlyHeader | firmware/keyboards/ml8/ml8_9/persistence.c:130-150 | voiding changes only the header byte, to 0xff, and a later restore leaves the labels in memory alone |
| Persistence.VoidKeepsStaleLabels | firmware/keyboards/ml8/ml8_9/persistence.c:130-137 | after voiding, the stale label bytes are still readable |
| Persistence.VoidKeepsSystemLabels | firmware/keyboards/ml8/ml8_9/persistence.c:130-137 | voiding leaves the restore blob alone |
| Persistence.SystemLabelsAreCStrings | firmware/keyboards/ml8/ml8_9/persistence.c:185-189 | every factory label is a C string, so copying them into the user labels gives them as persisted |
| Persistence.BootOnMismatch | firmware/keyboards/ml8/ml8_9/persistence.c:215-232 | with a wrong magic or version, init stamps magic and version, snapshots the factory labels, leaves the header and user label bytes alone, and keeps the factory labels in memory |
| Persistence.InitImageHeader | firmware/keyboards/ml8/ml8_9/persistence.c:162-173 | eeprom_config_init stamps magic and version and writes nothing from the header byte on |
| Persistence.InitImageBlob | firmware/keyboards/ml8/ml8_9/persistence.c:162-173 | eeprom_config_init snapshots the factory labels so that a restore yields them |
| Persistence.BootOnMatch | firmware/keyboards/ml8/ml8_9/persistence.c:220-229 | with magic and version current, init writes nothing and loads the user labels exactly when the header is 0x55; otherwise the factory labels stay |
| Persistence.PersistThenBoot | firmware/keyboards/ml8/ml8_9/persistence.c:215-232 | persisted user labels survive a restart, each as persisted |
| Persistence.ResetAfterInit | firmware/keyboards/ml8/ml8_9/persistence.c:203-213 | after an initialisation, the restore blob gives back the factory labels, also once the user labels are voided |
| Persistence.EepromIsInit | firmware/keyboards/ml8/ml8_9/persistence.c:62-67 | true exactly when the magic word is 0xdead |
| Persistence.EepromVersion | firmware/keyboards/ml8/ml8_9/persistence.c:69-74 | the stored version |
| Persistence.WriteLabelSlots | firmware/keyboards/ml8/ml8_9/persistence.c:119-125 | the shared loop writes each label, copied and NUL-terminated, to the next slot |
| Persistence.EepromPersistSystemLayers | firmware/keyboards/ml8/ml8_9/persistence.c:77-92 | the image becomes the factory labels written into the restore blob |
| Persistence.EepromRestoreSystemLayers | firmware/keyboards/ml8/ml8_9/persistence.c:95-106 | the user labels become the blob's slots, strncpy'd |
| Persistence.EepromPersistUserLayers | firmware/keyboards/ml8/ml8_9/persistence.c:109-127 | the image gets header 0x55 and every user label |
| Persistence.EepromClearUserLayers | firmware/keyboards/ml8/ml8_9/persistence.c:130-137 | the image becomes the voided image |
| Persistence.EepromRestoreUserLayers | firmware/keyboards/ml8/ml8_9/persistence.c:140-159 | the user labels become the stored ones when the header is valid, else stay |
| Persistence.EepromConfigInit | firmware/keyboards/ml8/ml8_9/persistence.c:162-173 | the image becomes the initialised image |
| Persistence.PersistUserLayerLabels | firmware/keyboards/ml8/ml8_9/persistence.c:177-183 | persists every user label |
| Persistence.RecoverFromInMemSystemLayerLabels | firmware/keyboards/ml8/ml8_9/persistence.c:185-189 | the user labels become the factory labels |
| Persistence.RestoreUserLayerLabels | firmware/keyboards/ml8/ml8_9/persistence.c:192-200 | restores the user labels, then redraws the current layer |
| Persistence.ResetLayerLabels | firmware/keyboards/ml8/ml8_9/persistence.c:203-213 | loads the restore blob, redraws, then voids the user labels |
| Persistence.PersistenceInit | firmware/keyboards/ml8/ml8_9/persistence.c:215-234 | the labels and image persistence_init leaves, as stated by the boot lemmas |
| OledHandlers.NormalizeLayer | firmware/keyboards/ml8/ml8_9/oled_handlers.c:37-45 | a layer from '0' on is taken as a digit; the result is valid exactly for 0 to 3 and '0' to '3' |
| OledHandlers.TerminatorIndexAsWritten | firmware/keyboards/ml8/ml8_9/oled_handlers.c:49 | the index of the NUL line 49 writes reaches 87 exactly when the data holds no NUL in its first 87 bytes |
| OledHandlers.TerminatorOverflowsAsWritten | firmware/keyboards/ml8/ml8_9/oled_handlers.c:49 | 87 non-NUL bytes make line 49 write one byte past the label |
| OledHandlers.StoredLabel | firmware/keyboards/ml8/ml8_9/oled_handlers.c:48-49 | the stored label is a C string that strncpy leaves unchanged |
| OledHandlers.StoredLabelAgreesAsWritten | firmware/keyboards/ml8/ml8_9/oled_handlers.c:48-49 | on every input line 49 handles in bounds, the stored label is the as-written one |
| OledHandlers.LayerUpdateLabelsAsWritten | firmware/keyboards/ml8/ml8_9/oled_handlers.c:35-49 | as written, the update leaves four labels |
| OledHandlers.LayerUpdateAsWrittenAgrees | firmware/keyboards/ml8/ml8_9/oled_handlers.c:48-49 | on data holding a C string, the labels as written are the stored labels |
| OledHandlers.LayerUpdateAsWrittenClearsNext | firmware/keyboards/ml8/ml8_9/oled_handlers.c:48-49 | on data with no NUL in its first 87 bytes, as written, the label keeps all 87 bytes with no NUL, the next layer's label becomes empty and the others stay, while the corrected label keeps 86 bytes |
| OledHandlers.StoredLabelText | firmware/keyboards/ml8/ml8_9/oled_handlers.c:48-49 | the stored text is the data up to its first NUL, cut at 86 bytes |
| OledHandlers.LayerUpdatePersists | firmware/keyboards/ml8/ml8_9/oled_handlers.c:35-57 | only the addressed layer's label changes, and the next boot restores the updated labels |
| OledHandlers.LayerUpdateInvalidLayer | firmware/keyboards/ml8/ml8_9/oled_handlers.c:42-45 | an invalid layer leaves labels, EEPROM and display alone |
| OledHandlers.LayerUpdateShowsText | firmware/keyboards/ml8/ml8_9/oled_handlers.c:52-55 | updating the shown layer redraws it with the new text and renders |
| OledHandlers.TaskIdempotent | firmware/keyboards/ml8/ml8_9/oled_handlers.c:88-92 | after a tick, a tick on the same layer draws nothing and remembers the same layer |
| OledHandlers.FirstTickDraws | firmware/keyboards/ml8/ml8_9/oled_handlers.c:23 | since the last layer starts at LAYER_COUNT, the first tick draws the current label |
| OledHandlers.TaskQuietWhenIdle | firmware/keyboards/ml8/ml8_9/oled_handlers.c:83-85 | before init completes or with the display off, a tick does nothing |
| OledHandlers.TaskInvalidLayerBlank | firmware/keyboards/ml8/ml8_9/oled_handlers.c:91-98 | a changed, invalid layer clears the display and writes nothing |
| OledHandlers.StateEventsShape | firmware/keyboards/ml8/ml8_9/oled_handlers.c:105-116 | off clears and renders; on redraws the current layer at once |
| OledHandlers.OledLayerUpdate | firmware/keyboards/ml8/ml8_9/oled_handlers.c:35-57 | labels, image and display calls become those of the update functions, with the NUL in byte 86 at most (line 49 corrected, see Findings) |
| OledHandlers.OledTaskUser | firmware/keyboards/ml8/ml8_9/oled_handlers.c:82-101 | always returns true; display calls and the last layer become those of one tick |
| OledHandlers.SetOledState | firmware/keyboards/ml8/ml8_9/oled_handlers.c:105-116 | sets the flag and appends the display calls of the new state |
| Base.NextLayer | firmware/keyboards/ml8/ml8_9/base.c:41-47 | no move from an invalid layer; otherwise the next layer, wrapping from 3 to 0 |
| Base.CycledIsModular | firmware/keyboards/ml8/ml8_9/base.c:46 | k presses from layer l land on (l + k) mod 4 |
| Base.CycleVisitsAll | firmware/keyboards/ml8/ml8_9/base.c:46 | four presses come back to the start, and every layer is reached |
| Base.KeycodeConfig | firmware/keyboards/ml8/ml8_9/base.c:63-65 | the identity |
| Base.ModConfig | firmware/keyboards/ml8/ml8_9/base.c:67-69 | the identity |
| Base.Keyboard.constructor | firmware/keyboards/ml8/ml8_9/base.c:15 | the flag starts false |
| Base.Keyboard.Init | firmware/keyboards/ml8/ml8_9/base.c:21-32 | runs persistence_init and sets the flag |
| Base.Keyboard.KeyboardPostInitUser | firmware/keyboards/ml8/ml8_9/base.c:34-38 | initialises on the first call only; later calls change nothing |
| Base.CycleLayer | firmware/keyboards/ml8/ml8_9/base.c:41-47 | moves to the next layer, or stays on an invalid one |
| Base.ProcessRecordUser | firmware/keyboards/ml8/ml8_9/base.c:50-61 | KC_CYCLE_LAYERS is consumed and cycles on press only; every other key passes through unchanged |
| HidHandlers.ResetState | firmware/keyboards/ml8/ml8_9/hid_handlers.c:25-28 | offset 0 and no operation; layer and buffer bytes stay |
| HidHandlers.HelloPacket | firmware/keyboards/ml8/ml8_9/hid_handlers.c:153-160 | ACK, HELLO, then the greeting, 32 bytes |
| HidHandlers.EchoPacket | firmware/keyboards/ml8/ml8_9/hid_handlers.c:144-150 | ACK, then the first 28 payload bytes |
| HidHandlers.ChunkOverflowAsWritten | firmware/keyboards/ml8/ml8_9/hid_handlers.c:112-123 | as written, a CONT of 12 bytes at offset 75 is accepted and ACKed; the offset becomes 87, the length of the buffer, and the NUL is stored at index 87, past it; the corrected handler NACKs the same frame |
| HidHandlers.FitsDiffersOnlyAtEnd | firmware/keyboards/ml8/ml8_9/hid_handlers.c:112 | the corrected check differs from the written one exactly when the chunk ends at byte 87 |
| HidHandlers.CommitAsWritten | firmware/keyboards/ml8/ml8_9/hid_handlers.c:47-52 | as written, the commit always succeeds, keeps the state well formed, and leaves the replies, the highest layer and the display flag alone |
| HidHandlers.LayerStepAsWritten | firmware/keyboards/ml8/ml8_9/hid_handlers.c:57-127 | the transfer step as written keeps the offset at most 87 and never sends a reply or changes the display flag or the layer |
| HidHandlers.TransferCommandAsWritten | firmware/keyboards/ml8/ml8_9/hid_handlers.c:130-141 | as written, the state stays well formed, with the offset at most 87 |
| HidHandlers.StepAsWrittenDiffersOnFullChunk | firmware/keyboards/ml8/ml8_9/hid_handlers.c:112-123 | from any state the corrected handler reaches, the handler as written behaves the same and stores nothing past an array, except for a CONT ending exactly at byte 87: the corrected check refuses it, while as written it is accepted, the offset becomes 87 and the NUL is stored at index 87 |
| HidHandlers.CommitAgreesAsWritten | firmware/keyboards/ml8/ml8_9/hid_handlers.c:47-52 | with the offset inside the buffer, the commit as written is the corrected commit and stores nothing past an array |
| HidHandlers.FullLabelCommittedAsWritten | firmware/keyboards/ml8/ml8_9/hid_handlers.c:48-51 | as written, COMPLETE after 87 non-NUL bytes is ACKed and stores NULs past the buffer and past the label; the label keeps all 87 bytes with no NUL, the next layer's label becomes empty, the others stay, and all are persisted |
| HidHandlers.FullCommitAsWritten | firmware/keyboards/ml8/ml8_9/hid_handlers.c:48-51 | committing a full buffer of 87 non-NUL bytes as written records the NUL stored past the buffer and the one stored past the label; the label holds all 87 bytes with no NUL, the next label is cleared, the others stay, and the labels are persisted |
| HidHandlers.ContAcceptedIffAsWritten | firmware/keyboards/ml8/ml8_9/hid_handlers.c:62-125 | as written, CONT is accepted exactly when the length is at most 27, the layer is valid and the transfer's, and the chunk does not run past the buffer |
| HidHandlers.StraysOnlyOnePast | firmware/keyboards/ml8/ml8_9/hid_handlers.c:112-123 | as written, the offset never passes 87, and every store past an array is at index 87, one past its end |
| HidHandlers.Buffered | firmware/keyboards/ml8/ml8_9/hid_handlers.c:120-123 | a chunk that passes line 112 advances the offset by its length and keeps operation and layer; the offset stays inside the buffer exactly when the chunk leaves room for the NUL, and otherwise the NUL falls past the buffer |
| HidHandlers.BufferedText | firmware/keyboards/ml8/ml8_9/hid_handlers.c:120-123 | the buffered text grows by the chunk, followed by a NUL |
| HidHandlers.Commit | firmware/keyboards/ml8/ml8_9/hid_handlers.c:48-52 | committing keeps the firmware state well formed |
| HidHandlers.CommitStoresText | firmware/keyboards/ml8/ml8_9/hid_handlers.c:48-52 | the label of the transfer's layer becomes the buffered text, and the transfer is reset |
| HidHandlers.TerminatedAt | firmware/keyboards/ml8/ml8_9/hid_handlers.c:49 | a NUL after NUL-free text makes that text the buffer's C string |
| HidHandlers.LayerStep | firmware/keyboards/ml8/ml8_9/hid_handlers.c:57-127 | the transfer step, with the corrected capacity check (see Findings), never sends a reply and never changes the display flag or the layer |
| HidHandlers.TransferCommand | firmware/keyboards/ml8/ml8_9/hid_handlers.c:130-141 | keeps the state well formed (its replies are stated by OneReply) |
| HidHandlers.HidCommand | firmware/keyboards/ml8/ml8_9/hid_handlers.c:163-206 | keeps the state well formed (its replies are stated by OneReply) |
| HidHandlers.Validate | firmware/keyboards/ml8/ml8_9/hid_handlers.c:209-229 | the command byte when the big-endian header is 0x6d6c, -1 otherwise |
| HidHandlers.Receive | firmware/keyboards/ml8/ml8_9/hid_handlers.c:233-242 | keeps the state well formed |
| HidHandlers.ForeignFrameIgnored | firmware/keyboards/ml8/ml8_9/hid_handlers.c:236-240 | a frame without the header is not handled and changes nothing |
| HidHandlers.OneReplyPerFrame | firmware/keyboards/ml8/ml8_9/hid_handlers.c:233-242 | a frame with the header is handled and answered with exactly one packet, starting with ACK or NACK |
| HidHandlers.OneReply | firmware/keyboards/ml8/ml8_9/hid_handlers.c:163-206 | every command appends exactly one ACK or NACK packet and keeps the earlier ones |
| HidHandlers.UnknownCommandNacked | firmware/keyboards/ml8/ml8_9/hid_handlers.c:198-202 | an unknown command is NACKed and changes nothing else |
| HidHandlers.RefusedChunkNacked | firmware/keyboards/ml8/ml8_9/hid_handlers.c:132-136 | a refused transfer frame is NACKed, resets the transfer and leaves labels, EEPROM and display alone |
| HidHandlers.UpdateStartsTransfer | firmware/keyboards/ml8/ml8_9/hid_handlers.c:75-80 | OLED_UPDATE discards what was in flight and holds just its chunk for its layer, offset = length, ACKed |
| HidHandlers.ContAcceptedIff | firmware/keyboards/ml8/ml8_9/hid_handlers.c:62-125 | with the corrected capacity check, CONT is accepted exactly when the length and layer are valid, the layer is the transfer's, and the chunk leaves room for the NUL; the operation is not checked; an accepted chunk is appended |
| HidHandlers.ContAppendsChunk | firmware/keyboards/ml8/ml8_9/hid_handlers.c:82-126 | a CONT for the transfer's layer with a NUL-free chunk that leaves room for the NUL is ACKed and appends its chunk to the buffered text; labels, EEPROM and display stay |
| HidHandlers.CompleteCommits | firmware/keyboards/ml8/ml8_9/hid_handlers.c:99-105 | COMPLETE for the transfer's layer stores the label, persists all labels, resets the transfer and is ACKed; its data is ignored |
| HidHandlers.StrayCompleteClearsLabel | firmware/keyboards/ml8/ml8_9/hid_handlers.c:86-105 | a COMPLETE with nothing in flight stores an empty label |
| HidHandlers.ResetRestoresFactory | firmware/keyboards/ml8/ml8_9/hid_handlers.c:183-187 | OLED_RESET loads the restore blob, voids the user labels and is ACKed; the next boot shows the factory labels |
| HidHandlers.ReceiveKeepsTransferOk | firmware/keyboards/ml8/ml8_9/hid_handlers.c:233-242 | with the corrected capacity check, the transfer offset stays inside the buffer on every frame, so every NUL is stored inside it; one frame moves the offset forward by at most 27 bytes |
| HidHandlers.Transfer.constructor | firmware/keyboards/ml8/ml8_9/hid_handlers.c:17-22 | the zeroed global |
| HidHandlers.Transfer.Append | firmware/keyboards/ml8/ml8_9/hid_handlers.c:120-123 | for any chunk that passes line 112, the array and offset become the buffered state; when the chunk fills the buffer, the NUL store past it is left out |
| HidHandlers.Transfer.Reset | firmware/keyboards/ml8/ml8_9/hid_handlers.c:25-28 | the transfer becomes the reset state |
| HidHandlers.NackHidMessage | firmware/keyboards/ml8/ml8_9/hid_handlers.c:31-36 | sends one NACK |
| HidHandlers.AckHidMessage | firmware/keyboards/ml8/ml8_9/hid_handlers.c:39-45 | sends one ACK echoing the command |
| HidHandlers.CompleteOledLayerUpdate | firmware/keyboards/ml8/ml8_9/hid_handlers.c:48-52 | the state becomes the committed state |
| HidHandlers.StartOrContinueOledLayerUpdate | firmware/keyboards/ml8/ml8_9/hid_handlers.c:57-127 | result and state become those of the transfer step with the corrected capacity check |
| HidHandlers.StartOrContinueHidCommand | firmware/keyboards/ml8/ml8_9/hid_handlers.c:130-141 | the state becomes that of the step followed by ACK, or reset and NACK |
| HidHandlers.HidEcho | firmware/keyboards/ml8/ml8_9/hid_handlers.c:144-150 | sends the echo packet |
| HidHandlers.HidHello | firmware/keyboards/ml8/ml8_9/hid_handlers.c:153-160 | sends the hello packet |
| HidHandlers.HandleHidCommand | firmware/keyboards/ml8/ml8_9/hid_handlers.c:163-206 | returns true, and the state becomes the dispatcher's |
| HidHandlers.ValidateHidMessage | firmware/keyboards/ml8/ml8_9/hid_handlers.c:209-229 | the command, or -1 for a foreign frame |
| HidHandlers.UserHidReceive | firmware/keyboards/ml8/ml8_9/hid_handlers.c:233-242 | returns whether the frame was handled, and the state becomes the receiver's |
| HidQuery.Match | cli/hid.go:118-144 | true exactly when every criterion is the wildcard or equals the interface's field |
| HidQuery.QueryOf | cli/hid.go:146-156 | the query built from an interface matches it |
| HidQuery.DefaultsFindRawHid | cli/hid.go:90-99 | the default query matches exactly the interfaces with usage 0x0061 and page 0xff60 |
| HidQuery.QueryOfIgnoresPath | cli/hid.go:146-156 | an interface's own query matches exactly the interfaces equal to it but for the path |
| HidQuery.Filter | cli/hid.go:158-169 | keeps at most the enumerated interfaces |
| HidQuery.FilterSnoc | cli/hid.go:158-169 | one more interface is kept exactly when it matches |
| HidQuery.FilterKeepsMatches | cli/hid.go:158-169 | an interface is kept exactly when it is enumerated and matches |
| HidQuery.FilterIsSubsequence | cli/hid.go:158-169 | the kept interfaces are in enumeration order |
| HidQuery.OpenedIsUnique | cli/hid.go:59-76 | openDevice opens only the one enumerated interface that matches |
| HidQuery.TwinsAreNotUnique | cli/hid.go:66-70 | two matching interfaces give NoUniqueDeviceFound |
| HidQuery.MatchKept | cli/hid.go:158-169 | a matching interface is kept |
| HidQuery.TwoMatchesKept | cli/hid.go:158-169 | two matching interfaces are both kept |
| HidQuery.QueryParams.constructor | cli/hid.go:90-99 | NewQueryParams holds the defaults |
| HidQuery.QueryParams.Of | cli/hid.go:16-23 | a literal holds its criteria |
| HidQuery.QueryParams.WithProductIdAsWritten | cli/hid.go:101-104 | as written, the product id goes into the vendor id and the receiver is returned |
| HidQuery.QueryParams.WithProductId | cli/hid.go:101-104 | as intended, sets the product id and returns the receiver |
| HidQuery.QueryParams.WithVendorId | cli/hid.go:105-108 | sets the vendor id and returns the receiver |
| HidQuery.QueryParams.WithUsageId | cli/hid.go:109-112 | sets the usage id and returns the receiver |
| HidQuery.QueryParams.WithUsagePage | cli/hid.go:113-116 | sets the usage page and returns the receiver |
| HidQuery.SetProductIdAsWritten | cli/hid.go:101-104 | as written, the product criterion does not change |
| HidQuery.SetProductId | cli/hid.go:101-104 | as intended, only the product criterion changes, to the given id |
| HidQuery.WithProductIdAsWrittenMisses | cli/hid.go:101-104 | as written, asking for product 0x3333 accepts a vendor 0x3333 and rejects product 0x3333 |
| HidQuery.WithProductIdSelectsProduct | cli/hid.go:101-104 | as intended, the query accepts exactly the interfaces with that product id that meet the other criteria |
| HidQuery.OpenQuery | cli/hid.go:158-169 | the results are the filtered interfaces |
| HidQuery.From | cli/hid.go:82-88 | from keeps length and order |
| HidQuery.Query | cli/hid.go:171-177 | the matching interfaces, wrapped, in order |
| HidQuery.OpenDevices | cli/hid.go:146-156 | the interfaces matching every field but the path |
| HidQuery.OpenDevice | cli/hid.go:59-76 | the outcome is openDevice's decision |
| Kb.Copied | kbp/kb.go:49 | copy writes as much of the source as fits from the position and keeps the other bytes |
| Kb.Message | kbp/kb.go:44-51 | the message keeps the buffer's length |
| Kb.LayerMessage | kbp/kb.go:53-60 | the layer message keeps the buffer's length |
| Kb.LayerMessageFields | kbp/kb.go:53-60 | header, command, layer, length, then exactly the chunk; later bytes stay |
| Kb.EchoRequestCarriesText | kbp/kb.go:197-204 | the ECHO request carries the first min(29, length) text bytes and zeros after them |
| Kb.Copy | kbp/kb.go:49 | the array becomes the copy |
| Kb.PrepareMessage | kbp/kb.go:44-51 | the buffer becomes the message |
| Kb.PrepareLayerMessage | kbp/kb.go:53-60 | the buffer becomes the layer message |
| Kb.PrepareStartMessage | kbp/kb.go:62-64 | the buffer becomes the layer message |
| Kb.PrepareContinueMessage | kbp/kb.go:66-68 | the buffer becomes a CONT message |
| Kb.PrepareCompleteMessage | kbp/kb.go:70-72 | the buffer becomes a COMPLETE message of length 0 |
| Kb.AckOrNack | kbp/kb.go:74-96 | a reply is returned exactly when bytes arrived, without error, starting with ACK; otherwise TransferAborted |
| Kb.Device.Write | kbp/kb.go:134 | a write is logged and fails as scripted |
| Kb.Device.ReadWithTimeout | kbp/kb.go:76 | a read returns the next scripted reply |
| Kb.HandleAckOrNack | kbp/kb.go:74-96 | reads one reply and classifies it |
| Kb.ChunkFrames | kbp/kb.go:113-145 | every chunk frame is 32 bytes |
| Kb.Completion | kbp/kb.go:147 | the COMPLETE frame is 32 bytes |
| Kb.ChunkStep | kbp/kb.go:116-131 | one pass writes its frame first, and the rest is planned over that frame |
| Kb.ChunkFramesShape | kbp/kb.go:113-145 | ceil(tot/25) frames: OLED_UPDATE first, then CONT, all for the layer, each 1 to 25 bytes, all full but the last |
| Kb.ChunkFramesCarryText | kbp/kb.go:113-131 | the chunks put together are the first tot bytes |
| Kb.CompletionShape | kbp/kb.go:147 | COMPLETE carries the header, layer and length 0; its other bytes are those of the last chunk frame |
| Kb.PlanCarriesTruncatedText | kbp/kb.go:108 | the text sent is its first length mod 256 bytes; 256 bytes send COMPLETE alone |
| Kb.ShiftScript | kbp/kb.go:134-143 | after one write and read, the device script moves on by one |
| Kb.AllAckedStep | kbp/kb.go:113-153 | all frames are ACKed exactly when the first is and the rest are |
| Kb.ExchangeSucceedsIff | kbp/kb.go:113-155 | sending succeeds exactly when every chunk write succeeds and every reply, the final one too, is an ACK |
| Kb.ExchangeWritesPrefix | kbp/kb.go:113-155 | a prefix of the frames, then COMPLETE, is written; all of them on success |
| Kb.ExchangeStopsAtFirstFailure | kbp/kb.go:136-143 | sending stops at the first failed write or non-ACK; DeviceError exactly for a failed chunk write |
| Kb.PrepareChunk | kbp/kb.go:116-131 | sizes the chunk and prepares its frame, as planned |
| Kb.WriteChunk | kbp/kb.go:134-143 | one chunk's write and reply advance the exchange or end it |
| Kb.SendSegmented | kbp/kb.go:98-156 | any command but OLED_UPDATE is UnsupportedCommand with nothing sent; otherwise the outcome is the planned exchange |
| Kb.SendCompletion | kbp/kb.go:147-155 | COMPLETE is written, its write error ignored, and its reply must be an ACK |
| Kb.Raw | kbp/kb.go:225-238 | no error exactly when the device opens, the write succeeds and the reply is an ACK; a reply is returned exactly then |
| Kb.SendRaw | kbp/kb.go:225-238 | the outcome is Raw of openDevice's decision |
| Kb.SendCommand | kbp/kb.go:158-165 | SendRaw's error |
| Kb.SendLayerReset | kbp/kb.go:167-171 | SendRaw of the OLED_RESET request |
| Kb.SendOledState | kbp/kb.go:173-181 | SendRaw of OLED_ON or OLED_OFF |
| Kb.SendHello | kbp/kb.go:183-195 | SendRaw of the HELLO request |
| Kb.SendEcho | kbp/kb.go:197-214 | SendRaw of the ECHO request |
| Kb.SendLayerUpdate | kbp/kb.go:216-223 | openDevice's error, or the segmented exchange |
| KbpMain.Fields | kbp/cmd/kbp/main.go:67 | strings.Split gives at least one field |
| KbpMain.FieldsCount | kbp/cmd/kbp/main.go:67 | one field more than colons, and no field holds a colon |
| KbpMain.JoinFields | kbp/cmd/kbp/main.go:67 | the fields joined with colons give the string back |
| KbpMain.FieldsOfPrefix | kbp/cmd/kbp/main.go:67 | a colon-free field before a colon splits off first |
| KbpMain.FieldsOfColonFree | kbp/cmd/kbp/main.go:67 | a colon-free string is one field |
| KbpMain.FieldsOfJoin | kbp/cmd/kbp/main.go:67 | splitting joined colon-free fields gives them back |
| KbpMain.HexDigit | kbp/cmd/kbp/main.go:80 | a hex digit's value is below 16 |
| KbpMain.ParseFromDigits | kbp/cmd/kbp/main.go:80-81 | on hex digits, the parse is the value saturated at 0xffff |
| KbpMain.ParseHex16Digits | kbp/cmd/kbp/main.go:79-94 | a field of hex digits gives its value, or 0xffff when it does not fit |
| KbpMain.ParseHex16SyntaxError | kbp/cmd/kbp/main.go:80-81 | "0x10" gives 0: the error is ignored |
| KbpMain.ParseHex16RangeError | kbp/cmd/kbp/main.go:80-81 | "fffffz" gives 0xffff: the range error comes first |
| KbpMain.ParseHex4 | kbp/cmd/kbp/main.go:79-94 | four hex digits parse back to the value |
| KbpMain.ParsedNeedsSixFields | kbp/cmd/kbp/main.go:67-71 | a string is accepted exactly when it has five colons |
| KbpMain.ParsedDefault | kbp/cmd/kbp/main.go:20 | ":::::" gives exactly the default query |
| KbpMain.ParsedFormat | kbp/cmd/kbp/main.go:72-94 | every query with colon-free names, written as VENDOR:PRODUCT:VID:PID:USAGE:PAGE, parses back to itself |
| KbpMain.Parse | kbp/cmd/kbp/main.go:66-97 | nil exactly for a malformed string; otherwise a fresh query with the parsed criteria |
| KbpMain.GetDevAsWritten | kbp/cmd/kbp/main.go:110-119 | getDev as written: a nil dereference exactly when the device string is malformed; otherwise never an error, and a device other than the zero device only when it is the one enumerated interface that matches |
| KbpMain.GetDevAsWrittenPanics | kbp/cmd/kbp/main.go:110-111 | as written, "a:b" dereferences nil |
| KbpMain.NoDeviceMatchesAll | cli/hid.go:146-156 | the zero device's query matches every interface |
| KbpMain.GetDevAsWrittenFallsThrough | kbp/cmd/kbp/main.go:110-118 | as written, a string matching nothing gives the zero device without error, and openDevice then opens a lone interface |
| KbpMain.GetDevFindsUnique | kbp/cmd/kbp/main.go:110-118 | as intended, no crash, and no error only for the one matching interface |
| KbpMain.GetDev | kbp/cmd/kbp/main.go:110-119 | the lookup as intended |
| KbpMain.Unescape | kbp/cmd/kbp/main.go:146 | the replacement never lengthens the text |
| KbpMain.UnescapeHead | kbp/cmd/kbp/main.go:146 | the result starts with 'n' only when the text does |
| KbpMain.UnescapeLeavesNoEscape | kbp/cmd/kbp/main.go:146 | no backslash-n pair survives |
| KbpMain.UnescapeWithoutEscape | kbp/cmd/kbp/main.go:146 | a text without the escape is unchanged |
| KbpMain.UnescapeEscape | kbp/cmd/kbp/main.go:146 | escaping the newlines of a text without the escape is undone |
| KbpMain.EscapeHead | kbp/cmd/kbp/main.go:146 | escaping starts with 'n' only when the text does |
| KbpMain.Dispatch | kbp/cmd/kbp/main.go:226-285 | main takes the first flag that applies, in the order reset, oled, hi, echo, layer/text, cmd: it resets exactly when -reset is given, toggles only for "on" or "off", programs only a layer from 0 to 3 with its text, and consults -cmd exactly when no other flag is given |
| KbpMain.ResetFirst | kbp/cmd/kbp/main.go:231-234 | -reset wins over every other flag |
| KbpMain.OledSecond | kbp/cmd/kbp/main.go:236-247 | -oled takes "on" or "off" only, and wins over all but -reset |
| KbpMain.ProgramIff | kbp/cmd/kbp/main.go:259-271 | a layer is programmed exactly when no earlier flag applies, -text is given and the layer is 0 to 3 |
| KbpMain.LayerNeedsText | kbp/cmd/kbp/main.go:259-264 | only one of -layer and -text is refused |
| KbpMain.ToolsLast | kbp/cmd/kbp/main.go:273-285 | -cmd applies only when no other flag does |
| KbpMain.Program | kbp/cmd/kbp/main.go:140-153 | looks up the device with the intended getDev (see Findings), then sends the unescaped text segmented |
| Protocol.Deliver | firmware/keyboards/ml8/ml8_9/hid_handlers.c:233-242 | frames received one after the other keep the state well formed |
| Protocol.Replies | kbp/kb.go:75-76 | the host reads the firmware's replies in order |
| Protocol.ChunkReceived | firmware/keyboards/ml8/ml8_9/hid_handlers.c:57-141 | one chunk frame that fits is ACKed and appends its chunk |
| Protocol.FramesDelivered | firmware/keyboards/ml8/ml8_9/hid_handlers.c:57-141 | chunk frames in order leave their chunks buffered, each ACKed |
| Protocol.ChunksDelivered | kbp/kb.go:113-145 | the host's chunk frames leave the text buffered for the layer |
| Protocol.LayerUpdateFrames | kbp/kb.go:113-149 | every frame the host writes is 32 bytes |
| Protocol.LayerUpdateStoresText | firmware/keyboards/ml8/ml8_9/hid_handlers.c:99-105 | a 1 to 86-byte NUL-free text sent by the host becomes the layer's label, is persisted, and every frame is ACKed |
| Protocol.CompletionReceived | firmware/keyboards/ml8/ml8_9/hid_handlers.c:99-105 | COMPLETE stores the buffered text and is ACKed |
| Protocol.HostAcceptsAcks | kbp/kb.go:98-156 | reading only ACKs, the host succeeds after writing exactly the planned frames |
| Protocol.LayerUpdateEndToEnd | kbp/kb.go:216-223 | host and keyboard together: the label becomes the text and the host reports success |
| ProtocolRequests.EchoRequestCarries | kbp/kb.go:197-204 | the ECHO frame carries the first 29 text bytes |
| ProtocolRequests.EchoEndToEnd | firmware/keyboards/ml8/ml8_9/hid_handlers.c:144-150 | the host gets back only the first 28 text bytes |
| ProtocolRequests.OledStateEndToEnd | firmware/keyboards/ml8/ml8_9/hid_handlers.c:174-181 | OLED_ON/OFF set the flag, are ACKed, and the host reports success |
| ProtocolRequests.ResetEndToEnd | firmware/keyboards/ml8/ml8_9/hid_handlers.c:183-187 | OLED_RESET restores and voids, is ACKed, and the host reports success |
| ProtocolRequests.HelloEndToEnd | firmware/keyboards/ml8/ml8_9/hid_handlers.c:153-160 | the host receives the whole greeting |
| ProtocolRequests.EmptyTextRefused | kbp/kb.go:113-153 | an empty text sends COMPLETE alone; unless the last transfer was for that layer, it is NACKed and the host reports TransferAborted |

## Left out

- Debug output (`dprintf`, the `debug_enable` dump, `glog`), `wait_ms` and the console setup in `init`: they print only.
- The `VIA_ENABLE` switch between `via_command_kb` and `raw_hid_receive` (`hid_handlers.c:244-254`): the model has the one entry point `UserHidReceive`.
- The `#else` branches without `EEPROM_CFG`: the build defines it.
- QMK's EEPROM, OLED driver, `raw_hid_send` and layer state are modelled by `Qmk.Platform`. They are a byte sequence, logs of calls and packets, and a byte. Reads and writes are total and synchronous. Torn writes and power loss are not modelled, and neither is interrupt context.
- `oled_init_user` (display rotation) is left out: it has no state.
- `default_keymap.c` and `keymaps/default/keymap.c` are static tables built from QMK macros, so they are left out. `KC_CYCLE_LAYERS` is taken as QMK's first user keycode, 0x7E40.
- NACK, ACK and ECHO replies are logged as the bytes the firmware initialises (1, 2 and 29). The rest of each 32-byte stack buffer is uninitialised, so the model leaves it out, and the host side reads those bytes as zeros. HELLO replies are fully initialised and logged whole.
- The HID library is replaced by parameters: enumeration (`hid.Enumerate`), `hid.OpenPath` (a boolean), device writes (scripted failures) and reads (a scripted reply list; reads past it time out). The 10-second timeout value is not modelled. `Dev.Close` is not modelled, including the `defer dev.Close()` in `SendRaw` (`kb.go:227`), which is registered before the error check and so runs even when opening failed.
- `Ls`, `Init`, `Exit`, `usage`, `deviceinfo`'s printing, `ls`, `readData` (reading `-file` or stdin) and the `raw` command's I/O are output and input plumbing. `Dispatch` names which of them main picks.
- `SendEcho`'s truncation at `kb.go:200-203` computes a value that is never used. The model sends the whole text, and the copy truncates it to 29 bytes.
- `hid.Enumerate` filters by vendor and product id before `match`; the model hands the enumerated list to the same filter.
- Kb.Raw: when opening fails, `dev` is nil and the deferred `dev.Close()` at `kb.go:227` most likely panics. The model returns the open error instead, as the code evidently intends, because `Close` is not modelled.
- Kb.SendRaw: inherits the `Kb.Raw` line above: it returns the open error where the tool most likely crashes.
- Kb.SendHello: the greeting the reply carries is only printed by the tool, so the method states the error alone.
- Kb.SendEcho: the echoed text is only printed, so the method states the error alone; `ProtocolRequests.EchoEndToEnd` states what comes back.
- HidHandlers.LayerStep: uses the corrected capacity check `len + offset < 87`, and so do `TransferCommand`, `HidCommand`, `Receive` and the `Protocol` lemmas built on it. The check as written is modelled on values only, by `LayerStepAsWritten`, because a store past an array cannot be performed on a Dafny array.
- HidHandlers.StartOrContinueOledLayerUpdate: uses the corrected capacity check, and the methods' `AllValid` keeps the offset below 87. So the methods do not perform the stores past the buffer and past the label that the code makes after a chunk ending at byte 87; `StepAsWrittenDiffersOnFullChunk` and `FullLabelCommittedAsWritten` state them.
- HidHandlers.ContAcceptedIff: states acceptance under the corrected check; `ContAcceptedIffAsWritten` states it for the check as written.
- HidHandlers.ReceiveKeepsTransferOk: holds of the corrected handler only; as written the offset reaches 87, which `StraysOnlyOnePast` bounds.
- HidHandlers.TransferCommandAsWritten: its own ensures states only well-formedness; `ChunkOverflowAsWritten` and `FullLabelCommittedAsWritten` state its replies and state.
- OledHandlers.OledLayerUpdate: stores the NUL in byte 86 at most, the corrected line 49. The code as written, which clears byte 0 of the next layer's label, is modelled on values only, by `LayerUpdateLabelsAsWritten`.
- OledHandlers.LayerUpdateLabelsAsWritten: its own ensures states only the number of labels; `LayerUpdateAsWrittenAgrees` and `LayerUpdateAsWrittenClearsNext` state its result.
- KbpMain.Program: uses the intended `GetDev`. As written, `program` (`main.go:141-147`) crashes on a malformed `-device` string and otherwise goes on with the zero device when no unique device matches. `GetDevAsWritten`, `GetDevAsWrittenPanics` and `GetDevAsWrittenFallsThrough` state this; `Program` does not model it.
- HidHandlers.HidCommand: its own ensures states only that the state stays well formed; its behaviour is stated by the lemmas about it (`OneReply`, `UnknownCommandNacked`, `UpdateStartsTransfer`, `ContAcceptedIff`, `CompleteCommits`, `ResetRestoresFactory`).

## Findings

| source | as written | input that shows it | evidently intended | confidence | as-written member | corrected member |
|---|---|---|---|---|---|---|
| firmware/keyboards/ml8/ml8_9/hid_handlers.c:112 | a chunk is refused only when `len + offset > 87`, then a NUL is written at `buffer[offset]` (line 123) | an 87-byte label in chunks of 25, 25, 25 and 12: the last CONT ends at offset 87 and is ACKed, `buffer[87]`, one past the buffer, is written, and the COMPLETE that follows writes past the label | refuse a chunk unless room is left for the NUL (`len + offset < 87`) | not executed | HidHandlers.ChunkOverflowAsWritten | HidHandlers.ReceiveKeepsTransferOk |
| firmware/keyboards/ml8/ml8_9/oled_handlers.c:49 | the NUL is written at `strnlen(data, 87)` | data with no NUL in its first 87 bytes: `label[87]`, one past the label, is written | terminate at byte 86 at most, as `persistence.c:122` does | not executed | OledHandlers.LayerUpdateAsWrittenClearsNext | OledHandlers.StoredLabelText |
| cli/hid.go:102 | `WithProductID` assigns `VendorID` | `NewQueryParams().WithProductID(0x3333)` accepts vendor 0x3333 with product 0x0001 and rejects product 0x3333 | set `ProductID` | not executed | HidQuery.WithProductIdAsWrittenMisses | HidQuery.WithProductIdSelectsProduct |
| kbp/cmd/kbp/main.go:111 | `parse` returns nil for a malformed string, and `Query` passes it on to `openQuery`, which dereferences it (`cli/hid.go:158-161`) | `-device a:b` | report the malformed string | not executed | KbpMain.GetDevAsWrittenPanics | KbpMain.GetDevFindsUnique |
| kbp/cmd/kbp/main.go:112-115 | when the query does not find exactly one device, `getDev` returns the zero device with `err` nil (`Query` never returns an error), so callers go on | `-device` naming a keyboard that is not plugged in, on a bus with one other HID interface: the command goes to that interface | return NoDeviceFound / NoUniqueDeviceFound | not executed | KbpMain.GetDevAsWrittenFallsThrough | KbpMain.GetDevFindsUnique |
