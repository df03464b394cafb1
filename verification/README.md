# CAN diagnostic bridge: receive filter, message history, send sequence and history rendering

This project models the sequential core of an ESP32 firmware that bridges a CAN
(TWAI) bus to a small web page. The firmware does four things that the model covers:

- **Receive filter and classifier.** A received frame is kept only when its
  identifier is 0x762, data byte 0 is 0x23 and data byte 1 is 0x00. A kept frame
  is labelled "Status 4" when data byte 2 is 0x88 and "Status 3" otherwise
  (`classifier.dfy`).
- **Bounded message history.** `stored_messages` is an array of 20 records and
  `stored_message_count` is its fill count. While there is room, a new record is
  written at index `count`. Once the array is full, every slot is shifted down by
  one and the new record goes into the last slot. `history.dfy` holds the
  abstract meaning: a sliding window of the last min(20, n) records, oldest first.
  `store.dfy` holds the array-and-count layout, both as a function and as a
  method with the element-by-element shift loop. Both are proved to refine the
  window.
- **Receive task.** Each poll of the bus yields a frame, a timeout or an error.
  Only kept frames reach the store (`receive.dfy`). The endless polling loop is
  modelled over a finite trace of poll results. The model proves that the store
  ends up holding exactly the last min(20, n) accepted records.
- **Diagnostic send sequence.** There is a fixed table of seven 8-byte frames on
  identifier 0x742. They are transmitted in index order, and each transmit is
  checked, so the first failed transmit aborts the sequence (`sequencer.dfy`). The
  bus driver is a parameter: `bus(k)` is what the driver reports for the k-th
  transmit.
- **History rendering.** For each stored record, in index order, the page handler
  writes a list item. The item holds the record's meaningful data bytes (the first
  DLC of them), each as two upper-case hex digits and a space, followed by the
  status label (`render.dfy`). A parser for the same text is the partner of the
  renderer. The model proves that the rendered list reads back as exactly the
  stored bytes and labels, in order.

`frames.dfy` defines frames (identifier, extended and remote flags, DLC 0..8,
and the fixed 8-byte data array). `wrappers.dfy` defines `Option`.

Facts about the firmware that the model keeps:

- The filter checks data bytes 0 and 1 as well as the identifier. It does not accept every 0x762 frame.
- When the store is full, eviction shifts the whole array down by one slot.
- There is no lock around the store. The receive task and the page handler share it without one.
- A transmit goes through `ESP_ERROR_CHECK`. With the default assertion configuration, a failed
  transmit aborts the firmware. The model reports this as `Aborted(index, err)`, with the frames
  attempted so far. Nothing is returned to the HTTP caller.
- The list part of the page is at most 1360 characters: at most 68 per item (`Render.Items`) and
  at most 20 items. The fixed page text written at main/main.c:123-127 and 137-153 is 690
  characters. The page therefore stays under the 8192-byte buffer.

## Model

| member | source | states |
|---|---|---|
| Classifier.Classify | main/main.c:63-65 | A frame is kept iff its identifier is 0x762, byte 0 is 0x23 and byte 1 is 0x00. A kept record holds the received frame unchanged. Its label is "Status 4" iff byte 2 is 0x88, and "Status 3" iff it is not. |
| Classifier.Status.Label | main/main.c:65 | The two labels are exactly the strings "Status 3" and "Status 4". Each is eight characters and starts with "Status ". |
| Classifier.ClassifyIgnoresFlags | main/main.c:63 | The filter and the label do not depend on the extended or remote-request flags. |
| Classifier.ClassifyDependsOnFirstThreeBytes | main/main.c:63-65 | Two frames with the same identifier and the same first three data bytes get the same decision and the same label. |
| Classifier.ClassifyExamples | main/main.c:63-65 | Concrete decisions: a 0x88 status byte gives Status 4, 0x05 gives Status 3, identifier 0x123 is dropped, and a first byte of 0x01 is dropped. |
| History.Window | main/main.c:74-82 | The reference history: it has length min(20, n), and each entry is the matching entry of the last min(20, n) inputs, in order. |
| History.Push | main/main.c:74-82 | One insertion never exceeds 20 entries, and the new record is last. Below capacity the old entries are kept in place. At capacity the oldest entry is dropped and the rest keep their order. |
| History.PushAll | main/main.c:74-82 | Any number of insertions keeps the history within 20 entries, with length min(20, start + n). |
| History.PushWindow | main/main.c:74-82 | Inserting into the window of a sequence gives the window of that sequence extended by the new record. |
| History.PushAllIsWindow | main/main.c:74-82 | After any sequence of insertions from empty, the history is exactly the last min(20, n) records, oldest first. |
| History.TwentyFivePushes | main/main.c:21 | Twenty-five insertions leave exactly records 6..25, in their original order. |
| History.NoEvictionBelowCapacity | main/main.c:74-75 | Up to 20 insertions evict nothing: the history equals the inputs. |
| MessageStore.Empty | main/main.c:35-36 | The start-up store is well formed: 20 slots and a count of 0, so the history is empty. |
| MessageStore.Insert | main/main.c:74-82 | Inserting keeps 0 <= count <= 20. When not full, the record is written at index count, count grows by one, and every other slot is unchanged. When full, slot i receives old slot i+1, the record goes into slot 19, and count stays 20. The represented history is the window insertion. |
| MessageStore.InsertInPlace | main/main.c:74-82 | The in-place shift loop over a fixed 20-slot array computes exactly the functional insertion, so it also refines the window insertion. |
| ReceiveLoop.Step | main/main.c:62-83 | For a received frame that passes the filter, the history gains the record (frame unchanged, label from byte 2). A timeout, an error or a filtered-out frame leaves the store, count included, unchanged. |
| ReceiveLoop.Accepted | main/main.c:62-65 | The records a poll trace offers are never more than the polls. Each one is exactly what the classifier makes of its frame. Every received frame that passes the filter contributes its record, labelled from byte 2. Arrival order is fixed by `ReceiveLoop.AcceptedExtend`. |
| ReceiveLoop.AcceptedExtend | main/main.c:62-65 | One more poll result appends exactly that frame's record when it is a received frame the classifier keeps, and appends nothing otherwise. Together with the empty trace giving no records, this determines `Accepted` completely, in arrival order. |
| ReceiveLoop.Run | main/main.c:61-85 | Running the loop over any poll trace keeps the store within its 20-slot capacity. |
| ReceiveLoop.RunPushesAccepted | main/main.c:61-85 | From any well-formed store, the loop pushes exactly the accepted records onto the history, in arrival order. Every other poll result contributes nothing. |
| ReceiveLoop.RunIsWindowOfAccepted | main/main.c:58-86 | From the empty store, after any poll trace, the store holds exactly the last min(20, n) accepted records in arrival order, oldest at index 0. |
| ReceiveLoop.StoredRecordsPassedFilter | main/main.c:63-65 | Every stored record has identifier 0x762 and bytes 0x23 0x00, and it is labelled Status 4 iff its byte 2 is 0x88. |
| ReceiveLoop.ReceiveTask | main/main.c:58-86 | The receive loop with the in-place array insertion leaves exactly the last min(20, n) accepted records in the store. |
| Sequencer.TableShape | main/main.c:39-47 | The send table has seven entries, all on identifier 0x742 with DLC 8. |
| Sequencer.Send | main/main.c:50-56 | The attempted frames are the table entries from the start index, in order. The sequence completes iff every transmit succeeds. On the first failure at index k, the entries before k were sent, entry k was attempted, and nothing after k was attempted. |
| Sequencer.SendAll | main/main.c:50-56 | The imperative transmit loop, which stops at the first failed check, produces exactly that report. |
| Sequencer.SendTwaiMessages | main/main.c:39-56 | Sending the diagnostic table attempts at most seven frames, all on 0x742 with DLC 8, in table order, and stops at the first failure. |
| Sequencer.ThirdTransmitFails | main/main.c:51-52 | If the third transmit fails, exactly two frames were sent before it and the last four are never attempted. |
| Render.HexDigit | main/main.c:132 | A hex digit is always one of 0-9 or A-F (upper case). |
| Render.DigitValue | main/main.c:132 | Reading a digit is the inverse of writing one. Only 0-9 and A-F are read. |
| Render.HexByte | main/main.c:132 | `%02X` writes exactly two upper-case hex digits per byte. |
| Render.HexByteRoundTrip | main/main.c:132 | The two digits written for a byte read back as that byte. |
| Render.DataField | main/main.c:131-133 | The data field of an item is three characters per meaningful byte. |
| Render.DataFieldLayout | main/main.c:131-133 | Byte i is written at characters 3i..3i+2: its two hex digits, then a space. |
| Render.DataFieldRoundTrip | main/main.c:131-134 | The data field, followed by the comma that starts the status, reads back as the bytes written, in order. |
| Render.ItemRoundTrip | main/main.c:130-134 | One list item reads back as that record's meaningful bytes and its status label, whatever text follows it. |
| Render.ItemsRoundTrip | main/main.c:129-135 | The rendered list reads back as one entry per record, in index order, with each entry's bytes and label. |
| Render.Item | main/main.c:130-134 | An item is `"<li>ID: 0x762, Data: "`, then `%02X ` for each shown byte, then `", Status: "`, the label and `"</li>"`. It is 44 characters plus three per meaningful byte, so at most 68. It starts with the head and ends with the closing tag. |
| Render.Items | main/main.c:129-135 | The list is the items in record order. It is empty for no records and starts with the first record's item. It is at most 68 characters per record. |
| Render.RenderData | main/main.c:131-133 | The inner loop writes the first DLC data bytes as `%02X ` groups, three characters each. |
| Render.RenderItem | main/main.c:130-134 | One pass of the outer loop appends exactly one item to the text so far: 44 characters plus three per meaningful byte. |
| Render.RenderHistory | main/main.c:129-135 | The rendering loop emits exactly the items for slots 0..count-1, in index order, and the list is at most 1360 characters. By `Render.ItemsRoundTrip`, this text reads back as the stored entries. |

## Left out

- Wi-Fi soft-AP bring-up, NVS initialisation and `app_main` (main/main.c:89-112, 193-225) are vendor SDK calls with no logic of their own.
- HTTP server start-up, handler registration, `httpd_resp_send` and the fixed HTML/JavaScript around the list (main/main.c:116-128, 137-191) are not modelled. Their only computation is the per-entry loop, which is modelled.
- `send_handler` answers "OK" after the send sequence. On a failed transmit it never answers, because with the default assertion configuration the firmware aborts. That reply is not modelled beyond the `Aborted` outcome.
- The TWAI driver (`twai_transmit`, `twai_receive`, timing and acceptance-filter configuration) is abstracted. Receives are a trace of `RxResult`, and transmit results are the `bus` function.
- Frames whose DLC is non-compliant (above 8) are not modelled: the DLC type is 0..8. For such a frame the rendering loop would read past the 8-byte data array.
- `vTaskDelay` pacing, receive and transmit timeouts, and FreeRTOS task creation are timing and scheduling, not behaviour that can be stated here.
- Concurrency between the receive task and the page handler is not modelled. The store has no lock, so it is modelled sequentially.
- ReceiveLoop.ReceiveTask: the firmware loops forever, while the model runs over a finite poll trace. Every finite prefix of an endless run is covered.
- The abort and restart that `ESP_ERROR_CHECK` causes (with the default assertion configuration) on a failed transmit are not modelled. The model reports the failing index and error instead, and it does not model the loss of the in-memory history.
- Sequencer.SendTwaiMessages: only the default assertion configuration is modelled. With assertions disabled (`NDEBUG`), `ESP_ERROR_CHECK` discards the error and all seven transmits are attempted. That variant is not modelled.
- ESP_LOGI/printf logging, and the `malloc` of the 8192-byte page buffer, are not modelled.
- ISO 15765-2 segmentation and flow control are not modelled. The firmware only sends literal bytes and never waits for or matches responses.
