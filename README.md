# ESP32 Bluetooth speaker: LTE modem client and peripheral drivers

A Dafny model of the firmware's stateful core, with proofs about it.

- **`LTE4G_Client`.** This is the 4G modem client. It has four parts:
  - a nine-step AT configuration flow with per-step and global retry counters;
  - the classifier for the reply to the WebSocket upgrade request;
  - the classifier for bytes arriving on the open link;
  - the WebSocket frame codec, in the simplified form the client implements. Fixed client mask 81 81 81 81. The 16-bit extended length is truncated to its low byte, because it is stored in a `uint8_t`.
- **PCA9554 I/O-expander driver**, over the chip's four registers.
- **The expander's three buttons.** Falling-edge detection with a 200 ms debounce per pin.
- **The BOOT button's multi-click counter.** Five clicks request a factory reset.
- **The status LED.** Blue blink, steady blue, and a green breathing ramp.
- **QMI8658A IMU driver**, over the chip's register file.

## How the source is mapped

The modules follow the program's structure:

- **Shared modules.**
  - `Clock`: 32-bit `millis()` and wrap-around elapsed time.
  - `Registers`: bytes, bits, and the bus access log.
  - `Bytes`: the Arduino `String` operations the client uses (`indexOf`, `trim`, `substring`, `toInt`), over bytes.
- **LTE client modules.**
  - `ModemText`: the nine configuration steps, their commands, and the reply tests.
  - `WsFrame`: frame parsing, the decoding of a whole buffer, and client frame encoding.
  - `Lte4gState`: the client's fields as one value.
  - `Lte4gSocket` and `Lte4gConfig`: the client's operations as functions on that value, with the lemmas about them.
  - `Lte4g`: the client as a class. Its fields are updated in place by methods. Each method is proved to leave exactly the state the corresponding function describes.
- **Driver modules.** `Pca9554`, `IoHandler`, `Button`, `Led` and `Qmi8658a` are classes over the source's fields and statics. Each method is proved against a specification function on the old state, or states the new registers and bus log outright.

How the environment is represented:

- **Serial line.**
  - The modem's replies are a queue of byte chunks.
  - Each 2-second read window of `executeConfigStep` takes one chunk. An empty queue means the modem stayed silent.
  - `waitForConnect` reads chunks until the text settles the connection.
  - Every byte the client writes is appended to `tx`.
- **Callbacks.** Data and status callbacks are event logs (`delivered`, `statusLog`).
- **I2C transactions.** Their outcomes (acknowledged or not) are method parameters.
- **Time.** The clock is a parameter (`now`).
- **Handshake key.** The WebSocket key is a parameter of the handshake, because the key comes from `esp_random` and base64.

## Model

| member | source | states |
|---|---|---|
| Clock.Elapsed | arduino_code/ESP32-A2DP-SPEAKER/src/button_handler.cpp:32 | `now - since` on 32-bit unsigned `millis()`: the plain difference, or the difference across one wrap-around |
| Clock.ElapsedAfter | arduino_code/ESP32-A2DP-SPEAKER/src/button_handler.cpp:42 | the time elapsed from `since` to `since + d` (wrapped) is `d`, for every `d` below 2^32 |
| Registers.SetBit | arduino_code/libraries2/PCA9554/src/PCA9554.cpp:87-94 | `|= (1 << p)` / `&= ~(1 << p)`: bit p takes the wanted value and every other bit is kept |
| Bytes.IndexOfSpec | arduino_code/LTE4G/LTE4G_Library.cpp:272 | `indexOf` returns the first occurrence at or after `from`, or -1 exactly when there is none |
| Bytes.IndexOf | arduino_code/LTE4G/LTE4G_Library.cpp:272 | `indexOf(needle, from)`: -1, or an index at or after `from` where the needle fits in the text; `IndexOfSpec` makes it the first occurrence |
| Bytes.Contains | arduino_code/LTE4G/LTE4G_Library.cpp:607 | `indexOf(...) != -1`; `ContainsIff` makes it "the needle occurs somewhere" |
| Bytes.ContainsIff | arduino_code/LTE4G/LTE4G_Library.cpp:607 | `indexOf(...) != -1` holds iff the needle occurs at some index |
| Bytes.IndexOfPrefix | arduino_code/LTE4G/LTE4G_Library.cpp:921-926 | appending bytes does not move an occurrence already found |
| Bytes.ContainsInfix | arduino_code/LTE4G/LTE4G_Library.cpp:1154 | a needle found in a slice is found in the whole text |
| Bytes.Between | arduino_code/LTE4G/LTE4G_Library.cpp:272-279 | the text between the first tag and the next separator is only produced when the tag occurs |
| Bytes.BetweenFound | arduino_code/LTE4G/LTE4G_Library.cpp:272-279 | a field free of the separator placed right after the first tag is read back exactly |
| Bytes.BetweenIs | arduino_code/LTE4G/LTE4G_Library.cpp:272-279 | when tag and separator are found, the result is the slice between them |
| Bytes.BetweenNoTag | arduino_code/LTE4G/LTE4G_Library.cpp:273 | no tag: no field |
| Bytes.BetweenNoSeparator | arduino_code/LTE4G/LTE4G_Library.cpp:276 | no separator after the tag: no field |
| Bytes.SkipSpace | arduino_code/LTE4G/LTE4G_Library.cpp:511 | the leading whitespace run ends at the first non-space byte |
| Bytes.TrimEndAt | arduino_code/LTE4G/LTE4G_Library.cpp:511 | the trailing whitespace run starts after the last non-space byte |
| Bytes.Trim | arduino_code/LTE4G/LTE4G_Library.cpp:511 | `trim()` is never longer than its input and starts and ends with a non-space byte; `TrimSpec` makes it exactly the input without its leading and trailing whitespace |
| Bytes.TrimSpec | arduino_code/LTE4G/LTE4G_Library.cpp:511 | `trim()` removes exactly the leading and trailing whitespace, and what is left starts and ends with a non-space byte |
| Bytes.TrimIdempotent | arduino_code/LTE4G/LTE4G_Library.cpp:511 | trimming twice is trimming once |
| Bytes.TrimKeepsKeyword | arduino_code/LTE4G/LTE4G_Library.cpp:511-629 | a keyword that starts and ends with non-space bytes occurs in the trimmed reply iff it occurs in the reply |
| Bytes.TrimContains | arduino_code/LTE4G/LTE4G_Library.cpp:511 | whatever the trimmed reply contains, the reply contains |
| Bytes.Decimal | arduino_code/LTE4G/LTE4G_Library.cpp:277 | a number's decimal digits are non-empty and all digits |
| Bytes.Saturate | arduino_code/LTE4G/LTE4G_Library.cpp:277 | values inside the 32-bit `long` range are kept; larger ones read as `LONG_MAX`, smaller ones as `LONG_MIN` |
| Bytes.ToInt | arduino_code/LTE4G/LTE4G_Library.cpp:277 | `atol`: the result is always within the 32-bit `long` range; `ToIntDecimal` makes it read back a decimal number |
| Bytes.ToIntDecimal | arduino_code/LTE4G/LTE4G_Library.cpp:277 | `toInt()` reads back a number written in decimal, whatever non-digit follows, saturated at `LONG_MAX` |
| Bytes.DigitsOfDecimal | arduino_code/LTE4G/LTE4G_Library.cpp:277 | reading the digits of `n` after an accumulated value `acc` yields `acc` shifted by those digits plus `n` |
| Bytes.DigitRoundTrip | arduino_code/LTE4G/LTE4G_Library.cpp:277 | digit byte and digit value are inverse |
| ModemText.Index | arduino_code/LTE4G/LTE4G_Library.cpp:418-463 | the steps are numbered 0..9 and only COMPLETED is 9 |
| ModemText.Next | arduino_code/LTE4G/LTE4G_Library.cpp:652 | `_currentStep + 1` moves exactly one step on |
| ModemText.StepAt | arduino_code/LTE4G/LTE4G_Library.cpp:652 | every number 0..9 names the step with that index |
| ModemText.AcceptsSoftOnly | arduino_code/LTE4G/LTE4G_Library.cpp:516-603 | CIPMODE, CSTT, CIICR and CIFSR succeed on any reply; AT, ICCID and CGATT fail without "OK"; ATE0 without "OK" succeeds iff "NO CARRIER" is present |
| ModemText.Accepts | arduino_code/LTE4G/LTE4G_Library.cpp:516-603 | the per-step success test on the reply, as `AcceptsSoftOnly` and `AcceptsIgnoresTrim` state it |
| ModemText.Established | arduino_code/LTE4G/LTE4G_Library.cpp:611 | "CONNECT" present without "CONNECT FAIL"; `EstablishedIgnoresTrim` and `WaitConnectSpec` use it |
| ModemText.AcceptsIgnoresTrim | arduino_code/LTE4G/LTE4G_Library.cpp:511 | trimming the reply never changes a step's verdict |
| ModemText.EstablishedIgnoresTrim | arduino_code/LTE4G/LTE4G_Library.cpp:607-611 | trimming never changes whether "OK" or an established CONNECT is present |
| ModemText.SignalStrength | arduino_code/LTE4G/LTE4G_Library.cpp:262-282 | `getSignalStrength`: a reading other than -1 comes from a reply that has "+CSQ: ", and it is within the `long` range; `SignalStrengthReads` and `SignalStrengthMissing` give its value |
| ModemText.SignalStrengthReads | arduino_code/LTE4G/LTE4G_Library.cpp:271-281 | the number after the first "+CSQ: " and before the next comma is read back (saturated at `LONG_MAX`) |
| ModemText.SignalStrengthMissing | arduino_code/LTE4G/LTE4G_Library.cpp:271-281 | without "+CSQ: ", or without a comma after it, the reading is -1 |
| ModemText.Iccid | arduino_code/LTE4G/LTE4G_Library.cpp:299-320 | `getICCID`: a non-empty identifier comes from a reply that has "+ICCID: "; `IccidReads` and `IccidMissing` give its value |
| ModemText.IccidReads | arduino_code/LTE4G/LTE4G_Library.cpp:308-319 | an identifier on its own line after the first "+ICCID: " is read back exactly, its CR trimmed |
| ModemText.IccidMissing | arduino_code/LTE4G/LTE4G_Library.cpp:308-319 | without "+ICCID: ", or without a line feed after it, the result is empty |
| WsFrame.Payload | arduino_code/LTE4G/LTE4G_Library.cpp:1049-1071 | the payload has as many bytes as the frame's data |
| WsFrame.Xor | arduino_code/LTE4G/LTE4G_Library.cpp:1061-1065 | unmasking keeps the length; `XorInvolutive` makes it its own inverse |
| WsFrame.XorInvolutive | arduino_code/LTE4G/LTE4G_Library.cpp:1061-1065 | masking twice with the same key gives the data back |
| WsFrame.ParseFrame | arduino_code/LTE4G/LTE4G_Library.cpp:1003-1047 | a complete frame lies within the buffer; the buffer is malformed iff it has two bytes and FIN is clear or the length code is 127 |
| WsFrame.Extract | arduino_code/LTE4G/LTE4G_Library.cpp:1038-1047 | once the header is read, a frame is complete or waiting, never malformed |
| WsFrame.FrameLayout | arduino_code/LTE4G/LTE4G_Library.cpp:1015-1071 | header size 2, 4 with length code 126, plus 4 when masked; extended length is byte 3 only; key at offset 2 or 4; opcode is the low nibble |
| WsFrame.PayloadBytes | arduino_code/LTE4G/LTE4G_Library.cpp:1053-1071 | masked payload byte i is buffer byte headerSize+i XOR key[i mod 4]; unmasked bytes are copied |
| WsFrame.DecodeRest | arduino_code/LTE4G/LTE4G_Library.cpp:1101-1108 | after decoding, what is left is a suffix of the buffer: empty after a malformed frame, otherwise an incomplete frame |
| WsFrame.Decode | arduino_code/LTE4G/LTE4G_Library.cpp:1101-1108 | the `while` loop of `processWebSocketBuffer` as a function; `DecodeRest`, `DecodeAppend` and `ChunkingInvariant` state what it leaves and that chunking does not matter |
| WsFrame.TextsAppend | arduino_code/LTE4G/LTE4G_Library.cpp:1075-1081 | Text payloads of two frame runs are delivered in arrival order |
| WsFrame.RepliesAppend | arduino_code/LTE4G/LTE4G_Library.cpp:1089-1092 | one Pong per Ping, in arrival order |
| WsFrame.HasCloseAppend | arduino_code/LTE4G/LTE4G_Library.cpp:1085-1088 | a Close frame in either run is a Close frame in both |
| WsFrame.TextFrame | arduino_code/LTE4G/LTE4G_Library.cpp:1170-1207 | a text frame of an n-byte payload has n + 6 bytes |
| WsFrame.LengthByte | arduino_code/LTE4G/LTE4G_Library.cpp:1185 | `0x80 \| n` carries the mask bit and the length n for n < 126 |
| WsFrame.TextFrameRoundTrip | arduino_code/LTE4G/LTE4G_Library.cpp:1170-1207 | decoding an encoded text frame, whatever follows it, yields a Text frame of n + 6 bytes whose payload is the original |
| WsFrame.KeepaliveFramesParse | arduino_code/LTE4G/LTE4G_Library.cpp:1215 | the fixed Ping and Pong byte strings decode to empty masked Ping and Pong frames |
| WsFrame.TextFramesDecode | arduino_code/LTE4G/LTE4G_Library.cpp:1170-1207 | a stream of encoded text frames decodes to exactly those payloads, nothing left over |
| WsFrame.ParsePrefixStable | arduino_code/LTE4G/LTE4G_Library.cpp:1043-1047 | once a frame is complete, more bytes behind it do not change it |
| WsFrame.MalformedStable | arduino_code/LTE4G/LTE4G_Library.cpp:1009-1035 | more bytes never rescue a malformed front |
| WsFrame.ProperPrefixIncomplete | arduino_code/LTE4G/LTE4G_Library.cpp:1043-1047 | every proper prefix of a complete frame is waited on |
| WsFrame.DroppedStable | arduino_code/LTE4G/LTE4G_Library.cpp:1009-1035 | a buffer the decoder drops is dropped whatever is appended |
| WsFrame.DecodeAppend | arduino_code/LTE4G/LTE4G_Library.cpp:1101-1108 | decoding a + b is decoding a, then decoding its remainder followed by b |
| WsFrame.ChunkingInvariant | arduino_code/LTE4G/LTE4G_Library.cpp:1102-1105 | how the bytes are split into chunks does not change the frames decoded or what is left |
| Lte4gState.Initial | arduino_code/LTE4G/LTE4G_Library.cpp:13-45 | DISCONNECTED at the first step, WebSocket mode on, every flag and counter cleared, nothing written |
| Lte4gState.StartHandshake | arduino_code/LTE4G/LTE4G_Library.cpp:896-915 | writes the Upgrade request with the key, marks the handshake pending, empties the frame buffer, and changes nothing else |
| Lte4gState.Disconnect | arduino_code/LTE4G/LTE4G_Library.cpp:323-337 | writes "+++" and AT+CIPCLOSE, clears the three connection flags, reports DISCONNECTED, keeps the configuration |
| Lte4gSocket.ProcessBuffer | arduino_code/LTE4G/LTE4G_Library.cpp:1002-1109 | what remains is a suffix of the buffer that is empty or an incomplete frame; deliveries and writes only grow; a Close can only clear `_wsConnected`; no other field changes |
| Lte4gSocket.BufferWaits | arduino_code/LTE4G/LTE4G_Library.cpp:1003-1047 | fewer than 2 bytes, a 126 code with fewer than 4, or fewer than header+payload bytes: nothing changes |
| Lte4gSocket.BufferDropped | arduino_code/LTE4G/LTE4G_Library.cpp:1009-1035 | FIN clear or length code 127: the buffer is emptied and nothing else changes |
| Lte4gSocket.Classify | arduino_code/LTE4G/LTE4G_Library.cpp:1112-1167 | each route holds exactly when its rule applies and no earlier one does, in the order: empty chunk; frame start byte 0x80..0x8F; before the handshake, a chunk under 15 bytes that trims to CLOSED, NO CARRIER or DISCONNECT; handshake done and connected; ERROR with CONNECT, NO CARRIER or DISCONNECT anywhere; anything else. A connected link never reports loss |
| Lte4gSocket.ProcessData | arduino_code/LTE4G/LTE4G_Library.cpp:1112-1167 | a link-lost chunk (early or later, on a link that is not up) clears both connection flags and leaves the buffer alone; every other non-empty chunk is appended and the buffer decoded; the handshake flag and the status log never change |
| Lte4gSocket.ProcessFrames | arduino_code/LTE4G/LTE4G_Library.cpp:987-999 | decoding the buffer and classifying new data never changes the handshake flag |
| Lte4gSocket.SendText | arduino_code/LTE4G/LTE4G_Library.cpp:1170-1207 | the encoded frame is written only when connected and n < 126; nothing else changes |
| Lte4gSocket.SendPing | arduino_code/LTE4G/LTE4G_Library.cpp:1211-1218 | the fixed Ping frame is written only when connected |
| Lte4gSocket.SendPong | arduino_code/LTE4G/LTE4G_Library.cpp:1221-1226 | the fixed Pong frame 8A 80 81 81 81 81 is written unconditionally |
| Lte4gSocket.Residue | arduino_code/LTE4G/LTE4G_Library.cpp:932-946 | a residue is found only when the header ends with "\r\n\r\n" and bytes follow it, and it starts right after that blank line |
| Lte4gSocket.CheckHandshake | arduino_code/LTE4G/LTE4G_Library.cpp:918-984 | first match wins: "HTTP/1.1 101" sets both WebSocket flags, then decodes the bytes after the header as frames, or sends the "ESP32S3 Connected" greeting when none follow; a frame start byte marks the link up and keeps the buffer; CLOSED/ERROR/400/404 clear both flags and keep the buffer; otherwise the buffer grows, and is cleared past 1024 bytes; `_isConnected` and the status are never touched |
| Lte4gSocket.ClosedStaysClosed | arduino_code/LTE4G/LTE4G_Library.cpp:1112-1167 | no stream of data reopens a closed WebSocket |
| Lte4gSocket.UpAppends | arduino_code/LTE4G/LTE4G_Library.cpp:1146-1151 | on an open link every non-empty chunk is frame data, whatever text it contains |
| Lte4gSocket.StreamDelivered | arduino_code/LTE4G/LTE4G_Library.cpp:1112-1167 | on an open link, the payloads delivered and the Pongs written for a chunk stream are those of decoding the concatenated stream, however it is chunked |
| Lte4gSocket.TextStreamDelivered | arduino_code/LTE4G/LTE4G_Library.cpp:1112-1167 | a stream of text frames delivers exactly their payloads, in order |
| Lte4gSocket.SendTextRoundTrip | arduino_code/LTE4G/LTE4G_Library.cpp:1170-1207 | the frame sent decodes back to the one payload sent |
| Lte4gSocket.UpgradeGreets | arduino_code/LTE4G/LTE4G_Library.cpp:926-951 | a 101 reply with nothing after its header completes the handshake, clears the buffer and sends the "ESP32S3 Connected" text frame |
| Lte4gSocket.UpgradeThenTexts | arduino_code/LTE4G/LTE4G_Library.cpp:926-945 | frames arriving right behind the 101 header are decoded and delivered at once, and no greeting is sent |
| Lte4gSocket.UpgradeResidue | arduino_code/LTE4G/LTE4G_Library.cpp:932-939 | the residue of a header followed by frames is exactly those frames |
| Lte4gConfig.SendCommand | arduino_code/LTE4G/LTE4G_Library.cpp:464-480 | the step's command line is written and one read window's chunk becomes `_modemResponse`; nothing else changes |
| Lte4gConfig.WaitConnect | arduino_code/LTE4G/LTE4G_Library.cpp:737-798 | the chunks left unread are a suffix of the queue; `WaitConnectSpec` gives the verdict |
| Lte4gConfig.WaitConnectSpec | arduino_code/LTE4G/LTE4G_Library.cpp:737-798 | success iff the text read so far reports CONNECT without CONNECT FAIL; failure only on silence, CONNECT FAIL or ERROR |
| Lte4gConfig.ConnectOutcome | arduino_code/LTE4G/LTE4G_Library.cpp:605-629 | the TCP check leaves step, counters and setup alone; `ConnectVerdict` and `ConnectDrains` state its verdict and what it leaves unread |
| Lte4gConfig.ConnectDrains | arduino_code/LTE4G/LTE4G_Library.cpp:737-798 | a connection confirmed by `waitForConnect` with a handshake due clears the reply and drains every unread chunk before the handshake; otherwise the chunks after the confirming one stay unread |
| Lte4gConfig.ConnectVerdict | arduino_code/LTE4G/LTE4G_Library.cpp:605-629 | the TCP step succeeds iff the reply has "OK" and either reports an established CONNECT itself or `waitForConnect` then reads one |
| Lte4gConfig.ConnectSuccessConnects | arduino_code/LTE4G/LTE4G_Library.cpp:605-629 | a successful TCP check leaves `_isConnected` set |
| Lte4gConfig.ConnectFailureKeepsFlags | arduino_code/LTE4G/LTE4G_Library.cpp:605-629 | a failed TCP check never sets the connection flag and changes neither configuration nor status |
| Lte4gConfig.Restart | arduino_code/LTE4G/LTE4G_Library.cpp:802-811 | back to AT with the step count 0, global count kept, all four connection flags cleared |
| Lte4gConfig.Judge | arduino_code/LTE4G/LTE4G_Library.cpp:510-629 | outside the TCP step, the verdict is the step's test on the trimmed reply and only the reply is trimmed |
| Lte4gConfig.Succeed | arduino_code/LTE4G/LTE4G_Library.cpp:632-662 | success resets the step count, and continuing strictly lowers the termination measure |
| Lte4gConfig.Fail | arduino_code/LTE4G/LTE4G_Library.cpp:663-707 | failure keeps the setup, and continuing strictly lowers the termination measure |
| Lte4gConfig.Respond | arduino_code/LTE4G/LTE4G_Library.cpp:510-708 | a round that continues strictly lowers the measure, so the flow always ends |
| Lte4gConfig.RespondJudged | arduino_code/LTE4G/LTE4G_Library.cpp:632-707 | processing a reply is judging it, then the success or the failure path |
| Lte4gConfig.SucceedOutcome | arduino_code/LTE4G/LTE4G_Library.cpp:632-662 | success resets the step count; the TCP step completes with `_isConfigured` and global count 0; any other step advances by one and continues |
| Lte4gConfig.FailOutcome | arduino_code/LTE4G/LTE4G_Library.cpp:663-707 | failures 1 and 2 retry the same step; the third restarts at AT with the global count up and the flags cleared; the third of the third pass stops in ERROR |
| Lte4gConfig.RespondOutcome | arduino_code/LTE4G/LTE4G_Library.cpp:510-708 | with both counts below 3, a round either continues with both still below 3 or ends completed and connected, or in ERROR at counts 3/3 |
| Lte4gConfig.RunOutcome | arduino_code/LTE4G/LTE4G_Library.cpp:418-708 | the flow ends either completed and configured, or in ERROR at counts 3/3; a flow that reaches COMPLETED is connected with both counters 0; an ERROR end leaves the link and configuration flags cleared unless they were already set entering the last pass |
| Lte4gConfig.RunEnds | arduino_code/LTE4G/LTE4G_Library.cpp:632-707 | the end-state half of the above, by induction on the rounds |
| Lte4gConfig.RunFlags | arduino_code/LTE4G/LTE4G_Library.cpp:663-707 | the flag half of the above, by induction on the rounds |
| Lte4gConfig.FailSpent | arduino_code/LTE4G/LTE4G_Library.cpp:663-707 | once the global count is 3 or more (it is never reset by `reconnect`), failures 1 and 2 retry the step and the third stops in ERROR with the global count one higher; no restart |
| Lte4gConfig.RespondSpent | arduino_code/LTE4G/LTE4G_Library.cpp:510-708 | with the global count spent, a round continues with the count unchanged and no flag newly set, or ends completed and connected, or in ERROR at step count 3 |
| Lte4gConfig.RunSpent | arduino_code/LTE4G/LTE4G_Library.cpp:663-707 | with the global count spent, the flow ends complete, or in ERROR after one step's third failure, never setting a flag it did not start with |
| Lte4gConfig.Run | arduino_code/LTE4G/LTE4G_Library.cpp:418-482 | `executeConfigStep` and the rounds it leads to; `RunOutcome`, `RunSpent`, `RunKeeps`, `NoOkRun` and `AnsweredRun` state its results |
| Lte4gConfig.RestartConfigFlow | arduino_code/LTE4G/LTE4G_Library.cpp:802-820 | `restartConfigFlow`; `RestartConfigFlowOutcome` states its result |
| Lte4gConfig.RestartConfigFlowOutcome | arduino_code/LTE4G/LTE4G_Library.cpp:802-820 | whatever the global count, the restarted flow ends complete, configured and connected, or in ERROR with step count 3, global count 3 (or one above a count already at 3) and both flags clear |
| Lte4gConfig.Reconnect | arduino_code/LTE4G/LTE4G_Library.cpp:340-358 | `reconnect`; `ReconnectOutcome` states its result |
| Lte4gConfig.ReconnectOutcome | arduino_code/LTE4G/LTE4G_Library.cpp:340-358 | at the end of the flow, before `reconnect`'s wait loop, and whatever the global count: `reconnect` returns true iff the flow from the TCP step completes (configured, global count 0); otherwise ERROR at global count 3 (or one above a count already at 3), disconnected; DISCONNECTED is the only status it adds |
| Lte4gConfig.RunKeeps | arduino_code/LTE4G/LTE4G_Library.cpp:418-708 | the flow reports no status, delivers nothing and keeps the server settings and mode |
| Lte4gConfig.ConfigureOutcome | arduino_code/LTE4G/LTE4G_Library.cpp:79-110 | at the end of the flow, before `configure`'s wait loop: `configure` returns `_isConfigured`; success reports CONNECTED with the link up, failure reports ERROR with counts 3/3; exactly one status is reported |
| Lte4gConfig.Configure | arduino_code/LTE4G/LTE4G_Library.cpp:79-110 | `configure`; `ConfigureOutcome` and `ConfigureWithoutOk` state its results |
| Lte4gConfig.NoOkRun | arduino_code/LTE4G/LTE4G_Library.cpp:517-522 | a modem that never says "OK" gets only "AT" lines, one per remaining attempt, and the flow ends in ERROR |
| Lte4gConfig.ConfigureWithoutOk | arduino_code/LTE4G/LTE4G_Library.cpp:79-110 | up to `configure`'s wait loop, a modem that never says "OK" is sent "AT" exactly nine times and the flow fails with ERROR |
| Lte4gConfig.AnsweredRun | arduino_code/LTE4G/LTE4G_Library.cpp:418-662 | a modem that answers each remaining step in turn takes the flow to completion, connected, counters 0, one reply per step |
| Lte4gConfig.AnsweredRunFrom | arduino_code/LTE4G/LTE4G_Library.cpp:632-662 | the same, by induction on the steps left |
| Lte4gConfig.AnsweredStep | arduino_code/LTE4G/LTE4G_Library.cpp:650-656 | an accepted reply to a step other than TCP moves to the next step, using one reply |
| Lte4gConfig.AnsweredConnect | arduino_code/LTE4G/LTE4G_Library.cpp:605-641 | a reply at the TCP step that carries "OK" and an established CONNECT completes the flow, configured, connected, global count 0, using one reply |
| Lte4g.ExtractPayload | arduino_code/LTE4G/LTE4G_Library.cpp:1053-1071 | the index loops build exactly the frame's payload, XOR-unmasked when a key is present |
| Lte4g.BuildTextFrame | arduino_code/LTE4G/LTE4G_Library.cpp:1177-1201 | the n + 6 byte buffer holds exactly the specified text frame |
| Lte4g.HandleFrames | arduino_code/LTE4G/LTE4G_Library.cpp:1002-1109 | the frame loop delivers the Text payloads and Pongs of the decoded frames, clears `_wsConnected` on Close, and leaves what the decoder leaves |
| Lte4g.Client.constructor | arduino_code/LTE4G/LTE4G_Library.cpp:13-45 | the fields are those of the initial state |
| Lte4g.Client.IsWebSocketConnected | arduino_code/LTE4G/LTE4G_Library.cpp:378-380 | connected and handshake complete |
| Lte4g.Client.SendWebSocketPongFrame | arduino_code/LTE4G/LTE4G_Library.cpp:1221-1226 | appends the fixed Pong frame |
| Lte4g.Client.SendWebSocketPing | arduino_code/LTE4G/LTE4G_Library.cpp:1211-1218 | the new state is `SendPing` of the old |
| Lte4g.Client.SendWebSocketTextFrame | arduino_code/LTE4G/LTE4G_Library.cpp:1170-1208 | the new state is `SendText` of the old |
| Lte4g.Client.ProcessWebSocketBuffer | arduino_code/LTE4G/LTE4G_Library.cpp:1002-1109 | buffer, deliveries, writes and `_wsConnected` are those of `ProcessBuffer` |
| Lte4g.Client.ProcessWebSocketData | arduino_code/LTE4G/LTE4G_Library.cpp:1112-1167 | the fields it touches are those of `ProcessData` |
| Lte4g.Client.ProcessWebSocketFrames | arduino_code/LTE4G/LTE4G_Library.cpp:987-999 | the fields it touches are those of `ProcessFrames` |
| Lte4g.Client.StartWebSocketHandshake | arduino_code/LTE4G/LTE4G_Library.cpp:896-915 | stores the key, writes the Upgrade request, marks the handshake pending, empties the buffer |
| Lte4g.Client.CheckWebSocketHandshakeResponse | arduino_code/LTE4G/LTE4G_Library.cpp:918-984 | the fields it touches are those of `CheckHandshake` |
| Lte4g.Client.Disconnect | arduino_code/LTE4G/LTE4G_Library.cpp:323-337 | writes the close commands, clears the flags, reports DISCONNECTED |
| Lte4g.Client.SendStepCommand | arduino_code/LTE4G/LTE4G_Library.cpp:464-480 | writes the step's command and takes one chunk as the reply |
| Lte4g.Client.WaitForConnect | arduino_code/LTE4G/LTE4G_Library.cpp:737-798 | the read loop's verdict and the chunks it leaves are those of `WaitConnect` |
| Lte4g.Client.ConnectStep | arduino_code/LTE4G/LTE4G_Library.cpp:605-629 | verdict and fields are those of `ConnectOutcome`, including the serial drain before the handshake |
| Lte4g.Client.SucceedStep | arduino_code/LTE4G/LTE4G_Library.cpp:632-662 | verdict and fields are those of `Succeed` |
| Lte4g.Client.ResetFlow | arduino_code/LTE4G/LTE4G_Library.cpp:805-810 | back to AT with step count 0 and all flags cleared |
| Lte4g.Client.FailStep | arduino_code/LTE4G/LTE4G_Library.cpp:663-707 | verdict and fields are those of `Fail` |
| Lte4g.Client.JudgeResponse | arduino_code/LTE4G/LTE4G_Library.cpp:510-629 | verdict and fields are those of `Judge` |
| Lte4g.Client.ProcessResponse | arduino_code/LTE4G/LTE4G_Library.cpp:510-708 | new state and continuation are those of `Respond` |
| Lte4g.Client.SettleResponse | arduino_code/LTE4G/LTE4G_Library.cpp:632-707 | the success or failure path, as `Succeed` or `Fail` |
| Lte4g.Client.TrimResponse | arduino_code/LTE4G/LTE4G_Library.cpp:511 | `_modemResponse` is trimmed |
| Lte4g.Client.ExecuteConfigStep | arduino_code/LTE4G/LTE4G_Library.cpp:418-482 | the loop of rounds leaves the state `Run` describes |
| Lte4g.Client.ConfigRound | arduino_code/LTE4G/LTE4G_Library.cpp:418-482 | one round is sending the command, then `Respond` |
| Lte4g.Client.MarkConfigured | arduino_code/LTE4G/LTE4G_Library.cpp:459-462 | at COMPLETED the client is marked configured |
| Lte4g.Client.Configure | arduino_code/LTE4G/LTE4G_Library.cpp:79-110 | new state and result are those of `Configure` |
| Lte4g.Client.ReportConfigured | arduino_code/LTE4G/LTE4G_Library.cpp:95-109 | reports CONNECTED when configured, ERROR otherwise, and returns `_isConfigured` |
| Lte4g.Client.RestartConfigFlow | arduino_code/LTE4G/LTE4G_Library.cpp:802-820 | the new state is that of `RestartConfigFlow` |
| Lte4g.Client.Reconnect | arduino_code/LTE4G/LTE4G_Library.cpp:340-358 | new state and result are those of `Reconnect` |
| Lte4g.Client.StartAt | arduino_code/LTE4G/LTE4G_Library.cpp:82-84 | step set, step count 0, global count cleared when asked |
| Lte4g.Client.Report | arduino_code/LTE4G/LTE4G_Library.cpp:97-100 | the status is set and handed to the callback |
| Pca9554.Expander.constructor | arduino_code/libraries2/PCA9554/src/PCA9554.cpp:3-7 | not initialized, no bus traffic |
| Pca9554.Expander.IsConnected | arduino_code/libraries2/PCA9554/src/PCA9554.cpp:16-20 | the result is the probe's acknowledgement |
| Pca9554.Expander.Begin | arduino_code/libraries2/PCA9554/src/PCA9554.cpp:9-14 | `_initialized` and the result are the probe's result |
| Pca9554.Expander.TwiRead | arduino_code/libraries2/PCA9554/src/PCA9554.cpp:22-36 | an acknowledged read returns the register; otherwise the by-reference byte keeps the register address |
| Pca9554.Expander.TwiWrite | arduino_code/libraries2/PCA9554/src/PCA9554.cpp:38-47 | an acknowledged write stores the value; an unacknowledged one changes nothing |
| Pca9554.Expander.PortMode | arduino_code/libraries2/PCA9554/src/PCA9554.cpp:72-77 | the whole CONFIG byte is written |
| Pca9554.Expander.PinMode | arduino_code/libraries2/PCA9554/src/PCA9554.cpp:49-70 | reads CONFIG; pin > 7 or a failed read writes nothing; otherwise bit p is set for input and cleared for output, the other bits kept; no `_initialized` check |
| Pca9554.Expander.DigitalWritePort | arduino_code/libraries2/PCA9554/src/PCA9554.cpp:102-107 | the whole OUTPUT byte is written |
| Pca9554.Expander.DigitalWrite | arduino_code/libraries2/PCA9554/src/PCA9554.cpp:80-98 | no bus access when not initialized or pin > 7; only bit p of OUTPUT changes; the result is the final write's |
| Pca9554.Expander.DigitalRead | arduino_code/libraries2/PCA9554/src/PCA9554.cpp:111-122 | reports bit p of INPUT; on failure the caller's flag is untouched |
| Pca9554.Expander.DigitalReadPort | arduino_code/libraries2/PCA9554/src/PCA9554.cpp:125-131 | reports the INPUT byte |
| Pca9554.Expander.SetPinPolarity | arduino_code/libraries2/PCA9554/src/PCA9554.cpp:133-151 | as `digitalWrite`, on the POLARITY register |
| IoHandler.EdgesOf | arduino_code/ESP32-A2DP-SPEAKER/src/pca9554_handler.cpp:49-58 | pin k fell iff bit k changed and is now 0 |
| IoHandler.Fire | arduino_code/ESP32-A2DP-SPEAKER/src/pca9554_handler.cpp:60-79 | firing pin i issues its action and stamps that pin alone |
| IoHandler.Pins | arduino_code/ESP32-A2DP-SPEAKER/src/pca9554_handler.cpp:53-83 | pins 1..n keep the port state and append at most one action each, keeping earlier actions; `PinsEffect` says which |
| IoHandler.Handle | arduino_code/ESP32-A2DP-SPEAKER/src/pca9554_handler.cpp:43-86 | `handleIOChange`: the port state is remembered and at most three actions are appended, earlier ones kept; `NoPressNoAction`, `OnePress` and `DebounceHolds` say which |
| IoHandler.Only | arduino_code/ESP32-A2DP-SPEAKER/src/pca9554_handler.cpp:53-58 | an edge set with exactly one falling pin |
| IoHandler.PinsEffect | arduino_code/ESP32-A2DP-SPEAKER/src/pca9554_handler.cpp:53-83 | after the loop a pin's stamp is `now` iff it fell and its debounce passed, and the actions issued are those pins' actions in order 1, 2, 3 |
| IoHandler.PinsStamps | arduino_code/ESP32-A2DP-SPEAKER/src/pca9554_handler.cpp:53-83 | the stamps part of the above, by induction on the pins examined |
| IoHandler.PinsIssued | arduino_code/ESP32-A2DP-SPEAKER/src/pca9554_handler.cpp:53-83 | the actions part of the above, by induction on the pins examined |
| IoHandler.Issued | arduino_code/ESP32-A2DP-SPEAKER/src/pca9554_handler.cpp:53-83 | at most one action per pin examined |
| IoHandler.NoPressNoAction | arduino_code/ESP32-A2DP-SPEAKER/src/pca9554_handler.cpp:53-58 | without a falling edge on pins 1-3 (rising edges, bit 0, bits 4-7) no action is issued and no stamp moves |
| IoHandler.OnePress | arduino_code/ESP32-A2DP-SPEAKER/src/pca9554_handler.cpp:43-86 | one press past its debounce issues exactly that pin's action (previous, play/pause, next), stamps only that pin and records the new port state |
| IoHandler.DebounceHolds | arduino_code/ESP32-A2DP-SPEAKER/src/pca9554_handler.cpp:61-77 | after a pin fires, it cannot fire again within 200 ms, whatever the next port state |
| IoHandler.PinsStamp | arduino_code/ESP32-A2DP-SPEAKER/src/pca9554_handler.cpp:53-83 | pins not yet examined keep their stamps |
| IoHandler.Handler.constructor | arduino_code/ESP32-A2DP-SPEAKER/src/pca9554_handler.cpp:20-28 | last state 0xFF, stamps 0, no interrupt pending |
| IoHandler.Handler.Interrupt | arduino_code/ESP32-A2DP-SPEAKER/src/pca9554_handler.cpp:36-38 | the interrupt flag is set |
| IoHandler.Handler.HandleIOChange | arduino_code/ESP32-A2DP-SPEAKER/src/pca9554_handler.cpp:43-86 | the loop over bits 1-3 leaves the state `Handle` describes |
| IoHandler.Handler.Press | arduino_code/ESP32-A2DP-SPEAKER/src/pca9554_handler.cpp:59-80 | pin i fires only past its 200 ms debounce |
| IoHandler.Handler.UpdatePCA9554 | arduino_code/ESP32-A2DP-SPEAKER/src/pca9554_handler.cpp:124-135 | with no interrupt pending nothing happens; otherwise the flag is cleared, the port is read, and a successful read is handled |
| IoHandler.Handler.Init | arduino_code/ESP32-A2DP-SPEAKER/src/pca9554_handler.cpp:91-119 | probe, all pins to input, read the port as the last state; each failure stops the sequence; CONFIG becomes all-input only when the write is acknowledged and every other register is kept |
| Button.ClickIgnored | arduino_code/ESP32-A2DP-SPEAKER/src/button_handler.cpp:35-39 | a click leaves the state unchanged iff it comes within 150 ms of a prior valid click |
| Button.Click | arduino_code/ESP32-A2DP-SPEAKER/src/button_handler.cpp:30-62 | `handleButtonClick`: nothing changes, or both click times become `now`; at most one reset is requested; `ClickIgnored`, `ClickAccepted` and `SpacedClicks` give the count |
| Button.Timeout | arduino_code/ESP32-A2DP-SPEAKER/src/button_handler.cpp:91-98 | `checkMultiClickTimeout`: only the count can change, and only to 0; `TimeoutEffect` says when |
| Button.ClickAccepted | arduino_code/ESP32-A2DP-SPEAKER/src/button_handler.cpp:42-61 | an accepted click stamps both times and counts on, from 0 after a second's silence, modulo five, the fifth requesting a reset |
| Button.ClickBounded | arduino_code/ESP32-A2DP-SPEAKER/src/button_handler.cpp:57-61 | between calls the count stays in 0..4 |
| Button.TimeoutEffect | arduino_code/ESP32-A2DP-SPEAKER/src/button_handler.cpp:91-98 | the timeout zeroes a positive count after more than a second without a click and changes nothing else |
| Button.SpacedClicks | arduino_code/ESP32-A2DP-SPEAKER/src/button_handler.cpp:30-62 | k clicks spaced 150-1000 ms apart leave the count (c + k) mod 5 and request a reset for every fifth |
| Button.ClickCounter.constructor | arduino_code/ESP32-A2DP-SPEAKER/src/button_handler.cpp:19-21 | the statics start at 0 |
| Button.ClickCounter.HandleButtonClick | arduino_code/ESP32-A2DP-SPEAKER/src/button_handler.cpp:30-62 | the new state is `Click` of the old |
| Button.ClickCounter.CheckMultiClickTimeout | arduino_code/ESP32-A2DP-SPEAKER/src/button_handler.cpp:91-98 | the new state is `Timeout` of the old |
| Led.Breathe | arduino_code/ESP32-A2DP-SPEAKER/src/led_control.cpp:70-79 | after every breathing step brightness is in 1..100, and the direction stays ±1 |
| Led.UpdateWaits | arduino_code/ESP32-A2DP-SPEAKER/src/led_control.cpp:42-66 | before the state's interval nothing changes; after it the update is stamped |
| Led.Update | arduino_code/ESP32-A2DP-SPEAKER/src/led_control.cpp:37-85 | `updateRgbLed`: nothing changes, or the update is stamped `now`; the brightness stays in 1..100 and the direction ±1; `Blinks`, `SteadyBlue` and `Breathes` give each mode |
| Led.Blinks | arduino_code/ESP32-A2DP-SPEAKER/src/led_control.cpp:40-53 | disconnected: the blink toggles each second, blue when on, dark when off |
| Led.SteadyBlue | arduino_code/ESP32-A2DP-SPEAKER/src/led_control.cpp:55-62 | connected and idle: steady blue, nothing else changes |
| Led.Breathes | arduino_code/ESP32-A2DP-SPEAKER/src/led_control.cpp:64-83 | playing: green at the new brightness, in 1..100 |
| Led.RisingRamp | arduino_code/ESP32-A2DP-SPEAKER/src/led_control.cpp:70 | from 1 the ramp climbs 3 per step |
| Led.FallingRamp | arduino_code/ESP32-A2DP-SPEAKER/src/led_control.cpp:70-75 | from 100 the ramp descends 3 per step (direction -1.5 truncated to -1) |
| Led.BreathPeriod | arduino_code/ESP32-A2DP-SPEAKER/src/led_control.cpp:66-79 | 33 steps up from 1 to 100, 33 down, a breath of 66 updates |
| Led.RgbLed.constructor | arduino_code/ESP32-A2DP-SPEAKER/src/led_control.cpp:18-32 | the statics' initial values, blue shown |
| Led.RgbLed.UpdateRgbLed | arduino_code/ESP32-A2DP-SPEAKER/src/led_control.cpp:37-85 | the new state is `Update` of the old |
| Qmi8658a.WithRange | arduino_code/libraries2/QMI8658A/src/QMI8658A.cpp:111 | bits 4-6 hold the range and every other bit is kept |
| Qmi8658a.Signed16 | arduino_code/libraries2/QMI8658A/src/QMI8658A.cpp:224 | the `int16_t` cast: two's complement, negative iff bit 15 is set |
| Qmi8658a.Combine | arduino_code/libraries2/QMI8658A/src/QMI8658A.cpp:223-225 | a 16-bit signed value, negative iff the high byte's top bit is set |
| Qmi8658a.CombineBytes | arduino_code/libraries2/QMI8658A/src/QMI8658A.cpp:223-225 | the same on bytes |
| Qmi8658a.CombineSplit | arduino_code/libraries2/QMI8658A/src/QMI8658A.cpp:223-225 | splitting a 16-bit value into bytes and combining gives it back |
| Qmi8658a.SplitCombine | arduino_code/libraries2/QMI8658A/src/QMI8658A.cpp:223-225 | combining two bytes and splitting gives them back |
| Qmi8658a.IntendedCtrl3 | arduino_code/libraries2/QMI8658A/src/QMI8658A.cpp:33 | CTRL3 with the ±256 dps range and `begin`'s other bits |
| Qmi8658a.Startup | arduino_code/libraries2/QMI8658A/src/QMI8658A.cpp:3-37 | after construction and `begin`, the chip's gyroscope range is ±16 dps while the driver assumes ±256 dps |
| Qmi8658a.Imu.constructor | arduino_code/libraries2/QMI8658A/src/QMI8658A.cpp:3-11 | ±2 g and ±256 dps assumed, no bus traffic |
| Qmi8658a.Imu.ReadRegister | arduino_code/libraries2/QMI8658A/src/QMI8658A.cpp:174-188 | returns the register |
| Qmi8658a.Imu.WriteRegister | arduino_code/libraries2/QMI8658A/src/QMI8658A.cpp:190-202 | stores the value |
| Qmi8658a.Imu.ReadRegisters | arduino_code/libraries2/QMI8658A/src/QMI8658A.cpp:204-221 | the loop fills the first `length` bytes with consecutive registers and leaves the rest of the buffer |
| Qmi8658a.Imu.IsConnected | arduino_code/libraries2/QMI8658A/src/QMI8658A.cpp:69-72 | true iff WHO_AM_I reads 0x05 |
| Qmi8658a.Imu.Reset | arduino_code/libraries2/QMI8658A/src/QMI8658A.cpp:74-76 | writes 0xB0 to RESET |
| Qmi8658a.Imu.Begin | arduino_code/libraries2/QMI8658A/src/QMI8658A.cpp:13-37 | on an ID mismatch false with no writes; otherwise RESET 0xB0, CTRL1 0x40, CTRL2 0x04, CTRL3 0x04, CTRL7 0x83 in order and true |
| Qmi8658a.Imu.SetCtrl7Bit | arduino_code/libraries2/QMI8658A/src/QMI8658A.cpp:78-106 | read-modify-write of one bit of CTRL7 |
| Qmi8658a.Imu.EnableAccelerometer | arduino_code/libraries2/QMI8658A/src/QMI8658A.cpp:78-86 | bit 0 of CTRL7 takes the flag, every other bit kept |
| Qmi8658a.Imu.EnableGyroscope | arduino_code/libraries2/QMI8658A/src/QMI8658A.cpp:88-96 | bit 1 of CTRL7 takes the flag, every other bit kept |
| Qmi8658a.Imu.EnableSyncMode | arduino_code/libraries2/QMI8658A/src/QMI8658A.cpp:98-106 | bit 7 of CTRL7 takes the flag, every other bit kept |
| Qmi8658a.Imu.SetAccelerometerRange | arduino_code/libraries2/QMI8658A/src/QMI8658A.cpp:108-113 | CTRL2's range field and `_acc_range` both become the range, other bits kept |
| Qmi8658a.Imu.SetGyroscopeRange | arduino_code/libraries2/QMI8658A/src/QMI8658A.cpp:115-120 | CTRL3's range field and `_gyro_range` both become the range, other bits kept |
| Qmi8658a.Imu.IsDataReady | arduino_code/libraries2/QMI8658A/src/QMI8658A.cpp:122-125 | true iff bit 0 of STATUSINT is set |
| Qmi8658a.Imu.CalibrateGyroscope | arduino_code/libraries2/QMI8658A/src/QMI8658A.cpp:168-171 | writes 0xA2 to CTRL9 |
| Qmi8658a.Imu.ReadAxes | arduino_code/libraries2/QMI8658A/src/QMI8658A.cpp:127-149 | the three axes are the signed combinations of six consecutive registers |
| Qmi8658a.Imu.ReadAccelerometerRaw | arduino_code/libraries2/QMI8658A/src/QMI8658A.cpp:127-137 | the raw axes are combined from AX_L..AZ_H |
| Qmi8658a.Imu.ReadGyroscopeRaw | arduino_code/libraries2/QMI8658A/src/QMI8658A.cpp:139-149 | the raw axes are combined from GX_L..GZ_H |

## Left out

- Serial timing. Real-time behaviour is not modelled:
  - the 2-second read window of `executeConfigStep`;
  - the 10-second loop of `waitForConnect`;
  - the wait loops of `configure` and `reconnect` (see the next three lines);
  - all `delay` calls.

  Each read window consumes one reply chunk.
- Lte4gConfig.ConfigureOutcome: states the result at the end of the configuration flow, not after `configure`'s wait loop (lines 89-93). That loop calls `handleData`, which restarts the flow once 300 s have passed since `_configStartTime` (lines 169-172). The timer was set before the flow ran, so a failed flow can get a fourth pass inside the loop. That pass may configure the modem, and then `configure` returns true.
- Lte4gConfig.ConfigureWithoutOk: the nine "AT" writes and the global count of 3 hold when the flow ends. A fourth pass started by `handleData`'s timeout restart inside `configure`'s wait loop adds three more writes and raises the count to 4.
- Lte4gConfig.ReconnectOutcome: states the result when the flow from the TCP step ends. `reconnect`'s wait loop (lines 351-354) calls `handleData`, which can restart the whole flow while `_isConfigured` is false and the configuration timer is stale. That later flow is not modelled.
- `handleData`, `processConfigResponse` and `checkConnectionHealth`. These poll the serial port on wall-clock timers: a 5-minute configuration timeout, a 30-second handshake retry, a 30-second ping and a 60-second health check. The operations they call are modelled individually.
- `generateWebSocketKey` and `calculateWebSocketAccept` call `esp_random`, base64 and SHA-1. The key is a parameter. The accept value is never checked by the client.
- `sendData`, `sendBinaryData`, `sendHeartbeat`, `getModuleInfo`, `getIPAddress`, `getStatistics`, `handleConnectionLoss` and `handleNetworkLoss`. These are serial pass-throughs and flag resets outside the modelled core.
- `restartConfigFlow`: draining the serial input before the flow restarts is not modelled, because the replies are a queue of answers to the commands sent.
- `waitForConnect`'s first check of `_modemResponse` (lines 717-735) is not modelled as a separate branch. `processResponse` only calls it when that check must fail. The retry branch after a successful TCP step (643-649) and the early return for the forced-success steps (669-677) cannot be reached, and are left out for the same reason.
- Log messages and `Serial` output are left out.
- The status and data callbacks are event logs.
- Arduino `String` NUL-byte truncation is not modelled; text is a sequence of bytes.
- The interrupt handler is a plain method that sets the flag; the concurrency of the ISR is not modelled.
- The I2C and SPI bus code is not modelled. Each access is a register read or write recorded in a log. The spin on `Wire.available()` is not modelled.
- `beginSPI` issues the same register sequence as `begin` over SPI and is not modelled separately.
- The QMI8658A bus reports no failures to the driver, so none are modelled.
- The chip itself is a plain register file: writing RESET does not reset it, and the address counter of a block read is assumed to wrap past 0xFF.
- `readAll`, `readTemperature`, `convertAcceleration` and `convertGyroscope` are floating point and are not modelled. The raw 16-bit samples are.
- The player actions (previous track, play/pause, next track) and the factory reset are recorded as events. The Bluetooth stack they call is not modelled.
- The OneButton library's own debounce and click detection are not modelled; each accepted click is a call of `handleButtonClick`.
- NeoPixel output is not modelled. The model records the colour last chosen.
- Audio, volume, Bluetooth management and the configuration store are not part of this model.
- The flow follows the code, in which:
  - a failing `waitForConnect` takes the generic retry path of `processResponse`, rather than a separate connection-failure path;
  - a modem answering "OK" to every command does not complete the flow, because the ICCID, CGATT and TCP steps need their own tokens.

## Findings

| source | as written | input that shows it | evidently intended | confidence | as-written member | corrected member |
|---|---|---|---|---|---|---|
| arduino_code/libraries2/QMI8658A/src/QMI8658A.cpp:33 | `begin` writes CTRL3 = 0x04. The range field (bits 4-6, the encoding `setGyroscopeRange` uses at line 118) is 0, which is ±16 dps. The driver keeps `_gyro_range` = 256 dps (line 10) and scales samples by it. | `begin` on any chip whose WHO_AM_I reads 0x05 | CTRL3 = 0x44 (±256 dps, same low bits), as the line's comment says | medium, not executed | Qmi8658a.Startup | Qmi8658a.IntendedCtrl3 |
