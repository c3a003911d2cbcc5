# Terminal, transport and script logic

A Dafny model of the parts of this repository that carry logic of their own, with proofs about every
input, every run and every reachable state. `dafny verify dfyconfig.toml` checks all of it.

- **Terminal** (`hterm_all.js`). `HtermUtf8` is the streaming UTF-8 decoder with its encoder, `Utf8Pieces`
  what it makes of malformed input. `VtParser` and `VtInterpreter` are the resumable escape-sequence
  parser. `VtGrammar` says what it makes of every unit of output, `VtSplit` which cuts of its input go
  unnoticed and `VtRaise` which input raises its one exception; `VtStream` joins parser and decoder.
  `ScreenRow` and `Screen` are rows of text runs with a cached cursor run and offset, shown to agree with
  a plain cell grid. `RowMoves`, `Printing` and `Terminal` are the terminal that moves rows between screen and
  scrollback and prints on them. `ScrollPort` and `ScrollPortRedraw` are the redraw that works around
  the selection.
- **Client socket** (`socket.io.js`). `EngineSocket` is the send buffer with flush, drain, upgrade and
  close as a step system with its invariant; `EngineSocketImpl` is the same as a class, each method
  proved to be a step. `SocketProgress` says from which states sends, upgrades and closes come to an end.
- **Codecs** (`socket.io.js`). `SocketUtf8`; `Json3Printer`, `Json3Parser` and `Json3RoundTrip`, with
  the grammar that the parser accepts in `Json3Literals`, `Json3Grammar` and `Json3Accepts` and what the
  printer lays out in `Json3Layout`; `Attachments`, `PacketCodec` and `PacketStream` for packets with
  binary data, and `PacketGrammar` for any other input of their decoder; `EnginePacket`, `TextPayload` and
  `BinaryPayload` for the payloads of the polling transport, with `PayloadGrammar` and `BinaryGrammar`.
- **Script beautifier** (`beautify_bash.py`). `Beautifier`, and `Nesting` for what it does to scripts.
- `JsText`, `JsNumbers` and `JsValue` hold what the rest shares: strings of 16-bit code units, decimal
  numbers, values with own properties.

Imperative code is modelled by classes and methods with loops. Each method is proved against a function
or predicate, and the theorems are about those.

## What does not hold as documented

The code was kept as it is; where a promise fails, the exact condition under which it holds is proved.

- The JSON printer and parser are inverse exactly on trees without a member called `__proto__`, and keep
  the order of members exactly if none stands behind one called `constructor`, which the printer visits
  last (`Json3RoundTrip.ParseUndoesStringify`); with an indentation string only if that is white space
  (`Json3RoundTrip.GapMustBeSpace`).
- Reinserting attachments restores the data exactly if no object has a truthy `_placeholder` or a
  `__proto__` property (`Attachments.RestoreStrip`).
- A packet header is read back exactly if the namespace starts with a slash and has no comma and the
  data is neither null nor a non-negative number and survives the JSON printer and parser
  (`PacketCodec.HeaderRoundTrip`).
- A payload round trip loses empty text (`TextPayload.TextPayloadIsExact`). In a binary payload a
  message whose length is given as zero, or not at all, takes all that follows
  (`BinaryPayload.ZeroLengthTakesAll`); the encoder never makes one.
- `close()` called before the handshake can complete, short of a transport error, exactly if no packet is
  buffered or a write is in flight (`EngineSocket.CloseCompletes`); otherwise the packets still unsent are
  never handed over (`EngineSocket.CloseWhileOpening`).
- A probe that fails while the old transport is being paused leaves `upgrading` set: packets are still
  accepted, but none is handed over any more and no `close()` comes to its end, short of a transport error
  (`SocketProgress.StuckForever`). In every other reachable state they can (`SocketProgress.SentIsHandedOver`,
  `SocketProgress.CloseCompletesWhenOpen`).
- A packet of a binary kind that announces no buffers stays pending and swallows the buffers behind it, each
  of which should raise an exception (`PacketGrammar.OverfullSwallows`).
- `insertLines` cannot clear the last row of the scroll region, however large its count, and it leaves the
  terminal valid exactly if the cursor does not stand below the region; there it takes the cursor's row
  away from under the cursor (`Terminal.Terminal.InsertLines`).
- Switching screens is said to leave the scrollback alone. It does so exactly if the screen shown next has
  as many rows as the terminal, or lacks more of them than the scrollback holds, or has more and the
  surplus at its bottom is empty and below the cursor (`Terminal.Terminal.SetAlternateMode`).
- After `insertString('')` a row may hold an empty span; removing it under a cursor beyond its start
  loses the cursor's column (`ScreenRow.CursorRunRemoved`). Rows without empty spans are therefore a
  precondition of `deleteChars`, and an invariant of the terminal.
- Incomplete sequences are said to wait for the next call. A string sequence that is cut behind an escape
  character and ends in a later piece is given up instead, whether the cut goes through its terminator
  (`VtParser.SplitTerminatorMatters`) or the escape character stood in its text; every other cut goes
  unnoticed (`VtSplit.SplitExactly`, `VtSplit.SplitInString`).
- A call raises an exception exactly on an ESC where the character of a character set designation should
  be (`VtInterpreter.OnlyCharsetsCrash`), so `interpret` raises one exactly if some ESC of its input stands
  where the input in front of it leaves a designation open (`VtRaise.InterpretRaises`).
- During a redraw a row that the provider lacks raises an exception in the cache of row nodes, before the
  `break` that is meant for it; a redraw throws exactly if a wanted row is missing
  (`ScrollPortRedraw.Redraw`).
- The line that ends a quotation over several lines is indented, although the white space in front of it
  belongs to the quotation (`Beautifier.PassedOn`).

## Model

| member | source | states |
|---|---|---|
| HtermUtf8.UTF8Decoder.Decode | hs-apps/srvctl-gui/js/hterm_all.js:4309-4374 | The decoding loop, which steps back to look at a byte again, ends on every input and yields text and fields as reading byte by byte does. |
| HtermUtf8.RunConcat | hs-apps/srvctl-gui/js/hterm_all.js:4309-4374 | Streaming: decoding a and then b with one decoder gives the text, the final fields and the errors of decoding a + b. |
| HtermUtf8.RunReachable | hs-apps/srvctl-gui/js/hterm_all.js:4340-4342 | From the initial fields every code point in progress stays below 2^31, on every input, so the signed 32-bit shift is exact. |
| HtermUtf8.ShiftIsExact | hs-apps/srvctl-gui/js/hterm_all.js:4341-4342 | The shift by six bits multiplies by 64 in every reachable state. |
| HtermUtf8.OutputIsWellFormed | hs-apps/srvctl-gui/js/hterm_all.js:4309-4374 | The output is well-formed UTF-16, whatever the input and the fields. |
| HtermUtf8.DecodeScalar | hs-apps/srvctl-gui/js/hterm_all.js:4313-4363 | The bytes of one scalar value are decoded to that value, with no error and nothing pending. |
| HtermUtf8.DecodeEncode | hs-apps/srvctl-gui/js/hterm_all.js:4309-4444 | decode(encodeUTF8(s)) is s with every unpaired surrogate replaced by U+FFFD, for every UTF-16 string s. |
| HtermUtf8.CompletedIsCanonical | hs-apps/srvctl-gui/js/hterm_all.js:4340-4363 | A sequence accepted when its last byte arrives is the shortest encoding of the value it yields. |
| HtermUtf8.CanonicalFrom | hs-apps/srvctl-gui/js/hterm_all.js:4313-4372 | Input that meets no error and ends between sequences is the encoding of its own output. |
| HtermUtf8.AcceptsExactlyCanonical | hs-apps/srvctl-gui/js/hterm_all.js:4309-4374 | The decoder accepts a byte string exactly if that is the encoding of its output; overlong forms, encoded surrogates and five- or six-byte forms always meet an error. |
| HtermUtf8.EncodeUTF8 | hs-apps/srvctl-gui/js/hterm_all.js:4400-4444 | The encoder loop yields the UTF-8 of the text, code point by code point, U+FFFD for an unpaired surrogate (RFC 3629, section 3). |
| HtermUtf8.CodePointAt | hs-apps/srvctl-gui/js/hterm_all.js:4404-4420 | The code point at a position, and where its last code unit is. |
| HtermUtf8.AppendUTF8 | hs-apps/srvctl-gui/js/hterm_all.js:4423-4441 | The bytes of one code point are appended. |
| HtermUtf8.EncodeYieldsBytes | hs-apps/srvctl-gui/js/hterm_all.js:4400-4444 | Every character of the encoder's output is a byte. |
| HtermUtf8.EncodeCons | hs-apps/srvctl-gui/js/hterm_all.js:4400-4444 | Encoding is a homomorphism on scalar values: the first one's bytes come before those of the rest. |
| JsText.RepairedIsWellFormed | hs-apps/srvctl-gui/js/hterm_all.js:4404-4420 | Replacing unpaired surrogates always gives well-formed text, and changes nothing exactly on well-formed text. |
| JsText.WellFormedCons | hs-apps/srvctl-gui/js/hterm_all.js:4352-4361 | One scalar value in UTF-16, put in front of well-formed text, keeps it well-formed. |
| Utf8Pieces.EncodingIsBits | hs-apps/srvctl-gui/js/hterm_all.js:4423-4441 | The encoding of a code point is the one sequence of bytes that section 3 of RFC 3629 describes: as few bytes as hold its bits, the leading ones of the first telling how many, six bits in each of the others. |
| Utf8Pieces.PiecesAreShown | hs-apps/srvctl-gui/js/hterm_all.js:4309-4374 | The text of any byte string, cut into encoded characters and ill-formed pieces: the characters in order, and exactly one U+FFFD for each stray byte, each sequence cut short and each complete one that encodes no character; something is pending exactly if an incomplete sequence is left. |
| Utf8Pieces.EveryInput | hs-apps/srvctl-gui/js/hterm_all.js:4312-4338 | Every byte string can be cut in this way. |
| Utf8Pieces.DecodesEverything | hs-apps/srvctl-gui/js/hterm_all.js:4309-4374 | So this is what every input decodes to. |
| Utf8Pieces.PieceIsShown | hs-apps/srvctl-gui/js/hterm_all.js:4312-4363 | One piece in front of any rest: its character or one U+FFFD, then what the rest gives. |
| Utf8Pieces.CutIsReported | hs-apps/srvctl-gui/js/hterm_all.js:4313-4320 | In the middle of a sequence a byte that does not continue it gives one U+FFFD and is looked at afresh. |
| Utf8Pieces.RejectedIsReported | hs-apps/srvctl-gui/js/hterm_all.js:4340-4363 | A complete sequence that is overlong, a surrogate or out of range gives one U+FFFD. |
| Utf8Pieces.StrayIsReported | hs-apps/srvctl-gui/js/hterm_all.js:4312-4338 | A byte that neither is ASCII nor starts a sequence gives one U+FFFD. |
| SocketUtf8.DecodeUcs2 | hs-apps/srvctl-gui/js/socket.io.js:3947-3971 | The loop gives the code points of a UTF-16 string, unpaired surrogates standing for themselves. |
| SocketUtf8.EncodeCodePoint | hs-apps/srvctl-gui/js/socket.io.js:4005-4025 | The UTF-8 of a scalar value; an exception exactly on surrogates. |
| SocketUtf8.EncodersAgree | hs-apps/srvctl-gui/js/socket.io.js:4027-4038 | This encoder gives the same bytes as hterm's on well-formed text and fails on any other. |
| SocketUtf8.Utf8Encode | hs-apps/srvctl-gui/js/socket.io.js:4027-4038 | The encoder as a whole: hterm's bytes on well-formed text, otherwise an exception. |
| SocketUtf8.Reader.ReadContinuationByte | hs-apps/srvctl-gui/js/socket.io.js:4042-4056 | Reads one continuation byte, or fails. |
| SocketUtf8.Reader.DecodeSymbol | hs-apps/srvctl-gui/js/socket.io.js:4058-4119 | Reads the encoding of one code point, or fails, or finds the end. |
| SocketUtf8.SymbolOfEncoding | hs-apps/srvctl-gui/js/socket.io.js:4058-4119 | The encoding of a scalar value is recognised, whatever follows it. |
| SocketUtf8.SymbolIsEncoding | hs-apps/srvctl-gui/js/socket.io.js:4058-4119 | Whatever is recognised is the shortest encoding of a scalar value. |
| SocketUtf8.DecodesExactlyEncodings | hs-apps/srvctl-gui/js/socket.io.js:4124-4134 | A byte string is accepted with result t exactly if t is well-formed and the bytes are its encoding. |
| SocketUtf8.BytesStandForThemselves | hs-apps/srvctl-gui/js/socket.io.js:4124-4134 | On byte strings the masking of the input changes nothing. |
| SocketUtf8.Utf8Decode | hs-apps/srvctl-gui/js/socket.io.js:4124-4134 | The decoding loop as a whole, on any input string. |
| SocketUtf8.DecodersAgree | hs-apps/srvctl-gui/js/socket.io.js:4058-4134 | The two decoders of the repository accept the same byte strings, with the same result. |
| EngineSocket.HandedOverInOrder | hs-apps/srvctl-gui/js/socket.io.js:543-629 | Along every run, with errors, upgrades and closes at any point: what was handed to transports, followed by the unsent part of writeBuffer, is exactly what the application sent before the first close, in order; nothing is sent twice and no send meets a transport that is not open. |
| EngineSocket.RunKeepsInv | hs-apps/srvctl-gui/js/socket.io.js:258-724 | Every reachable state satisfies the invariant of buffer, transports, upgrade and close. |
| EngineSocket.StepKeepsInv | hs-apps/srvctl-gui/js/socket.io.js:293-724 | Each single event keeps that invariant. |
| EngineSocket.FlushKeepsInv | hs-apps/srvctl-gui/js/socket.io.js:564-574 | flush keeps it: a write in flight blocks the next flush. |
| EngineSocket.SendKeepsInv | hs-apps/srvctl-gui/js/socket.io.js:602-629 | sendPacket keeps it in every state. |
| EngineSocket.OnDrainKeepsInv | hs-apps/srvctl-gui/js/socket.io.js:543-556 | onDrain keeps it, including what listeners do inside the drain event. |
| EngineSocket.OnPausedKeepsInv | hs-apps/srvctl-gui/js/socket.io.js:320-333 | Taking over the probed transport keeps it: the buffer goes on with the new transport. |
| EngineSocket.CloseKeepsInv | hs-apps/srvctl-gui/js/socket.io.js:637-677 | close keeps it, whether it waits for drain, for the upgrade, or not at all. |
| EngineSocket.HandshakeKeepsInv | hs-apps/srvctl-gui/js/socket.io.js:410-425 | The opening of the socket keeps it. |
| EngineSocket.ForceCloseKeepsInv | hs-apps/srvctl-gui/js/socket.io.js:658-662 | The inner close of close keeps it, provided that the buffer is empty and no upgrade is pending. |
| EngineSocket.GracefulClose | hs-apps/srvctl-gui/js/socket.io.js:637-677 | Along every run a forced close found writeBuffer empty and no upgrade pending, so everything accepted had been handed over; without a transport error a closed socket has handed over everything. |
| EngineSocket.DrainHandsOverTheRest | hs-apps/srvctl-gui/js/socket.io.js:543-574 | No lost wake-up: an open socket outside an upgrade that has unsent packets has a drain event to come, and that event hands over everything accepted. |
| EngineSocket.CloseWhileOpening | hs-apps/srvctl-gui/js/socket.io.js:637-677 | close before the handshake takes effect at once exactly if the buffer is empty; with packets buffered and no write in flight it never completes without a transport error, and none of the packets still unsent is ever handed over. |
| EngineSocket.CloseCompletes | hs-apps/srvctl-gui/js/socket.io.js:637-677 | close before the handshake can come to its end without a transport error, with everything accepted handed over, exactly if the buffer is empty or a write is in flight. |
| EngineSocket.StrandedForever | hs-apps/srvctl-gui/js/socket.io.js:433-446 | Once that has happened no later events, short of a transport error, change it. |
| EngineSocket.AcceptedIsOffered | hs-apps/srvctl-gui/js/socket.io.js:602-629 | What sendPacket has accepted along a run is exactly what the application sent before the first close or loss of the connection, its listeners included, and until then the socket goes on accepting. |
| EngineSocket.StepTakes | hs-apps/srvctl-gui/js/socket.io.js:543-724 | The same for each single event. |
| EngineSocket.SendTakes | hs-apps/srvctl-gui/js/socket.io.js:602-629 | A packet offered before any close is accepted; afterwards an offer changes nothing at all. |
| EngineSocket.ListenersTake | hs-apps/srvctl-gui/js/socket.io.js:602-629 | The same for what listeners send while the socket emits an event. |
| SocketProgress.SentIsHandedOver | hs-apps/srvctl-gui/js/socket.io.js:543-629 | From every reachable state: a packet sent before any close can be handed over without a transport error exactly if no upgrade has failed after it had begun. |
| SocketProgress.CloseCompletesWhenOpen | hs-apps/srvctl-gui/js/socket.io.js:637-677 | close of an open socket can come to its end without a transport error, with everything accepted handed over, exactly if no upgrade has failed after it had begun. |
| SocketProgress.StuckForever | hs-apps/srvctl-gui/js/socket.io.js:343-365 | After such a failure nothing is handed over any more and no close comes to its end, whatever follows short of a transport error. |
| SocketProgress.LateFailureSticks | hs-apps/srvctl-gui/js/socket.io.js:343-365 | A probe that fails while the old transport is being paused has that effect. |
| SocketProgress.StuckIsReachable | hs-apps/srvctl-gui/js/socket.io.js:313-365 | And there is a run in which it happens. |
| SocketProgress.UpgradeCompletes | hs-apps/srvctl-gui/js/socket.io.js:301-333 | From every reachable state in which a probe waits for its answer: a pong, and the writes and the poll coming to their end, complete the upgrade; the old transport gets nothing more, the new one the upgrade packet and then exactly what is unsent. |
| SocketProgress.PausingSettles | hs-apps/srvctl-gui/js/socket.io.js:320-333 | The same from any state in which the old transport is being paused. |
| SocketProgress.OpenSettles | hs-apps/srvctl-gui/js/socket.io.js:543-574 | Without an upgrade the completed writes leave nothing unsent. |
| SocketProgress.HandshakeOpens | hs-apps/srvctl-gui/js/socket.io.js:410-425 | The handshake opens the socket and starts a probe exactly if there is something to upgrade to. |
| SocketProgress.ClosingSettles | hs-apps/srvctl-gui/js/socket.io.js:637-677 | Whatever a close waits for, drain or upgrade, it ends when the writes and the poll do. |
| EngineSocketImpl.TransportObject.Send | hs-apps/srvctl-gui/js/socket.io.js:855-861 | send hands packets to an open transport and throws otherwise. |
| EngineSocketImpl.TransportObject.Write | hs-apps/srvctl-gui/js/socket.io.js:1819-1831 | write takes the packets, makes the transport unwritable and leaves a drain event to come. |
| EngineSocketImpl.TransportObject.WriteCompleted | hs-apps/srvctl-gui/js/socket.io.js:1822-1825 | A completed write makes the transport writable again. |
| EngineSocketImpl.TransportObject.Close | hs-apps/srvctl-gui/js/socket.io.js:839-846 | close only acts on a transport that is opening or open. |
| EngineSocketImpl.Socket.Flush | hs-apps/srvctl-gui/js/socket.io.js:564-574 | flush writes what is unsent and remembers how much, unless the transport is busy or an upgrade is under way. |
| EngineSocketImpl.Socket.SendPacket | hs-apps/srvctl-gui/js/socket.io.js:602-629 | sendPacket accepts nothing once the socket is closing or closed; otherwise it queues the packet and flushes. |
| EngineSocketImpl.Socket.OnClose | hs-apps/srvctl-gui/js/socket.io.js:698-730 | onClose closes the socket once and for all, freezes a probe, and notes the packets that were never sent. |
| EngineSocketImpl.Socket.ForceClose | hs-apps/srvctl-gui/js/socket.io.js:658-662 | The inner close records what it found in the buffer and whether an upgrade was pending, then closes transport and socket. |
| EngineSocketImpl.Socket.Close | hs-apps/srvctl-gui/js/socket.io.js:637-677 | close acts at once, registers with drain, or waits for the upgrade, depending on the buffer and the probe. |
| EngineSocketImpl.Socket.DrainEvent | hs-apps/srvctl-gui/js/socket.io.js:543-556 | The drain event runs the listeners of the application first and those of close after them. |
| EngineSocketImpl.Socket.OnDrain | hs-apps/srvctl-gui/js/socket.io.js:543-556 | onDrain cuts off the packets that were sent, then emits drain or flushes the rest. |
| EngineSocketImpl.Socket.OnPaused | hs-apps/srvctl-gui/js/socket.io.js:320-333 | The callback of pause puts the probed transport in place, announces the upgrade and flushes. |
| EngineSocketImpl.Socket.EventWhilePausing | hs-apps/srvctl-gui/js/socket.io.js:1694-1729 | pause counts the poll and the drain it waits for, and goes on with the last of them. |
| EngineSocketImpl.Socket.TransportDrained | hs-apps/srvctl-gui/js/socket.io.js:271-274 | A completed write makes the transport writable; the socket reacts before pause does. |
| EngineSocketImpl.Socket.OnProbeOpen | hs-apps/srvctl-gui/js/socket.io.js:301-309 | The probed transport, once open, sends the probe packet, unless binary support would be lost. |
| EngineSocketImpl.Socket.OnProbePacket | hs-apps/srvctl-gui/js/socket.io.js:310-340 | A pong starts the upgrade and the pause of the old transport; any other packet fails the probe. |
| EngineSocketImpl.Socket.OnProbeError | hs-apps/srvctl-gui/js/socket.io.js:356-365 | A failed probe closes the probed transport and emits upgradeError. |
| EngineSocketImpl.Socket.UpgradeErrorEvent | hs-apps/srvctl-gui/js/socket.io.js:356-365 | A close that waits for the upgrade goes on when it fails. |
| EngineSocketImpl.Socket.UpgradeEvent | hs-apps/srvctl-gui/js/socket.io.js:328-333 | A close that waits for the upgrade goes on when it succeeds. |
| EngineSocketImpl.Socket.SetTransport | hs-apps/srvctl-gui/js/socket.io.js:258-284 | setTransport replaces the transport; what the old one sent counts as handed over. |
| EngineSocketImpl.Socket.PollComplete | hs-apps/srvctl-gui/js/socket.io.js:1772-1784 | The end of a poll lets pause go on; otherwise the socket does not change. |
| EngineSocketImpl.Socket.FreezeTransport | hs-apps/srvctl-gui/js/socket.io.js:343-353 | freezeTransport closes the probed transport, which is ignored from then on. |
| EngineSocketImpl.Socket.OnHandshake | hs-apps/srvctl-gui/js/socket.io.js:475-490 | onHandshake opens the socket, runs its listeners, flushes and starts the probe. |
| Json3Printer.Quote | hs-apps/srvctl-gui/js/socket.io.js:6695-6715 | quote: the text in double quotes, every control character, quote and backslash escaped. |
| Json3Printer.Serialize | hs-apps/srvctl-gui/js/socket.io.js:6719-6844 | serialize on trees of JSON values, at any indentation. |
| Json3Printer.SerializeElements | hs-apps/srvctl-gui/js/socket.io.js:6815-6820 | Its loop over an array. |
| Json3Printer.SerializeProperties | hs-apps/srvctl-gui/js/socket.io.js:6637-6658 | Its loop over an object: the members in order, `constructor` held back to the end. |
| Json3Printer.VisitedPermutes | hs-apps/srvctl-gui/js/socket.io.js:6646-6658 | Visiting an object leaves no member out and none twice. |
| Json3Printer.OrderedIsSame | hs-apps/srvctl-gui/js/socket.io.js:6646-6658 | A tree is printed in its own order exactly if no property stands behind one called `constructor`. |
| Json3Printer.Stringify | hs-apps/srvctl-gui/js/socket.io.js:6847-6873 | stringify with a numeric or textual third argument, which is clamped to ten. |
| Json3Parser.Parser.Lex | hs-apps/srvctl-gui/js/socket.io.js:6905-7060 | lex: the token at the cursor and the cursor after it, or an exception; the cursor advances. |
| Json3Parser.Parser.ReadString | hs-apps/srvctl-gui/js/socket.io.js:6926-6986 | The string case of lex, with its escapes. |
| Json3Parser.Parser.ReadNumber | hs-apps/srvctl-gui/js/socket.io.js:6996-7036 | The number case: integer, fraction and exponent. |
| Json3Parser.Parser.ReadWord | hs-apps/srvctl-gui/js/socket.io.js:6987-7054 | The default case: numbers and the literals. |
| Json3Parser.Parser.Get | hs-apps/srvctl-gui/js/socket.io.js:7063-7143 | get: the value that starts with a token, or an exception; it ends on every input. |
| Json3Parser.Parser.GetElements | hs-apps/srvctl-gui/js/socket.io.js:7075-7105 | The array case of get. |
| Json3Parser.Parser.GetMembers | hs-apps/srvctl-gui/js/socket.io.js:7106-7137 | The object case of get. |
| Json3Parser.ZeroIsFalsy | hs-apps/srvctl-gui/js/socket.io.js:7037-7037 | A number literal whose digits are all zero is read as zero, with any sign, fraction or exponent, and counts as false. |
| Json3Parser.Parse | hs-apps/srvctl-gui/js/socket.io.js:7178-7190 | parse without a reviver: one value and nothing behind it. |
| Json3RoundTrip.LexQuoted | hs-apps/srvctl-gui/js/socket.io.js:6921-6986 | A printed string, standing anywhere in a text, is lexed to the string: any UTF-16, all escapes. |
| Json3RoundTrip.LexDecimal | hs-apps/srvctl-gui/js/socket.io.js:6987-7037 | A printed integer is lexed to that integer, provided that nothing follows that continues a number. |
| Json3RoundTrip.ReadPrinted | hs-apps/srvctl-gui/js/socket.io.js:6719-7142 | Printed at any position of any text, a tree is read back and the cursor ends right behind it. |
| Json3RoundTrip.ParsePrint | hs-apps/srvctl-gui/js/socket.io.js:6719-7190 | Parsing a tree printed in any order gives it back without its members called __proto__, for every gap of white space. |
| Json3RoundTrip.StringifiedIsRead | hs-apps/srvctl-gui/js/socket.io.js:6646-7190 | parse(stringify(v)) is v in the order in which it is visited, without its members called __proto__, for every tree and every gap of white space. |
| Json3RoundTrip.ParseUndoesStringify | hs-apps/srvctl-gui/js/socket.io.js:6646-7190 | At every numeric indentation width parse gives back the members that stringify was given exactly if none is called __proto__, and in their old order exactly if moreover none stands behind one called `constructor`. |
| Json3RoundTrip.RevivedIsSame | hs-apps/srvctl-gui/js/socket.io.js:7106-7137 | A tree survives the assignment of its members exactly if none of them is called __proto__. |
| Json3RoundTrip.BadGap | hs-apps/srvctl-gui/js/socket.io.js:6858-6868 | A gap with a character that is no white space spoils a tree that can be named. |
| Json3RoundTrip.GapMustBeSpace | hs-apps/srvctl-gui/js/socket.io.js:6858-6868 | With an indentation string parse gives back what stringify wrote, for all trees without __proto__ members, exactly if the string is white space. |
| JsNumbers.DigitsValueOfDigits | hs-apps/srvctl-gui/js/socket.io.js:6791-6794 | Reading the decimal digits of a natural number gives the number. |
| Json3Literals.HexUnitReads | hs-apps/srvctl-gui/js/socket.io.js:6943-6959 | Four hexadecimal digits of a code unit, in either case, are read as that code unit. |
| Json3Literals.LexLiteral | hs-apps/srvctl-gui/js/socket.io.js:6921-6986 | A string literal spelled in any way, with characters as they are, short escapes or hexadecimal ones, is read as the text that it spells, wherever it stands. |
| Json3Literals.QuotedSpells | hs-apps/srvctl-gui/js/socket.io.js:6695-6715 | What quote makes of a text is a literal that spells it, with an escape exactly for control characters, quotation marks and backslashes. |
| Json3Grammar.JsonIsParsed | hs-apps/srvctl-gui/js/socket.io.js:6905-7190 | Every text of the JSON grammar (RFC 8259) is parsed, as the value that it denotes. |
| Json3Grammar.DocIsRead | hs-apps/srvctl-gui/js/socket.io.js:7063-7143 | A document of the grammar is read wherever it stands, if nothing behind it continues a number. |
| Json3Accepts.AcceptsExactlyJson | hs-apps/srvctl-gui/js/socket.io.js:6905-7190 | The parser accepts exactly the texts of the JSON grammar (RFC 8259), and reads each as the value that it denotes. |
| Json3Accepts.ParsedIsJson | hs-apps/srvctl-gui/js/socket.io.js:6905-7190 | Whatever is parsed is a text of that grammar. |
| Json3Layout.StringifiedIsLaidOut | hs-apps/srvctl-gui/js/socket.io.js:6719-6873 | What stringify writes is the tree laid out: each element on a line of its own, indented by one gap for each level, or all on one line without a gap. |
| Json3Layout.PrintIsLaidOut | hs-apps/srvctl-gui/js/socket.io.js:6815-6844 | The same for a tree at any depth. |
| Attachments.Deconstruction.Deconstruct | hs-apps/srvctl-gui/js/socket.io.js:5785-5816 | deconstructPacket: buffers are pushed in traversal order and replaced by numbered placeholders. |
| Attachments.Reconstruct | hs-apps/srvctl-gui/js/socket.io.js:5827-5851 | reconstructPacket: the recursive walk that puts buffers back. |
| Attachments.RestoreStrip | hs-apps/srvctl-gui/js/socket.io.js:5785-5851 | reconstruct after deconstruct restores the data exactly if no object has a truthy _placeholder property or one called __proto__. |
| Attachments.NumberedInOrder | hs-apps/srvctl-gui/js/socket.io.js:5789-5810 | The placeholders are numbered consecutively, each once, in traversal order. |
| PacketCodec.EncodeAsString | hs-apps/srvctl-gui/js/socket.io.js:6056-6093 | encodeAsString: the header of a packet. |
| PacketCodec.DecodeString | hs-apps/srvctl-gui/js/socket.io.js:6183-6244 | decodeString: every branch, on every string. |
| PacketCodec.JsonStart | hs-apps/srvctl-gui/js/socket.io.js:6217-6231 | Where an id is looked for: JSON text starts with a digit exactly for non-negative numbers. |
| PacketCodec.NamespaceIsRead | hs-apps/srvctl-gui/js/socket.io.js:6204-6215 | The namespace is read back exactly if it starts with a slash and has no comma. |
| PacketCodec.TailIsRead | hs-apps/srvctl-gui/js/socket.io.js:6217-6240 | Id and data are read back exactly if the data is neither null nor a non-negative number, has no __proto__ member and nothing behind a `constructor`. |
| PacketCodec.HeaderRoundTrip | hs-apps/srvctl-gui/js/socket.io.js:6056-6244 | A header is decoded to its packet exactly if the packet is readable; what is decoded otherwise keeps kind and count. |
| PacketStream.Encode | hs-apps/srvctl-gui/js/socket.io.js:6036-6117 | Encoder.encode: a header, and the buffers behind it for the binary kinds. |
| PacketStream.StripNothing | hs-apps/srvctl-gui/js/socket.io.js:5785-5816 | Without buffers deconstruction changes nothing exactly if no object owns __proto__. |
| PacketStream.StripKeepsOrder | hs-apps/srvctl-gui/js/socket.io.js:5785-5816 | Taking buffers out never moves a member behind one called `constructor`. |
| PacketStream.RestoreKeepsOrder | hs-apps/srvctl-gui/js/socket.io.js:5827-5851 | Nor does putting them back. |
| PacketStream.StrippedIsPlain | hs-apps/srvctl-gui/js/socket.io.js:5785-5816 | Deconstructed data is JSON that survives printing and parsing. |
| PacketStream.Decoder.AddChunk | hs-apps/srvctl-gui/js/socket.io.js:6144-6173 | Decoder.add: what each piece brings about, exceptions included. |
| PacketStream.BinaryReconstructor.TakeBinaryData | hs-apps/srvctl-gui/js/socket.io.js:6283-6291 | takeBinaryData: the packet when its last buffer has come, nothing before. |
| PacketStream.BuffersComplete | hs-apps/srvctl-gui/js/socket.io.js:6144-6173 | n buffers after a header that announces n: silence for n - 1, then one packet. |
| PacketStream.Delivery | hs-apps/srvctl-gui/js/socket.io.js:6036-6302 | Whatever the decoder held, the pieces of a packet bring out that packet once, with the last piece, exactly if the packet is transmittable. |
| PacketStream.StreamDelivery | hs-apps/srvctl-gui/js/socket.io.js:6036-6302 | Any number of packets through one decoder: each once, in order, unchanged, exactly if all are transmittable. |
| PacketStream.FeedConcat | hs-apps/srvctl-gui/js/socket.io.js:6144-6173 | What the decoder does with pieces does not depend on how they are grouped. |
| PacketGrammar.HeaderIsDenoted | hs-apps/srvctl-gui/js/socket.io.js:6183-6244 | A text put together from a type, a count and a dash, a namespace, a comma, an id and data is decoded to the packet of these parts; to an error exactly if the data is no JSON; it raises an exception if the count is no number. |
| PacketGrammar.EveryHeader | hs-apps/srvctl-gui/js/socket.io.js:6183-6244 | Every text is of this kind, or is empty, or has no type, or lacks the dash behind its count; and that decides what it is decoded to. |
| PacketGrammar.InterleavedDelivery | hs-apps/srvctl-gui/js/socket.io.js:6144-6173 | Packets and errors that arrive between the buffers of a packet come out at once and do not disturb it: it comes out with its last buffer, all of them in the order of their arrival. |
| PacketGrammar.InterleavedPieces | hs-apps/srvctl-gui/js/socket.io.js:6144-6173 | Until then each piece gives what it gives by itself, and a buffer nothing. |
| PacketGrammar.StrayBuffersRaise | hs-apps/srvctl-gui/js/socket.io.js:6165-6173 | A buffer that no packet waits for raises an exception and changes nothing. |
| PacketGrammar.OverfullSwallows | hs-apps/srvctl-gui/js/socket.io.js:6148-6173 | Behind a header that announces no buffers, or not a number of them, all buffers are swallowed. |
| PacketGrammar.AnnouncementReplaces | hs-apps/srvctl-gui/js/socket.io.js:6148-6159 | A header with buffers to come forgets the packet that was pending. |
| EnginePacket.EncodePacket | hs-apps/srvctl-gui/js/socket.io.js:3051-3177 | encodePacket in its three forms: text, binary, base 64. |
| EnginePacket.EncodeArrayBuffer | hs-apps/srvctl-gui/js/socket.io.js:3099-3114 | The kind byte and the content in a new buffer. |
| EnginePacket.DecodePacket | hs-apps/srvctl-gui/js/socket.io.js:3186-3242 | decodePacket on any message, with the parser error. |
| EnginePacket.TextRoundTrip | hs-apps/srvctl-gui/js/socket.io.js:3051-3220 | A kind digit and encoded text are decoded to the kind and the text. |
| EnginePacket.PacketRoundTrip | hs-apps/srvctl-gui/js/socket.io.js:3051-3242 | A packet comes back from its message, with empty text dropped. |
| TextPayload.EncodePayload | hs-apps/srvctl-gui/js/socket.io.js:3260-3293 | The text form of encodePayload; an exception if a text cannot be encoded. |
| TextPayload.EncodableExactly | hs-apps/srvctl-gui/js/socket.io.js:3260-3293 | A payload can be encoded exactly if all its texts are well-formed. |
| TextPayload.DecodePayload | hs-apps/srvctl-gui/js/socket.io.js:3323-3383 | decodePayload on any string: its deliveries, parser errors, and the stop when the callback refuses. |
| TextPayload.FrameIsRead | hs-apps/srvctl-gui/js/socket.io.js:3342-3376 | A length, a colon and a message are read back from any position. |
| TextPayload.TextRoundTrip | hs-apps/srvctl-gui/js/socket.io.js:3260-3383 | Decoding an encoded payload delivers its packets in order, each with the position of its last character, up to the first refused. |
| TextPayload.NoneRefused | hs-apps/srvctl-gui/js/socket.io.js:3368-3369 | If the callback refuses nothing, all packets arrive. |
| TextPayload.TextPayloadIsExact | hs-apps/srvctl-gui/js/socket.io.js:3260-3383 | The round trip is exact precisely if no packet carries empty text. |
| PayloadGrammar.TextAcceptsExactly | hs-apps/srvctl-gui/js/socket.io.js:3186-3220 | A text message that is not base 64 is decoded to a kind and a text exactly if it is the encoding of the kind's digit and the text; in every other case it is an error. |
| PayloadGrammar.PayloadIsRead | hs-apps/srvctl-gui/js/socket.io.js:3323-3383 | What decoding any payload delivers: for each message behind its length its packet and position, for an empty one nothing; an error, and then nothing more, for the first that is no packet and for an ending without a colon or with a bad length. |
| PayloadGrammar.EveryPayload | hs-apps/srvctl-gui/js/socket.io.js:3342-3382 | Every string is such a payload. |
| BinaryGrammar.BufferIsSplit | hs-apps/srvctl-gui/js/socket.io.js:3507-3554 | What splitting gives for messages with leading zeros in their lengths, and for each way to end: a message cut short counts with what is there of it, a length without an end or with more than 311 digits spoils the whole buffer. |
| BinaryPayload.EncodePayloadAsArrayBuffer | hs-apps/srvctl-gui/js/socket.io.js:3399-3455 | encodePayloadAsArrayBuffer: the frames of all packets, in order. |
| BinaryPayload.WriteFrames | hs-apps/srvctl-gui/js/socket.io.js:3410-3454 | The length computed beforehand is exactly the number of bytes written. |
| BinaryPayload.WriteFrame | hs-apps/srvctl-gui/js/socket.io.js:3427-3451 | One frame: marker, decimal length, 255, content; the bytes in front of it stay. |
| BinaryPayload.DecodePayloadAsBinary | hs-apps/srvctl-gui/js/socket.io.js:3507-3560 | decodePayloadAsBinary on any buffer, the over-long length included. |
| BinaryPayload.ScanLength | hs-apps/srvctl-gui/js/socket.io.js:3522-3531 | The inner loop reads the length, or gives up at 310 digits. |
| BinaryPayload.ZeroLengthTakesAll | hs-apps/srvctl-gui/js/socket.io.js:3517-3554 | A length of zero counts as missing: the message is all that follows, which is then split once more. |
| BinaryPayload.FramesAreSplit | hs-apps/srvctl-gui/js/socket.io.js:3517-3554 | Splitting undoes joining the frames of any messages. |
| BinaryPayload.BinaryRoundTrip | hs-apps/srvctl-gui/js/socket.io.js:3399-3560 | Decoding an encoded binary payload delivers its packets in order, with their positions; only empty text is lost. |
| ScreenRow.InsertHere | hs-apps/srvctl-gui/js/hterm_all.js:7679-7693 | Text put into the cursor's run: the cells are those of inserting it at the cursor's column, and the cache follows. |
| ScreenRow.InsertRun | hs-apps/srvctl-gui/js/hterm_all.js:7710-7734 | A run put between two others, or at an end. |
| ScreenRow.InsertAtEnd | hs-apps/srvctl-gui/js/hterm_all.js:7699-7708 | Text put at the end of a run of the right style. |
| ScreenRow.InsertAtStart | hs-apps/srvctl-gui/js/hterm_all.js:7717-7726 | Text put at the start of a run of the right style. |
| ScreenRow.InsertInside | hs-apps/srvctl-gui/js/hterm_all.js:7737-7743 | A run put into another one, which is split for it. |
| ScreenRow.SplitKeepsCells | hs-apps/srvctl-gui/js/hterm_all.js:7549-7556 | Splitting a run changes no cell. |
| ScreenRow.PadHere | hs-apps/srvctl-gui/js/hterm_all.js:7659-7665 | Missing blanks go into the last run if they do not show there. |
| ScreenRow.PadAfter | hs-apps/srvctl-gui/js/hterm_all.js:7666-7673 | Otherwise they go into a text node of their own. |
| ScreenRow.CutRun | hs-apps/srvctl-gui/js/hterm_all.js:7795-7818 | Cutting one run does its part of the deletion. |
| ScreenRow.ClipAfterCursor | hs-apps/srvctl-gui/js/hterm_all.js:7582-7599 | Cutting the row off after the cursor's cell. |
| ScreenRow.CursorRunRemoved | hs-apps/srvctl-gui/js/hterm_all.js:7821-7837 | Removing an empty span under the cursor keeps the cursor's column exactly if the cursor stood at its start. |
| ScreenRow.AlreadyThere | hs-apps/srvctl-gui/js/hterm_all.js:7760-7767 | Where the text to be written stands already, writing it changes no cell. |
| ScreenRow.ClearedRow | hs-apps/srvctl-gui/js/hterm_all.js:7411-7433 | What clearing puts into a row. |
| ScreenRow.ClearedShows | hs-apps/srvctl-gui/js/hterm_all.js:7411-7433 | In a cleared row each column shows a space in the erase style, whether blanks were written or left out. |
| ScreenRow.TextIsChars | hs-apps/srvctl-gui/js/hterm_all.js:10840-10844 | The text content of a row is what its cells show. |
| Screen.Screen.SetCursorPosition | hs-apps/srvctl-gui/js/hterm_all.js:7461-7518 | The cursor goes to the clamped position, and the cached run and offset stand for its column. |
| Screen.Screen.Seek | hs-apps/srvctl-gui/js/hterm_all.js:7506-7517 | The loop finds the run that holds the column, or the last one. |
| Screen.Screen.SplitNode | hs-apps/srvctl-gui/js/hterm_all.js:7549-7556 | A run is split in two, an empty half left out. |
| Screen.Screen.PadToCursor | hs-apps/srvctl-gui/js/hterm_all.js:7636-7677 | The row is filled up with blanks to the cursor, and no further. |
| Screen.Screen.InsertString | hs-apps/srvctl-gui/js/hterm_all.js:7621-7744 | insertString is pad and insert on the row's cells; cached run and offset stay equal to the column. |
| Screen.Screen.InsertBeside | hs-apps/srvctl-gui/js/hterm_all.js:7699-7744 | The branches for a run of another style. |
| Screen.Screen.DeleteChars | hs-apps/srvctl-gui/js/hterm_all.js:7783-7840 | deleteChars deletes cells at the cursor, up to the screen's width. |
| Screen.Screen.CutRuns | hs-apps/srvctl-gui/js/hterm_all.js:7795-7818 | Its loop over the runs. |
| Screen.Screen.OverwriteString | hs-apps/srvctl-gui/js/hterm_all.js:7755-7771 | overwriteString writes over the cells at the cursor, exactly these, in a row of any length; it leaves them alone if the text stands there already, and refuses at the right margin. |
| Screen.Screen.MaybeClipCurrentRow | hs-apps/srvctl-gui/js/hterm_all.js:7565-7609 | The row is cut off at the width, the cursor clamped, the overflow mark set. |
| Screen.Screen.ClearCursorRow | hs-apps/srvctl-gui/js/hterm_all.js:7411-7433 | The cursor's row is cleared and the cursor goes to column 0. |
| Screen.Screen.SetColumnCount | hs-apps/srvctl-gui/js/hterm_all.js:7272-7277 | A new width clamps the cursor. |
| Screen.Screen.CommitLineOverflow | hs-apps/srvctl-gui/js/hterm_all.js:7451-7453 | The row is marked as continued. |
| Screen.Screen.ShiftRows | hs-apps/srvctl-gui/js/hterm_all.js:7294-7296 | Rows are removed from the top; no other row is concerned. |
| Screen.Screen.UnshiftRows | hs-apps/srvctl-gui/js/hterm_all.js:7312-7314 | Rows are added at the top; no other row is concerned. |
| Screen.Screen.PopRow | hs-apps/srvctl-gui/js/hterm_all.js:7321-7323 | Rows are removed from the bottom; no other row is concerned. |
| Screen.Screen.PushRow | hs-apps/srvctl-gui/js/hterm_all.js:7340-7342 | Rows are added at the bottom; no other row is concerned. |
| Screen.Screen.InsertRows | hs-apps/srvctl-gui/js/hterm_all.js:7367-7371 | Rows are added at an index; no other row is concerned. |
| Screen.Screen.RemoveRows | hs-apps/srvctl-gui/js/hterm_all.js:7388-7390 | Rows are removed at an index; no other row is concerned. |
| Screen.Screen.PutString | hs-apps/srvctl-gui/js/hterm_all.js:10984-10997 | One piece of printed text is put and the row clipped: what it shows afterwards is said column by column, the old cells staying in place behind the text, or moving on by its length in insert mode. |
| RowMoves.MovedAt | hs-apps/srvctl-gui/js/hterm_all.js:10908-10909 | Where each row goes when a block is moved. |
| RowMoves.MoveBack | hs-apps/srvctl-gui/js/hterm_all.js:10908-10909 | Moving back undoes the move. |
| RowMoves.MovedIsPermutation | hs-apps/srvctl-gui/js/hterm_all.js:10908-10909 | A move permutes the rows. |
| RowMoves.MovedOutside | hs-apps/srvctl-gui/js/hterm_all.js:10911-10920 | Outside the stretch between the two places nothing moves; so renumbering that stretch is enough. |
| RowMoves.ShiftedDownAt | hs-apps/srvctl-gui/js/hterm_all.js:11315-11331 | Which row stands at each place after shifting down. |
| RowMoves.ShiftedUpAt | hs-apps/srvctl-gui/js/hterm_all.js:11339-11359 | Which row stands at each place after shifting up. |
| RowMoves.MoveShiftsDown | hs-apps/srvctl-gui/js/hterm_all.js:11318-11325 | The move of insertLines shifts the rest of the region down. |
| RowMoves.MoveShiftsUp | hs-apps/srvctl-gui/js/hterm_all.js:11342-11350 | The move of deleteLines shifts the rest of the region up. |
| RowMoves.ShiftsAreInverse | hs-apps/srvctl-gui/js/hterm_all.js:11315-11359 | Shifting up and shifting down undo each other. |
| Printing.PrintedOnBlank | hs-apps/srvctl-gui/js/hterm_all.js:10953-11005 | On blank rows each row gets its piece of the text, of the screen's width. |
| Printing.WrapsFirst | hs-apps/srvctl-gui/js/hterm_all.js:10958-10962 | Printing with a wrap pending is printing from the start of the next row. |
| Printing.ChunksMakeText | hs-apps/srvctl-gui/js/hterm_all.js:10953-11005 | The pieces make up the text. |
| Printing.ContinuedText | hs-apps/srvctl-gui/js/hterm_all.js:10816-10826 | Rows marked as continued are read as one line. |
| Printing.PrintedTextReadsBack | hs-apps/srvctl-gui/js/hterm_all.js:10816-11005 | Text printed on blank rows reads back exactly. |
| Printing.PrintedInRegion | hs-apps/srvctl-gui/js/hterm_all.js:11078-11091 | With a scroll region and the cursor not below it, printing is printing on an endless roll of which the region goes on showing the last rows: what a line leaves at the region's top is lost, and nothing else. |
| Printing.OutsideStays | hs-apps/srvctl-gui/js/hterm_all.js:11078-11091 | With the cursor in the region no row outside of it changes, whatever is printed, and the cursor stays in it. |
| Printing.RegionShowsLast | hs-apps/srvctl-gui/js/hterm_all.js:10953-11091 | On blank rows the region ends up showing the last pieces of the text, as many as it has room for. |
| Printing.PrintedKeepsAbove | hs-apps/srvctl-gui/js/hterm_all.js:11084-11098 | Rows above the cursor never change without a region, or below one; there no row is added either. |
| Printing.PutShows | hs-apps/srvctl-gui/js/hterm_all.js:10984-10997 | Putting a piece into a row of any content, column by column: what stands in front of it stays, with blanks up to it; then come its characters in the current style; behind it the old cells stay where they are or, in insert mode, move on by its length; the row is cut off at the width. |
| Printing.PrintedShows | hs-apps/srvctl-gui/js/hterm_all.js:10953-11005 | Printing any text over rows of any content, with as many wraps as it takes: the pieces of the text, one to a row, each show as one piece does, every row but the last is marked as continued, and no other row changes. |
| Printing.UnwrappedShows | hs-apps/srvctl-gui/js/hterm_all.js:10964-10982 | Without wraparound what does not fit is left out but for the last character, which stands in the last column. |
| Printing.PrintedBelow | hs-apps/srvctl-gui/js/hterm_all.js:11078-11098 | Below the scroll region text is printed as if there were none, as far as there are rows. |
| Printing.PrintedMeans | hs-apps/srvctl-gui/js/hterm_all.js:10953-11005 | All of this for every grid and every mode. |
| Terminal.Terminal.Print | hs-apps/srvctl-gui/js/hterm_all.js:10953-11005 | print ends on every string and shows it column by column over whatever the rows held, in insert mode or not; it makes the grid what printing on a plain grid makes it, with a scroll region or without; without one, on blank rows, getRowsText then gives the text back, across wraps and rows pushed into the scrollback. |
| Terminal.Terminal.PrintStep | hs-apps/srvctl-gui/js/hterm_all.js:10958-10999 | One turn of its loop takes at least one character. |
| Terminal.Terminal.ChoosePiece | hs-apps/srvctl-gui/js/hterm_all.js:10964-10982 | How much of the text fits into the row, and which text is put there without wraparound. |
| Terminal.Terminal.ReadsBack | hs-apps/srvctl-gui/js/hterm_all.js:10816-11005 | What the terminal's own rows read as after printing. |
| Terminal.Terminal.GetRowsText | hs-apps/srvctl-gui/js/hterm_all.js:10816-10826 | getRowsText over scrollback and screen. |
| Terminal.Terminal.NewLine | hs-apps/srvctl-gui/js/hterm_all.js:11074-11100 | newLine in both its forms: the cursor, the rows it leaves, adds or shifts; every row index stays right. |
| Terminal.Terminal.NewLineFreely | hs-apps/srvctl-gui/js/hterm_all.js:11092-11099 | Without a scroll region: the cursor goes to the next row, at the end of the screen a new one; the row at the top goes to the scrollback. |
| Terminal.Terminal.NewLineInRegion | hs-apps/srvctl-gui/js/hterm_all.js:11078-11091 | With one: at its bottom the region shifts up by one and a cleared row appears; this is a step on the plain grid. |
| Terminal.Terminal.AppendRows | hs-apps/srvctl-gui/js/hterm_all.js:10873-10895 | appendRows_: the old rows and as many blank ones; what does not fit goes to the scrollback; indices stay right. |
| Terminal.Terminal.RealizeHeight | hs-apps/srvctl-gui/js/hterm_all.js:10384-10433 | realizeHeight_: the screen gets exactly that many rows; shrinking loses only empty rows below the cursor, growing adds only blank rows, everything else moves between screen and scrollback; the cursor stays in its row. |
| Terminal.Terminal.Shrink | hs-apps/srvctl-gui/js/hterm_all.js:10394-10414 | The shrinking half. |
| Terminal.Terminal.Enlarge | hs-apps/srvctl-gui/js/hterm_all.js:10415-10429 | The growing half. |
| Terminal.Terminal.PopEmptyRows | hs-apps/srvctl-gui/js/hterm_all.js:10397-10407 | Which rows are dropped: empty ones below the cursor, from the bottom. |
| Terminal.Terminal.RealizeWidth | hs-apps/srvctl-gui/js/hterm_all.js:10349-10371 | The width of the screen, with the cursor clamped. |
| Terminal.Terminal.MoveRows | hs-apps/srvctl-gui/js/hterm_all.js:10907-10922 | moveRows_: the rows are those of the move, and every row index is put right. |
| Terminal.Terminal.RenumberRows | hs-apps/srvctl-gui/js/hterm_all.js:10932-10939 | renumberRows_ numbers the rows it is given and no other. |
| Terminal.Terminal.InsertLines | hs-apps/srvctl-gui/js/hterm_all.js:11315-11331 | Rows of the scroll region from the cursor's on shift down and cleared ones appear there, but never the last of the region, every index right; the terminal stays valid exactly if the cursor does not stand below the region, where its row is moved up to the region's last row and the cursor is left without it. |
| Terminal.Terminal.DeleteLines | hs-apps/srvctl-gui/js/hterm_all.js:11339-11359 | Rows of the scroll region shift up to the cursor's row and cleared ones appear at the region's bottom; below the region no row changes; the cursor stays. |
| Terminal.Terminal.VtScrollUp | hs-apps/srvctl-gui/js/hterm_all.js:11408-11415 | The region shifts up, the cursor stays. |
| Terminal.Terminal.VtScrollDown | hs-apps/srvctl-gui/js/hterm_all.js:11430-11437 | The region shifts down, the cursor stays. |
| Terminal.Terminal.SetAlternateMode | hs-apps/srvctl-gui/js/hterm_all.js:11776-11798 | After a switch every row of scrollback and new screen has its own index; the scrollback is what it was exactly if the change of height leaves it alone; otherwise rows come from it or go there as by any change of height. |
| Terminal.Terminal.ScrollbackLeft | hs-apps/srvctl-gui/js/hterm_all.js:10384-10433 | A change of height leaves the scrollback alone exactly if the screen grows by more rows than the scrollback holds, or does not grow and all rows that do not fit are empty and below the cursor. |
| Terminal.Terminal.SetAbsoluteCursorPosition | hs-apps/srvctl-gui/js/hterm_all.js:11464-11468 | The cursor goes to the clamped position. |
| Terminal.Terminal.RestoreCursor | hs-apps/srvctl-gui/js/hterm_all.js:10260-10268 | The cursor goes to the saved position, clamped to the present size. |
| ScrollPort.RowNodes.InsertBefore | hs-apps/srvctl-gui/js/hterm_all.js:9029-9029 | insertBefore: a node in the list already is moved, which disturbs it. |
| ScrollPort.RemoveUntilNode | hs-apps/srvctl-gui/js/hterm_all.js:8993-9005 | removeUntilNode removes exactly what stands in front of the target and throws neither of its exceptions. |
| ScrollPort.LeftNext | hs-apps/srvctl-gui/js/hterm_all.js:9018-9086 | Each turn of the loop keeps: the ends of the selection whose rows are still to come, and only those, are among the nodes still to be dealt with, in order. |
| ScrollPort.DrawRow | hs-apps/srvctl-gui/js/hterm_all.js:9018-9086 | One turn, in its seven cases: the row wanted stands next, or nothing has changed; no end of the selection is taken out. |
| ScrollPort.DrawVisibleRows | hs-apps/srvctl-gui/js/hterm_all.js:8987-9090 | drawVisibleRows_: between the folds stand exactly the rows from the top row on, in order, as far as the provider has them; no end of the selection is removed or moved if all are there. |
| ScrollPortRedraw.RedrawDisplays | hs-apps/srvctl-gui/js/hterm_all.js:8851-8873 | What the list shows then: between the folds as many rows as are visible or as there are, each the provider's, and outside of them ends of the selection alone, each in the list once, all rows in the order of their indices. |
| ScrollPortRedraw.MissingMeans | hs-apps/srvctl-gui/js/hterm_all.js:9018-9086 | Fewer rows are available than wanted exactly if one of those wanted is missing. |
| ScrollPortRedraw.DrawTopFold | hs-apps/srvctl-gui/js/hterm_all.js:8888-8922 | drawTopFold_: the ends of the selection above the visible rows stand in front of the fold and nothing else; those to come stand behind it, in order, undisturbed. |
| ScrollPortRedraw.DrawBottomFold | hs-apps/srvctl-gui/js/hterm_all.js:8937-8971 | drawBottomFold_: the same below the visible rows. |
| ScrollPortRedraw.FoldBehindStart | hs-apps/srvctl-gui/js/hterm_all.js:8899-8922 | The case of one end above the fold. |
| ScrollPortRedraw.FoldBehindEnd | hs-apps/srvctl-gui/js/hterm_all.js:8906-8922 | The case of both ends above the fold. |
| ScrollPortRedraw.FoldBeforeEnd | hs-apps/srvctl-gui/js/hterm_all.js:8948-8970 | The case of one end below the fold. |
| ScrollPortRedraw.FoldBeforeStart | hs-apps/srvctl-gui/js/hterm_all.js:8955-8970 | The case of both ends below the fold. |
| ScrollPortRedraw.TrimBetween | hs-apps/srvctl-gui/js/hterm_all.js:8913-8916 | The loop that removes the rows between both ends. |
| ScrollPortRedraw.DropBefore | hs-apps/srvctl-gui/js/hterm_all.js:8919-8921 | The loop that removes what stands in front of the start row. |
| ScrollPortRedraw.DropAfter | hs-apps/srvctl-gui/js/hterm_all.js:8968-8970 | The loop that removes what stands behind the end row. |
| ScrollPortRedraw.Redraw | hs-apps/srvctl-gui/js/hterm_all.js:8851-8873 | redraw_: from any list of rows and folds, exactly the wanted rows come to stand between the folds, the unseen ends of the selection right outside of them; no end is ever taken out of the list; the list then shows every visible row once and in order; it throws exactly if a wanted row is missing. |
| VtParser.CallProgresses | hs-apps/srvctl-gui/js/hterm_all.js:13588-13754 | Each call of a parse function lessens: the bytes unparsed plus those accumulated in args[0], then the string mode, then the bytes unparsed. |
| VtParser.OneCharIsFlat | hs-apps/srvctl-gui/js/hterm_all.js:13629-13686 | Outside of plain text a character prints at most itself. |
| VtParser.PlainText | hs-apps/srvctl-gui/js/hterm_all.js:13601-13617 | Text without control characters is printed as it is. |
| VtParser.InterpretIsRun | hs-apps/srvctl-gui/js/hterm_all.js:13538-13686 | On input that opens no string sequence interpret does the same as reading character by character, up to joining prints. |
| VtParser.RunCharsConcat | hs-apps/srvctl-gui/js/hterm_all.js:13538-13686 | Reading character by character goes on where it stopped. |
| VtParser.SplitInvariance | hs-apps/srvctl-gui/js/hterm_all.js:13538-13686 | The simple case of `VtSplit.SplitExactly`: two calls of interpret leave the same parse function and arguments behind and hand over the same events as one, up to joining adjacent prints, for input that opens no string sequence. |
| VtParser.SplitTerminatorMatters | hs-apps/srvctl-gui/js/hterm_all.js:13704-13754 | A terminator that arrives in two parts is not recognised, whatever text without control characters stands in front of it. |
| VtSplit.SplitExactly | hs-apps/srvctl-gui/js/hterm_all.js:13538-13754 | Two calls of interpret leave the same state and hand over the same things as one if the cut is good: reading up to it never comes to a string sequence that ends behind it and has an escape character in front of it. On input that raises no exception only if it is good. |
| VtSplit.SplitInString | hs-apps/srvctl-gui/js/hterm_all.js:13704-13754 | Within a string sequence that ends behind it, a cut goes unnoticed exactly if no escape character stands in front of it. |
| VtSplit.CallsAgree | hs-apps/srvctl-gui/js/hterm_all.js:13704-13754 | The same for a single call of the parse function: the sequence waits and the next call does what one call on the whole would do, exactly if no escape character has arrived. |
| VtSplit.SplitGood | hs-apps/srvctl-gui/js/hterm_all.js:13538-13754 | After a good cut the second call goes on as if there had been none, events and exceptions included. |
| VtSplit.SplitBad | hs-apps/srvctl-gui/js/hterm_all.js:13714-13739 | After any other cut more escape characters are acted upon than without it, so that it cannot go unnoticed. |
| VtSplit.TraceChar | hs-apps/srvctl-gui/js/hterm_all.js:13588-13686 | Outside of string sequences interpret does what its first character does, and then what the rest does. |
| VtSplit.TraceKeepsWaiting | hs-apps/srvctl-gui/js/hterm_all.js:13714-13754 | What a string sequence has gathered never holds a character that could end it, on any input. |
| VtSplit.ExceptionHidesCut | hs-apps/srvctl-gui/js/hterm_all.js:13714-13739 | Input that raises an exception has to be set apart: there is a bad cut that the exception hides. |
| VtGrammar.OutputIsRead | hs-apps/srvctl-gui/js/hterm_all.js:13538-13754 | Output made up of text, control characters, escape sequences, control sequences, operating system commands and broken or ignored sequences is read unit by unit: each is printed or handed to its handler once, in order, with its own arguments. |
| VtGrammar.TokenIsRead | hs-apps/srvctl-gui/js/hterm_all.js:13538-13754 | The same for one unit in front of any rest. |
| VtGrammar.SequenceIsDispatched | hs-apps/srvctl-gui/js/hterm_all.js:13629-13686 | ESC [, leading characters, digit strings with semicolons between them, trailing characters and a final one call the handler of that final character with all modifiers and all parameters, empty ones included; only a single empty one counts as none (ECMA-48, section 5.4). |
| VtGrammar.CommandIsDispatched | hs-apps/srvctl-gui/js/hterm_all.js:14338-14364 | ESC ], a number, a semicolon, data and either terminator call the command's handler with the number and the data. |
| VtGrammar.CommandShape | hs-apps/srvctl-gui/js/hterm_all.js:14338-14364 | A string is dispatched as a command exactly if it is a number, a semicolon and data on one line. |
| VtGrammar.SequenceBreaks | hs-apps/srvctl-gui/js/hterm_all.js:13656-13684 | What abandons a control sequence, silently or with its own effect: a parameter behind a trailing character, a colon, a character that is not ASCII, CAN and SUB. |
| VtGrammar.ControlsAreCarriedOut | hs-apps/srvctl-gui/js/hterm_all.js:13678-13680 | Any other control character within a sequence is carried out and the sequence goes on. |
| VtGrammar.OthersArePrinted | hs-apps/srvctl-gui/js/hterm_all.js:13601-13617 | A control character that has no handler is printed like text. |
| VtGrammar.C1StandsForEscape | hs-apps/srvctl-gui/js/hterm_all.js:13773-13786 | With 8-bit controls enabled a C1 control character opens what ESC and the character 64 below it open; otherwise it opens nothing. |
| VtRaise.InterpretRaises | hs-apps/srvctl-gui/js/hterm_all.js:14490-14496 | interpret raises an exception exactly if some ESC of its input stands where the input in front of it leaves a character set designation open. |
| VtRaise.NoDesignation | hs-apps/srvctl-gui/js/hterm_all.js:13588-13754 | Input without ESC opens no designation, from any state that is not within a shorter escape sequence. |
| VtInterpreter.VT.CallParseUnknown | hs-apps/srvctl-gui/js/hterm_all.js:13588-13622 | parseUnknown_ and the control characters it dispatches. |
| VtInterpreter.VT.CallParseESC | hs-apps/srvctl-gui/js/hterm_all.js:14179-14193 | The character after ESC. |
| VtInterpreter.VT.CallParseCSI | hs-apps/srvctl-gui/js/hterm_all.js:13629-13686 | parseCSI_: arguments, modifiers, dispatch or reset (ECMA-48, section 5.4). |
| VtInterpreter.VT.CallParseUntilStringTerminator | hs-apps/srvctl-gui/js/hterm_all.js:13704-13754 | parseUntilStringTerminator_: a terminated sequence, one that waits, or one that is aborted and given back to the buffer. |
| VtInterpreter.VT.Accumulate | hs-apps/srvctl-gui/js/hterm_all.js:13714-13739 | The branch without a terminator. |
| VtInterpreter.VT.EndString | hs-apps/srvctl-gui/js/hterm_all.js:13741-13753 | The branch with one: the sequence ends there, or is given back if it got too long. |
| VtInterpreter.VT.CallParseOSC | hs-apps/srvctl-gui/js/hterm_all.js:14338-14364 | The operating system command around it. |
| VtInterpreter.VT.CallOneChar | hs-apps/srvctl-gui/js/hterm_all.js:14401-14514 | The functions that take one more character, with the exception for ESC. |
| VtInterpreter.VT.Interpret | hs-apps/srvctl-gui/js/hterm_all.js:13538-13553 | interpret ends on every input from every parse state, and never with "Parser did not alter the state!"; what it does is the run of the parser on the decoded text. |
| VtInterpreter.OnlyCharsetsCrash | hs-apps/srvctl-gui/js/hterm_all.js:14490-14496 | A call raises an exception exactly if it reads the character of a character set designation and that is ESC. |
| VtStream.PiecesDoNotMatter | hs-apps/srvctl-gui/js/hterm_all.js:4309-13754 | However a byte stream is cut, even inside a character, an escape sequence or a string sequence, parser and decoder end in the same state with the same things printed and dispatched, provided that no cut stands behind an escape character of a string sequence that ends in a later piece. |
| VtStream.PlainStream | hs-apps/srvctl-gui/js/hterm_all.js:4309-13686 | A stream that opens no string sequence and no designation with an ESC in it can be cut anywhere and raises no exception. |
| Beautifier.BeautifyString | apps/beautify_bash.py:41-130 | beautify_string as a loop over local variables computes the result, error flag and messages that the theorems are about, or raises an exception. |
| Beautifier.BeautifyLines | apps/beautify_bash.py:41-130 | The loop over the lines: each does to the state what the step says. |
| Beautifier.BeautifyLine | apps/beautify_bash.py:67-76 | Here-documents: how they start and end, and that their lines are passed on. |
| Beautifier.BeautifyOutside | apps/beautify_bash.py:77-125 | A line outside of here-documents: quotations, counts, indentation, the case stack. |
| Beautifier.CountClosed | apps/beautify_bash.py:95-112 | What a line closes, with the corrections for the arms of a case. |
| Beautifier.Indent | apps/beautify_bash.py:114-120 | The indentation of a line and of those after it. |
| Beautifier.NonDestructive | apps/beautify_bash.py:41-130 | The output has the lines of the input, each as it was but for white space behind it, or its text behind some tab stops of eight blanks. |
| Beautifier.Idempotent | apps/beautify_bash.py:41-130 | Beautifying twice is beautifying once, with the same error flag and messages. |
| Beautifier.RunSeesStripped | apps/beautify_bash.py:51-66 | What is decided about the lines depends on them only up to surrounding white space. |
| Beautifier.RenderKeepsLine | apps/beautify_bash.py:72-119 | Passing on and indenting keep a line up to surrounding white space, and doing it twice is doing it once. |
| Beautifier.ErrorMeansUnbalanced | apps/beautify_bash.py:127-129 | The error flag is set exactly if the nets of the lines do not sum to zero; that sum is what the lines open and close, each arm of a case counted as opened once, plus the arms still open. |
| Beautifier.StepBalances | apps/beautify_bash.py:93-120 | What one line does to the indentation and to the count of the arms. |
| Beautifier.CountArmsBalances | apps/beautify_bash.py:97-112 | An arm that is started and ended, by ;; or by esac, counts once. |
| Beautifier.IndentedByNets | apps/beautify_bash.py:114-120 | A line is indented by the nets of the lines before it, less what it closes and one for else, and never less than zero. |
| Beautifier.PassedOn | apps/beautify_bash.py:71-91 | A line is passed on exactly inside a here-document or a quotation that goes on; the line that ends a quotation is indented. |
| Beautifier.RunConcat | apps/beautify_bash.py:41-130 | The lines of a text are processed from the state that the lines before them left. |
| Beautifier.PartsAlone | apps/beautify_bash.py:41-130 | Behind a text that leaves nothing open a second text is beautified just as it is alone. |
| Beautifier.StripCuts | apps/beautify_bash.py:51-52 | Stripping takes off the white space around a text and nothing else. |
| Beautifier.RenderIsIndented | apps/beautify_bash.py:119-119 | An indented line is its text behind eight blanks for each stop. |
| Beautifier.JoinedOfLines | apps/beautify_bash.py:130-130 | Joining the lines of a text gives the text. |
| Beautifier.LinesOfJoined | apps/beautify_bash.py:51-51 | Splitting at line breaks undoes joining lines. |
| Nesting.NestedIsIndented | apps/beautify_bash.py:41-130 | A script of any nesting, with blocks and their else lines, cases whose arms end in ;; or in esac, here-documents and quotations, comes out with every line indented by its depth, arms one stop deeper than their case; there is no error and no complaint. |
| Nesting.ItemsDo | apps/beautify_bash.py:51-125 | The items of a block leave depth and open cases as they were. |
| Nesting.ArmsDo | apps/beautify_bash.py:103-112 | The count on the case stack is that of the arms not ended by ;;. |
| Nesting.EsacDoes | apps/beautify_bash.py:97-102 | esac takes the last case off the stack and closes the arms that were not ended. |
| Nesting.CasesAreCounted | apps/beautify_bash.py:66-125 | In any text, from what its lines say alone: outside here-documents and quotations the stack is as deep as case lines were seen, less the esac lines that found one. |
| Nesting.ComplaintsAreEarlyEsacs | apps/beautify_bash.py:97-103 | An esac is complained of exactly if no case is open at its line, and a mismatch exactly if the error flag is set. |

## Left out

- Terminal.Terminal.Print: with a scroll region it leaves open which rows are marked as continued in the next.
- Terminal.Terminal.RealizeHeight: the cursor is required to be in place, or the screen to have no rows yet, as the callers leave it.
- Screen.Screen.DeleteChars: empty spans are excluded, which only `insertString('')` can produce.
- ScrollPort.DrawVisibleRows: nodes between the folds that carry a wanted index are taken to be the provider's own.
- ScrollPortRedraw.Redraw: the selection is taken to lie in rows that still exist, its start in the list before its end; the two caches of row nodes and the provider count as one source of rows, and the container's scroll height is not modelled.
- Json3Printer.Serialize: no dates, toJSON methods, undefined, functions, boxed values, filters or cycles; numbers are the integers that a double holds exactly.
- Json3Parser.Parse: literals that are neither exact integers nor round to zero are kept as they are, also those that round to an integer; no reviver; keys that look like array indices keep their place.
- PacketCodec.EncodeAsString: packets of a known type, with a natural number or nothing as id; the types are those of the protocol's table.
- PacketCodec.DecodeString: `Number` is a parameter, taken to read decimal digits where a round trip needs it.
- PacketStream.Encode: blobs, which are converted before, are not modelled; buffers are compared by content.
- TextPayload.EncodePayload: packets of a known type, and its text path only; packets with binary data take the path of `BinaryPayload` where the transport supports it.
- EnginePacket.EncodePacket: packets of a known type; base 64 is a parameter, a pair of functions of which the second undoes the first.
- BinaryPayload.DecodePayloadAsBinary: what the callback returns is ignored, as the code does; `binaryType` blob is not modelled.
- EngineSocket.HandedOverInOrder: one handshake and one probe for a socket; the application's listeners act at the events open, drain, upgrading and upgrade; the listener of pause() that outlives a failed upgrade is not followed.
- SocketProgress.SentIsHandedOver: that the network answers is a run in which it does; fairness and time are not modelled.
- BinaryGrammar.BufferIsSplit: bytes above 9 within a length, each of which adds several digits, are left to `BinaryPayload.DecodePayloadAsBinary`.
- EngineSocketImpl.TransportObject.Write: the network is a drain event to come; a transport error, a close from the server and a ping timeout are one event.
- VtInterpreter.VT.CallParseUntilStringTerminator: the time limit of string sequences depends on the clock and is taken to be absent.
- VtInterpreter.VT.Interpret: what the handlers of complete sequences do to the terminal is an event; private and two-part handlers that only draw are not followed.
- Beautifier.BeautifyString: the regular expressions are deterministic functions of the line; a pattern made from a here-document's word may fail to compile, which is the exception; white space is a parameter.
- Wide and combining characters: one code unit takes one column throughout.
- Text attributes that cannot be seen on a cell, faint and tile data, and the colour tables.
- Blob forms of the payloads, file readers, XHR, JSONP and WebSocket internals.
- Reconnection, backoff, namespaces and acknowledgements of the socket.io client, which only use the above.
- Keyboard, mouse, clipboard, fonts, timers and preferences of the terminal.
- Reading and writing files in the beautifier.
- The servers of this repository, which only pass data between libraries.
