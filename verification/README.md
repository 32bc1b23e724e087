# Mouse Without Borders peer: a verified model

A Mouse Without Borders peer forwards the mouse, the keyboard and the clipboard
of one machine to another over an encrypted TCP stream. This project models the
peer's five cores and proves what they guarantee together:

- the secure packet channel: frames that tell their own length, a checksum, a
  CBC chain that lives across calls, one primer block, and many threads sending
  through two locks (`Protocol`, `Layout`, `Buffers`, `Cipher`, `Channel`, `Network`,
  `Session`, `SessionOrder`, `SentFrames`, `Sender`);
- the two-peer handshake, as a transition system of two peers and two channels,
  and what it means for one peer's own calls (`Handshake`, `HandshakeProofs`,
  `Encounter`);
- the clipboard pipeline from copied text to pasted text, through every layer in
  between (`Utf8`, `Guid`, `Clipboard`, `ClipboardProofs`, `EndToEnd`);
- input capture: grabs, the intent detector, keyboard sessions by whole events
  and by lock sections (`Detector`, `Capture`, `CaptureProofs`, `CaptureRuns`, `Keyboard`,
  `KeyboardProofs`, `KeyboardRuns`, `KeyLoop`, `KeyLoopProofs`, `Evdev`);
- injection and coordinates (`Uinput`, `UinputProofs`, `Coordinates`, `CoordinateProofs`).

Code that updates things in place is modelled that way, as methods over arrays
and classes, each proved equal to a function of its inputs or its old state; the
theorems are about those functions. Concurrency is modelled by schedules: a run
is any sequence of steps, one step per lock section or per wait, so a theorem
about every sequence is a theorem about every interleaving.

What those functions mean is stated apart from them: frames by byte offset, words
and the cipher's chaining bit by bit, events by the numbers Linux and Windows give
them, and what is grabbed, held or sent by the events and calls of the whole run.

`dafny verify dfyconfig.toml` checks everything.

What is assumed: AES is any pair of functions on 16-byte blocks of which one
undoes the other (`Cipher.Inverts`), chained as section 6.2 of NIST SP 800-38A
says; DEFLATE is any pair of functions for which inflating a deflated string
with anything after it gives the string back (`Clipboard.Lossless`), which rests
on the final-block bit of section 3.2.3 of RFC 1951; a connection delivers
bytes in order, in segments of any size, and takes writes in pieces of any size.
Times, random bytes and the success of a device grab are parameters.

## Where the code and its own words differ

The model follows the code.

- main.go:382 and main.go:394-395 say short texts are sent uncompressed; the
  wrapper alone is too long for that (`ClipboardProofs.AlwaysCompressed`).
- input/uinput.go:308-311 says the wheel field of an X-button message is the
  button number; a packet turns the wheel exactly when that field is not zero, so
  every such message does (`UinputProofs.ScrollsIff`, `UinputProofs.XButtonAlsoScrolls`).
- util/guid.go:39-40 says parsing extracts the payload; it does so exactly when
  the payload holds no separator and does not end in NUL
  (`Guid.ParseInvertsGenerateIff`).
- input/evdev.go:288 calls the active keyboard the first used in remote mode. With
  key events handled one at a time it is; at the grain of lock sections two
  keyboards can both choose themselves (`KeyLoopProofs.TwoTypists`), exactly when
  two of them have a press read in remote mode before the first has chosen
  (`KeyLoopProofs.OneTypistIff`), and a choice can outlive the session it was meant
  for (`KeyLoopProofs.LateChoiceLeavesKeyboard`), exactly when an Ungrab comes
  between its read and itself (`KeyLoopProofs.LocalKeyboardIff`).
- input/evdev.go:780-781 asks for two motions; a least int32 among them, which Go
  cannot negate, holds activation back for as long as it takes to make up for it
  (`CaptureProofs.LeastIntStarves`; in general `Detector.FiresOnTotal`).
- input/uinput.go:245-246 aims at no stuck keys on the injecting side, and that
  holds; on the capturing side a return releases nothing. Over a whole run the
  other machine is left holding what the last session's keyboard holds, and every
  key held there before that session that was neither tracked when it began nor
  sent by that keyboard since (`KeyboardRuns.ForwardedLeavesDown`,
  `KeyboardRuns.CleanReturnIff`); a key can stay down through a whole later session
  (`KeyboardRuns.EarlierKeyStays`).

## Model

| member | source | states |
|---|---|---|
| Buffers.Marshal | protocol/protocol.go:89-161 | the buffer filled in place, checksum loop included, is the frame function's value, or the same missing-payload error |
| Buffers.Unmarshal | protocol/protocol.go:163-248 | parsing in place, with bytes 1..3 zeroed and the name scanned backwards, gives exactly the parsed packet or the first error |
| Buffers.Checksum | protocol/protocol.go:173-176 | the loop's byte is the sum of bytes 2..31 modulo 256, for any buffer length from 24 |
| Bytes.SumAppend | protocol/protocol.go:153-158 | the sum the checksum is taken of adds up over any split, and one byte's is that byte |
| Layout.MarshalledBytes | protocol/protocol.go:89-161 | for every packet, each field's value stands at its byte offset of the frame, or the missing payload is reported; names are followed by spaces, raw data by zeros |
| Layout.ParsedBytes | protocol/protocol.go:163-248 | for every buffer of any length, the first of the three faults by the bytes, or a packet each of whose fields is the bytes at its offset; a name ends before the trailing spaces and zeros |
| Layout.SizeIff | protocol/protocol.go:77-87 | for any 32-bit type a frame has 64 bytes if and only if the type is one of twelve numbers or has bit 7, else 32 |
| ProtocolProofs.MarshalUnmarshal | protocol/protocol.go:89-248 | every packet whose type fits the type byte arrives as its normal form, and its frame tells its own length |
| ProtocolProofs.SelfFramingIff | protocol/protocol.go:77-96 | for any 32-bit type, the frame tells its own length if and only if dropping the high bits does not change its size |
| ProtocolProofs.UnmarshalMarshal | protocol/protocol.go:89-248 | re-marshalling an accepted frame gives it back except for a normalised bytes 32..63 of 64-byte frames without a clipboard chunk |
| ProtocolProofs.NormalFrameIdempotent | protocol/protocol.go:140-148 | that normalisation is idempotent and keeps a frame acceptable |
| ProtocolProofs.OneByteDetected | protocol/protocol.go:168-179 | changing one byte of an accepted frame is rejected if and only if it is one of bytes 1..31 |
| Cipher.StreamCipher.Encrypt | crypto/crypto.go:92-100 | the block loop fills its buffer with the recursive CBC encryption from the kept chain value, which ends as the last ciphertext block |
| Cipher.StreamCipher.Decrypt | crypto/crypto.go:102-113 | nothing exactly for an empty or unaligned input; otherwise the block loop gives the recursive CBC decryption and ends with the chain advanced |
| Cipher.StreamCipher.SendRandomBlock | crypto/crypto.go:115-124 | the primer is one encrypted block, and the chain becomes that block |
| Cipher.StreamCipher.ReceiveRandomBlock | crypto/crypto.go:126-135 | the receiver's chain becomes the received block |
| Cipher.EncryptsBlock | crypto/crypto.go:92-100 | every ciphertext block is the cipher of a block each of whose bits is the exclusive-or of the plaintext's and the block's before, the first block's being the starting value |
| Cipher.DecryptsBlock | crypto/crypto.go:102-113 | every bit of a plaintext block is the exclusive-or of the deciphered block's and the ciphertext block's before |
| Cipher.DecryptInverts | crypto/crypto.go:92-113 | decrypting an encryption from the same chain value gives the plaintext |
| Cipher.EncryptAppend | crypto/crypto.go:92-100 | encrypting in two calls is encrypting once |
| Cipher.AnySplitDecrypts | crypto/crypto.go:102-113 | any split of a ciphertext into block-aligned pieces decrypts to the same plaintext |
| Cipher.PrimerSynchronises | crypto/crypto.go:115-135 | after one primer block everything decrypts exactly whatever the two starting values were, and the primer itself does only if they were equal |
| Channel.ReadsOneFrame | network/client.go:185-211 | one frame of either size is read whole, the rest of the stream untouched, the reader's chain equal to the writer's |
| Channel.BigFrameInHalves | network/client.go:192-208 | a 64-byte frame encrypted in one call decrypts in two calls of 32 bytes |
| Channel.ReadsAllFrames | network/client.go:185-247 | any list of self-framing frames sent as one ciphertext is read as exactly their verdicts, in order, with equal chains and the tail untouched |
| Channel.ReadsAllPackets | network/client.go:185-247 | any list of packets arrives as exactly their normal forms, in order |
| Channel.ReadsExactly | network/client.go:185-211 | as many reads as there are frames consume the stream, and the next is a clean end of stream |
| Channel.EndsCleanlyIff | network/client.go:185-211 | a stream that breaks off anywhere in a frame brings the frames before it, and then a clean end if and only if nothing of that frame had come |
| Channel.AlteredFrameIsContained | protocol/protocol.go:173-179 | a frame altered in bytes 1..31 before encryption is rejected and every other frame of the stream is judged as before |
| Channel.PrimedPacketsArrive | network/client.go:65-72 | a primer block and any packets arrive as the normal forms of the packets, for any starting values |
| Channel.PrimedStream | network/server.go:63-73 | the same for arbitrary frames, with the chains equal at the end |
| Network.ReadFull | network/client.go:187-203 | exactly the next n bytes whatever the segments are, or all that is left and a failure |
| Network.WriteAll | network/client.go:238-247 | success exactly when the writes to come take all the bytes; what they take is written, in order, and the writes left are known |
| Network.Client.ReadPacket | network/client.go:185-211 | the call is the read function on the remaining bytes and the chain |
| Network.Client.Send | network/client.go:213-236 | success exactly when the payload is there and the connection takes the whole frame; the whole new state in each case |
| Network.Client.DoHandshake | network/client.go:82-183 | success exactly when the writes suffice and the stream brings the loop to its end; then the packets read are those up to that moment and the bytes written are ten greetings and its answers; if the packets give out first, the greetings and the answers to what came are written all the same |
| Network.Client.HeedPacket | network/client.go:138-176 | one turn of the loop notes and answers a packet as the specification does, failing exactly when an answer finds no write |
| Network.Client.SendGreetings | network/client.go:113-119 | success exactly when ten writes are left; ten copies of the greeting are then on the wire, each encrypted further along the chain |
| Network.Client.Connect | network/client.go:65-77 | exactly when it succeeds, and all it leaves behind; with a peer running this code on the stream and 21 writes it does, after eleven packets, naming that peer; its primer is written before anything is read |
| Network.Client.Accept | network/server.go:63-85 | the same with the primers in the other order, and nothing is written before the other side's primer has come |
| Network.PeerConcludes | network/client.go:132-177 | the loop comes to its end on any stream that starts with a peer's primer, greetings and first answer |
| Network.PeerHeard | network/client.go:132-177 | it ends there after exactly eleven packets, with the peer's id |
| Encounter.ReachableStreamsOpen | network/client.go:113-163 | in every reachable state of two peers, what one has written is such a stream for the other, once it holds one answer |
| HandshakeProofs.HeedIff | network/client.go:138-177 | for every list of packets from anybody: an acknowledgement is noted if and only if one's four words each add up with ours to 0xFFFF_FFFF, a greeting if and only if one came with its words, and the id is that of the last packet of either kind |
| HandshakeProofs.RepliesAnswer | network/client.go:142-163 | each greeting with its words is answered once, in order, by its id and with words that add up with its own to 0xFFFF_FFFF, and nothing else is answered |
| Bytes.ComplementBits | network/client.go:121-124 | every one of the 32 bits is turned round |
| Layout.GreetingBytes | network/client.go:93-111 | a greeting's frame, byte by byte: type, id 1, source, the four words, the name |
| Layout.AnswerBytes | network/client.go:145-160 | to any greeting frame the answer's frame has its id bytes, and bytes 16 to 31 each adding up with the greeting's to 255 |
| HandshakeProofs.NeverStuck | network/client.go:113-177 | in every reachable state of two peers of which one dialled, one of them can move until both are complete |
| HandshakeProofs.StartsIff | network/server.go:63-73 | two peers can start if and only if at least one sends its primer first |
| HandshakeProofs.CompletesInSixtySix | network/client.go:82-183 | every schedule has at most 66 handshake steps, and exactly 66 if and only if both peers are complete |
| HandshakeProofs.AcksMatchHandshakes | network/client.go:138-163 | in every reachable state the acknowledgements written are the handshakes taken in, each the complement of the other's nonces |
| HandshakeProofs.CompletionMeans | network/client.go:138-181 | a complete peer knows the other's id, the other took in its greeting, it consumed ten handshakes and one acknowledgement, and exactly nine acknowledgements precede the other's session frames |
| HandshakeProofs.LoopSwallowsNoSession | network/client.go:132-177 | every frame a handshake loop ever consumes is a handshake packet, with session traffic already flowing the other way |
| HandshakeProofs.WorkIsAdvances | network/client.go:82-183 | each handshake step does one of the 33 writes and reads of its peer, session traffic none |
| HandshakeProofs.ChannelIsWire | network/server.go:63-85 | in every reachable state what a peer has written, encrypted after its primer, is read as exactly the packets its channel delivers |
| Session.WireIsWholeFrames | session_sender.go:35-66 | under any interleaving without a write failure the wire is the encryption of whole frames but for the tail one thread still owes, and is read as the packets sent |
| Session.IdsInWireOrder | session_sender.go:58-62 | the ids on the wire are in the order drawn, and the k-th draw is k+1 modulo 2^32 |
| Session.ConsecutiveIds | session_sender.go:58-62 | with valid payloads and fewer than 2^32 sends the ids on the wire are 1, 2, 3 and so on |
| Session.GapIff | session_sender.go:58-62 | with no packet on its way to the wire and fewer than 2^32 draws, the ids on the wire are 1, 2, 3 and so on if and only if no draw without its payload precedes a packet that was sent |
| Sender.SessionSender.Send | session_sender.go:35-66 | nothing while disconnected; otherwise the state after a send, cut to what the connection takes, and connected exactly if that is all |
| Sender.UncontendedSend | session_sender.go:35-66 | a call that meets no other, with any payload or none and any pieces written, can always go on and ends in exactly the state that method says, both locks free |
| Session.SomebodyMoves | session_sender.go:58-62 | the two locks and the goroutines' order never deadlock: while a call is unfinished some call can take a step |
| SessionOrder.ProgramOrder | session_sender.go:35-66 | in every reachable state no call is on the wire twice, and each goroutine's calls are there in the order it makes them, each with its own packet |
| SessionOrder.AllCallsInOrder | session_sender.go:35-66 | when all calls have returned without a write failure, the wire holds exactly one packet for each call, in each goroutine's order |
| SessionOrder.CallsWithoutGap | session_sender.go:35-66 | in every reachable state without a write failure, a goroutine's packets on the wire are those of its first so many calls, none missing in between |
| SentFrames.FramesCarry | session_sender.go:35-66 | in every reachable state without a write failure each frame sent holds, at its offsets, its own call's type, payload and time, the session's source and destination, the sender's id and name where none was set, and the id drawn |
| SentFrames.CarriedIff | session_sender.go:49-62 | in every reachable state without a write failure a call that has returned has its frame on the wire if and only if it came with the payload its type needs: a key for 122, a movement for 123, anything for the others but the handshake types |
| SentFrames.PayloadsArrive | session_sender.go:42-58 | and with no frame half written the other side reads from it exactly the call's movement or key, source, destination and id |
| Clipboard.EncodeUtf16 | main.go:387-392 | the loop writing at byte offsets fills the buffer with one code unit per rune and zero holes |
| Clipboard.FormatClipboardText | main.go:383-406 | wrapped, encoded and compressed exactly as the packing function says |
| Clipboard.OnChange | main.go:409-428 | one send per 48-byte chunk in order, the last one shorter, and then the end marker |
| Clipboard.DecodeUtf16 | main.go:681-689 | the loop collects the non-zero code units in order |
| Clipboard.DecompressAndParseClipboard | main.go:658-703 | every branch: empty, too short, not compressed, not UTF-16 |
| Clipboard.Receiver.HandlePacket | main.go:616-634 | the buffer, the flag and the texts set are those of the receiving function |
| Utf8.RunesOfEncoded | main.go:389-392 | ranging over the UTF-8 encoding of scalar values visits exactly those values |
| Utf8.OctetsOf | main.go:389-392 | section 3 of RFC 3629 for every rune: the number of octets, the range of each, and the value their free bits make |
| Utf8.DecodesIff | main.go:389-392 | the first octets of any string are taken for a rune exactly when they are that rune's octets, else one octet counts as U+FFFD |
| Guid.GeneratedSpelled | util/guid.go:10-24 | what is sent is TXT, the text and the separator, spelled out |
| Guid.ParseAnyFormat | util/guid.go:41-62 | of the formats TXT, UNI, RTF and HTM any one is stripped and nothing else is, before the search for the separator |
| Guid.ParseGenerated | util/guid.go:20-62 | for every payload and trailing text parsing gives the payload up to its first separator, trailing NULs removed |
| Guid.ParseInvertsGenerateIff | util/guid.go:20-62 | the payload survives if and only if it holds no separator and does not end in NUL |
| Guid.NoStraddle | util/guid.go:54-56 | no separator starts in the payload and ends in the separator after it, because the separator has no border |
| Guid.FirstOccurrence | util/guid.go:54-56 | so the search finds the payload's own first separator or the appended one |
| Guid.IndexIsFirst | util/guid.go:54-56 | the search returns the least matching position, or none exists |
| ClipboardProofs.DecodesHoled | main.go:387-392 | decoding drops the holes for every byte string, leaving each rune as its low 16 bits unless they are zero |
| ClipboardProofs.UnitsAtOffsets | main.go:387-392 | in the encoding of any valid text each rune's low 16 bits stand at twice its first octet's offset, low byte first, and its other octets' places are zero |
| ClipboardProofs.InflatesFirst | main.go:663-676 | for any buffer: one of eleven bytes or more that inflates is received as what it inflates to, any other as it is |
| ClipboardProofs.CompressedFormatArrives | main.go:658-703 | a text sent by anybody in any of the four formats, as UTF-16 or UTF-8, compressed and padded, is pasted up to its first separator, without NULs at its end |
| ClipboardProofs.UncompressedFormatArrives | main.go:669-693 | the same for one sent uncompressed, when the padded bytes do not happen to inflate |
| ClipboardProofs.AlwaysCompressed | main.go:394-405 | the uncompressed branch is never taken |
| ClipboardProofs.PaddingIsHarmless | main.go:663-676 | the zeros after the last chunk do not change what is inflated, and there is always something to inflate |
| ClipboardProofs.WhatArrives | main.go:658-703 | for any text whatever, exactly what the other side pastes |
| ClipboardProofs.ArrivesIff | main.go:383-406 | a text of any bytes arrives unchanged if and only if it is valid UTF-8 without NUL, without code points from U+10000 on, without the separator |
| ClipboardProofs.OthersIgnored | main.go:500-652 | packets of other types leave a transfer alone |
| ClipboardProofs.Reassembled | main.go:616-634 | however other packets are mixed in, each non-empty transfer comes out as its bytes padded with zeros to a multiple of 48, in order, never mixed |
| ClipboardProofs.ClipboardOverTheWire | main.go:408-429 | texts packed, chunked, marshalled, encrypted and sent among any packets are what the other side puts on its clipboard, in order, empty ones left out |
| EndToEnd.CopiedTextsArrive | main.go:408-429 | under any interleaving of any goroutines, the texts one goroutine copies are exactly what the other side puts on its clipboard, in order, empty ones left out |
| EndToEnd.ClipboardIsPrefix | main.go:408-429 | in every reachable state without a write failure and with no frame half written, what the other side has put on its clipboard is a prefix of the texts copied, empty ones left out |
| Detector.Refines | input/evdev.go:750-789 | the pending fields always describe the longest unbroken run of the history, and the detector fires when the history specification does |
| Detector.FiresIff | input/evdev.go:766-789 | an event fires if and only if it ends an unbroken run of one source with at least two motions totalling at least four |
| Detector.PendingBound | input/evdev.go:779-785 | with positive magnitudes at most three motions are pending, and they total at most three once there are two |
| Detector.FourMotionsFire | input/evdev.go:779-788 | with positive magnitudes any four motions of one unbroken run contain an activation |
| Detector.FiresOnTotal | input/evdev.go:779-788 | whatever the magnitudes, a motion that ends the longest unbroken run fires exactly when the run has two motions totalling four |
| CaptureProofs.GrabsAlwaysSound | input/evdev.go:539-600 | in every interleaving a grabbed mouse is the active one, at most one is grabbed, local mode holds nothing, and no keyboard sharing a mouse's path is grabbed |
| CaptureProofs.ExecKeeps | input/evdev.go:703-715 | each lock section keeps that invariant |
| CaptureProofs.GrabMouseIff | input/evdev.go:546-554 | entering with a named mouse keeps it if and only if that does not grab a second one |
| CaptureProofs.PendingIsReplay | input/evdev.go:736-789 | in every interleaving the pending fields are the detector's value of the history of observations |
| CaptureProofs.ActivationIff | input/evdev.go:703-715 | a motion makes its mouse active if and only if the history ends an intended movement of it, a button press always does, anything else changes nothing |
| CaptureProofs.ComboPressForwarded | input/evdev.go:951-973 | a mouse button pressed on a keyboard-like handle makes its mouse active, so it is forwarded |
| CaptureProofs.PendingStaysSmall | input/evdev.go:779-785 | the detector's bound and progress in every interleaving without the least int32 |
| CaptureProofs.LeastIntStarves | input/evdev.go:743-748 | after a movement by the least int32 a mouse is activated by a later single step exactly when the total has come back to four |
| CaptureProofs.OtherMovesActivate | input/evdev.go:779-788 | after any other first movement three single steps always suffice |
| CaptureRuns.KeyboardsGrabbedIff | input/evdev.go:562-579 | in every interleaving the mode is what the entries and exits say, and a keyboard is grabbed if and only if it shares no mouse's path and its grab worked at some entry since remote mode was last left |
| CaptureRuns.MouseGrabbedIff | input/evdev.go:883-908 | in every interleaving the active mouse, and no other, is grabbed if and only if the grab at its last selection worked |
| CaptureRuns.TwoMovesIff | input/evdev.go:750-789 | two movements along either axis of a mouse that is not active and has none pending make it active, in place of none or another, if and only if they are at most 150 ms apart and go four counts in all |
| CaptureRuns.TwoMovesActivate | input/evdev.go:750-789 | after every interleaving without the least int32 two such movements always do, whatever is pending |
| CaptureRuns.InterruptedMovesIff | input/evdev.go:766-774 | with an event between them that is neither movement nor press, they do if and only if that event also came less than 150 ms after the first |
| CaptureRuns.OtherMouseBreaks | input/evdev.go:752-760 | with a movement of a third mouse between them they never do |
| CaptureRuns.PressBreaks | input/evdev.go:776-779 | with a press on a third mouse between them they never do, and that mouse becomes active |
| CaptureRuns.EnteringBreaks | input/evdev.go:555-560 | with an entry into remote mode between them they never do |
| CaptureRuns.OnlyIntentActivates | input/evdev.go:852-868 | a press of codes 0x110 to 0x11F makes its mouse active at once; nothing but such a press or a movement ever does |
| KeyLoopProofs.LocalKeyboardIff | input/evdev.go:985-1054 | in every interleaving of the loops, local mode has an active keyboard if and only if one was chosen since the last Ungrab on a read made before it |
| KeyLoopProofs.LateChoiceLeavesKeyboard | input/evdev.go:1046-1054 | a schedule of the loop that ends so: a press is read, a return comes in between, the choice follows |
| KeyLoopProofs.OthersShutOut | input/evdev.go:579-587 | Grab does not forget the active keyboard: once it is set and no other loop can still choose, nothing else is forwarded until the next Ungrab |
| KeyLoopProofs.LateChoiceShutsOut | input/evdev.go:1057-1060 | after that schedule the other keyboard types nothing in whatever session follows |
| KeyLoopProofs.TwoTypists | input/evdev.go:1049-1064 | a schedule without any Ungrab in which one session forwards two keyboards |
| KeyLoopProofs.TypistsAreChoosers | input/evdev.go:1046-1064 | in every interleaving the keyboards forwarded are those that chose themselves |
| KeyLoopProofs.OneTypistIff | input/evdev.go:985-1064 | in every interleaving from a quiet moment, without an Ungrab and with no choice pending: what was typed is one keyboard's if and only if no second keyboard's press was read in remote mode before the first choice |
| KeyLoopProofs.WholeEvent | input/evdev.go:981-1104 | an uninterrupted loop handles its event in two to four steps, and the state and the forwards are those of the model of whole events |
| KeyLoopProofs.GrabsStaySound | input/evdev.go:539-600 | the grab invariant in every interleaving of these loops |
| KeyboardProofs.SessionShape | input/evdev.go:581-587 | from any reachable local state, entering forwards one release per tracked key, then exactly one keyboard's events from its first press on, and a key event leaves if and only if it is a press of F1 or F2 with a Win key pressed since entry and still held; a return the other machine asks for leaves too |
| KeyboardProofs.ReleasedOnce | input/evdev.go:581-587 | each tracked key is released exactly once and nothing else is forwarded |
| KeyboardProofs.LocalHasNoKeyboard | input/evdev.go:663-666 | with whole events as steps there is no active keyboard in local mode |
| KeyboardProofs.HeldWasPressed | input/evdev.go:985-990 | a key held since entry was pressed since entry |
| KeyboardRuns.SwitchesIff | input/evdev.go:983-1104 | after any run and in either mode a key event switches the mode if and only if it is a press of code 59 or 60 while code 125 or 126 is held that was pressed since remote mode was last entered |
| KeyboardRuns.ForwardedLeavesDown | input/evdev.go:581-587 | for every run of any number of sessions, all that was ever forwarded leaves a key down if and only if the last session's keyboard last pressed it, or that keyboard sent no event of it, it was not tracked at entry, and it was down before |
| KeyboardRuns.CleanReturnIff | input/evdev.go:1016-1022 | a run leaves nothing down on the other machine exactly when the last session's keyboard holds nothing and every key down there before was tracked at entry or sent by that keyboard |
| KeyboardRuns.EarlierKeyStays | input/evdev.go:1016-1022 | a run of two sessions, the second with no key at all, that leaves a key of the first down |
| KeyboardRuns.ShortcutLeavesWinDown | input/evdev.go:1008-1043 | in every run, a return by shortcut on the only keyboard used in its session leaves a Win key down there |
| Evdev.EvdevCapture.DecideMouseActivation | input/evdev.go:766-789 | the pending fields and the verdict are the detector's |
| Evdev.EvdevCapture.RegisterPendingMouse | input/evdev.go:750-764 | a new candidate or one more hit, exactly as the detector registers it |
| Evdev.EvdevCapture.MouseSourceForKeyboardButton | input/evdev.go:614-641 | the mouse of the same physical device, the active one if it is among several, none for a shared path |
| Evdev.EvdevCapture.SourceIs | input/evdev.go:602-641 | by the open devices' own fields: that mouse shares a non-empty physical path or name with the handle, is the active mouse if that does, else the first in order that does; none exactly if the handle's path is a mouse's or no mouse matches |
| Evdev.EvdevCapture.IsMouseDevicePath | input/evdev.go:593-600 | true if and only if some mouse has the path |
| Evdev.EvdevCapture.GrabMouse | input/evdev.go:892-908 | the mouse becomes active even when the grab fails |
| Evdev.EvdevCapture.UngrabMouse | input/evdev.go:883-890 | exactly that mouse is released |
| Evdev.EvdevCapture.OnMouse | input/evdev.go:703-725 | the section's whole new state, and whether the event is forwarded |
| Evdev.EvdevCapture.OnKeyboardButton | input/evdev.go:945-977 | the section's whole new state, and whether the button is forwarded |
| Evdev.EvdevCapture.Grab | input/evdev.go:539-591 | the whole new state, and one release per tracked key in the order they are ranged over |
| Evdev.EvdevCapture.Ungrab | input/evdev.go:643-672 | the whole new state: everything released and cleared but the tracked keys |
| Evdev.EvdevCapture.OnKey | input/evdev.go:981-1104 | one key event handled to the end: the new state and what is forwarded are those of the session model |
| Evdev.EvdevCapture.DevsAreSensible | input/evdev.go:620-625 | the open devices meet what the capture theorems ask of them |
| Uinput.VirtualInput.InjectKeyboard | input/uinput.go:216-243 | the tracked keys and the events written, with repeated key-downs dropped |
| Uinput.VirtualInput.ReleaseAllKeys | input/uinput.go:247-253 | one release per tracked key, then a report, and nothing is tracked |
| Uinput.VirtualInput.InjectMouse | input/uinput.go:255-297 | the whole new state and every event written, a report if and only if anything else was |
| Uinput.VirtualInput.UpdateButtons | input/uinput.go:299-397 | the five independent blocks act as one table: at most one button changes |
| UinputProofs.KeyboardAgrees | input/uinput.go:216-253 | for every call sequence and any key map the events written show exactly the tracked keys, which are those last asked down, and presses of a key have a release between |
| UinputProofs.ReleaseLeavesAllUp | input/uinput.go:245-253 | after releasing all, every key is up and each held one was released once |
| UinputProofs.UpsWritten | input/uinput.go:216-253 | for every call sequence and any key map exactly as many key-ups of a key are written as are asked for, whether it is tracked as down or not |
| UinputProofs.KeyboardReported | input/uinput.go:241-252 | after every keyboard call all that was written has been followed by a report |
| UinputProofs.ButtonsIff | input/uinput.go:299-397 | for every packet sequence, read off the packets: code 0x110 is down if and only if the last of messages 0x201 and 0x202 was 0x201, likewise the other four buttons, and no other key is down |
| UinputProofs.ButtonsWritten | input/uinput.go:320-397 | for every packet sequence each of the ten kinds of button message is written exactly as often as it comes |
| UinputProofs.MovesThenClicks | input/uinput.go:255-297 | one packet's events are in the order x, y, button, wheel, report, each at most once |
| UinputProofs.MouseReported | input/uinput.go:294-296 | after every packet all that was written has been followed by a report, and no report is empty |
| UinputProofs.PositionIs | input/uinput.go:256-257 | after any packets the tracked position is the last one's coordinates times the screen size over 65536, cut toward zero |
| UinputProofs.MouseAgrees | input/uinput.go:255-297 | for every packet sequence the events written show the tracked buttons, relative movements sum to the position modulo 2^32, and the last absolute one is the position |
| UinputProofs.TravelIsPosition | input/uinput.go:265-279 | for coordinates 0..65535 the relative movements sum to the position exactly, and it is on the screen |
| UinputProofs.ScrollsIff | input/uinput.go:283-291 | for every state and packet the wheel turns if and only if the wheel field is not zero, and by its whole notches of 120 in either direction, but one at least |
| UinputProofs.XButtonAlsoScrolls | input/uinput.go:308-317 | so every X-button message scrolls, one notch for a plain button number |
| UinputProofs.ClickScrollsTwice | input/uinput.go:283-317 | a press and its release of either X button are two notches after any packets |
| Coordinates.Cursor.OnMouseEvent | main.go:300-318 | movements advance and clamp the cursor, wheel turns do not move it, and one packet is sent from the new position |
| CoordinateProofs.Monotone | main.go:756-762 | every position gives a coordinate in 0..65535, and the map keeps order |
| CoordinateProofs.InjectiveIff | main.go:756-762 | whole pixels 0 to w have different coordinates if and only if w is at most 65535 |
| CoordinateProofs.WithinOnePixel | input/uinput.go:256-257 | on equal widths up to 43690 a pixel comes back as itself or one less, the far edge as the last pixel |
| CoordinateProofs.ComesBackIff | input/uinput.go:256-257 | for every width up to 65536 and every pixel, exactly when it comes back as itself, as one less or as two less |
| CoordinateProofs.Follows | input/uinput.go:256-257 | for any position and equal widths up to 65536 the other side's pixel is within two and a half pixels, within two up to 43690 |
| CoordinateProofs.TwoShort | input/uinput.go:256-257 | at width 43804 a pixel does come back two less |
| CoordinateProofs.PacketsInRange | main.go:304-317 | in every run the cursor stays on the screen and every packet is in range |
| CoordinateProofs.InteriorRunsAreExact | main.go:304-309 | a run that never passes an edge ends exactly where its movements add up to |
| CoordinateProofs.NearestOnScreen | main.go:304-309 | every movement leaves the cursor at the place on the screen nearest to where it points, and a wheel turn leaves it alone |
| CoordinateProofs.PacketsSay | main.go:310-317 | in every run each packet has the coordinates of the cursor at that moment, the wheel in 32 bits, and message 0x20A for a wheel turn and 0x200 otherwise |
| CoordinateProofs.ScrollArrives | main.go:300-318 | sender and receiver together: after any run of whole notches the receiver's wheel has turned by as many, in the same direction, and no button is down |
| CoordinateProofs.CursorFollowed | main.go:300-318 | sender and receiver together: after any run the movements written to the receiver's device put its cursor within two and a half pixels of the sender's |

## Left out

- Dialling, listening, deadlines, reconnection, heartbeat timing, device
  discovery, uinput setup, configuration, onboarding and logging: plumbing.
- The inside of AES, PBKDF2, SHA-512, the magic number's derivation and DEFLATE:
  abstract functions with the two laws named above; the first chain value is a
  parameter.
- ClipboardProofs.UncompressedFormatArrives: takes bytes that do not inflate; any
  that do are received as what they inflate to (`ClipboardProofs.InflatesFirst`).
- CaptureRuns.TwoMovesActivate: leaves out the least int32, for which it fails
  (`CaptureProofs.LeastIntStarves`).
- SentFrames.PayloadsArrive: says of clipboard packets only their header; their
  bytes are followed in EndToEnd.
- Channels between two peers are unbounded: a write in the handshake never waits
  for the other side to read. All that two peers write in a handshake is under
  three kilobytes, far below the socket buffers the code asks for.
- Foreign peers: the handshake results are about two peers running this code.
- Network.Client.DoHandshake: takes connections on which a write that reports no
  error took the whole frame, as `io.Writer` promises, because the source ignores
  the count there; Send, which retries, takes any.
- Network.Client.Send: is modelled as one call; its lock and its interleaving
  with other calls are in Session.
- Network.Client.Accept: is one turn of the source's retry loop, which closes a
  failed connection and waits for the next.
- Session.WireIsWholeFrames: is about schedules before the first write failure,
  after which the source marks the connection dead; it and the id theorems take
  types below 256, the constants the source declares.
- CoordinateProofs.WithinOnePixel: uses exact rationals where the source has
  float64, with rounding half up, which is what `math.Round` does on values that
  are not negative.
- Uinput.VirtualInput.InjectMouse: coordinates times screen size are unbounded,
  where the source's 64-bit product would wrap for screens beyond 2^32 pixels.
- UinputProofs.TravelIsPosition: holds for coordinates 0..65535, the range
  packets carry; for all others the sum is right modulo 2^32 (`UinputProofs.MouseAgrees`).
- KeyboardProofs.SessionShape: takes whole events as steps; at the grain of lock
  sections it fails, as `KeyLoopProofs.TwoTypists` and
  `KeyLoopProofs.LateChoiceShutsOut` show, and what holds there instead is in KeyLoopProofs.
- KeyboardRuns.ForwardedLeavesDown: takes whole events as steps, and keys by their
  Linux codes; the sender's key map, which drops or merges some, is not applied.
- Evdev.EvdevCapture.OnKey: leaves out the PAUSE callback, which exits the
  program, and the two switching callbacks, which only log.
- Evdev.EvdevCapture.MouseSourceForKeyboardButton: compares physical paths and
  names already normalised; how they are normalised is not modelled.
- The cursor kept in local mode (input/evdev.go:1108-1121), which nothing reads,
  and mapping device events to callbacks (input/evdev.go:1123-1154).
- `classifyDevice`, `buttonPacket` and the key map's contents: finite tables; the
  key map is arbitrary here.
- `clipboard.Watch` and its echo suppression, which reads the clipboard outside
  its lock.
- `tui/tui.go`: a copy of the clipboard code and easy clamping.
