# Verified model of the PHEV car gateway

Dafny models of three parts of the gateway firmware, and proofs about them.

- **The car link.** A byte-framed protocol (command, length, type, register, payload, sum
  modulo 256) over TCP; the generic message pipeline that carries it; and the event loop on
  top, with its ping counter, acknowledgements, time sync and configuration commands.
- **The captive-portal DNS responder**, from received packet to reply bytes, measured
  against a reader written from sections 3.1 and 4.1 of RFC 1035.
- **The update receiver**, which strips the header of an HTTP response (section 6 of
  RFC 1945) and writes its body to flash, one receive buffer at a time.

`dafny verify dfyconfig.toml` checks everything.

| file | module | source |
|---|---|---|
| `bytes.dfy` | `Bytes` | byte strings, sums, words, C strings |
| `phev_core.dfy` | `PhevCore` | phev_core.c |
| `messaging.dfy` | `Messaging` | msg_utils.h, msg_tcpip.c |
| `msg_pipe.dfy` | `MsgPipe` | msg_pipe.c, msg_pipe_splitter.c, the loop of msg_core.c |
| `phev_config.dfy` | `PhevConfig` | phev_config.c, setConfig of phev_controller.c |
| `car_link.dfy` | `CarLink` | the pipeline stages of phev_controller.c |
| `phev_controller.dfy` | `PhevController` | ping, event loop and wiring of phev_controller.c |
| `wire_laws.dfy`, `turn_laws.dfy` | `WireLaws`, `TurnLaws` | what the car link says and what a turn of the event loop does, in bytes and queues |
| `ping_run.dfy`, `echo_run.dfy`, `config_run.dfy` | `PingRun`, `EchoRun`, `ConfigRun` | whole runs of the above against a car and a cloud client |
| `dns_names.dfy` | `DnsNames` | labelToStr and strToLabel of captdns.c |
| `dns_message.dfy` | `DnsMessages` | the reference reader |
| `captdns.dfy`, `dns_reply.dfy` | `CaptDns`, `DnsReplies` | captdnsRecv, and its replies read back |
| `phev_ota.dfy` | `PhevOta` | the receive loop of phev_ota.c |

## How to read the model

Code that changes things step by step is imperative here too: `MessageHeap`, `Client`, `Pipe`,
`Controller` and `Receiver` are classes with the fields of the C structures, and the functions
that work in caller-supplied buffers work on arrays. Each such method is proved against a
function of the old state, and the laws are proved about these functions. The stages of a
pipeline are function pointers in C; here they are functions that take the user context and
return it.

`WireLaws`, `TurnLaws` and the sections of other modules headed "spelled out" state what happens in
literal bytes, numbers and queue contents, without the names and constants of the code model.

Memory that is read without having been written is a parameter: `junk`, `Ctx.memory` with one
string for each place it is read from, or `init`, what the reply buffer held before. Every theorem
holds whatever it contains. Results of
foreign calls still to come (connect, write, flash write) are lists of outcomes, also arbitrary.
`MessageHeap.faults` counts every double free, every use after free and every read through NULL;
that it does not change is the ownership property.

In the runs of `PingRun` one step is a turn of the event loop, a configuration handed over by the
cloud client, the car consuming messages and bytes of it becoming readable, or a link losing what is
in flight. Reads may start and end anywhere in the car's frames. The car may delay or omit ping
answers and send anything else, but does not reorder answers, and a read that looks like a ping
answer is one.

## Where the code departs from what it seems to intend

The model follows the code. For each departure there is a failing input and, where the promise is
exact, the condition under which it holds.

- A decoded message carries the wire length where an encoded one carries the payload length, so
  decoding and encoding again adds three unspecified bytes. The acknowledgement survives that
  exactly for the reads of `CarLink.Determined` (`CarLink.AckExactly`).
- `extractMessage` takes all remaining bytes, so a read becomes one piece and only its first frame
  is acknowledged or counted (`CarLink.OutChainOutcome`). That is what is intended exactly for
  reads of at most one frame (`CarLink.SplitDiffers`).
- A read may start in the middle of a frame. How it moves the ping counter is determined by its
  bytes exactly when it does not start like a ping answer whose header is missing or gets lost
  (`CarLink.CountExactly`); a read that merely looks like a ping answer moves the counter anywhere
  (`EchoRun.StrayAnswer`).
- A date sync is submitted before each of the pings 29, 59 and 89, but the ping goes out without it
  exactly when its write fails, the link reopens at once and the ping's write succeeds
  (`PingRun.SyncMissing`). A whole run that ends like this is `EchoRun.SyncLost`.
- Without a chain a delivered message is destroyed by publish and again by the loop, and an empty
  aggregate is read although it is NULL (`MsgPipe.Pipe.LoopInbound`, `MsgPipe.PipelineRefinesFold`).
- `labelToStr` returns the position after the last pointer it follows instead of the first: the
  true end exactly for names with at most one pointer (`DnsNames.Decompression`). As the last name
  of a request any other name is answered right exactly when the type words at the two places agree
  or neither type is answered (`DnsReplies.LastTypeDecides`); `DnsReplies.TwoPointersUnanswered` is a
  request where they do not.
- `labelToStr` does not end on reserved label types (`DnsNames.ReservedLabel`) and on pointers in a
  circle (`DnsNames.PointerCircle`). If it does end, it does so within a number of turns bounded by
  the sizes of packet and buffer (`DnsNames.TurnsBounded`).
- `labelToStr` misreads the root name (`DnsNames.RootMisread`). Asked for the address of the root,
  the responder sends a message nobody can read (`DnsReplies.RootRead`, `DnsReplies.RootHeard`,
  `DnsReplies.RootReplyUnreadable`).
- The dotted text loses the difference between a dot inside a label and one between labels, and
  ends at the first NUL. Names come back unchanged, and replies carry the promised answers, exactly
  when the labels contain neither (`DnsNames.NameRoundTrip`, `DnsReplies.ReplyExactly`).
- The lower half of the TTL of NS and URI answers is never written: such a TTL is 0 exactly when
  the reply buffer happened to hold zeros there (`DnsReplies.TtlExactly`); a reply with TTL 65535
  is `DnsReplies.TtlLeftOver`.
- A chunk boundary inside the HTTP header is harmless exactly when it leaves neither one byte of
  the blank line nor two bytes of another line, and no chunk is a lone byte of the header other than
  a line feed (`PhevOta.StreamExactly`, `PhevOta.CutExactly`). `PhevOta.CutHeader`,
  `PhevOta.BlankLineCut` and `PhevOta.LoneByteMisread` show the three ways it fails.
- When the write of the chunk in which the HTTP header ends fails, the receiver does not stop but
  goes on looking for the header. If it completes, it has written exactly the body if and only if
  that write succeeded (`PhevOta.StreamWritten`); a completed update with nothing written is
  `PhevOta.HeaderWriteLost`.
- Nobody checks how long the body was to be: a connection closed in the middle of it completes the
  update with what has arrived (`PhevOta.EndsEarly`).

## Model

| member | source | states |
|---|---|---|
| PhevCore.Checksum | components/phev_core/src/phev_core.c:208-219 | The loop returns the sum modulo 256 of all bytes before the checksum position announced by the length byte |
| PhevCore.ValidateBuffer | components/phev_core/src/phev_core.c:47-65 | Accepts exactly an allowed command with its announced length inside the buffer |
| PhevCore.DecodeMessage | components/phev_core/src/phev_core.c:66-102 | Fields, payload and number of bytes consumed for a valid buffer; 0 and an untouched structure otherwise |
| PhevCore.EncodeMessage | components/phev_core/src/phev_core.c:123-145 | The bytes handed out, including what a wrapped length byte leaves of them |
| PhevCore.ConvertToMessage | components/phev_core/src/phev_core.c:220-235 | The message holds exactly the encoded bytes |
| PhevCore.CreatedFrame | components/phev_core/src/phev_core.c:13-31 | Encoding a created message gives its frame, with nothing unspecified in it |
| PhevCore.ParseFirst | components/phev_core/src/phev_core.c:66-102 | A frame in front of any bytes is decoded to the same command, type, register and payload, and exactly its bytes are consumed |
| PhevCore.WalkPrefix | components/phev_core/src/phev_core.c:47-102 | Walking frames followed by anything yields the frames, then the walk of the rest |
| PhevCore.FramingRoundTrip | components/phev_core/src/phev_core.c:123-145 | Every list of sendable frames survives encoding, concatenation and walking, and every byte is consumed |
| PhevCore.RoundTripExactly | components/phev_core/src/phev_core.c:123-145 | A single message of any payload survives if and only if its command is allowed and its payload is at most 252 bytes |
| PhevCore.FrameChecksum | components/phev_core/src/phev_core.c:137-137 | Every frame ends in the sum of its earlier bytes |
| PhevCore.SingleByteCorruption | components/phev_core/src/phev_core.c:208-219 | Replacing one byte of an intact frame, other than the length byte, keeps the checksum relation if and only if the byte is unchanged |
| PhevCore.LengthCorruptionUnnoticed | components/phev_core/src/phev_core.c:208-219 | The length byte is a real exception: a frame whose changed length byte goes unnoticed |
| PhevCore.SwapNibblesInvolutive | components/phev_core/src/phev_core.c:202-206 | The acknowledgement command is undone by acknowledging it, and is allowed if and only if the command is |
| WireLaws.AllowedCommands | components/phev_core/src/phev_core.c:11-11 | The six commands of the protocol |
| WireLaws.DecodedFields | components/phev_core/src/phev_core.c:66-102 | Which bytes are taken for a frame, and that command, length, type, register and payload are read from bytes 0, 1, 2, 3 and 4 on |
| WireLaws.FrameSpelled | components/phev_core/src/phev_core.c:123-145 | The bytes of a frame with any payload, sum included |
| WireLaws.DigitsSwapped | components/phev_core/src/phev_core.c:202-206 | The acknowledgement of command 16h + l has command 16l + h |
| WireLaws.FrameOutcome | components/phev_core/src/phev_controller.c:42-72 | For every received frame of wire length 3 to 252, in bytes: a request of type 0 with command 16h + l and register r is answered by [16l + h, 4, 1, r, 0, sum] and nothing else is; exactly a 0x6f frame that is no response is reported, with its command, type and register; exactly an answer to a ping moves the counter, to the next number modulo 100 |
| WireLaws.NoFrameOutcome | components/phev_core/src/phev_core.c:47-65 | Bytes that are no frame do nothing at all |
| Messaging.MessageHeap.CreateMsg | components/msg_core/src/include/msg_utils.h:15-34 | A new live message with that content; nothing else changes |
| Messaging.MessageHeap.CopyMsg | components/msg_core/src/include/msg_utils.h:80-91 | A new live message with the same content |
| Messaging.MessageHeap.DestroyMsg | components/msg_core/src/include/msg_utils.h:43-61 | The message is gone; a fault is counted if and only if it was not live |
| Messaging.MessageHeap.DestroyMsgBundle | components/msg_core/src/include/msg_utils.h:62-79 | Exactly the bundle's messages are gone, NULL entries are skipped, and distinct live ones cause no fault |
| Messaging.Client.Connect | components/msg_core/src/msg_tcpip.c:20-44 | Connected if and only if the call succeeds; a new link starts with nothing in flight |
| Messaging.Client.Publish | components/msg_core/src/msg_tcpip.c:68-89 | Sends on an open link only; a short write closes the link and loses what is in flight |
| Messaging.Client.IncomingHandler | components/msg_core/src/msg_tcpip.c:45-67 | A message for a read of 1 to 2047 bytes, a closed link for an error, nothing otherwise |
| Messaging.PublishedAllAppend | components/msg_core/src/msg_tcpip.c:68-89 | Publishing two lists one after the other is publishing their concatenation, whatever fails on the way |
| Messaging.ReadExactly | components/msg_core/src/msg_tcpip.c:45-67 | Only an open link is read; an error closes it; bytes are taken from the front and delivered if they are 1 to 2047 |
| Messaging.WriteExactly | components/msg_core/src/msg_tcpip.c:68-89 | A message reaches the peer exactly if the link is open and the write succeeds; a failing write closes the link |
| MsgPipe.FoldBounds | components/msg_core/src/msg_pipe.c:96-121 | No more results and responses than elements, and no response where none is allowed |
| MsgPipe.RespondOnce | components/msg_core/src/msg_pipe.c:103-106 | With respondOnce all that is published is the first element's response, at most one |
| MsgPipe.PipelineRefinesFold | components/msg_core/src/msg_pipe.c:77-170 | For every choice of stages, a bundle without NULLs returns the concatenated results of a sequential fold and publishes exactly its responses; the NULL aggregate is read if and only if there are results and all are empty |
| MsgPipe.LeadingAll | components/msg_core/src/msg_pipe.c:97-121 | A bundle without NULLs is processed as a whole |
| MsgPipe.DroppedStops | components/msg_core/src/msg_pipe.c:32-40 | What the input transformer drops goes no further |
| MsgPipe.RejectedStops | components/msg_core/src/msg_pipe.c:42-48 | What the filter rejects is neither answered nor handed on; it sees the message as transformed |
| MsgPipe.PassedOn | components/msg_core/src/msg_pipe.c:49-71 | Responder first, then output transformer, both on the transformed message, the context threaded through all stages |
| MsgPipe.SplitOrNot | components/msg_core/src/msg_pipe.c:85-121 | Without a splitter the one result; NULL from the splitter ends it; a NULL piece ends it there, the responses so far being published |
| MsgPipe.OwnAggregator | components/msg_core/src/msg_pipe.c:138-148 | An aggregator of the chain's own takes the place of concatenation; its NULL is read |
| MsgPipe.Pipe.TransformChain | components/msg_core/src/msg_pipe.c:21-76 | One message through input transformer, filter, responder and output transformer: context, published response and result, without a fault |
| MsgPipe.Pipe.TransformBundle | components/msg_core/src/msg_pipe.c:91-121 | The transform loop computes the sequential fold over the elements before the first NULL; results are new, distinct, live messages |
| MsgPipe.Pipe.Concat | components/msg_core/src/msg_pipe_splitter.c:8-58 | A new message with the concatenated contents, NULL if that is empty |
| MsgPipe.Pipe.CallTransformers | components/msg_core/src/msg_pipe.c:77-170 | Context, result and published responses are those of the fold; one fault if and only if a NULL aggregate is read; every message live before still is |
| MsgPipe.Pipe.Publish | components/msg_core/src/msg_pipe.c:195-235 | Opens the link if it is down, publishes, destroys exactly that message, without a fault |
| MsgPipe.LazyExactly | components/msg_core/src/msg_pipe.c:195-235 | Publishing on a closed link makes one attempt to open it; the message reaches the peer exactly if that and the write succeed |
| MsgPipe.Pipe.InboundSubscription | components/msg_core/src/msg_pipe.c:237-255 | The responses are published on the inbound client, the result on the outbound one; the delivered message stays live unless there is no chain |
| MsgPipe.Pipe.OutboundSubscription | components/msg_core/src/msg_pipe.c:256-276 | The responses are published on the outbound client, the result on the inbound one; empty messages are ignored |
| MsgPipe.Pipe.LoopInbound | components/msg_core/src/msg_core.c:63-70 | Read, deliver, destroy: nothing is freed twice or used after it is freed if and only if nothing arrived or a chain took the message without reading a NULL aggregate |
| MsgPipe.Pipe.LoopOutbound | components/msg_core/src/msg_core.c:63-70 | The same for the outbound client |
| PhevConfig.ConfigMerge | components/phev_core/src/phev_controller.c:428-475 | After any sequence of configurations each stored switch is the last value that was set, FALSE if none was, never NOTSET |
| CarLink.ExtractMessage | components/phev_core/src/phev_core.c:103-121 | NULL for an invalid start, otherwise all remaining bytes, or one frame in the intended variant |
| CarLink.Splitter | components/phev_core/src/phev_controller.c:85-116 | The loop fills the bundle with exactly the specified pieces; NULL if and only if the bytes do not start with a valid frame |
| CarLink.SplitShape | components/phev_core/src/phev_controller.c:100-111 | Pieces are non-empty, each starts with a valid frame, together they are a prefix of the input, in order |
| CarLink.SplitAsWritten | components/phev_core/src/phev_core.c:110-110 | As written a read yields at most one piece |
| CarLink.SplitAsIntended | components/phev_core/test/test_phev_controller.c:289-324 | Extracting one frame at a time, any stream of frames splits into exactly those frames |
| CarLink.SplitDiffers | components/phev_core/src/phev_core.c:103-121 | On whole frames the splitter as written yields the intended pieces if and only if there is at most one frame |
| CarLink.ReencodedHeader | components/phev_core/src/phev_controller.c:118-139 | For every piece, what is read back after decoding and encoding again: command, type and register, whatever the added bytes are, unless the header is missing or the wrapping length byte cuts it short, and then exactly which bytes are unwritten memory |
| CarLink.PieceOutcome | components/phev_core/src/phev_controller.c:42-72 | What the stages publish and how they move the counter is determined by the command and by the type and register read back after decoding and encoding again |
| CarLink.Acknowledged | components/phev_core/src/phev_controller.c:42-72 | Exactly one acknowledgement for a request and none for anything else, whatever unwritten memory holds |
| CarLink.AckIsValid | components/phev_core/src/phev_core.c:202-206 | An acknowledgement is a valid frame with swapped command, type 1, same register and correct checksum |
| CarLink.AckExactly | components/phev_core/src/phev_controller.c:118-139 | For every read that starts with a valid frame, the acknowledgement promise holds for every content of unwritten memory if and only if the header was received up to a type that asks for no answer, or whole, and the wire length is at most 252, or 255, or 254 for something that is no request |
| CarLink.OutChainOutcome | components/phev_core/src/phev_controller.c:598-604 | A read of whole frames: only its first frame is acknowledged or moves the ping counter on, and a response is not reported |
| CarLink.OutChainRead | components/phev_core/src/phev_controller.c:598-604 | Any read whatsoever through the chain: context, at most one response, an acknowledgement |
| CarLink.CountExactly | components/phev_core/src/phev_controller.c:60-64 | For every read, cut anywhere, the counter moves as the read's first bytes say, for every content of unwritten memory, if and only if it does not start like a ping answer whose header is missing or gets lost |
| CarLink.OutChainClean | components/phev_core/src/phev_controller.c:598-604 | No bytes from the car make the chain read a NULL aggregate |
| CarLink.Turn | components/phev_core/src/phev_controller.c:369-416 | A switch command is the frame of that register and value |
| CarLink.ConfigToMessageBundle | components/phev_core/src/phev_controller.c:185-244 | The bundle for a state: a start message if a client is connected, then one command per switch |
| CarLink.CommandBytes | components/phev_core/src/phev_core.c:185-196 | The bundle concatenates to 5 frames and 36 bytes if connected, else 3 frames and 18 bytes |
| CarLink.CommandsReadBack | components/phev_core/src/phev_controller.c:185-244 | The commands determine whether a client is connected and the three switches; exactly one of on and off per switch |
| CarLink.InChainOutcome | components/phev_core/src/phev_controller.c:489-512 | A configuration through the whole chain: stored, then either an update and nothing sent, or the commands sent and the state reported once |
| CarLink.ConfigToWire | components/phev_core/src/phev_controller.c:489-512 | Configuration to wire and back: walking the published bytes with the decoder consumes all of them and recovers connected and the three switches of the merged state |
| WireLaws.CommandsSpelled | components/phev_core/src/phev_controller.c:369-416 | The very bytes for a client connected or not and three switches |
| WireLaws.DocumentTold | components/phev_core/src/phev_config.c:44-51 | A document with a state object, end to end: an update exactly if the latest build is newer than the current one or the document says so; otherwise these bytes, with each switch as the document says, or else as it was, or else off |
| PhevController.Controller.constructor | components/phev_core/src/phev_controller.c:582-638 | The chains are wired, the inbound link is opened and the outbound one is not, the counters are cleared, no configuration is stored |
| MsgPipe.Pipe.constructor | components/msg_core/src/msg_pipe.c:292-321 | The inbound link is opened at once, the outbound one only without lazy connection; nothing else changes |
| PhevController.Controller.Ping | components/phev_core/src/phev_controller.c:304-339 | Every thirtieth number a date frame first, then the ping with the counter's number; no fault |
| PhevController.Controller.ResetPing | components/phev_core/src/phev_controller.c:340-344 | Counter and last ping time cleared, nothing else |
| PhevController.Controller.EventLoop | components/phev_core/src/phev_controller.c:513-549 | One turn is the specified step of the whole state, frees or uses no message wrongly, and resets exactly when the cloud link is up, the car link down and the counter above 0 |
| PhevController.ResetExactly | components/phev_core/src/phev_controller.c:525-529 | A turn adds a reset to the trace exactly when it starts with the cloud link up, the car link down and a counter above 0; it is then the first thing it adds, and the only reset |
| TurnLaws.CloudDownTurn | components/phev_core/src/phev_controller.c:519-523 | With the cloud link down a turn tries to open it, once, and does nothing else |
| TurnLaws.CarDownTurn | components/phev_core/src/phev_controller.c:525-529 | With the car link down and nothing read, counter and last ping time go back to 0 and the trace grows by a reset, if the counter was above 0; otherwise nothing happens |
| TurnLaws.EarlyTurn | components/phev_core/src/phev_controller.c:541-545 | Nothing happens before the clock has moved past the last ping |
| TurnLaws.PingingTurn | components/phev_core/src/phev_controller.c:304-339 | Then exactly the bytes of the ping with the counter's number are sent, after those of the time sync exactly for 29, 59 and 89 |
| TurnLaws.RequestTurn | components/msg_core/src/msg_pipe.c:49-58 | A request read from the car: its acknowledgement, in bytes, goes to the car and to nobody else; the cloud gets a report exactly of a 0x6f frame; nothing else changes |
| TurnLaws.OtherTurn | components/msg_core/src/msg_pipe.c:256-276 | Any other frame: the car gets nothing; the cloud gets a report exactly of a 0x6f frame that is no response; an answer to a ping moves the counter |
| TurnLaws.GarbageTurn | components/msg_core/src/msg_pipe.c:87-89 | Bytes that are no frame are read, and that is all |
| TurnLaws.ConfigTurn | components/msg_core/src/msg_pipe.c:237-255 | A configuration read from the cloud: the car gets the commands, in bytes, the cloud the stored state |
| TurnLaws.ConfigCallback | components/msg_core/src/msg_pipe.c:237-255 | The same for a configuration handed over outside the event loop |
| TurnLaws.UpdateTurn | components/phev_core/src/phev_controller.c:497-502 | A configuration that brings an update: nobody gets anything |
| TurnLaws.BothTurn | components/msg_core/src/msg_pipe.c:10-19 | When both are read in one turn, the car gets the commands before the acknowledgement |
| TurnLaws.ResetThenZero | components/phev_core/src/phev_controller.c:525-529 | In every run such a turn leaves a reset in the trace, and the next ping after it carries 0 |
| PhevController.Controller.ConfigArrives | components/msg_core/src/msg_pipe.c:237-255 | A configuration handed over outside the loop, likewise without a fault |
| PingRun.ConsistentAnswer | components/phev_core/src/phev_controller.c:60-64 | With any number of pings in flight, the oldest answer leaves the counter or moves it on by one, and what is in flight stays a staircase of predecessor and counter |
| PingRun.InvTurn | components/phev_core/src/phev_controller.c:513-549 | The invariant over counter, trace and both queues survives every turn of the event loop, whatever is read and whatever fails |
| PingRun.InvStep | components/phev_core/src/phev_controller.c:513-549 | The invariant survives every step of the car, the links, the cloud and the controller, reads being cut anywhere |
| PingRun.FramesRead | components/msg_core/src/msg_tcpip.c:45-67 | Frames of the car read in one go, or cut short behind the first of them, look like at most one of the ping answers they hold |
| PingRun.PingSequence | components/phev_core/src/phev_controller.c:304-344 | Over every run the counter stays below 100 and every ping submitted may follow those before it |
| PingRun.NextPing | components/phev_core/src/phev_controller.c:332-334 | Between two resets each ping carries the previous number or its successor modulo 100, and comes later |
| PingRun.FirstPing | components/phev_core/src/phev_controller.c:340-344 | The first ping after a reset carries number 0 |
| PingRun.PingRate | components/phev_core/src/phev_controller.c:541-545 | Between two resets the seconds at which pings are sent strictly increase |
| PingRun.AdvancedNumber | components/phev_core/src/phev_controller.c:60-64 | The last ping's number is the first one's advanced by the number of changes, modulo 100 |
| PingRun.EveryNumber | components/phev_core/src/phev_controller.c:304-344 | Between two resets every number on the way is pinged |
| PingRun.NoSkippedSync | components/phev_core/src/phev_controller.c:307-330 | Whenever the number advances by 100 between resets, each of 29, 59 and 89 is pinged with a date sync submitted right before it |
| PingRun.SyncMissing | components/msg_core/src/msg_tcpip.c:77-82 | On an open link a due ping is in flight without its sync if and only if the write of the sync fails, the link reopens at once and the write of the ping succeeds |
| EchoRun.Cycle | components/phev_core/src/phev_controller.c:513-549 | From any settled state a turn, the car's answer and another turn move the counter on by one and submit exactly that ping, with its sync if one is due |
| EchoRun.StrayAnswer | components/phev_core/src/phev_controller.c:60-64 | A read that looks like an answer nobody gave moves the counter anywhere |
| EchoRun.SyncLost | components/msg_core/src/msg_tcpip.c:77-82 | A whole run from initialisation, 29 pings being answered, after which ping 29 is on the wire without its sync |
| EchoRun.AllTheWayRound | components/phev_core/src/phev_controller.c:304-344 | A whole run from initialisation in which the number advances by 100 without a reset |
| PingRun.SyncDelivered | components/msg_core/src/msg_tcpip.c:77-82 | On an open link sync and ping are both in flight, in that order, if and only if both writes succeed |
| ConfigRun.OutChainKeepsConfig | components/phev_core/src/phev_controller.c:42-72 | Nothing the car sends changes the stored configuration |
| ConfigRun.ConfigOverRun | components/phev_core/src/phev_controller.c:428-475 | Over every run of the controller each stored switch is the one last value set by a configuration handled in it, FALSE if none, never NOTSET |
| ConfigRun.CommandsShowHistory | components/phev_core/src/phev_controller.c:489-512 | After every run, the bytes the next configuration sends to the car read back as the last value set for each switch in the whole run |
| DnsNames.LabelToStr | components/captdns/src/captdns.c:117-145 | Comes to an end whenever some number of turns suffices; writes the NUL-terminated dotted text and returns the specified position, or NULL, also when a label runs past the packet with the buffer full |
| DnsNames.MoreTurns | components/captdns/src/captdns.c:121-141 | The result does not depend on how many turns are granted, if they suffice |
| DnsNames.ReservedLabel | components/captdns/src/captdns.c:121-141 | On a reserved label type inside the packet no number of turns suffices |
| DnsNames.PointerCircle | components/captdns/src/captdns.c:131-138 | Nor on two pointers to each other, or one to itself |
| DnsNames.TurnsBounded | components/captdns/src/captdns.c:121-141 | If one turn for every position and every text length does not suffice, no number of turns does |
| DnsNames.TurnsSuffice | components/captdns/src/captdns.c:121-141 | For every name whose pointers lead backwards, by (start of the current run of labels, bytes left in it), a number of turns bounded by the square of the packet size suffices |
| DnsNames.StrToLabel | components/captdns/src/captdns.c:148-165 | Writes exactly the encoding of the stretches between the dots, text length + 2 bytes, in place, and nothing else |
| DnsNames.ScanReads | components/captdns/src/captdns.c:117-145 | In the middle of any compressed name the loop goes on to yield exactly the labels the reader reads, in one turn for each label and pointer |
| DnsNames.Decompression | components/captdns/src/captdns.c:117-145 | For every non-root name with backward pointers whose text fits: exactly its labels, and the true end of the name if and only if it uses at most one pointer |
| DnsNames.RootMisread | components/captdns/src/captdns.c:121-144 | The root name followed by anything but a pointer or a reserved label is never read as such: one byte too many, or with labels that are not its own |
| DnsNames.TwoPointersMisread | components/captdns/src/captdns.c:131-144 | A name with two pointers whose end is missed |
| DnsNames.PointerSpelled | components/captdns/src/captdns.c:134-134 | A pointer is the last fourteen bits of its two bytes |
| DnsNames.TextSpelled | components/captdns/src/captdns.c:152-162 | The separator of a text is 46, and neither it nor a zero can be part of a label in it |
| DnsNames.JoinPieces | components/captdns/src/captdns.c:148-165 | Splitting a text at its dots and joining the pieces is the identity |
| DnsNames.PiecesJoin | components/captdns/src/captdns.c:148-165 | Joining labels without dots and splitting again is the identity |
| DnsNames.ReadEncoded | components/captdns/src/captdns.c:148-165 | The reader reads back what the encoder wrote, wherever it stands |
| DnsNames.TextRoundTrip | components/captdns/src/captdns.c:117-165 | labelToStr after strToLabel is the identity on non-empty dotted names with labels of 1 to 63 bytes, and consumes text length + 2 bytes |
| DnsNames.NameRoundTrip | components/captdns/src/captdns.c:117-165 | strToLabel after labelToStr gives the fully expanded encoding of any compressed non-root name if and only if no label contains a dot or a NUL |
| DnsNames.ReadNameStable | components/captdns/src/captdns.c:186-187 | Compressed names keep their meaning when the packet is copied, its header changed and bytes appended |
| CaptDns.SetN16 | components/captdns/src/captdns.c:95-99 | Writes the two bytes and nothing else |
| CaptDns.SetN32 | components/captdns/src/captdns.c:102-108 | Writes the four bytes and nothing else |
| CaptDns.NumberReadBack | components/captdns/src/captdns.c:95-113 | my_ntohs after setn16 gives the number, and every other word is as before |
| CaptDns.WriteA | components/captdns/src/captdns.c:206-222 | Type, class, TTL 0, length 4 and the address, 14 bytes, nothing else changed |
| CaptDns.WriteNs | components/captdns/src/captdns.c:230-239 | The same for NS, with two bytes of the TTL left as they were |
| CaptDns.WriteUri | components/captdns/src/captdns.c:245-256 | The same for URI with priority, weight and target, 30 bytes |
| CaptDns.AnswerQuestion | components/captdns/src/captdns.c:200-259 | Answers one question behind the answers so far; it writes something and adds one to ancount exactly for types 1, 2 and 256 |
| CaptDns.PassesExactly | components/captdns/src/captdns.c:181-184 | The entry checks in numbers: 12 to 512 bytes, six zero bytes, the truncation bit clear |
| CaptDns.CountBound | components/captdns/src/captdns.c:223-223 | The answer count cannot exceed the bytes of the answers, so ancount never wraps |
| CaptDns.CaptdnsRecv | components/captdns/src/captdns.c:168-265 | Nothing is sent if an entry check or a name fails; otherwise the request with QR set and ancount, followed by the answers in order. Footers may lie behind the datagram |
| DnsReplies.HearsQuestions | components/captdns/src/captdns.c:189-195 | The question loop finds exactly the questions the reference reader reads |
| DnsReplies.QuestionsStable | components/captdns/src/captdns.c:186-187 | The questions of a reply are those of the request, compression included |
| DnsReplies.ReadAnswer | components/captdns/src/captdns.c:204-257 | Each answer to a question without dots and NULs in its labels is read as exactly one record: the question's decompressed name, type, class, rdlength equal to its data, and the TTL the code leaves |
| DnsReplies.TtlExactly | components/captdns/src/captdns.c:234-251 | In every well-formed reply, the TTL read in the answer to question k is 0 if and only if it is an A record or the two bytes of the reply buffer at its place were 0 |
| DnsReplies.TtlLeftOver | components/captdns/src/captdns.c:230-239 | An NS answer that reads back with TTL 65535 |
| DnsReplies.ReplyWellFormed | components/captdns/src/captdns.c:168-265 | The reply parses as the same header with QR set, the same questions, then exactly one determined record per A, NS and URI question, in order, with nothing left over |
| DnsReplies.ReplyOfHeard | components/captdns/src/captdns.c:189-263 | Whatever questions the code hears: if no label of an answered one holds a dot or a NUL, the reply parses as the questions asked and exactly the records of the questions heard, and is the promised one if and only if those to be answered are heard right |
| DnsReplies.ReplySpelled | components/captdns/src/captdns.c:186-258 | What the sender reads, in numbers: flags with the first bit set, the questions, and exactly one record for each question of type 1 (class 1, TTL 0, the address), 2 (class 1, the name "ns") or 256 (class 256, priority 10, weight 1, "http://esp.nonet"), in order |
| DnsReplies.ReplyExactly | components/captdns/src/captdns.c:168-265 | For every request whose questions the code can take, the reply parses with one record bearing the question's name per A, NS and URI question if and only if no label of an answered question holds a dot or a NUL |
| DnsReplies.MatchedPlain | components/captdns/src/captdns.c:148-165 | The converse half: if the records read match their questions, those questions' labels hold no dots and NULs |
| DnsReplies.RootRead | components/captdns/src/captdns.c:181-184 | The reader accepts a request for the address of the root as that question |
| DnsReplies.RootHeard | components/captdns/src/captdns.c:189-200 | Asked for the address of the root, the code hears a question of type URI whose class lies partly behind the datagram |
| DnsReplies.RootReplyUnreadable | components/captdns/src/captdns.c:242-257 | ... and answers with 49 bytes that no reader accepts |
| DnsReplies.TwoPointersUnanswered | components/captdns/src/captdns.c:131-144 | A well-formed request whose third name uses two pointers: its address question gets no answer |
| DnsReplies.HearsButLast | components/captdns/src/captdns.c:189-195 | If all names but the last use at most one pointer, the code hears all questions but the last right, and the last with its right name |
| DnsReplies.LastTypeDecides | components/captdns/src/captdns.c:131-144 | A last name with any number of pointers: the reply is the promised one if and only if the type word where the code takes the name to end agrees with the one where it does end, or neither type is answered |
| DnsReplies.Exchange | components/captdns/src/captdns.c:168-265 | From request to bytes sent: if the answers fit, a reply is sent, its length is the sum of the parts, and it reads as the promised answers under exactly that condition |
| DnsReplies.ReplySize | components/captdns/src/captdns.c:200-263 | Reply length is request length plus, per answered question, text length + 2 plus 14 (A, NS) or 30 (URI) |
| DnsReplies.AnswersSize | components/captdns/src/captdns.c:200-263 | Those sizes bound the answers whatever the labels hold |
| DnsReplies.SingleQuestionFits | components/captdns/src/captdns.c:31-31 | For one uncompressed A question the reply fits if and only if the encoded name takes at most 241 bytes |
| DnsReplies.RequestAccepted | components/captdns/src/captdns.c:181-195 | Every request with one uncompressed question for an encodable name passes the entry checks and is read, and taken, as that question |
| DnsReplies.AddressLookup | components/captdns/src/captdns.c:168-265 | Whoever asks for the address of any encodable name of at most 241 encoded bytes gets a reply that fits, and it reads as one A record of that name, TTL 0 and the portal's address if and only if no label holds a dot or a NUL |
| PhevOta.Receiver.ReadUntil | components/phev_ota/src/phev_ota.c:25-33 | The position behind the delimiter, which may lie past the received bytes |
| PhevOta.BodyWithin | components/phev_ota/src/phev_ota.c:39-65 | The body start lies within the received bytes, unless a single byte was received |
| PhevOta.LoneByteMisread | components/phev_ota/src/phev_ota.c:44-50 | A single byte is taken for a two-byte line |
| PhevOta.Receiver.ReadPastHttpHeader | components/phev_ota/src/phev_ota.c:39-65 | Writes what follows the first two-byte line and reports whether the body has begun; a failed write leaves it unbegun, and a line past the received bytes ends in the negative copy |
| PhevOta.Receiver.Receive | components/phev_ota/src/phev_ota.c:186-220 | Flash content, counted length, flags and outcome of the whole receive loop are those of the fold over the received chunks; it completes exactly if the connection is closed while it is at work, with nothing but data before |
| PhevOta.ScanHeader | components/phev_ota/src/phev_ota.c:43-63 | The scan walks over any header lines to just behind the blank line |
| PhevOta.StreamRefinement | components/phev_ota/src/phev_ota.c:186-220 | With the header in the first chunk and successful writes, for every chunking of the body: exactly the body reaches the flash and the count grows by its length if "200" is found in the first chunk, otherwise nothing is written |
| PhevOta.StreamExactly | components/phev_ota/src/phev_ota.c:186-220 | For every way to cut a whole response with a non-empty body into chunks of 1 to 1024 bytes, if all writes succeed: exactly the body reaches the flash and the count grows by its length if and only if "200" is found in the first chunk and every cut inside the header is safe |
| PhevOta.StreamWritten | components/phev_ota/src/phev_ota.c:186-220 | Whatever writes fail, all cuts being safe: exactly the body reaches the flash if and only if the writes succeed from the chunk on in which the header ends; and if the receiver completes, if and only if the first of them does |
| PhevOta.HeaderWriteLost | components/phev_ota/src/phev_ota.c:52-65 | A whole response in one chunk whose write fails: the receiver completes with nothing written |
| PhevOta.BodyWriteFails | components/phev_ota/src/phev_ota.c:204-211 | A failing write of the body stops the receiver |
| PhevOta.CompleteExactly | components/phev_ota/src/phev_ota.c:213-216 | An update completes if and only if the connection is closed while the receiver is at work, with nothing but data before |
| PhevOta.EndsThere | components/phev_ota/src/phev_ota.c:190-194 | A close completes and an error aborts, with what had been written by then, whatever would have come later |
| PhevOta.EndsEarly | components/phev_ota/src/phev_ota.c:186-220 | Safe cuts, successful writes: flash holds exactly the part of the body received so far; an error then aborts the update, but an orderly close completes it |
| PhevOta.OkResponse | components/phev_ota/src/phev_ota.c:195-203 | "HTTP/1.0 200 OK", a blank line and any body of up to 1000 bytes, in literal bytes: the body is written |
| PhevOta.ErrorResponse | components/phev_ota/src/phev_ota.c:195-203 | "HTTP/1.0 404": aborted, nothing written |
| PhevOta.FullChunk | components/phev_ota/src/phev_ota.c:204-211 | A body chunk of 1024 bytes is written whole |
| PhevOta.CutExactly | components/phev_ota/src/phev_ota.c:43-63 | For a header cut once, at k: exactly if k leaves the blank line whole, or more than it and no two bytes that end a line |
| PhevOta.BlankLineCut | components/phev_ota/src/phev_ota.c:43-63 | A cut between the two bytes of the blank line always loses part of the body |
| PhevOta.UnsafeCut | components/phev_ota/src/phev_ota.c:43-63 | A cut that leaves two bytes of a line, or a lone byte, never yields exactly the body |
| PhevOta.HeaderHolds200 | components/phev_ota/src/phev_ota.c:197-200 | "200" in a NUL-free header is always found |
| PhevOta.CutHeader | components/phev_ota/src/phev_ota.c:43-63 | A header cut before a line end: the line end is taken for the blank line and the real one goes to flash |

## Left out

Deliberately weaker than one might expect:

- PingRun.PingSequence: assumes that a read that looks like a ping answer is one, in order, with its
  header (`CarLink.Legible`); without that it fails, see `EchoRun.StrayAnswer`. The clock does not run
  backwards within a turn.
- PingRun.NoSkippedSync: about submission in the order of the code; delivery is `SyncDelivered` and
  `SyncMissing`.
- CarLink.Splitter: requires at most 25 pieces, the size of the bundle; as written there is at
  most one.
- CarLink.OutChainOutcome: requires a first frame with wire length 3 to 252; other reads are covered
  by `OutChainRead`.
- CarLink.OutChainClean: assumes that printing a JSON object never gives an empty text.
- MsgPipe.PipelineRefinesFold: about the default aggregator; `Transformation` and
  `Pipe.CallTransformers` cover custom ones and bundles with a NULL element.
- DnsNames.LabelToStr: excludes inputs on which the code never comes to an end, or writes the closing
  NUL past its buffer.
- DnsNames.Decompression: excludes the root name, see `RootMisread`, and pointers that do not lead
  backwards, which section 4.1.4 of RFC 1035 does not allow.
- DnsReplies.ReplyExactly: for questions whose names are not the root and use at most one pointer.
  With more pointers in the last name the condition is that of `LastTypeDecides`; in an earlier name
  the code goes on reading from the wrong place, and `ReplyOfHeard` says what that amounts to. The
  root fails as in `RootReplyUnreadable`.
- DnsReplies.LastTypeDecides: for labels without dots and NULs.
- CaptDns.CaptdnsRecv: excludes names on which labelToStr does not end or overflows, reads behind
  the receive buffer, and replies that do not fit, which the code does not check.
- PhevOta.Receiver.Receive: stops, with status `Broken`, where the code copies a negative length.
- PhevOta.StreamExactly: for a non-empty body; an empty one is covered by `StreamRefinement`.
- PhevOta.StreamWritten: for safe cuts; a failing write can make up for an unsafe one.

Not modelled:

- Sockets, select, Wi-Fi and GSM modem, the MQTT transport, HTTP server, SNTP and mDNS: their
  results are arbitrary. The cloud client is modelled like the TCP client.
- JSON parsing and printing: the functions of `CarLink.Foreign`; a document without an update
  object, which the code would dereference as NULL, is not a `Document`.
- Strings in configurations (hosts, paths, Wi-Fi credentials) and their copying; switch values
  outside the three enumerators.
- Allocation failure and leaked messages; message ids and topics; logging.
- The subscription array: each client has the one subscription its pipe registers.
- Output transformers, responders, splitters and aggregators that return a message they were
  given: they return new ones here; an input transformer may return its argument.
- The hooks that start the Wi-Fi before connecting.
- Preemption between the MQTT task and the event loop: steps are atomic.
- The queued commands, the setup web form, NVS storage, the register store and the unused filter.
- A firmware update seen from the event loop: it is a flag there. Around the receive loop:
  partition selection, `esp_ota_begin` and `esp_ota_end`, the GET request, the restart.
- Reads of 2048 bytes and more are dropped as a whole.
