# A verified model of the worms game

The repository is a networked game: a server plays rounds and appends what happens to an event log, slices the log into
checksummed UDP datagrams and sends them to its clients; a client puts the log together again out of datagrams that may be
lost, repeated or reordered, and passes it on as lines of text to a graphical interface, through a buffer that grows and
shrinks; key presses come back the other way. This project models both programs and the text side of the interface in
Dafny and proves what they do. `dafny verify dfyconfig.toml` checks all of it.

## How the model is laid out

| file | models |
|---|---|
| `Bytes.dfy` | bytes, the bits they carry, machine widths |
| `Variants.dfy` | the code as written, and repaired |
| `ShiftRegister.dfy` | the theory of feedback shift registers, free of any width |
| `Crc32Table.dfy`, `Crc32.dfy` | `Common/Crc32Computer.h`: the table, the loops, what they detect |
| `Residue.dfy` | what that checksum is, told without its register |
| `Wire.dfy` | the layout of events and heartbeats in bytes, and what the parser makes of arbitrary bytes |
| `Layout.dfy` | the bytes on the wire and the text for the interface, position by position |
| `Datagrams.dfy` | slicing a log into datagrams and reading a datagram to its end |
| `Damage.dfy` | which damage to an event its checksum lets pass |
| `UnknownEvents.dfy` | events of types the client does not know |
| `UdpBuffers.dfy` | the datagram buffers, and packing and parsing as they work on them in place |
| `Text.dfy` | the lines for the interface |
| `EventLogs.dfy` | what a log guarantees to its readers, and the lines it makes |
| `Client.dfy`, `Reassembly.dfy` | `Client::handle_events`, and what it achieves within one game |
| `StaleDatagrams.dfy` | datagrams of a game the client has left |
| `Protocol.dfy` | server logs, network and client as one transition system over bytes |
| `GameVisits.dfy` | which games the client shows over whole runs, and when it comes back to one |
| `TcpSend.dfy`, `TcpReceive.dfy` | the two buffers between client and interface |
| `TcpSendRuns.dfy` | runs of the send buffer as written that lose bytes |
| `Keys.dfy` | from the key lines of the interface to the direction in a heartbeat |
| `GameRules.dfy` | one game as a state machine with arbitrary movement |
| `GameLogs.dfy` | what a game logs, told from its log alone |
| `Packages.dfy`, `Observers.dfy` | the datagrams queued for a receiver; pruning the list of observers |
| `Dissemination.dfy` | everything a game disseminates over its life, whoever comes and goes |
| `Players.dfy`, `Game.dfy` | the objects of a game, and what it sends to whom |
| `RegistryRules.dfy`, `Server.dfy` | who is connected under which name; the server's classes |
| `Sessions.dfy` | who is connected, who is idle and when a game begins, told from what the server has heard |
| `ServerRuns.dfy` | beginnings, rounds and replies as stretches of runs of the protocol |
| `Answers.dfy` | answers to heartbeats, read from their bytes, and what they do for the client |
| `Chronicle.dfy` | the server with the history of what it has heard, and what it answers |
| `Feeds.dfy` | the server with the history of what its current game has disseminated |
| `Gui.dfy` | tokenising and obeying a line |
| `Reading.dfy` | how the interface takes lines off its socket |
| `Display.dfy` | from the lines of a client to the picture on the screen |
| `Pipeline.dfy` | the client together with its buffer to the interface, and what is shown over their runs |
| `Rng.dfy`, `Angle.dfy` | the random generator and the arithmetic of directions |

Each class is the code, field by field and loop by loop; its methods are proved equal to functions on values, and the
lemmas are about those functions. A process that ends itself (`fatal`, `syserr`, an exception nobody catches) is a failed
state with no further steps, and so is behaviour that C++ does not define.

Movement, random numbers, what a socket accepts or delivers and when, and what freshly allocated memory holds are
parameters: every theorem is about all of them.

## Where the code is not what it is for

The classes keep the code as it is. Where a branch does not do what it is for, the functions take a `Variant`:
`AsWritten` is the code, `Repaired` has that branch mended. The intended property is then proved of the repaired branch for
all runs, and of the code exactly: a condition that can be checked before the step is proved to be equivalent to the
property, and an input that shows the failure is a lemma. Where a condition is one way only, "Left out" says so.

- Client/Client.cpp:96-104 prints and erases kept events without advancing the expected number. `AsWrittenStepExact`,
  `AsWrittenSliceExact`, `AsWrittenDeliveryExact` and `AsWrittenConvergesExactly` say exactly when that does no harm;
  `AsWrittenPrintsTwice` shows an event printed twice.
- Client/Client.cpp:66-73 lets a datagram of a game left behind fall through into the current game: `StaleHarmlessExactly`
  says when it changes nothing, `MisreadExactly` and `StaleDeliveryExact` when the lines stay right, and `OldGamePrinted`
  shows a line of one game printed under another. `RunsSafeExactly` puts this and the above together: over every run,
  whatever arrives, when nothing has ever gone wrong.
- Client/Client.cpp:68-69 remembers a game that is left only if one of its events was expected and came. `MovesExactly` says
  when the client can be moved back, `ReturnsExactly` which runs come back to a game, and `GameReentered` is a run that does;
  the repaired client never does (`RepairedVisitsOnce`).
- Common/Buffer.h:126-128 sends the highest byte of a checksum first, and Common/Crc32Computer.h:86-93 computes it lowest
  bit first; so the checksum does not continue the message, and damage over the end of the one and the beginning of the
  other may pass. `DamageAcceptedExactly` says which damage passes, `EveryEventHasDamage` that every event has some that
  lies within four consecutive bytes, and `DamageUnnoticed` gives two PIXELs that are read for each other.
- Common/Event.h:299-300 leaves the rest of an event of an unknown type in the buffer, where it is read as another event
  (`UnknownPassedExactly`, `UnknownEventIsFatal`; `SkippingRoundTrip` is about the repaired reading).
- Common/Buffer.cpp:75 copies to a quarter of the new capacity, not to its half (`GrowExactly`, and `GrowingLoses` is a run
  from an empty buffer); Common/Buffer.cpp:50 takes the second piece from the wrong place (`FlushExactly`, and
  `WrappingSendsWrong` is such a run). `ClientBufferFails` is both for the 256 bytes that the client begins with.
- Server/Game.cpp:40-42 reports a player eliminated who then plays on (`RoundSilentExactly`, `EliminatedWormEats`).
- Server/Game.cpp:158-160 erases by iterators that earlier erasures have moved. `EraseExactly` says when the list comes out
  right, `DroppedExactly` whom it drops, `ListedAreTold` what those it drops are told; `EraseLosesLive` shows it.
- Server/Server.cpp:126-128 lets a client take a name that is in use (`BeatExactly`, `TakenNameFreed`).
- GUI/read_line.c:43-49 loses what it has read of a line when the socket runs dry (GUI/net.c:48): `ReceivedExactly` says
  when all lines are read, and `CutLosesDot` shows a dot that never appears.
- Server/Board.h:23-26 does not undo a turn by more than a full circle (`LeftUndoesRightExactly`).
- Server/Server.cpp:10 lets a round last a whole number of nanoseconds, so two seconds may take more rounds than they
  should, or for ever: `TwoSecondsExactly`.

## Model

| member | source | states |
|---|---|---|
| Crc32Table.TableIsDivision | Common/Crc32Computer.h:12-65 | each of the 256 entries is its index after eight bitwise steps with the polynomial 0xEDB88320 |
| Crc32Table.Read | Common/Crc32Computer.h:77-78 | reading the table at an index gives that remainder |
| ShiftRegister.TableStep | Common/Crc32Computer.h:77-78 | for every register that obeys the shift laws, one table lookup does the work of eight clocks |
| ShiftRegister.Window | Common/Crc32Computer.h:86-93 | two bit strings that differ only within one register width never leave the register in the same state |
| Crc32.StepIsDivision | Common/Crc32Computer.h:77-78 | one pass of the loop is eight bitwise steps on the byte, for every register and byte |
| Crc32.Lookup | Common/Crc32Computer.h:77-78 | the step of the loops, table and all |
| Crc32.Crc32Computer.Add | Common/Crc32Computer.h:71-80 | adding bytes continues the bit-by-bit division over them |
| Crc32.ComputeInBuffer | Common/Crc32Computer.h:86-93 | the loop over a part of a buffer, with its signed bytes, gives the bit-by-bit checksum of that part |
| Crc32.AddInPieces | Common/Crc32Computer.h:70-102 | any pieces added in turn give the checksum of their concatenation |
| Crc32.BurstDetected | Common/Crc32Computer.h:86-93 | messages of equal length that differ only within at most 32 consecutive bits have different checksums |
| Residue.ResidueIsConstant | Common/Crc32Computer.h:86-93 | every message followed by the four bytes of its checksum, the lowest first, has the checksum 0x2144DF1C |
| Residue.EmptyMessage | Common/Crc32Computer.h:86-93 | the checksum of nothing is 0 |
| Residue.CheckValue | Common/Crc32Computer.h:86-93 | that of the characters 1 to 9 is 0xCBF43926, the check value of CRC-32 |
| Wire.Be32RoundTrip | Common/Buffer.h:26-56 | four bytes in network order are read back as the same number |
| Wire.Be64RoundTrip | Common/Buffer.h:26-56 | the same for eight bytes |
| Wire.Minus32Wraps | Common/Event.h:121-124 | the unsigned subtraction of the name counter wraps around exactly when more is taken than there is |
| Wire.NameCounter | Common/Event.h:117-126 | the name loop ends with the counter at 0 exactly if the names read fill the declared length; otherwise the counter has wrapped past every valid size |
| Wire.EventRoundTrip | Common/Event.h:83-89 | wherever a packed event stands in a datagram, unpacking there gives that event and stops right behind it, checksum accepted |
| Wire.DamageRejected | Common/Event.h:271-303 | an event whose bytes between length field and checksum are damaged within any 32 consecutive bits, the checksum itself being intact, is rejected |
| ShiftRegister.FeedXor | Common/Crc32Computer.h:86-93 | division is linear: the bits in which two messages differ leave the difference of their remainders |
| Damage.DamageAcceptedExactly | Common/Event.h:271-303 | an event damaged in any way behind its length field, checksum included, passes its checksum if and only if the remainder of the damage to the covered bytes is the damage to the checksum |
| Damage.SumDamageRejected | Common/Event.h:271-303 | damage to the checksum alone is always noticed |
| Damage.EveryEventHasDamage | Common/Event.h:271-303 | every event, wherever it stands, has damage to its last two covered bytes and the first two of its checksum that passes |
| Damage.DamageUnnoticed | Common/Event.h:163-209 | two PIXELs, of any number, player and x, whose encodings differ in four consecutive bytes only and are both accepted |
| Wire.HeartbeatRoundTrip | Common/ClientHeartbeat.h:21-33 | a packed heartbeat parses to the same fields |
| Wire.HeartbeatUnique | Common/ClientHeartbeat.h:21-26 | what parses as a heartbeat is the encoding of exactly that heartbeat, and fewer than 13 bytes never parse |
| Layout.HeartbeatLayout | Common/ClientHeartbeat.h:28-33 | bytes 0 to 7 of a packed heartbeat are the session, highest byte first, byte 8 the direction, bytes 9 to 12 the expected number, and the rest is the name |
| Layout.EventLayout | Common/Event.h:83-89 | bytes 0 to 3 of a packed event, highest first, are its length without these and the checksum, 4 to 7 its number, byte 8 its type from 0 to 3, then its fields in their order, and the last four the checksum of all before them |
| Layout.UnknownExactly | Common/Event.h:283-301 | of what passes the checksum, exactly the types above 3 are unknown |
| Layout.DatagramLayout | Server/Game.cpp:120-133 | the first four bytes are the id of the game, and packed events follow one behind the other |
| Wire.UnpackEvent | Common/Event.h:271-303 | on arbitrary bytes one attempt stays inside the datagram and consumes bytes, or ends the reading |
| Wire.ReadNames | Common/Event.h:117-126 | the name loop never leaves the datagram |
| Datagrams.DatagramRoundTrip | Client/Client.cpp:64-78 | reading a datagram of packed events to its end gives the game and exactly these events |
| Datagrams.SlicesAreGreedy | Server/Game.cpp:114-134 | the slices are the one partition of the events into nonempty datagrams of at most 550 bytes in which a new one is begun only when the next event does not fit |
| Datagrams.PackageRoundTrip | Server/Game.cpp:114-134 | every datagram of a package names the game, is at most 550 bytes and reads back as its slice; the slices in order are the events |
| UnknownEvents.UnknownPassedExactly | Common/Event.h:299-300 | with one event of unknown type among known ones the right events are read, to the end, only if the length of its data and checksum is a multiple of nine; they are if these bytes fall into nines that each pass for the head of an event of unknown type; and if it is the last event, exactly then |
| UnknownEvents.UnknownEventIsFatal | Client/Client.cpp:105-108 | an event of unknown type with short data at the end of a datagram ends the client instead of being passed over |
| UnknownEvents.SkippingRoundTrip | Client/Client.cpp:76-114 | repaired: with events of unknown types anywhere in a datagram exactly the others are read, to the end |
| UnknownEvents.SkippingSame | Client/Client.cpp:76-114 | where all types are known the repair changes nothing |
| Datagrams.NewGameFits | Server/Game.cpp:122-133 | NEW_GAME fits a datagram for up to 25 players with names of up to 20; for names of exactly 20, for no more |
| UdpBuffers.UDPSendBuffer.Store | Common/Buffer.h:112-124 | the bytes are appended to the contents |
| UdpBuffers.UDPSendBuffer.ComputeCrc | Common/Buffer.h:126-128 | the checksum of the last bytes is appended |
| UdpBuffers.UDPSendBuffer.Flush | Common/Buffer.cpp:181-198 | the buffer is emptied exactly if the socket accepted it; a send that fails otherwise than by blocking ends the process |
| UdpBuffers.PackEvent | Common/Event.h:83-89 | packing appends the encoding of the event, computed in place |
| UdpBuffers.PackNewGame | Common/Event.h:137-143 | its data is the sizes and the names, each closed by a zero byte |
| UdpBuffers.PackHeartbeat | Common/ClientHeartbeat.h:28-33 | packing appends the encoding of the heartbeat |
| UdpBuffers.UDPReceiveBuffer.Populate | Common/Buffer.h:150-155 | the buffer holds the datagram and nothing is read yet |
| UdpBuffers.UDPReceiveBuffer.UnpackName | Common/Buffer.cpp:169-179 | the loop finds the zero-terminated name at the position, or reports bad data at the end |
| UdpBuffers.UDPReceiveBuffer.VerifyCrc32 | Common/Buffer.cpp:159-167 | a match, a mismatch or too few bytes, by the checksum of length field and body |
| UdpBuffers.UDPReceiveBuffer.UnpackNewGame | Common/Event.h:117-126 | the constructor reads what the specification reads, moving the cursor the same way |
| UdpBuffers.UDPReceiveBuffer.Unpack | Common/Event.h:271-303 | one event attempt on the buffer is one attempt on its bytes, with the same cursor |
| UdpBuffers.UDPReceiveBuffer.UnpackHeartbeat | Common/ClientHeartbeat.h:21-26 | the parsing constructor gives what the specification gives, or bad data |
| UdpBuffers.UDPReceiveBuffer.ReceiveHeartbeat | Server/Server.cpp:84-89 | what the first 550 bytes of a datagram say, the buffer being exhausted afterwards in any case |
| Text.LineBytesFromSpaced | Common/Event.h:96-101 | packing words each with a space and turning the last space into a newline gives the line |
| Text.WordsAreShort | Common/Event.h:152-158 | no word of a message is longer than 20 if no name is, so none is too long for the send buffer |
| Layout.DecimalReads | Common/Event.h:152-158 | a number is written with the digits that stand for it and no zero in front |
| Layout.LineLayout | Common/Event.h:96-101 | the line of an event, character by character: its name, its numbers and names in their order, single spaces between them and a newline at the end |
| Client.TakeEventKeysAbove | Client/Client.cpp:80-104 | after each event no kept event is below the expected one |
| Client.Client.SendHeartbeat | Client/Client.cpp:51-58 | the datagram is one that the server reads as the client's session, direction, expected number and name; it is kept if the socket would block, and the process ends if the send fails |
| Client.Client.DrainFuture | Client/Client.cpp:96-104 | the drain loop as written is the drain of the specification, and ends |
| Client.Client.TakeExpectedEvent | Client/Client.cpp:80-91 | an expected event is printed and taken into the state; a PIXEL ends the process exactly if x is not below the width, y not below the height or the player unknown, PLAYER_ELIMINATED exactly if the player is, and the others never |
| Client.Client.HandleEvent | Client/Client.cpp:78-113 | one event changes the client as the specification says |
| Client.Client.SwitchTo | Client/Client.cpp:66-73 | the game named by a datagram becomes the current one, or not, as the specification says |
| Client.Client.HandleEvents | Client/Client.cpp:60-119 | for every datagram of any bytes and any length: the game switch, every event attempt, discarding and failing, as a function of the old state and the first 550 bytes; fewer than four bytes end the process |
| Reassembly.ReassemblyExact | Client/Client.cpp:75-104 | repaired: after any events of one game in any order, the expected number is the least not received, the kept events are exactly those received above it, and the lines printed are exactly those below it |
| Reassembly.RepairedConverges | Client/Client.cpp:75-104 | repaired: once all events below a number have been received, the client has advanced at least to it |
| Reassembly.AsWrittenStepExact | Client/Client.cpp:80-104 | as written: one event keeps the printed lines right if and only if it is not the expected one with its successor already kept |
| Reassembly.AsWrittenRunExact | Client/Client.cpp:75-104 | as written: a sequence of events keeps the printed lines right if and only if no event of it does that |
| Reassembly.EarlyPrintsExactly | Client/Client.cpp:75-104 | as written: consecutive events print nothing early if and only if the expected one is not among them or no event with a line is kept up to the number behind them |
| Reassembly.AsWrittenSliceExact | Client/Client.cpp:75-104 | as written: a slice of the log keeps the printed lines right if and only if that holds before it is read |
| Reassembly.AsWrittenNext | Client/Client.cpp:80-81 | as written: the expected number after any events is how far they contain the log in order |
| Reassembly.AsWrittenConvergesExactly | Client/Client.cpp:75-104 | as written: the client reaches a number if and only if the events from the expected one to it occur in order among those received |
| Reassembly.AsWrittenPrintsTwice | Client/Client.cpp:96-104 | three events, the second and third swapped by the network: one is printed twice |
| StaleDatagrams.StaleHarmlessExactly | Client/Client.cpp:66-78 | as written: a datagram of a game left behind changes nothing if and only if it holds no event number at or above the expected one that could be used |
| StaleDatagrams.MisreadExactly | Client/Client.cpp:66-104 | as written: consecutive events of another game leave the client in step with its own if and only if either nothing is printed early, those taken in have the lines of its own events of these numbers and those kept are its own; or they end the other game, one line alone is printed early, the log does not end there, and the events taken in have the lines of their own numbers up to that one and of the next numbers from it on |
| StaleDatagrams.MadeUpExactly | Client/Client.cpp:80-104 | the second of these cases: the one early line makes up for the one that GAME_OVER lacks |
| Protocol.RunsAreSafe | Client/Client.cpp:60-119 | in every run of games that log, a server that sends slices, a network that loses, repeats and reorders bytes and a client: what was printed is, game by game in the order of their visits, the log below the expected number without GAME_OVER, each line once; the kept events are genuine later ones; the ids remembered are exactly those of the visits that count. The client as written may also be sent late datagrams, if it has no use for their numbers |
| Protocol.StepKeeps | Client/Client.cpp:60-119 | each single step keeps that, and that everything in the network is a slice of a log |
| Protocol.AsWrittenDeliveryExact | Client/Client.cpp:60-119 | as written: a datagram of the current or a new game keeps all that if and only if it is not of the current game, or the expected number is not in it, or no event with a line is kept up to the number behind it |
| Protocol.StaleDeliveryExact | Client/Client.cpp:66-104 | as written: a datagram of a game left behind keeps all that if and only if the current game tolerates its events, in one of these two ways; if nothing in it is of use it changes nothing |
| Protocol.RunsSafeExactly | Client/Client.cpp:60-119 | as written: over every run, whatever arrives, nothing has ever gone wrong if and only if every datagram that arrived was one that the client's state before it bears: of the current or a new game, nothing printed ahead; of a game left, tolerated |
| GameVisits.RepairedVisitsOnce | Client/Client.cpp:66-73 | repaired: over every run all games visited, the current one included, are pairwise distinct, and no datagram of a game left changes anything |
| GameVisits.MovesExactly | Client/Client.cpp:66-73 | as written: in every state of every run, whatever has arrived before, a datagram of another game, whatever it holds, moves the client there if and only if each earlier visit of that game ended with nothing taken in |
| GameVisits.ReturnsExactly | Client/Client.cpp:66-73 | as written: over every run, whatever arrives, all games visited are distinct if and only if no datagram was of a game visited before and left each time with nothing taken in |
| GameVisits.RunsRemember | Client/Client.cpp:66-73 | over every run, whatever arrives, the ids remembered are exactly those of the visits that count, and the current game is not among them |
| GameVisits.GameReentered | Client/Client.cpp:68-69 | a run, for any two games, that visits the first, the second and the first again |
| GameVisits.OldGamePrinted | Client/Client.cpp:66-73 | a datagram of a game left behind is repeated by the network and its second event printed under the next game, which has no second event |
| Protocol.ReplyConverges | Server/Game.cpp:136-139 | repaired: all datagrams of one reply to a heartbeat, read in any order, advance the client at least to the length the log had at the reply |
| TcpSend.GrowKeeps | Common/Buffer.cpp:69-77 | repaired: growing keeps the queue, whatever the new memory holds |
| TcpSend.StoredAppends | Common/Buffer.cpp:4-19 | a word with room for it is appended to the queue with a space, wrapped or not |
| TcpSend.EndMessageMarks | Common/Buffer.h:207-211 | the last queued byte becomes a newline |
| TcpSend.FlushSplits | Common/Buffer.cpp:21-67 | whatever part of the one or two pieces is accepted, the bytes written followed by the queue left are the queue before |
| TcpSend.GrowExactly | Common/Buffer.cpp:69-77 | as written: growing keeps every queue with given indices if and only if nothing precedes it, it is empty, or it lies in the first half |
| TcpSend.FlushExactly | Common/Buffer.cpp:48-61 | as written: the right bytes are sent from every buffer with given indices if and only if nothing of the second piece is accepted |
| TcpSend.StepFifo | Common/Buffer.cpp:4-85 | one operation keeps what was sent followed by what is queued equal to what was packed |
| TcpSend.RunFifo | Common/Buffer.cpp:4-85 | every interleaving of packing, ending messages and flushing with any partial writes keeps it; as written, while its wrong lines are spared |
| TcpSend.MessagePacked | Common/Event.h:96-101 | all words of a message and then its end pack the line the interface reads, wherever the buffer grows |
| TcpSend.WholeWritesFifo | Common/Buffer.cpp:4-85 | over every run in which the socket takes every flush whole, from a queue at the start of the buffer, the buffer as written is spared its wrong lines, and what was sent and what is queued is what was packed |
| TcpSendRuns.GrowingLoses | Common/Buffer.cpp:69-77 | as written, from an empty buffer of any capacity divisible by four: the buffer is filled, one byte is sent, another word makes it grow, and a byte still to be sent is gone |
| TcpSendRuns.WrappingSendsWrong | Common/Buffer.cpp:48-61 | as written, from such a buffer: it is filled, two bytes are sent, another word wraps around, and when everything is sent it is not what was packed |
| TcpSendRuns.ClientBufferFails | Client/Client.h:21-21 | both happen to a buffer of 256 bytes |
| TcpSend.TCPSendBuffer.constructor | Common/Buffer.h:190-195 | an empty queue of the given capacity |
| TcpSend.TCPSendBuffer.Grow | Common/Buffer.cpp:69-77 | the ring after growing, its wrong copy included |
| TcpSend.TCPSendBuffer.Shrink | Common/Buffer.cpp:79-85 | the first part of the buffer is kept at the initial capacity |
| TcpSend.TCPSendBuffer.PackWord | Common/Buffer.cpp:4-19 | the ring after packing a word, grown if it must be, and the word appended to the queue if that starts at 0; the buffer is overrun exactly if doubling it once makes no room |
| TcpSend.TCPSendBuffer.EndMessage | Common/Buffer.h:207-211 | the ring after marking the end of a message |
| TcpSend.TCPSendBuffer.PackLine | Common/Event.h:96-101 | the ring after a message, from any ring; the message is queued as the line the interface reads if no growth on the way takes the wrong line; no overrun if its words are shorter than the capacity |
| TcpSend.StartSpares | Common/Buffer.cpp:4-19 | from a queue that starts at the start of the buffer no growth does |
| TcpSend.TCPSendBuffer.Flush | Common/Buffer.cpp:21-67 | the ring and the bytes written for every result of the two writes, and which of the three ends it comes to |
| TcpReceive.FetchExact | Common/Buffer.cpp:87-140 | one fetch takes exactly the next direction off what the stream says, however it goes on |
| TcpReceive.FetchHoldsNothing | Common/Buffer.cpp:87-140 | when a fetch finds nothing no complete key line is held back, and at most 14 bytes are |
| TcpReceive.DrainExact | Client/Client.cpp:42-49 | draining takes exactly the directions of all complete lines, in order |
| TcpReceive.ChunksDoNotMatter | Common/Buffer.cpp:87-157 | for every stream and every way it is cut into reads, the directions fetched are those of its complete lines; fewer than 15 bytes stay |
| TcpReceive.TCPReceiveBuffer.constructor | Common/Buffer.h:226-226 | nothing is unread, nothing is being skipped |
| TcpReceive.TCPReceiveBuffer.Skip | Common/Buffer.cpp:89-95 | skipping ends behind the first newline, or with the buffer |
| TcpReceive.TCPReceiveBuffer.FindNewline | Common/Buffer.cpp:97-103 | the first newline among the next 15 bytes |
| TcpReceive.TCPReceiveBuffer.Recognise | Common/Buffer.cpp:105-130 | the switch recognises exactly the four key lines |
| TcpReceive.TCPReceiveBuffer.FetchDirection | Common/Buffer.cpp:87-140 | the scanning loop computes the fetch of the specification and ends |
| TcpReceive.TCPReceiveBuffer.Populate | Common/Buffer.cpp:142-157 | compaction through 15 bytes and a read append to the unread bytes; a failed read or a closed connection ends the process |
| TcpReceive.Listener.HandleIfaceMessage | Client/Client.cpp:42-49 | the direction held is the last that any complete line received so far has asked for |
| Keys.HoldsLast | Common/Buffer.cpp:105-130 | for any lines, however cut into reads and with any part of another line behind them, the direction held is 1, 2 or 0 after the last line that is RIGHT_KEY_DOWN, LEFT_KEY_DOWN or one of RIGHT_KEY_UP and LEFT_KEY_UP, and 0 without one |
| Keys.EveryStream | Common/Buffer.cpp:87-140 | every stream is such lines and a part of another one |
| Keys.ReportDirection | Client/Client.cpp:42-58 | that number is byte 8 of the heartbeat, and the direction the server reads |
| GameRules.AteKeeps | Server/Game.cpp:43-47 | eating a free cell keeps everything that holds of a game |
| GameRules.LostKeeps | Server/Game.cpp:69-72 | losing a player keeps it |
| GameRules.BeginPlays | Server/Game.cpp:5-49 | whatever the random numbers, a new game is sound, with all its players counted alive |
| GameRules.RoundKeeps | Server/Game.cpp:51-83 | a round keeps it; GAME_OVER is logged as the last event exactly if the game is finished |
| GameRules.GamesAreSound | Server/Game.cpp:5-112 | every game of at least two, over any rounds with any movement: numbers are log indices, NEW_GAME is first and only there, the PIXELs are on the board, pairwise distinct and exactly the eaten cells, the counter counts the living, eliminations in rounds are last words, GAME_OVER comes once and last with at most one alive, until then at least two are, and the log has at most 2 + width * height + 2 * players events |
| GameRules.BeginLog | Server/Game.cpp:20-49 | a new game opens with a log as the protocol requires |
| GameRules.RoundsLog | Server/Game.cpp:51-112 | a round only adds to the log, and leaves such a log |
| GameLogs.TurnLogs | Server/Game.cpp:52-79 | a living worm that comes to another pixel adds PIXEL with its number and place if that is within the sizes NEW_GAME announced and in no PIXEL of the log, and lives on; otherwise PLAYER_ELIMINATED, and dies; any other worm adds nothing |
| GameLogs.PlaceLogs | Server/Game.cpp:33-48 | so does a worm that is placed, except that it lives in both cases |
| GameLogs.BeginLogs | Server/Game.cpp:22-49 | a new game logs NEW_GAME with its sizes and names and then, for each player in order, PIXEL or PLAYER_ELIMINATED by that rule |
| GameLogs.RoundLogs | Server/Game.cpp:51-83 | a round logs, in the order of the players, one event by that rule for each living worm that comes to another pixel, and nothing else but GAME_OVER at the end, exactly if then no two are alive |
| ServerRuns.BeginGrows | Server/Game.cpp:5-49 | a new game is a step of the protocol in which a log appears |
| ServerRuns.BegunGrows | Server/Server.cpp:61-82 | so is the game that a heartbeat begins, as the contract of HandleHeartbeat gives it |
| ServerRuns.RoundGrows | Server/Game.cpp:51-83 | a round is a step of the protocol in which a log grows |
| GameRules.RoundSilentExactly | Server/Game.cpp:40-42 | as written: a round says nothing of eliminated players if and only if nobody eliminated at placement and counted alive changes pixel in it |
| GameRules.EliminatedWormEats | Server/Game.cpp:40-42 | two worms on one cell: the second is reported eliminated and then eats |
| GameRules.RepairedGamesSilent | Server/Game.cpp:40-42 | repaired: in every game nothing is said of a player after his elimination |
| Players.SortSorts | Server/Game.cpp:15-20 | the players stand in the order of their names |
| Players.SortedByName | Server/Game.cpp:15-20 | nobody stands behind a player whose name has, at the first position where the two differ, the greater byte, or is the longer one |
| Players.SortMembers | Server/Game.cpp:15-20 | and are the same players |
| Game.Board.constructor | Server/Board.h:61-66 | nothing is eaten |
| Game.Board.Eat | Server/Board.h:77-81 | exactly that cell becomes eaten |
| Game.Game.constructor | Server/Game.cpp:5-20 | the ready players in the order of their names, all alive and none ready any more, and nothing logged |
| Game.Game.SetUp | Server/Game.cpp:22-49 | NEW_GAME and the placements, as the rules say |
| Game.Game.TakeTurn | Server/Game.cpp:52-79 | one player's part of a round is the turn of the rules |
| Game.Game.PlayRound | Server/Game.cpp:51-83 | a round is the round of the rules |
| Game.Game.EnqueueEventPackage | Server/Game.cpp:114-134 | the datagrams queued are those of the slices from the given event on |
| Game.Game.RespondWithEvents | Server/Game.cpp:136-139 | the same for one address |
| Game.Game.DisseminateNewEvents | Server/Game.cpp:141-163 | every connected player and every observer not expired is sent the events since the last time, each once; the observers left are those the erasing leaves, and the counter becomes the length of the log |
| Game.Game.DisseminatesFeed | Server/Game.cpp:141-163 | which is the dissemination step of `Dissemination`: the same packets, the same observers left |
| ServerRuns.PackageSends | Server/Game.cpp:114-134 | a package is a step of the protocol in which the server sends from its log, all of it to the one address |
| ServerRuns.BulletinLeads | Server/Game.cpp:141-156 | what is disseminated to any audience is a stretch of a run of the protocol |
| ServerRuns.ReplyLeads | Server/Game.cpp:136-139 | so is a reply to a heartbeat, whatever number it asks for |
| ServerRuns.RoundLeads | Server/Server.cpp:45-59 | so is a round with all it queues, as the contract of RoundRoutine states it |
| Observers.EraseExactly | Server/Game.cpp:149-160 | as written: the observers are pruned to exactly the live ones if and only if at most one has expired |
| Observers.DroppedExactly | Server/Game.cpp:158-160 | as written: an observer is dropped if and only if its place is that of the i-th expired one plus i, for some i |
| Observers.EraseLosesLive | Server/Game.cpp:158-160 | two expired observers: one of them stays and a live one is lost |
| Dissemination.BulletinTo | Server/Game.cpp:141-156 | read from the bytes, the packets of one dissemination carry to each address of the audience exactly the news, and to no other anything |
| Dissemination.StepKeeps | Server/Game.cpp:85-163 | logging, joining, leaving and disseminating each keep what everybody has been told in step with the log |
| Dissemination.EverybodyIsTold | Server/Game.cpp:141-163 | erasing repaired: over every run, whoever joined and has not left has been told, in the packets to its address since it joined, exactly the log from the event that was next when it joined up to the counter |
| Dissemination.ListedAreTold | Server/Game.cpp:141-163 | as written: over every run the same up to the last dissemination that found it in the lists; that is all of it if and only if it is still in the lists or nothing was logged since |
| Dissemination.DropsExactly | Server/Game.cpp:158-160 | as written: a dissemination drops a present observer if and only if its place is that of the i-th expired one plus i |
| RegistryRules.ConnectExactly | Server/Server.cpp:137-157 | a newcomer keeps the taken names exactly the names in use, each used once, if and only if its name is not in use |
| RegistryRules.DisconnectExact | Server/Server.cpp:159-176 | a client that leaves keeps it |
| RegistryRules.SweptKeeps | Server/Server.cpp:32-43 | a sweep of any clients keeps it |
| RegistryRules.BeatExactly | Server/Server.cpp:84-135 | a heartbeat keeps it if and only if it does not replace a session under a name that another client uses; with that checked, always |
| RegistryRules.RunsSound | Server/Server.cpp:32-176 | over every run, repaired or not, a name that is taken is in use |
| RegistryRules.RunsExact | Server/Server.cpp:32-176 | repaired, and as written while no heartbeat takes a name: over every run the taken names are exactly the names in use, each used once |
| RegistryRules.TakenNameFreed | Server/Server.cpp:126-128 | two clients under one name; when one leaves, the name of the other is free |
| Sessions.ConnectsExactly | Server/Server.cpp:84-135 | while names are exact: after a heartbeat under an acceptable name its session is connected from its address exactly if it is not newer than the one that was, or none was and nobody has its name; nobody else is touched |
| Sessions.HistoriesExact | Server/Server.cpp:32-176 | over every history in which nobody takes a name in use, names are exact |
| Sessions.ReadyExactly | Server/Server.cpp:120-123 | over every history of heartbeats, sweeps and rounds: whoever has a name is ready exactly if its session, while connected, has sent a heartbeat with direction 1 or 2 under an acceptable name while no game went on, and no game has begun since |
| Sessions.BeginsExactly | Server/Server.cpp:61-82 | over every history: a heartbeat begins a game if and only if none goes on, it has direction 1 or 2 and an acceptable name and is from a session that is connected, at least two clients have a name, and each of these has sent such a heartbeat since it connected and since the last game began |
| Sessions.LastIsNoted | Server/Server.cpp:108-110 | over every history: the round and the direction noted of a client are those of the last heartbeat of its session |
| Sessions.SweepsExactly | Server/Server.cpp:32-43 | over every history: a sweep leaves exactly the clients of whose session a heartbeat came in a round less than 2,000,000,000 nanoseconds ago |
| Sessions.TwoSecondsExactly | Server/Server.cpp:10-10 | nobody is swept before two seconds' worth of rounds; after just as many a silent client is if and only if the rounds per second divide 10^9; with more than 10^9 of them nobody ever is |
| Server.LinkedUnique | Server/Server.h:39-42 | whoever is in the sets has a client, filed under its own address, whose player it is; no two share an address |
| Server.ClientRegistry.FindPlayer | Server/Player.h:16-18 | set operations compare addresses of players that have a client; the player at the address, if there is one |
| Server.ClientRegistry.ConnectClient | Server/Server.cpp:137-152 | a new player and client point at each other and stand in exactly one of the two sets, its name taken |
| Server.ClientRegistry.DisconnectClient | Server/Server.cpp:159-176 | the client, its player and its name are gone, and the player disconnected |
| Server.ClientRegistry.FindIdles | Server/Server.cpp:33-39 | exactly the clients idle for two seconds |
| Server.ClientRegistry.DisconnectIdles | Server/Server.cpp:32-43 | exactly these are disconnected |
| Server.ClientRegistry.Refresh | Server/Server.cpp:108-110 | round and direction are noted, for this client only |
| Server.Server.AllReachable | Server/Game.cpp:142-156 | every connected player of the game and every observer not expired is connected, so the assertion in client() holds |
| Server.Server.constructor | Server/Server.cpp:4-11 | nobody is connected, nothing is queued, and a round lasts 10^9 nanoseconds divided by the rounds per second, rounded down |
| Server.Server.TellNews | Server/Game.cpp:141-163 | the news go to exactly these, the observers left are those the erasing leaves, and the counter becomes the length of the log |
| Server.Server.RoundRoutine | Server/Server.cpp:45-59 | a round is played, its news queued for the audience behind what was queued, the counter becomes the length of the log and the observers those the erasing leaves, a finished game becomes the previous one; the server ends exactly if the erasing runs past the end or a send fails |
| Server.Server.DrainQueue | Server/Server.h:54-62 | what was sent and what is queued, in order, are what they were; the loop ends with the queue, at the first datagram that would block, or at one whose sending fails, which ends the server |
| Server.ClientRegistry.CanStartView | Server/Server.cpp:63-70 | the two sets allow a game to begin exactly if at least two of the clients have a name and all that have one are ready |
| Server.Server.TryStartGame | Server/Server.cpp:61-82 | a game begins exactly then; all who are connected play or observe it, each once, its state is that of a game just set up with the random numbers, and nothing has been disseminated |
| Server.Server.MakeGame | Server/Server.cpp:71-77 | its players are the connected ones with a name, its observers those without |
| Server.Server.ConnectClient | Server/Server.cpp:137-157 | the registry as its rules say; while a game goes on the newcomer, new and reachable at its address, is added behind the observers of the game |
| Server.Server.DisconnectIdles | Server/Server.cpp:32-43 | as the registry says, with nobody left in the game who is connected but not registered |
| Server.Server.Respond | Server/Server.cpp:112-118 | the reply is the log of the current game, or else of the previous one, from the number asked for |
| Server.Server.SameSession | Server/Server.cpp:107-124 | the client is refreshed, answered, and made ready by a key while no game goes on; a game begins exactly if that leaves at least two players, all ready |
| Server.Server.Acceptable | Server/Server.cpp:91-99 | names of at most 20 characters from 33 to 126 |
| Server.Server.HandleHeartbeat | Server/Server.cpp:84-135 | for every datagram of any bytes: the registry becomes what the rules say for the heartbeat in its first 550 bytes, if there is one; the reply is queued exactly to a session that is connected; a game begins exactly if none goes on and a key from a connected session leaves at least two players, all ready, and then as TryStartGame says; whoever is connected anew is put behind the observers, who otherwise stay |
| Feeds.BegunHistory | Server/Server.cpp:61-82 | a game that has just begun begins a run of `Dissemination` with everybody connected in it |
| Feeds.Connect | Server/Server.cpp:137-157 | a newcomer joins that run |
| Feeds.Disconnect | Server/Server.cpp:159-176 | whoever is disconnected leaves it |
| Feeds.DisconnectIdles | Server/Server.cpp:32-43 | so do all idle ones, one after the other |
| Feeds.PlayRound | Server/Server.cpp:45-59 | a round logs and then disseminates in it, and what the dissemination sends is what the server queues |
| Answers.PackageAnswers | Server/Game.cpp:114-134 | read from the bytes: all packets of a package go to the receiver, name the game, are at most 550 bytes long and read to their end; each next one begins with an event for which the one before had no room; together they hold exactly the events from the given number on |
| Answers.AnswerConverges | Server/Game.cpp:136-139 | repaired: if all packets of such an answer from the expected number on arrive, in any order and with any others of the game among them, the client is in step with the game and has all that was logged |
| Chronicle.Sweep | Server/Server.cpp:32-43 | a sweep continues the history of `Sessions` |
| Chronicle.PlayRound | Server/Server.cpp:45-59 | so does a round; a game that is finished in it becomes the one finished last |
| Chronicle.Hear | Server/Server.cpp:84-135 | so does a datagram that holds a heartbeat; a game begins exactly when `Sessions.BeginsExactly` says so; and what is queued is, for a session that is connected, an answer to its address from the number asked for, of the game that goes on, or else of the one finished last, and nothing for anybody else |
| Chronicle.AnswerSends | Server/Server.cpp:112-118 | what is queued then is a step of the protocol in which that game sends |
| Chronicle.Recovers | Server/Server.cpp:112-118 | from bytes to bytes: if a client's heartbeat reaches the server and the answer comes back, in any order, the repaired client has all of the game |
| Gui.WordsOfLine | GUI/gui2.c:132-133 | the words of a line, split and with the empty ones removed, are the words packed |
| Gui.SplitThere | GUI/gui2.c:132-132 | a line is taken apart at each space, tab, newline and carriage return |
| Gui.SplitNowhere | GUI/gui2.c:132-132 | and nowhere else |
| Gui.NumberOfDecimal | GUI/cmd.c:7-12 | a printed number consists of digits and is read back as the same number |
| Gui.NewGameShown | GUI/cmd.c:14-53 | NEW_GAME sets up the sizes and the first twenty players, exactly if both sizes are below 2^31 |
| Gui.FewerRejected | GUI/cmd.c:14-14 | with fewer than two names it is rejected |
| Gui.PixelShown | GUI/cmd.c:54-64 | PIXEL appears at its place for the player of that number, exactly for the first twenty |
| Gui.EliminatedShown | GUI/cmd.c:65-81 | PLAYER_ELIMINATED crosses out the player of that number, exactly for the first twenty; for any other the table is overrun |
| Gui.Window.FindPlayerIndex | GUI/gui2.c:75-84 | the first player of that name, -1 if there is none |
| Gui.SameToTheInterface | GUI/gui2.c:75-84 | two names are the same to the interface if and only if they are equal, or both have at least 64 bytes and these are |
| Gui.Window.ProcessCommand | GUI/cmd.c:14-87 | obeying a line changes the window as the specification says |
| Gui.RemoveEmptyTokens | GUI/gui2.c:89-101 | the words that are not empty, in order; more than 30 end the program |
| Gui.IsNumber | GUI/cmd.c:7-12 | whether all characters are digits |
| Display.LogObeyed | Common/Event.h:96-101 | obeying the lines of the events below a number draws exactly the dots and crosses of these events, in order, on the board of that game, whatever was shown before |
| Display.StreamObeyed | GUI/gui2.c:105-140 | a stream of messages cut at its newlines, each line clipped to 1999 bytes, split into words and obeyed, has the effect of the messages; part of another message has none |
| Display.LinePlain | GUI/gui2.c:105-140 | a line of a log fits the interface's buffer, and its words come out of the splitting as they were packed |
| Reading.ReadLine | GUI/read_line.c:28-70 | the loop returns the first line, clipped to 1999 bytes, and leaves what follows; if the socket runs dry before a newline, nothing is returned and nothing is left |
| Reading.ReceivedExactly | GUI/read_line.c:28-70 | of a stream of whole lines, exactly its lines are read if and only if the socket never runs dry inside a line |
| Display.CutLosesDot | GUI/read_line.c:43-49 | the socket runs dry behind the first word of a PIXEL: read at once it draws the dot, read so it draws nothing |
| Pipeline.SaidIsSent | Client/Client.cpp:60-119 | over every run of client and buffer, whatever arrives and whatever the socket takes when, what was sent and what is queued is the lines of the client |
| Pipeline.SpeakingPossible | Common/Buffer.cpp:4-19 | whatever lines the client has to say can be packed, if no word is as long as the buffer was at first, by the repaired buffer or from one at its start |
| Pipeline.ShownExactly | Client/Client.cpp:60-119 | end to end: over every run of the protocol with the client's buffer, whenever the buffer is empty, an interface that has obeyed what it was sent, in any chunks that end with lines, shows the game told last with exactly the dots and crosses of its log below the expected number |
| Pipeline.ShownOnTheWay | Common/Buffer.cpp:21-67 | and at any other moment, whatever of it has been sent and read in such chunks, it shows what the first so many lines draw |
| Rng.Undo | Server/RandomGenerator.h:13-17 | multiplying by 3236736190 undoes a step |
| Rng.NextInjective | Server/RandomGenerator.h:13-17 | no two states step to the same one |
| Rng.NextSurjective | Server/RandomGenerator.h:13-17 | every state is stepped to |
| Rng.ZeroExactly | Server/RandomGenerator.h:13-17 | the generator runs into 0 exactly from the seeds that are multiples of the modulus |
| Rng.FitsWide | Server/RandomGenerator.h:15-15 | the product never leaves 64 bits |
| Rng.FirstDraws | Server/RandomGenerator.h:13-17 | from 1 come 279410273 and 3468058228 |
| Rng.RandomGenerator.Draw | Server/RandomGenerator.h:13-17 | the k-th call gives the seed after k steps |
| Angle.LeftUndoesRightExactly | Server/Board.h:18-26 | turning left undoes turning right from every direction if and only if the turning speed is at most 360 |
| Angle.LeftRange | Server/Board.h:23-26 | the result of a left turn is below 360 exactly if the operand does not take it below zero by a part of a circle |
| Angle.AngleT.Add | Server/Board.h:18-21 | the direction to the right, by the operand narrowed to 16 bits |
| Angle.AngleT.Subtract | Server/Board.h:23-26 | the direction to the left, with the sign and the wrap-around of the remainder |
| Angle.AngleT.Steer | Server/Game.cpp:57-60 | direction 1 adds the turning speed modulo 360, direction 2 undoes that for a speed of up to 360, and any other changes nothing |

## Left out

- Sockets, epoll, timers, name resolution, option parsing, GTK and cairo: what they deliver and accept is a parameter.
- Floating-point movement and the conversion of positions to pixels: a turn may end in any pixel, on the board or off it.
  That games end is not claimed; a worm may stay within one pixel.
- Ids of games may collide in the program, as they are random; the protocol takes them to be distinct.
- Which session counts as the newer one (Server/Server.cpp:126) is taken as it is written.
- The client's own id, timing and ports, and the text of diagnostics.
- Round numbers and the time since the last heartbeat do not wrap around at 64 bits.
- The order of a set by the bytes of its addresses: sets of clients and players are enumerated in any order, which decides
  nothing but the order of datagrams.
- What std::sort does with players of equal names: one order is fixed.
- Datagrams in the server's send queue are values once they are filled, not objects; a filled one is never changed.
- The constructor of a game is split: what precedes the first event, and the rest, which the server calls right after.
- Server.Server.TryStartGame: a game whose NEW_GAME fits no datagram ends the server when it is first packed; the model
  ends it when the game begins.
- Server.Server.RoundRoutine: erasing an iterator at or past the end has no defined effect; the model ends the server there.
- UnknownEvents.UnknownPassedExactly: with known events behind the unknown one the two conditions are one way each: what is
  left of it can, by accident, swallow the next event and repeat it.
- TcpSend.TCPSendBuffer.PackWord: after an overrun nothing is said of the queue; Text.WordsAreShort rules it out for names
  of up to 20.
- TcpSend.TCPSendBuffer.Flush: a failed write ends the process, so nothing is said of the buffer after it.
- Copies within one buffer that overlap (Common/Buffer.cpp:75) are taken to copy the old bytes.
- Client.Client.HandleEvents: it keeps the lines for the interface as a list; that they are packed and flushed is in
  `Pipeline`, where a flush may come between any two lines.
- Wire.DamageRejected: damage to the length field itself is not covered, here or in Damage.DamageAcceptedExactly; the
  checksum is then looked for in another place.
- Pipeline.ShownExactly: what is shown when the socket runs dry inside a line is told for one line only (Display.CutLosesDot);
  in general it is what ObeyChunks says. Games are those with two to twenty players under different names that the server
  admits, and sizes below 2^31.
- Reading.ReadLine: an interrupted read is tried again and the end of the connection ends the interface; neither is in it.
- Gui.Window.ProcessCommand: after an overrun or a number too large to convert nothing is said of the window.
- What a label or a drawing looks like: a command has an effect, with the place and the player it is about.
