# Verified models of the RedesDatosFC socket programs

The repository is a course's collection of small network programs around the
Caesar cipher. This project models the ones with a real state machine, codec or
arithmetic in Dafny and proves what they are for: protocols that deliver the
exact ciphertext however the stream is cut, servers that give every connection
its one right verdict, codecs that lose nothing.

The loops of the programs are Dafny methods with loop invariants; buffers that
the programs overwrite are arrays; each method is proved against a specification
function, and the properties are lemmas about those functions. What the operating
system does is the environment's free choice: `Sockets.Socket` hands over or
takes any non-empty part of what was asked for, may be interrupted a finite number
of times and may fail when it is not reliable; what `poll`, `select`, `accept` and
`recv` give in a pass is a parameter.

| module | program | subject |
|---|---|---|
| `CText` | all | bytes, machine integers, the truncating remainder, C strings, lines, `%d`, `atoi`, `sscanf` numbers |
| `Numerals` | all | which bytes spell which number, and `scanf` and `atoi` against that |
| `Caesar` | all | the cipher, its laws, and the versions of the repository in place |
| `Sockets` | P3 | stream sockets |
| `BinaryProtocol` | P3/JDA | the big-endian header, `readn`/`writen`, client and server |
| `TextProtocol`, `TextReply`, `TextClient`, `Cleaning` | P3/HAJA | the header line, client and server; what each stream is answered, told on its bytes; the loop over the servers and what is shown of a reply; the letter filter read as a transformation of Unicode text |
| `PipeMessage`, `PollSpec`, `PollPass`, `PollHistory`, `PollServer`, `PollDelivery` | P3/CCVM | the message with separators; the poll server as a machine, the effect of one pass, the origin of every verdict in a run, the loop over arrays that refines it; one message sent to every port |
| `SelectServer` | P3/CTAR | the server that decides each port once |
| `BlockCipher` | P3/JGAE | the block-by-block receive loop |
| `Type7` | P8 | the Cisco type 7 codec |
| `Hangman` | P2/CCMS | the game |
| `WordList` | P2/IGG | the key server |

## What the programs do that one would not expect

* `encryptCaesar` of P3/CCVM (and of P3/CTAR) leaves out the `+ 26`. It is the
  Caesar cipher exactly on the texts in which no letter is carried below its `A` by
  the reduced shift (`Caesar.BareCipherExact`), and on every text exactly for
  shifts that are not negative or are multiples of 26 (`Caesar.BareCipherShifts`).
* The client of P3/JDA computes the size of its reply buffer on 32-bit words, and
  the header carries the length modulo 2^32. The whole text comes back exactly when
  its length is below 2^32 - 1 (`BinaryProtocol.DeliveredExactly`).
* The server of P3/HAJA sends the terminator of its status line and measures the
  ciphertext with `strlen`. The whole ciphertext comes back exactly when the body
  holds no NUL (`TextProtocol.WholeReply`), which a cleaned text never does
  (`Cleaning.FileServed`). A signal during the header loses the reply, a later one
  does not (`TextProtocol.HandleClient`).
* The client of P3/HAJA prints each part of a reply as a C string, and the status
  line carries its terminator. The ciphertext is shown whole exactly when the reply
  arrives cut right after it; what follows it in the same part is not shown
  (`TextClient.ShownAnswer`).
* The client of P3/CCVM cuts a long message. The text is recovered exactly when the
  separator before the shift still fits and what is sent of the shift holds no
  separator (`PipeMessage.MessageRoundTrip`).
* The key server of P2/IGG reads at most 1023 bytes of a request, key and shift
  together. A word of 1022 bytes or more is denied though it is listed
  (`WordList.LongWordDenied`); for shorter ones the digits that were received decide
  (`WordList.EncryptedWordCut`).
* It also reads its file in pieces of at most 1023 bytes. In a file whose lines are
  shorter than that the reads are the lines, and a word is found iff it stands on
  one (`WordList.ListedOnLine`); the pieces of a longer line are taken for words of their
  own (`WordList.ListedInPieces`, `WordList.LongLinePieces`).
* The server of P3/CTAR reads at most 1023 bytes too: a longer line is
  encrypted and printed cut (`SelectServer.DecideWritten`,
  `SelectServer.WholeLineEncrypted`).
* The key table of P8 has 53 entries; its comment says 51. A text with a cut pair
  is decoded, but encoding it again does not give it back (`Type7.EncryptDecrypt`).

## Model

| member | source | states |
|---|---|---|
| CText.ScanIntOfDec | P3/HAJA/server.c:79 | a number printed by `%d` is read back, and reading stops exactly where the print stopped |
| CText.RemCongruent26 | P3/CCVM/serverOpt.c:30-34 | C's truncated remainder differs from its dividend by a multiple of 26, for either sign |
| CText.Classes | P2/IGG/Ejercicio3_IGG.c:20-39 | which bytes are upper-case letters, lower-case letters, digits and white space |
| CText.ToLowerExactly | P2/IGG/Ejercicio3_IGG.c:16-18 | an upper-case letter goes to the lower-case letter at the same place of the alphabet, and every other byte stays |
| CText.LowerForgetsCase | P2/IGG/Ejercicio3_IGG.c:16-18 | two bytes are lowered alike iff they are the same byte or the same letter in either case |
| Numerals.ScanIntExactly | P2/IGG/Ejercicio3_IGG.c:117 | `%d` reads a number iff the text starts with white space, a sign or none, and digits that spell it, and stops where the digits end |
| Numerals.ScanIntNone | P2/IGG/Ejercicio3_IGG.c:117 | it fails iff no number starts the text |
| Numerals.DecSpells | P3/HAJA/cliente.c:77-79 | what `%d` prints spells the number, each digit ten times the next |
| Numerals.AtoiExactly | P3/CCVM/serverOpt.c:272-277 | `atoi` gives the number that starts the string, and 0 when none does |
| Numerals.AtoiOfDecThen | P3/CCVM/serverOpt.c:272-277 | a printed number is what `atoi` gives, whatever follows its digits |
| Caesar.CipherInverse | P2/IGG/Ejercicio1_IGG.c:5-32 | shifting back restores every text, for every shift |
| Caesar.RotateByOne | P2/IGG/Ejercicio1_IGG.c:20-32 | the shift by one gives the next letter, the first after the last, and leaves other bytes, which no shift moves |
| Caesar.CipherCompose | P3/JGAE/Ejercicio_1_JGAE.c:21-44 | two shifts act as their sum |
| Caesar.CipherSame | P3/JDA/Ejercicio_2_server_JDA.c:43-45 | two shifts give the same text iff they agree modulo 26 or the text has no letter: normalising the key changes nothing |
| Caesar.CipherKeepsClass | P3/HAJA/server.c:25-29 | letters go to letters of the same case, and nothing else becomes a letter or a NUL |
| Caesar.CipherKeepsStrLen | P3/HAJA/server.c:96-102 | `strlen` of a text is unchanged by encryption |
| Caesar.BareCipherExact | P3/CCVM/serverOpt.c:29-41 | the formula without `+ 26` is the Caesar cipher iff no letter of the text underflows |
| Caesar.BareCipherShifts | P3/CCVM/serverOpt.c:29-41 | it is right on every text iff the shift is not negative or is a multiple of 26 |
| Caesar.EncryptBare | P3/CCVM/serverOpt.c:29-41 | the in-place loop encrypts the string and leaves what follows its terminator |
| Caesar.CipherCounted | P3/JDA/Ejercicio_2_server_JDA.c:43-53 | the first n bytes become their Caesar image for every int shift; the rest stays |
| Caesar.EncryptString | P3/HAJA/server.c:22-30 | the string becomes its Caesar image for every int shift; the rest stays |
| Caesar.CipherSumFirst | P3/serverOpt_ej1_SGPY.c:13-20 | the same, for every shift whose sum with each letter's offset is an int |
| Caesar.CipherBothWays | P3/JGAE/Ejercicio_1_JGAE.c:21-44 | both directions on a counted buffer are the cipher with the shift or its negation |
| Caesar.EncryptPair | P2/IGG/Ejercicio1_IGG.c:20-32 | the string becomes its Caesar image for every int shift |
| Caesar.DecryptPair | P2/IGG/Ejercicio1_IGG.c:5-17 | the string becomes its image under the negated shift |
| Caesar.DecryptString | P2/IGG/Ejercicio3_IGG.c:29-39 | the string becomes its image under the negated shift |
| Caesar.RoundTripBothWays | P3/JGAE/Ejercicio_1_JGAE.c:21-44 | decrypting after encrypting restores the buffer, for every shift whose negation is an int |
| Caesar.RoundTripPair | P2/IGG/Ejercicio1_IGG.c:34-43 | the pair restores every string, for every int shift |
| Sockets.Socket.Recv | P3/JDA/Ejercicio_2_server_JDA.c:13-22 | what a `read` may do: deliver any next part, end of stream exactly when nothing is left, finitely many interruptions |
| Sockets.Socket.Send | P3/JDA/Ejercicio_2_server_JDA.c:30-37 | what a `write` may do: take any non-empty beginning of the data |
| BinaryProtocol.NumberRoundTrip | P3/JDA/Ejercicio_1_client_JDA.c:103-105 | decoding a big-endian number of any width gives the number back |
| BinaryProtocol.BytesRoundTrip | P3/JDA/Ejercicio_2_server_JDA.c:111-113 | encoding the number decoded from bytes gives the bytes back |
| BinaryProtocol.NetworkOrder | P3/JDA/Ejercicio_2_server_JDA.c:111-113 | the first of four bytes weighs most |
| BinaryProtocol.ShiftRoundTrip | P3/JDA/Ejercicio_1_client_JDA.c:104 | every int shift, negative ones included, survives the way through an unsigned word |
| BinaryProtocol.ReadN | P3/JDA/Ejercicio_2_server_JDA.c:10-25 | exactly the next n bytes, or all that is left, under every fragmentation and every finite number of interruptions |
| BinaryProtocol.WriteN | P3/JDA/Ejercicio_2_server_JDA.c:27-40 | exactly the buffer, in order; on failure a beginning of it |
| BinaryProtocol.ReadWord | P3/JDA/Ejercicio_2_server_JDA.c:102-113 | one header word in network order |
| BinaryProtocol.Respond | P3/JDA/Ejercicio_2_server_JDA.c:115-152 | the reply to a header; nothing at all is sent when the text is cut short |
| BinaryProtocol.SendReply | P3/JDA/Ejercicio_2_server_JDA.c:146-152 | status, length and text stand on the stream in this order |
| BinaryProtocol.Serve | P3/JDA/Ejercicio_2_server_JDA.c:101-152 | a connection is answered by the reply function of the bytes sent, however they are cut, and nothing is sent to a stream that ends in its header or its text |
| BinaryProtocol.CutShortExactly | P3/JDA/Ejercicio_2_server_JDA.c:101-129 | a stream gets no reply iff it ends before its header does or before the text that the header announces |
| BinaryProtocol.NoReplyToPart | P3/JDA/Ejercicio_2_server_JDA.c:101-129 | no request that breaks off before the text it announces is answered, on any port |
| BinaryProtocol.ServePart | P3/JDA/Ejercicio_2_server_JDA.c:101-129 | the server sends nothing for such a part, however the stream is cut and whatever fails |
| BinaryProtocol.RequestLayout | P3/JDA/Ejercicio_1_client_JDA.c:103-110 | target, shift and length modulo 2^32 stand in the first twelve bytes of a request, and the text after them |
| BinaryProtocol.AnswerOnPort | P3/JDA/Ejercicio_2_server_JDA.c:146-152 | the server that is named answers the bytes 0, 0, 0, 1, the length, and the ciphertext |
| BinaryProtocol.AnswerElsewhere | P3/JDA/Ejercicio_2_server_JDA.c:146-152 | every other server answers eight zero bytes |
| BinaryProtocol.ReplyToWords | P3/JDA/Ejercicio_2_server_JDA.c:101-129 | the server sees in the stream the three words and the text that the header was made of |
| BinaryProtocol.ReplyToRequest | P3/JDA/Ejercicio_2_server_JDA.c:131-152 | a request is answered by status 1 and the Caesar image of its text on the port it names, by status 0 and length 0 elsewhere |
| BinaryProtocol.SendRequest | P3/JDA/Ejercicio_1_client_JDA.c:103-110 | the client's four writes put the request on the stream |
| BinaryProtocol.ReceiveReply | P3/JDA/Ejercicio_1_client_JDA.c:113-135 | how the client takes any reply, short ones included |
| BinaryProtocol.UnderstoodReply | P3/JDA/Ejercicio_1_client_JDA.c:113-135 | the server's reply can be taken in the expected way only |
| BinaryProtocol.CutReply | P3/JDA/Ejercicio_1_client_JDA.c:113-135 | a reply that breaks off in its header is none; later, the length is the announced one and the text that came is known |
| BinaryProtocol.Exchange | P3/JDA/Ejercicio_1_client_JDA.c:102-135 | the outcome of a whole exchange does not depend on fragmentation or interruptions |
| BinaryProtocol.RunClient | P3/JDA/Ejercicio_1_client_JDA.c:82-138 | the loop over the servers gives each its expected outcome |
| BinaryProtocol.DeliveredExactly | P3/JDA/Ejercicio_1_client_JDA.c:105-131 | the whole text comes back encrypted iff the port is the target and the length is below 2^32 - 1 |
| BinaryProtocol.OneServerProcesses | P3/JDA/Ejercicio_1_client_JDA.c:80-138 | among servers on different ports, no other than the target processes, and the target's gives the whole text back encrypted iff it can be reached and the text is shorter than 2^32 - 1 bytes |
| TextProtocol.HeaderRoundTrip | P3/HAJA/server.c:77-79 | parsing the printed header gives the three numbers back, for every int port and shift and every 64-bit length |
| TextProtocol.HeaderShape | P3/HAJA/cliente.c:76-79 | the header fits both buffers, is one line and holds no NUL |
| TextProtocol.ReadLine | P3/HAJA/server.c:32-44 | the bytes through the first newline, within the buffer's limit; it gives up at the first signal, and on a sound connection only then, with the line still open |
| TextProtocol.ReadBytes | P3/HAJA/server.c:47-56 | exactly the next n bytes iff the stream has them |
| TextProtocol.SendAll | P3/HAJA/server.c:59-67 | the whole buffer on a sound connection |
| TextProtocol.Answer | P3/HAJA/server.c:95-104 | the reply carries the encrypted body up to its first NUL |
| TextProtocol.Respond | P3/HAJA/server.c:77-111 | every branch after the header line |
| TextProtocol.HandleClient | P3/HAJA/server.c:70-111 | on a sound connection nothing is sent when a signal came while the header line was being read, and the whole reply to the bytes sent otherwise |
| TextProtocol.ReplyToLine | P3/HAJA/server.c:74-92 | any header line cuts the stream where it ends; the next bytes are the body |
| TextReply.Wording | P3/HAJA/server.c:79-107 | the words of the header and of the two replies, the terminator of the one included |
| TextReply.HeaderExactly | P3/HAJA/server.c:77-79 | a header is understood iff it has the three names, each followed by a number, and then as these |
| TextReply.UnderstoodLine | P3/HAJA/server.c:74-107 | such a line of at most 255 bytes gets nothing when its body cannot be held or is cut short, the encrypted body on the port of its first number, and a refusal on every other |
| TextReply.RefusedLine | P3/HAJA/server.c:79-83 | every other line that is not empty is refused on every port, whatever follows it |
| TextReply.RefusedStart | P3/HAJA/server.c:79-83 | so is a line that does not begin with `PORTO=` |
| TextReply.RefusedBroken | P3/HAJA/server.c:79-83 | and a line that breaks off anywhere before its third number |
| TextReply.DoneOnlyWhenNamed | P3/HAJA/server.c:94-104 | only a header whose first number is the port and whose body is there is answered by `PROCESADO` |
| TextReply.CutBody | P3/HAJA/server.c:85-91 | a request whose body is cut short gets no reply |
| TextProtocol.ReplyToRequest | P3/HAJA/server.c:70-111 | the reply to the client's request, for every body that fits |
| TextProtocol.WholeReply | P3/HAJA/server.c:94-104 | the whole ciphertext comes back iff the named port is the server's and the body holds no NUL |
| TextProtocol.SendBody | P3/HAJA/cliente.c:82-88 | the body in order; on a sound connection it fails iff a signal came, at the first one, and then a beginning of it was sent |
| TextProtocol.SendRequest | P3/HAJA/cliente.c:75-88 | success means header and body stand whole on the stream; on a sound connection it fails iff a signal came or the header was taken short |
| TextProtocol.Exchange | P3/HAJA/cliente.c:75-99 | a request sent whole gets the expected reply or, after a signal to the server, none; without signals and with room for the header it is sent and answered |
| TextClient.RunClient | P3/HAJA/cliente.c:123-127 | the loop passes over servers that fail; every answer is the expected one or none, and without signals and with room for the header each reachable server gives it |
| TextClient.OneServerEncrypts | P3/HAJA/cliente.c:123-127 | among servers on different ports none but the target's answers with a ciphertext; the target's does, whole, only if it is reachable and the text holds no NUL, and then always when no signal comes |
| TextClient.ShowReply | P3/HAJA/cliente.c:91-97 | what is printed is each received part up to its first NUL; the parts make up the stream, and the loop stops at its end or at the first failed call |
| TextClient.ShownAnswer | P3/HAJA/server.c:101-103 | the client shows the whole answer iff what it receives is cut right after the status line's terminator; otherwise the beginning of the ciphertext in the same part is lost |
| Cleaning.Clean | P3/HAJA/cliente.c:33-50 | the output is letters only and never longer than the input |
| Cleaning.CleanBytes | P3/HAJA/cliente.c:33-52 | the two-index loop computes it and terminates the result |
| Cleaning.ReadCharacter | P3/HAJA/cliente.c:37-47 | the chain of tests folds the twelve known pairs and skips their second byte |
| Cleaning.CleanConcat | P3/HAJA/cliente.c:36-49 | cleaning goes through concatenation but for the letter of a pair that is cut |
| Cleaning.CleanDistributes | P3/HAJA/cliente.c:36-49 | cleaning piecewise equals cleaning the whole iff the cut is not inside a known pair |
| Cleaning.CleanFixed | P3/HAJA/cliente.c:48 | the texts left unchanged are exactly those of letters |
| Cleaning.CleanIdempotent | P3/HAJA/cliente.c:36-49 | cleaning twice is cleaning once |
| Cleaning.CleanText | P3/HAJA/cliente.c:36-49 | on the UTF-8 form of every Unicode text the byte loop keeps exactly its ASCII letters and the twelve folded ones, in order |
| Cleaning.FoldedLetters | P3/HAJA/cliente.c:39-47 | which twelve letters are folded, and to what |
| Cleaning.FileServed | P3/HAJA/cliente.c:114-127 | a text file comes back from the named server as the Caesar image of all its folded letters; a file without letters is not sent and gets no reply |
| PipeMessage.SplitInPlace | P3/CCVM/serverOpt.c:270-280 | the two cuts in the buffer parse the message and leave the text as a string |
| PipeMessage.DecideInPlace | P3/CCVM/serverOpt.c:270-305 | the verdict on a message, computed in the buffer |
| PipeMessage.DecideReceived | P3/CCVM/serverOpt.c:257-305 | the same from the received bytes |
| PipeMessage.MessageRoundTrip | P3/CCVM/client.c:30 | the text is recovered from the right iff the last separator fits the buffer and the sent part of the shift holds none; then port and shift are recovered too |
| PipeMessage.MalformedExactly | P3/CCVM/serverOpt.c:270-278 | a message cannot be taken apart iff it has fewer than two separators |
| PipeMessage.ParseParts | P3/CCVM/serverOpt.c:270-278 | the last two separators part a message, whatever stands before them |
| PipeMessage.ParsePrinted | P3/CCVM/serverOpt.c:270-278 | printed numbers are read as these, also when a newline follows |
| PipeMessage.CutBeforeShift | P3/CCVM/client.c:26-30 | when a separator is lost, what is taken for the text is shorter than the text |
| PipeMessage.MessageIsString | P3/CCVM/client.c:26-32 | what is sent fits the server's buffer and is one C string |
| PipeMessage.MessageEncrypted | P3/CCVM/serverOpt.c:297-305 | on the port asked for the text that is saved is its Caesar image iff no letter underflows; every other port rejects |
| PipeMessage.MessageRead | P3/CCVM/serverOpt.c:266-280 | a message whose separators fit and whose sent shift has none is read as the text, the port and the number that the sent shift spells |
| PollSpec.HandleKeeps | P3/CCVM/serverOpt.c:226-328 | handling any ready descriptor keeps the invariant on descriptors, history and quota |
| PollSpec.AcceptKeeps | P3/CCVM/serverOpt.c:233-251 | so does an accept on an idle listener |
| PollSpec.CloseKeeps | P3/CCVM/serverOpt.c:307-320 | so does closing a connection after its verdict |
| PollSpec.PassKeeps | P3/CCVM/serverOpt.c:221-330 | so does a pass, whatever is ready |
| PollSpec.RunKeeps | P3/CCVM/serverOpt.c:218-331 | the invariant holds in every reachable state |
| PollSpec.OneVerdictEach | P3/CCVM/serverOpt.c:229-327 | a connection has exactly one verdict once closed and none while open |
| PollSpec.VerdictsRight | P3/CCVM/serverOpt.c:284-305 | a verdict is "encrypted" iff the request it answers names the port of the listener that accepted the connection |
| PollSpec.Conservation | P3/CCVM/serverOpt.c:200-250 | accepts are open connections plus verdicts, and the poll set fits its array |
| PollPass.PassOutcome | P3/CCVM/serverOpt.c:225-330 | a pass answers each ready connection once, in order, skips none, touches no other, and adds one connection for each ready idle listener; it ends the program exactly at the first unreadable message or at the verdict that fills the quota |
| PollPass.UsefulPass | P3/CCVM/serverOpt.c:225-330 | a pass with something useful ready ends the program or makes progress |
| PollPass.RunEnds | P3/CCVM/serverOpt.c:218-331 | with n listeners the program is over after at most 3n - 1 useful passes |
| PollPass.RunFinishes | P3/CCVM/serverOpt.c:218-331 | if, besides, every ready connection brings a readable message, it ends by itself with exactly n verdicts |
| PollHistory.PassReads | P3/CCVM/serverOpt.c:256-280 | every verdict of a pass answers the message that came on the connection's own descriptor, which was open and ready |
| PollHistory.PassTakes | P3/CCVM/serverOpt.c:230-251 | every connection accepted in a pass came from its own listener, which was ready and idle |
| PollHistory.EveryRun | P3/CCVM/serverOpt.c:215-331 | in every run each connection came from its own listener and has exactly one verdict once closed; each verdict answers the message that came on that connection's descriptor in some pass and is right for its listener's port; the program stops by itself exactly at the n-th verdict |
| PollServer.PollServer.constructor | P3/CCVM/serverOpt.c:200-216 | the initial arrays represent the initial state |
| PollServer.PollServer.Poll | P3/CCVM/serverOpt.c:221 | every entry's events are set, and `eve` counts the ready entries |
| PollServer.PollServer.AddClient | P3/CCVM/serverOpt.c:244-250 | the arrays follow an accept, which appends an entry without events |
| PollServer.PollServer.PortIndex | P3/CCVM/serverOpt.c:284-290 | the lookup always finds the listener that accepted the connection |
| PollServer.PollServer.Detach | P3/CCVM/serverOpt.c:308-317 | the left shift removes exactly entry i |
| PollServer.PollServer.CloseClient | P3/CCVM/serverOpt.c:297-327 | reply, removal and count follow the closing of a connection |
| PollServer.PollServer.ServeClient | P3/CCVM/serverOpt.c:256-327 | reading, judging and closing an entry is one step of the machine |
| PollServer.PollServer.ServeListener | P3/CCVM/serverOpt.c:231-253 | accepting on an idle listener and ignoring a busy one is one step of the machine; the entries ready later stay the same |
| PollServer.PollServer.HandleEntry | P3/CCVM/serverOpt.c:226-328 | the entries still ready after the next index are those that came after i, despite the append, the shift and `i--` |
| PollServer.PollServer.ScanEntry | P3/CCVM/serverOpt.c:225-330 | at every entry of the scan the handling of the ready entries that remain still completes the pass, `eve` is their number, and the scan advances |
| PollServer.PollServer.Pass | P3/CCVM/serverOpt.c:221-330 | the scan over the arrays is the machine's pass, and ends with `eve == 0` |
| PollServer.PollServer.Loop | P3/CCVM/serverOpt.c:218-331 | the endless loop is the machine's run; every verdict answers the bytes that came on the connection's own descriptor in a pass that found it open and ready, and is recorded for that descriptor |
| PollServer.OriginsInRun | P3/CCVM/serverOpt.c:218-331 | the same of the machine, told on the bytes received and the descriptors accepted |
| PollServer.MatchesClose | P3/CCVM/serverOpt.c:308-317 | after the shift `fds` and `clients` again list exactly the open connections |
| PollServer.ReadyAppend | P3/CCVM/serverOpt.c:247-250 | an entry appended with no events is not seen in this pass |
| PollServer.Room | P3/CCVM/serverOpt.c:200-250 | an accept always finds a free entry |
| PollDelivery.OneMessage | P3/CCVM/client.c:25-86 | when the client sends one message on all its connections, every run encrypts and saves the text on the connections of the target's listener, as its Caesar image iff no letter underflows, and rejects all others |
| PollDelivery.OneMessageFinishes | P3/CCVM/serverOpt.c:218-331 | if, besides, 3n - 1 passes are useful and the message has arrived wherever a connection is ready, the program ends by itself with n such verdicts |
| SelectServer.DecideWritten | P3/CTAR/Ejercicio_3_CTAR.c:134-165 | a written request, as far as `recv` takes it, is encrypted iff it names the port and the key 34 and its first line is not empty; the image is that of the part of the line that was received |
| SelectServer.WholeLineEncrypted | P3/CTAR/Ejercicio_3_CTAR.c:134-165 | the first line is encrypted and printed whole iff, besides, it fits the buffer together with port and shift |
| SelectServer.DecideUnderstood | P3/CTAR/Ejercicio_3_CTAR.c:144-155 | a number, a separator, a number, a separator and a line are encrypted iff the numbers are the port and 34, and then the line is, shifted by 8 |
| SelectServer.DecideOther | P3/CTAR/Ejercicio_3_CTAR.c:140-165 | every other request, and none at all, is rejected |
| SelectServer.Answer | P3/CTAR/Ejercicio_3_CTAR.c:134-165 | the verdict on an accepted connection, from at most 1023 received bytes |
| SelectServer.Visit | P3/CTAR/Ejercicio_3_CTAR.c:93-172 | the body of the scan gives port i its verdict, once, and touches no other port |
| SelectServer.DecisionIsFirst | P3/CTAR/Ejercicio_3_CTAR.c:93-177 | a port's verdict is that of the first activity with an effect on it, and there is none without one |
| SelectServer.Independent | P3/CTAR/Ejercicio_3_CTAR.c:93-177 | runs that show the same at one port decide it alike, whatever they show at the others |
| SelectServer.FirstDecides | P3/CTAR/Ejercicio_3_CTAR.c:93-177 | the first connection accepted at a port decides it by its own bytes, and a timeout before any is that port's verdict |
| SelectServer.NothingDecides | P3/CTAR/Ejercicio_3_CTAR.c:93-132 | a failed `select`, a missing flag and a failed `accept` decide nothing |
| SelectServer.OwnRequestEncrypted | P3/CTAR/Ejercicio_3_CTAR.c:120-165 | a port whose first connection brings a request for it with the key 34 ends with the image of the received part of the line |
| SelectServer.Settle | P3/CTAR/Ejercicio_3_CTAR.c:169-170 | one port is marked, and `remaining` follows |
| SelectServer.Iterate | P3/CTAR/Ejercicio_3_CTAR.c:93-177 | no port is decided twice; `remaining` counts the open ports and goes down iff an open port is affected |
| SelectServer.Serve | P3/CTAR/Ejercicio_3_CTAR.c:38-182 | every port gets its own decision, independent of the others; the program stops iff all are decided, and at once on a timeout |
| BlockCipher.ReceiveBlocks | P3/JGAE/Ejercicio_1_JGAE.c:260-265 | what is written is the image of what was read, for every way the stream is cut; nothing is read after the first failed call, and on a sound connection without one the file is whole |
| BlockCipher.BlockRoundTrip | P3/JGAE/Ejercicio_1_JGAE.c:21-44 | encrypting with one cut and decrypting with another restores every file |
| Type7.EncryptType7 | P8/ciscodecript7.cpp:43-55 | the loop computes salt text and masked hexadecimal body |
| Type7.DecryptType7 | P8/ciscodecript7.cpp:25-40 | the loop reads pairs, a last single digit included, with the key index (salt + i) mod 53 |
| Type7.DecryptEncrypt | P8/ciscodecript7.cpp:25-55 | decoding undoes encoding for every byte string and every salt below 53 |
| Type7.ProgramRoundTrip | P8/ciscodecript7.cpp:16-55 | the same for the program's own table, which has 53 entries |
| Type7.EncryptDecrypt | P8/ciscodecript7.cpp:25-55 | encoding a decoded text with its own salt gives its lower-case form iff no pair is cut |
| Type7.MaskConcat | P8/ciscodecript7.cpp:48-52 | the second part of a text is masked with the salt that the first part has reached |
| Type7.BodySplits | P8/ciscodecript7.cpp:32-37 | a text whose body is cut between pairs decodes part by part, the second as a text of its own with the salt that has been reached |
| Type7.KeyCancels | P8/ciscodecript7.cpp:48-52 | under one salt the exclusive or of the bodies of two encoded texts is that of the plain texts |
| Type7.EncodedByte | P8/ciscodecript7.cpp:48-52 | digits 2k and 2k + 1 of the body are byte k of the text under entry (salt + k) mod 53 |
| Type7.DecodedByte | P8/ciscodecript7.cpp:32-37 | byte k of the text is the k-th pair of digits under that entry |
| Type7.DigitNumber | P8/ciscodecript7.cpp:34 | the value of a hexadecimal digit of either case |
| Type7.PairNumber | P8/ciscodecript7.cpp:33-34 | the first digit of a pair counts sixteen times; a last single digit once |
| Type7.LoneDigit | P8/ciscodecript7.cpp:32-37 | a last single digit is read like a zero and that digit |
| Type7.SaltCounts | P8/ciscodecript7.cpp:46 | the salts are written 00, 01, 02, and so on |
| Type7.KeyTextStart | P8/ciscodecript7.cpp:16-22 | the table is the published key text: its first 24 characters |
| Type7.KeyTextEnd | P8/ciscodecript7.cpp:16-22 | and its last 29 |
| Hangman.Reveal | P2/CCMS/Ejercicio_2_CCMS.c:71-77 | a place shows its letter iff the letter has been named; the places written are counted |
| Hangman.Guess | P2/CCMS/Ejercicio_2_CCMS.c:54-82 | one line keeps board, used table and both counters in step with the set of letters named |
| Hangman.Counters | P2/CCMS/Ejercicio_2_CCMS.c:39 | the loop's condition on the counters says that the game is not over |
| Hangman.Play | P2/CCMS/Ejercicio_2_CCMS.c:29-90 | won iff all letters come up before the sixth wrong one, lost iff the sixth wrong one comes first; at most distinct + 5 letters are accepted |
| Hangman.OneVerdict | P2/CCMS/Ejercicio_2_CCMS.c:86-90 | no game is both won and lost |
| Hangman.IdleLine | P2/CCMS/Ejercicio_2_CCMS.c:57-65 | a repeated letter or a line that starts with none changes no verdict, wherever it stands |
| Hangman.NamedExactly | P2/CCMS/Ejercicio_2_CCMS.c:53-67 | a letter has been named iff some line starts with it, in either case |
| Hangman.RecasedGame | P2/CCMS/Ejercicio_2_CCMS.c:54 | lines that differ in the case of their letters only give the same verdicts |
| WordList.ToLowerCase | P2/IGG/Ejercicio3_IGG.c:16-18 | the string is lowered in place |
| WordList.TrimInPlace | P2/IGG/Ejercicio3_IGG.c:20-26 | the string is trimmed in place |
| WordList.TrimExact | P2/IGG/Ejercicio3_IGG.c:20-26 | trimming takes away all outer white space and nothing else |
| WordList.NormTwice | P2/IGG/Ejercicio3_IGG.c:49-125 | lowering and trimming the key before the search trims and lowers it again changes nothing |
| WordList.NormExactly | P2/IGG/Ejercicio3_IGG.c:49-56 | two words are taken for the same iff they differ only in the case of letters and in outer white space |
| WordList.IsOnFile | P2/IGG/Ejercicio3_IGG.c:42-60 | the search finds the key iff one of the successive reads of the file has the same normal form |
| WordList.ListedOnLine | P2/IGG/Ejercicio3_IGG.c:51-57 | in a file whose lines fit the buffer a word is found iff it stands on a line, up to case and outer white space |
| WordList.ReadsAreLines | P2/IGG/Ejercicio3_IGG.c:51-57 | in such a file the reads are the lines, one for one |
| WordList.LineStands | P2/IGG/Ejercicio3_IGG.c:51-57 | each line stands in the file between two line boundaries |
| WordList.ListedInPieces | P2/IGG/Ejercicio3_IGG.c:51-57 | in every file a word is found iff some piece of some line is taken for it, a line being cut every 1023 bytes |
| WordList.RowsShape | P2/IGG/Ejercicio3_IGG.c:51-57 | these lines make up the file, and all but the last end in their one newline |
| WordList.PiecesShape | P2/IGG/Ejercicio3_IGG.c:51-57 | the pieces make up the line, none is longer than 1023 bytes and all but the last are that long |
| WordList.LongLinePieces | P2/IGG/Ejercicio3_IGG.c:51-57 | after 1023 bytes without newline the rest of the line is taken for a word of its own |
| WordList.LineIsListed | P2/IGG/Ejercicio3_IGG.c:51-57 | every line that fits the buffer is looked at, whatever stands before and after it |
| WordList.Decide | P2/IGG/Ejercicio3_IGG.c:109-137 | access is granted iff the at most 1023 bytes received have the two fields and the decrypted key is listed |
| WordList.RequestRoundTrip | P2/IGG/Ejercicio3_IGG.c:109-117 | a written key and shift that fit the buffer are read back |
| WordList.RequestReceived | P2/IGG/Ejercicio3_IGG.c:109-117 | of a request of any length the server reads the key and the number that the received part of the shift spells, or nothing |
| WordList.RequestExactly | P2/IGG/Ejercicio3_IGG.c:115-117 | a request is understood iff it has a key without white space and a number, and then as these |
| WordList.EncryptedWord | P2/IGG/Ejercicio3_IGG.c:109-137 | an encrypted word with its shift, when both fit the buffer, is granted iff the word is listed, for every int shift |
| WordList.EncryptedWordCut | P2/IGG/Ejercicio3_IGG.c:109-137 | for a word of any length: granted iff the received part of the shift is a number and taking it off gives a listed word |
| WordList.LongWordDenied | P2/IGG/Ejercicio3_IGG.c:109-121 | a word of 1022 bytes or more is denied, listed or not |
| WordList.WordOpens | P2/IGG/Ejercicio3_IGG.c:42-137 | in a file whose lines fit, a request that fits is granted iff its word stands on a line, up to the case of letters and outer white space |
| WordList.PieceOpens | P2/IGG/Ejercicio3_IGG.c:42-137 | in any file, a request that fits is granted iff some piece of a line is taken for its word |
| WordList.RecasedWordOpens | P2/IGG/Ejercicio3_IGG.c:109-137 | a word and the same word in other cases are granted alike |
| WordList.ListedWordOpens | P2/IGG/Ejercicio3_IGG.c:42-137 | a word on any line that fits opens the server when the request fits too, whatever the other lines are, in any case and with any white space around it |

## Left out

- PollServer.PollServer.Pass: `accept` always succeeds; its error branch (P3/CCVM/serverOpt.c:238-243) is not modelled.
- PollServer.PollServer.CloseClient: a verdict stands for the reply text and the saved file.
- PollServer.PollServer.ServeClient: a failed `recv`, and a message with fewer than two separators, on which the program dereferences NULL, both end the run as failed; the close and the decrement before `return 1` are not followed.
- BinaryProtocol.Exchange: client and server are composed one after the other, each reading what the other has written; `malloc` succeeds, and a reply of 2^32 - 1 bytes is an outcome of its own.
- TextProtocol.HandleClient: blocks above a given size cannot be allocated; a length of 2^64 - 1, for which the size wraps to 0, counts as one of these.
- CText.ScanIntOfDec: a number outside the range of its type, which C leaves undefined, keeps its low bits.
- Hangman.Play: the secret and the first character of each read of standard input (of at most nine bytes, so a longer line counts as several) are parameters; the table of titles, the random choice, the printing and a standard input that ends are not modelled.
- Type7.DecryptType7: texts that are not a salt below 53 followed by hexadecimal digits, on which `stoi` throws or the table is overrun; the regular expression over configuration files and the options.
- WordList.Decide: the file of network information sent after a grant; a word file that cannot be opened is an empty one.
- SelectServer.Serve: the times in `select` and the sending of replies; a verdict stands for its reply.
- TextClient.RunClient: a server's answer is given as it stands on the stream; `TextClient.ShowReply` says what is printed of it.
- Sockets.Socket.Send: a `send` that returns 0 for a non-empty buffer; `room` stands for the size up to which the environment takes data whole, and it may be 0.
- PollDelivery.OneMessage: one `recv` takes a message whole; a part of one is another request, of which `PipeMessage.DecideReceived` speaks.
- Socket creation, `bind`, `listen`, threads, printing, and all code that copies the output of system commands to the client.
- The many other Caesar programs of P2 and P3, which repeat formulas treated here, and the P2 `trim` that advances a local pointer.
- The framing of P3/serverOpt_ej1_SGPY.c; of this file only the cipher is modelled.
