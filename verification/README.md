# NyanSD, modelled and proved in Dafny

NyanSD is a small binary service-discovery protocol: a client broadcasts queries, responders answer
with the services of their tables. This project models the code of the repository and proves what it
keeps. Strings are sequences of characters, the byte order of every host is a parameter, and each loop
of the source is a method proved against a recursive specification, about which the properties below
are then proved. On their way through byte order and memory 16-bit fields are carried as two octets,
and IPv4 addresses, which the source only stores, swaps and compares, always as four;
`ByteOrder.WordsAreNumbers`, `ByteOrder.WordOfNumber` and `ByteOrder.NumberOfWord` prove that octets and
numbers are the same thing. `dafny verify dfyconfig.toml` checks everything.

| file | models |
|---|---|
| `ByteOrder.dfy`, `PackedInt.dfy` | byte order, fields through raw memory, packed integers |
| `Text.dfy`, `DottedQuad.dfy`, `LocalAddress.dfy` | numbers and addresses as text, broadcast address, local address of a sender |
| `Wire.dfy`, `Response.dfy`, `EndToEnd.dfy` | the two message kinds, printing and parsing, from table to list |
| `NyanSD.dfy`, `Listener.dfy` | the library object with its loops; the listener and the other threads as a step system |
| `Ini.dfy`, `IniReader.dfy`, `IniRoundTrip.dfy`, `IniLines.dfy`, `IniDocument.dfy` | the INI grammar, the in-place parser on buffers, single lines by their characters, round trips of lines and files |
| `Daemon.dfy`, `ServiceFile.dfy` | loading service files; from a service file to a querier's list |
| `ArduinoClient.dfy`, `ClientsAgree.dfy` | the client for small devices with its linked queue; the two clients compared |
| `Sarge.dfy`, `SargeLaws.dfy`, `Duplicates.dfy` | the option parser and the duplicate filter |

Where code and documentation differ, the code is modelled:

- Section 2.2.3 of the overview document asks for partial matching of names; the code compares whole
  names (`Response.SelectsByName`).
- The protocol of a query is sent and read but never used.
- A query count of 0 is documented as a wildcard; the server skips such a message. A wildcard is a query
  with an empty filter.
- A response is documented to hold at least one service; empty responses are sent.
- A service without an address of its own for which the resolver finds none leaves its `S` in the body
  and is not counted (`Response.WellFormedBody` says exactly when bodies are well formed). A registered
  IPv6 address is not sent when the IPv4 address is filled in.
- When a datagram holds several messages, the signature of each is looked up at the start of the
  datagram.
- `writePackedInt` accepts the four powers of 128 at its range bounds and loses them
  (`PackedInt.PackedRoundTrip`).
- A port with a leading zero is read as octal (`ServiceFile.PortKeptExactly`).
- A service without an address of its own that is found over two networks is kept twice by the duplicate
  filter (`Duplicates.TwoNetworks`).
- A stop that reaches the listener before its thread has stored `running = true` is lost
  (`Listener.StopIsLost`, `Listener.HonouredExactlyWhenStarted`).
- After a complete `getResponses` the small client's `response` and `last` point at a freed node until the
  next query; `ArduinoClient.TouchesDeletedExactly` and `ArduinoClient.WholeLife` say exactly when one is
  read or written.

## Model

| member | source | states |
|---|---|---|
| `ByteOrder.ByteBauble.constructor` | src/bytebauble.cpp:22-44 | detection finds the byte order of the machine; the global order starts as little endian |
| `ByteOrder.ByteBauble.SetGlobalEndianness` | src/bytebauble.h:47 | changes the global order and nothing else |
| `ByteOrder.CopyMemory32` | src/nyansd.cpp:597-598 | a value copied byte by byte between two machines is swapped exactly when their byte orders differ |
| `ByteOrder.Survives16` | src/bytebauble.h:51-131 | every 16-bit value survives `toGlobal`, raw memory and `toHost` for all host pairs and any global order |
| `ByteOrder.Survives32` | src/bytebauble.h:51-131 | the same for every 32-bit value |
| `ByteOrder.Field16` | src/nyansd.cpp:217-219 | a 16-bit field is little endian on the wire whatever the sender, and reads back on any receiver |
| `ByteOrder.Field32` | src/nyansd.cpp:255-257 | the same for a 32-bit field |
| `PackedInt.CopySevenBits` | src/bytebauble.cpp:59-69 | the bit loop adds exactly seven bits of the source at the place of the output and touches no others |
| `PackedInt.WritePackedInt` | src/bytebauble.cpp:83-118 | takes the least number of bytes whose power of 128 the integer does not exceed, and writes its base-128 digits with continuation bits, or leaves the output alone above the range |
| `PackedInt.PackedBits` | src/bytebauble.cpp:96-116 | bit by bit: each byte holds seven bits of the integer, low ones first, and its top bit is set on all bytes but the last |
| `PackedInt.ReadPackedInt` | src/bytebauble.cpp:53-79 | returns the value and the byte count of the packed form, whatever the 32 bits are |
| `PackedInt.PackedRoundTrip` | src/bytebauble.cpp:86-89 | every integer in range reads back with the same byte count and value, except exactly 0x80, 0x4000, 0x200000 and 0x10000000, which read back as 0 |
| `PackedInt.ReadsPrefixOnly` | src/bytebauble.cpp:71-75 | reading depends only on the bytes up to the first clear continuation bit |
| `PackedInt.FiveBytesReported` | src/bytebauble.cpp:59-78 | the reported count is 5 exactly when all four continuation bits are set |
| `Text.ToTextReadsBack` | src/nyansd.cpp:372 | decimal output is digits without a leading zero and denotes its number |
| `Text.StoulOfDigits` | src/nyansd.cpp:391 | `stoul` of decimal digits that fit is their value |
| `Text.StrtolOfDecimal` | daemon/INIReader.h:401-409 | `strtol` with base 0 reads back every positive decimal without leading zero |
| `Text.StrtolOfDigits` | daemon/INIReader.h:401-409 | decimal digits read as their number exactly when they have no leading zero or are below 8; behind a leading zero they are octal up to the first 8 or 9 |
| `DottedQuad.Ipv4UintToString` | src/nyansd.cpp:369-377 | the loop prints the four bytes of the number in memory order, joined by dots |
| `DottedQuad.Ipv4StringToUint` | src/nyansd.cpp:380-402 | the loop stores what the recursive parser of parts gives, with `npos + 1` wrapping to 0 and throwing where `substr` or `stoul` does |
| `DottedQuad.PartsRepeat` | src/nyansd.cpp:385-401 | a text of any number of decimal parts is read part by part, starting over behind the last: fewer than four repeat cyclically, more are ignored |
| `DottedQuad.QuadRoundTrip` | src/nyansd.cpp:369-402 | every canonical quad is stored octet by octet in memory order and prints back as itself, on either byte order |
| `DottedQuad.NumberRoundTrip` | src/nyansd.cpp:369-402 | every 32-bit number prints as a text that parses back to it |
| `DottedQuad.QuadAcrossHosts` | src/nyansd.cpp:597-598 | a quad sent over the wire prints the same when both hosts share a byte order and reversed when they differ |
| `LocalAddress.BroadcastIsLastOctet255` | src/nyansd.cpp:127-128 | the broadcast text is the interface's address with its last octet 255 |
| `LocalAddress.PrefixCompareIs24` | src/nyansd.cpp:414-436 | the text prefix compare succeeds exactly for IPv4 addresses with the same first three octets |
| `LocalAddress.RemoteToLocalIP` | src/nyansd.cpp:406-474 | the nested loops give what the first-match specification gives |
| `LocalAddress.ResolvesFirstLocal` | src/nyansd.cpp:428-473 | the answer is the first IPv4 address of the first interface with an address in the sender's /24, and there is none exactly when no interface has one |
| `Wire.SectionRoundTrip` | src/nyansd.cpp:254-286 | a printed service section parses to the same service and the index right behind it, wherever it lies and on any pair of hosts, exactly when its strings fit their length fields |
| `Wire.SectionLayout` | src/nyansd.cpp:574-612 | the bytes of a service section, field by field and little endian, whatever host prints it |
| `Wire.QuerySectionLayout` | src/nyansd.cpp:59-68 | the bytes of a query section |
| `Wire.MessageLayout` | src/nyansd.cpp:681-691 | the bytes of a message header, whatever host prints it |
| `Wire.SectionsReadFit` | src/nyansd.cpp:248-309 | on any bytes, what is read fits its fields and the index moves by exactly the printed size |
| `Wire.SectionsRoundTrip` | src/nyansd.cpp:248-309 | a list of sections parses to the list |
| `Wire.QueryRoundTrip` | src/nyansd.cpp:53-77 | 1 to 255 queries in a message of at most 2048 bytes are recovered in order with the index at the end, exactly when every filter is shorter than 256 bytes |
| `Wire.AnsweredExactly` | src/nyansd.cpp:501-556 | a datagram is answered at all exactly when its bytes are the signature, its own length less eight, type 1, a count and a query mark |
| `Wire.OtherLengthRefused` | src/nyansd.cpp:522-525 | a query message that lost bytes at its end or has others behind it is not answered |
| `Wire.StallsAtMissingMark` | src/nyansd.cpp:550-556 | where a received byte is not the `Q` due, the index stalls and exactly the sections before it are answered, however many are announced |
| `Response.BranchesAgree` | src/nyansd.cpp:564-675 | the answer to a filter is the wildcard answer over the services of exactly that name, in order |
| `Response.SelectsByName` | src/nyansd.cpp:572-573 | the selected services are those whose name equals the filter, each as often as it is in the table |
| `Response.SelectedInOrder` | src/nyansd.cpp:571-573 | the selected services are those at the places of the matching ones, in increasing order |
| `Response.WellFormedBody` | src/nyansd.cpp:574-595 | a body is the sections of its counted services exactly when no service was left without an address; otherwise stray bytes stay in it |
| `Response.BodyLength` | src/nyansd.cpp:624-672 | the body is longer than its sections by one byte for each service left out |
| `Response.RoundsBounded` | src/nyansd.cpp:209-314 | on arbitrary bytes every round of the message loop but a failing last one advances by at least nine bytes |
| `Response.ForeignMessageStep` | src/nyansd.cpp:231-241 | a message of another type is stepped over by its nine bytes of header only |
| `Response.MessageRead` | src/nyansd.cpp:209-309 | a response message anywhere in a datagram is read whole and reading goes on right behind it |
| `Response.PacketRead` | src/nyansd.cpp:205-314 | a datagram of any number of response messages parses to the concatenation of their lists |
| `Response.CutOffKeeps` | src/nyansd.cpp:221-225 | a datagram cut off behind whole messages fails and keeps what those list |
| `Response.DatagramsRead` | src/nyansd.cpp:195-319 | any number of such datagrams from hosts of either kind parses to the concatenation of all their lists |
| `Response.DatagramsAppend` | src/nyansd.cpp:195-203 | a failing datagram hides the ones behind it and keeps what came before |
| `Response.CutOffEnds` | src/nyansd.cpp:195-225 | among any datagrams a cut-off one ends parsing: everything before is kept, nothing behind is looked at |
| `EndToEnd.DeliverableFits` | src/nyansd.cpp:575-602 | in an answer that fits the receive buffer only a missing local address or an IPv6 text over 255 bytes can spoil a section |
| `EndToEnd.AnswerRead` | src/nyansd.cpp:562-697 | for any table, filter and host pair, an answer of at most 2048 bytes parses to the selected services in table order with its index at the end, exactly when every selected service can be listed |
| `EndToEnd.AnswerDelivered` | src/nyansd.cpp:562-697 | each selected service arrives once, in table order: the same record when it has an address, else with the local address, no IPv6 text and all other fields; a table with addresses of its own arrives as it is |
| `EndToEnd.ArrivalsRead` | src/nyansd.cpp:194-317 | answers of any responders in any order give, one after the other, what each had selected, record by record |
| `EndToEnd.QueriesDelivered` | src/nyansd.cpp:510-697 | one message of 1 to 255 queries is answered once per query in order, and the querier's list is what each query selects, record by record |
| `NyanSD.NyanSD.AddService` | src/nyansd.cpp:326-342 | refuses a zero port or an empty name, otherwise adds exactly one entry with the host name filled in |
| `NyanSD.NyanSD.FilteredServices` | src/nyansd.cpp:571-621 | the filtered loop prints and counts what its specification selects from the table |
| `NyanSD.NyanSD.AllServices` | src/nyansd.cpp:625-674 | the unfiltered loop prints and counts the whole table |
| `NyanSD.NyanSD.AppendService` | src/nyansd.cpp:574-618 | one service adds its section and one to the count, or a lone mark and nothing when it has no address |
| `NyanSD.NyanSD.ComposeReply` | src/nyansd.cpp:681-691 | the assembled reply is the message of that body and count, length field wrapping included |
| `NyanSD.NyanSD.AnswerQueries` | src/nyansd.cpp:549-699 | one reply for every query section the parser recovers, in order |
| `NyanSD.NyanSD.HandleDatagram` | src/nyansd.cpp:501-699 | a datagram is answered query by query when all header checks pass, and not at all otherwise |
| `NyanSD.NyanSD.ComposeQuery` | src/nyansd.cpp:53-77 | the composed message is the query message of the list |
| `NyanSD.NyanSD.SendQuery` | src/nyansd.cpp:42-320 | the message goes to the broadcast addresses; the result and the added services are those of parsing all received buffers, and when good answers arrive on the usable interfaces it succeeds and adds what all of them list, interface by interface in order of arrival; a bad query count sends and adds nothing |
| `NyanSD.BroadcastsEach` | src/nyansd.cpp:86-148 | the message goes once to the broadcast address of every usable interface, in order, and nowhere else |
| `NyanSD.BuffersParsed` | src/nyansd.cpp:150-195 | every datagram of every usable interface is parsed, interface by interface |
| `NyanSD.NyanSD.ReadDatagrams` | src/nyansd.cpp:195-317 | the datagram loop gives the recursive parser's verdict and list |
| `NyanSD.NyanSD.ReadMessages` | src/nyansd.cpp:205-314 | the message loop terminates on any bytes and gives the recursive parser's verdict and list |
| `NyanSD.NyanSD.ReadSections` | src/nyansd.cpp:248-309 | the section loop gives the recursive parser's verdict, list and index |
| `NyanSD.NyanSD.ReadSection` | src/nyansd.cpp:254-306 | one section read field by field through one advancing index |
| `Listener.StepKeeps` | src/nyansd.cpp:571-621 | every step keeps: the handler holds the lock exactly while scanning, what it has collected answers the part of the table passed, and all replies answer snapshots |
| `Listener.RunKeeps` | src/nyansd.cpp:337-339 | in every interleaving the table and the replies only grow |
| `Listener.RepliesAreSnapshots` | src/nyansd.cpp:571-621 | from the start, in every interleaving, each reply answers one atomic snapshot of the table, the snapshots never shrink, and the table holds only registrable services |
| `Listener.RepeatedQueryExtends` | src/nyansd.cpp:625-674 | the same query asked again is answered with a list that extends the earlier one |
| `Listener.EveryQueryAnswered` | src/nyansd.cpp:550-698 | in every interleaving the queries replied to and those pending are exactly the queries taken in, in order; between datagrams each has had exactly one reply |
| `Listener.EveryServiceAdded` | src/nyansd.cpp:337-339 | in every interleaving the table holds exactly the services offered, in order |
| `Listener.StopIsFinal` | src/nyansd.cpp:360-366 | a stop after the thread's own store lets at most the datagram being waited for in, and is final until the next start |
| `Listener.StoppedHandlerNearsExit` | src/nyansd.cpp:484-490 | after a stop every handler step comes closer to the exit and no other step takes it away |
| `Listener.StoppedHandlerSteps` | src/nyansd.cpp:484-490 | after a stop the handler takes at most a stated number of steps in any run up to the next start, whatever is interleaved |
| `Listener.HandlerCanStep` | src/nyansd.cpp:484-490 | the handler can always step unless a registering thread holds the lock or it has ended |
| `Listener.RunningNeverExits` | src/nyansd.cpp:485-486 | a running handler never ends without a stop |
| `Listener.StopIsLost` | src/nyansd.cpp:353-366 | a stop while the thread has not stored its flag is lost in every state: in every continuation without another stop the thread is still starting or runs, and a join never returns |
| `Listener.HonouredExactlyWhenStarted` | src/nyansd.cpp:353-366 | a stop keeps the flag down until the next start, and the thread can end without another stop, exactly when it comes behind the thread's own store |
| `IniReader.Rstrip` | daemon/INIReader.h:124-130 | the C string is stripped at its end in place and the rest of the buffer is untouched |
| `IniReader.Lskip` | daemon/INIReader.h:133-138 | the pointer moves to the first character that is not white space |
| `IniReader.FindCharsOrComment` | daemon/INIReader.h:143-158 | the pointer moves to the first stop character or comment |
| `IniReader.Strncpy0` | daemon/INIReader.h:161-166 | the buffer holds the copied string cut to its size |
| `IniReader.File.Fgets` | daemon/INIReader.h:196 | one chunk up to a line feed or the buffer size is moved into the buffer |
| `IniReader.INIReader.ParseLine` | daemon/INIReader.h:197-265 | one line changes section, name, error and reports as the line grammar says |
| `IniReader.INIReader.StorePair` | daemon/INIReader.h:242-265 | a pair line is cut in place into the name and the value the grammar gives |
| `IniReader.INIReader.StartSection` | daemon/INIReader.h:229-241 | a section line stores its title, cut to the buffer, and forgets the name |
| `IniReader.INIReader.ContinueValue` | daemon/INIReader.h:214-227 | a continuation line reports its text under the last name |
| `IniReader.INIReader.ParseStream` | daemon/INIReader.h:169-278 | a file gives the error and the reports of its lines |
| `IniReader.INIReader.ValueHandler` | daemon/INIReader.h:450-460 | one report more is stored, joined to what its key had |
| `IniReader.INIReader.constructor` | daemon/INIReader.h:375-378 | a reader holds the error and the stored values of its file |
| `Ini.ErrorIsFirstMalformed` | daemon/INIReader.h:169-278 | parsing goes on behind errors; the result is the number of the first malformed line, or 0 when there is none |
| `Ini.StoredIsJoin` | daemon/INIReader.h:450-460 | a key is stored exactly when something was reported for it, as the newline join of all its values, leading empty ones dropped |
| `Ini.KeyInjective` | daemon/INIReader.h:442-448 | two section and name pairs share a key exactly when they are equal up to ASCII case, for names without `=` |
| `Ini.NoSeparatorInNames` | daemon/INIReader.h:244-258 | no name the parser reports contains a separator |
| `IniRoundTrip.FindStopIs` | daemon/INIReader.h:143-158 | the search stops at the first stop character or comment and passes none |
| `IniRoundTrip.HeaderForm` | daemon/INIReader.h:229-241 | a printed section line names its section exactly when the title has no closing bracket and no comment |
| `IniRoundTrip.PairForm` | daemon/INIReader.h:197-265 | a printed pair line, the first of a file included, reports exactly its pair, exactly under the stated conditions on name and value |
| `IniRoundTrip.ColonSplit` | daemon/INIReader.h:244-258 | a colon separates a name from its value as an equals sign does |
| `IniRoundTrip.CommentedPair` | daemon/INIReader.h:244-256 | a comment behind the value of a pair is taken off with the white space before it |
| `IniRoundTrip.IndentIgnored` | daemon/INIReader.h:207-229 | while nothing is continued, white space in front of a line does not matter |
| `IniRoundTrip.ContinuationForm` | daemon/INIReader.h:214-227 | a printed continuation line reports exactly its text, exactly under the stated conditions |
| `IniLines.NothingExactly` | daemon/INIReader.h:207-214 | a line says nothing exactly when its characters are white space, up to a `;` or `#` that starts a comment |
| `IniLines.LinePassedOver` | daemon/INIReader.h:207-242 | a blank or comment line changes nothing but the line number, whatever is being continued |
| `IniLines.MalformedExactly` | daemon/INIReader.h:229-265 | a line is malformed exactly when, no comment and no continuation, it reaches no closing bracket, or no separator, before an inline comment |
| `IniLines.ErrorIsFirstMalformedLine` | daemon/INIReader.h:169-278 | the result is the number of the first line whose characters make it malformed, or 0 |
| `IniLines.LinesArePieces` | daemon/INIReader.h:196 | any file without NUL is cut into pieces of at most 199 characters that put together are the file; a long line goes on as the next |
| `IniDocument.LinesRecovered` | daemon/INIReader.h:196 | a file of lines shorter than 200 characters is cut into exactly its lines |
| `IniDocument.LaidOutParses` | daemon/INIReader.h:169-278 | a document with any blank and comment lines between its lines reports exactly its lines, without error, exactly when every continued name is not empty and under 50 characters |
| `IniDocument.LineBetween` | daemon/INIReader.h:207-214 | a blank or comment line between sections leaves the document as it is |
| `IniDocument.PrintedParses` | daemon/INIReader.h:169-278 | the same for the document printed without such lines |
| `IniDocument.ValuesRoundTrip` | daemon/INIReader.h:395-399 | each entry has its value stored under section and name in any case, and absent names have nothing |
| `IniDocument.JoinedAsPrinted` | daemon/INIReader.h:455-457 | the lines come back joined as printed exactly when the first is not empty or is the only one |
| `IniDocument.SectionsRoundTrip` | daemon/INIReader.h:390-393 | the listed sections are exactly those with an entry |
| `IniDocument.ReaderRoundTrip` | daemon/INIReader.h:395-399 | a reader of a printed document, blank and comment lines allowed, has no error, returns every value for its section and name in any case and the default for all others, and lists exactly the non-empty sections |
| `Daemon.InSetOrderIs` | daemon/nyansd_daemon.cpp:106-109 | sections are visited once each, in the order of the characters of their titles |
| `Daemon.LessIsPrecedes` | daemon/nyansd_daemon.cpp:106 | the order of titles is that of their characters: a proper prefix first, else the smaller character at the first difference |
| `Daemon.NextSection` | daemon/nyansd_daemon.cpp:108-109 | the next section is the one whose title precedes those of all others left |
| `Daemon.ReadSection` | daemon/nyansd_daemon.cpp:110-140 | the fields of one section are filled from the stored values, or the section is ignored or the conversion throws |
| `Daemon.SectionsBecome` | daemon/nyansd_daemon.cpp:108-152 | sections become one entry each with the fields of their texts, in order, but for those without a name or a known protocol, up to the first with port 0 or an address that cannot be converted |
| `Daemon.LoadOne` | daemon/nyansd_daemon.cpp:95-153 | one file adds its entries to the table and ends the daemon exactly where its specification says |
| `Daemon.LoadServices` | daemon/nyansd_daemon.cpp:93-155 | all files in order, up to the first that ends the daemon, keeping what was added |
| `Daemon.FilesBecome` | daemon/nyansd_daemon.cpp:93-155 | files are loaded one behind the other up to and with the first that fails |
| `Daemon.MalformedFileRefused` | daemon/nyansd_daemon.cpp:96-104 | a file with a malformed line adds nothing and ends the start |
| `ServiceFile.PortReadsBack` | daemon/nyansd_daemon.cpp:117 | a positive decimal becomes its port modulo 65536 |
| `ServiceFile.PortKeptExactly` | daemon/nyansd_daemon.cpp:117 | a port written with any digits is kept exactly when it has no leading zero or is below 8 |
| `ServiceFile.PortWithoutNumber` | daemon/INIReader.h:401-409 | a port text that begins with no number gives port 0 |
| `ServiceFile.LeadingZeroIsOctal` | daemon/INIReader.h:407 | two ports a leading zero changes: 080 becomes 0 and 010 becomes 8 |
| `ServiceFile.SectionLoaded` | daemon/nyansd_daemon.cpp:110-151 | a documented section loads to a registrable service with its fields and the defaults |
| `ServiceFile.FileLoads` | daemon/nyansd_daemon.cpp:93-155 | a file in the documented form, with any blank and comment lines, loads to one entry per section with its fields, in the order of the characters of the titles |
| `ServiceFile.FileToList` | src/nyansd.cpp:623-675 | from the text of a service file to a querier's list: the wildcard query delivers exactly the sections of the file, in title order and field by field |
| `ArduinoClient.NyanSDClient.UdpReceiveCallback` | arduino/client/nyansd_client.cpp:96-129 | a payload from the queried port is appended to the queue, a foreign one changes nothing; a deleted node is written exactly when the queue was drained to its end before |
| `ArduinoClient.NyanSDClient.SendQuery` | arduino/client/nyansd_client.cpp:133-230 | sends the encoded queries and leaves an empty queue, also when sending fails; no queries leaves the queue alone |
| `ArduinoClient.NyanSDClient.ParseOne` | arduino/client/nyansd_client.cpp:257-433 | the header checks in order with their codes, and the first section |
| `ArduinoClient.CodesExactly` | arduino/client/nyansd_client.cpp:257-340 | each code by the bytes of the datagram |
| `ArduinoClient.ShortCodes` | arduino/client/nyansd_client.cpp:257-300 | the codes of datagrams of at most ten bytes |
| `ArduinoClient.NyanSDClient.DrainQueue` | arduino/client/nyansd_client.cpp:254-454 | the loop frees each drained node once in order and links the services found; a deleted node is read exactly when the queue was drained to its end before |
| `ArduinoClient.NyanSDClient.FreeFirst` | arduino/client/nyansd_client.cpp:446-453 | moves to the next node if there is one and deletes the one read |
| `ArduinoClient.NyanSDClient.GetResponses` | arduino/client/nyansd_client.cpp:233-463 | the code, the list and its length are those of draining the payloads; an error stops at its datagram and keeps the rest queued; a deleted node is read exactly when the queue was drained to its end before |
| `ArduinoClient.QueryAndCollect` | arduino/client/nyansd_client.cpp:96-129 | over a query, sent or not, datagrams from any ports in any order and one collection: the result is that of the matching payloads in order, each node freed exactly once |
| `ArduinoClient.TouchesDeletedExactly` | arduino/client/nyansd_client.cpp:445-453 | what the events of a life say about deleted nodes: one is touched exactly when a collection drains a non-empty queue to its end and another collection or a matching datagram follows before the next query that starts a queue |
| `ArduinoClient.LateDatagram` | arduino/client/nyansd_client.cpp:116-125 | the input: a query, one good datagram, a collection, and then a late datagram or a second collection; a new query in between makes both harmless |
| `ArduinoClient.WholeLife` | arduino/client/nyansd_client.cpp:96-463 | over any queries, datagrams and collections up to the first that touches a deleted node: one is touched exactly when the events say so, and every collection gives the code, and on success the services, of the datagrams taken since the last new queue |
| `ClientsAgree.EncodersAgree` | arduino/client/nyansd_client.cpp:146-174 | both clients send the same bytes exactly when each given length agrees as a byte with its filter's length |
| `ClientsAgree.FirstServiceAgrees` | arduino/client/nyansd_client.cpp:257-433 | on any bytes, a service the small client finds within the datagram is the first the desktop client finds, and its errors other than a foreign type, on the bytes received, are failures there too |
| `ClientsAgree.BehindIsNotRead` | src/nyansd.cpp:248-309 | a section that ends within the received bytes is the same whatever two memories hold behind them |
| `ClientsAgree.DecodersAgree` | arduino/client/nyansd_client.cpp:253-463 | on single well-formed messages the small client's list is the first service of each desktop list, empty ones skipped, and everything is drained |
| `Sarge.Sarge.SetArgument` | browse/sarge.cpp:23-39 | adds one argument under its non-empty names; a name already taken keeps its argument |
| `Sarge.Sarge.ParseArguments` | browse/sarge.cpp:51-132 | the loops leave the state and the verdict of the fold over the argument list |
| `Sarge.Sarge.ParseEntry` | browse/sarge.cpp:62-126 | one entry is a value, a long flag, joined short flags or a text |
| `Sarge.Sarge.ParseCluster` | browse/sarge.cpp:96-120 | joined short flags are looked up one by one; only the last may take a value |
| `Sarge.FirstRegistrationWins` | browse/sarge.cpp:32-38 | a name stands for the first argument registered under it |
| `Sarge.BothNamesStand` | browse/sarge.cpp:32-38 | with distinct names both names of an argument stand for it |
| `SargeLaws.ClusterIsItsFlags` | browse/sarge.cpp:93-120 | joined flags leave the same state and verdict as the flags one by one, in any context where no value is due, under a condition on the names registered |
| `SargeLaws.JoinsAlikeExactly` | browse/sarge.cpp:62-126 | that condition holds exactly when the two forms agree in every state: up to the first unknown flag no registered dash and no value flag before the last; behind a leading dash no registered long name |
| `SargeLaws.ConditionsNeeded` | browse/sarge.cpp:74-118 | two inputs at which they differ: an early value flag, and a dash that is registered as a name |
| `SargeLaws.NoEmptyName` | browse/sarge.cpp:32-38 | no argument is registered under an empty name |
| `SargeLaws.ParsingTells` | browse/sarge.cpp:51-132 | verdict, found flags, last values, flag count and texts are those the argument list says |
| `SargeLaws.EitherNameAnswers` | browse/sarge.cpp:137-160 | short and long name answer `exists` and `getFlag` alike |
| `SargeLaws.FlagAnswered` | browse/sarge.cpp:137-160 | a flag is answered exactly when it was said, with the last value said for it |
| `SargeLaws.TextArgumentsAnswered` | browse/sarge.cpp:167-171 | text arguments are answered by index, in order, and there are no others |
| `Duplicates.IsDuplicate` | client/nyansd_client.cpp:13-26 | finds a record exactly when an equal one is in the list |
| `Duplicates.FilterDuplicates` | client/nyansd_client.cpp:43-52 | the loop keeps what its specification keeps |
| `Duplicates.UniquesKeepFirst` | client/nyansd_client.cpp:43-52 | no two equal records, the same set, in first-occurrence order |
| `Duplicates.Idempotent` | client/nyansd_client.cpp:43-52 | filtering again changes nothing |
| `Duplicates.CopiesChangeNothing` | client/nyansd_client.cpp:43-52 | appending records changes the filtered list exactly when one of them is new, and then only extends it |
| `Duplicates.SeveralInterfaces` | client/nyansd_client.cpp:43-52 | the same answers arriving again change nothing |
| `Duplicates.TwoNetworks` | client/nyansd_client.cpp:43-52 | a responder asked over two networks adds nothing the second time exactly when no service needs the second local address or its record is registered by itself; otherwise it is kept twice |

## Left out

- NyanSD.HandleDatagram: takes the table as it is for the whole datagram; other threads adding services between two queries are in the step system of `Listener`, not in this method.
- LocalAddress.RemoteToLocalIP: covers IPv4 senders; for an IPv6 sender the source leaves the IPv4 output uninitialised.
- ArduinoClient.NyanSDClient.GetResponses: node payloads and the strings of the result are values, so the separate allocation and release of character arrays is not modelled; serial output is left out.
- ArduinoClient.NyanSDClient.SendQuery: an `unsigned char` count is never over 255, so the branch for more queries is not modelled.
- NyanSD.AppendService: the check of a resolved IPv6 text over 39 characters cannot fire for an IPv4 sender and is not modelled.
- Bytes past the end of a received datagram read as zero characters in the specifications of the loops; the source reads whatever its buffer held. The delivery properties read no such byte, and `ClientsAgree.FirstServiceAgrees` and `Wire.StallsAtMissingMark` are stated for received bytes only.
- ArduinoClient.WholeLife: says nothing of what happens from the first use of a deleted node on.
- Sockets, polling and its timing, interface enumeration, DNS: received datagrams, address lists and the system host name are inputs.
- Starting a second listener while a first thread exists but has not stored its flag: the source replaces a joinable thread, which ends the process.
- Opening of files and directories; the daemon gets the contents of its service files in directory order.
- `GetReal`, `GetFloat`, `GetBoolean`, `setArguments`, `printHelp`, console output and the `main` of the browser: presentation or unused by the modelled programs.
- `strtol` and `stoul` are modelled with sign, white space and bases, but properties are stated for texts of decimal digits only.
- Byte swaps of 64-bit values and of unknown compilers, which nothing here calls.
- Windows service control, signals, installers, build files, the MQTT application, and the second copy of the small client under `arduino/test`.
