# Verified model of the lobby server and of the Google Test core

The repository holds a small multiplayer game, whose own C++ is a lobby server
and a wire protocol, and the Google Test tree it ships with. This project models
the parts of both that carry an algorithm, and proves what they are for:

* **Simple regular expressions** (`SimpleRegex`): the one-pass validator, the
  mutually recursive matcher and the anchoring step of class `RE`, against a
  syntax tree and the language it defines.
* **The lobby** (`Lobby`, `Server`): a state machine over accepted connections,
  flushes and shutdown announcements, with what every reachable lobby satisfies,
  and the server class whose loops push to and erase from the client vector while
  they iterate over it. A socket's liveness and the success of a send are arbitrary.
* **The wire protocol** (`Protocol`): packets as typed pointers into host memory,
  serialised in network order.
* **linked_ptr** (`RefCount`, `LinkedPtrs`): circles of owners on the heap, against
  reference counting stated without links.
* **The test scheduler** (`Shuffling`, `Orders`, `Sharding`, `Scheduler`):
  registration with death tests first, the in-place shuffle, filtering, sharding
  and the run loop, up to whole repeated runs.
* **Printers and encoders** (`Hex`, `Streams`, `StringLiteral`, `Utf`, `Xml`), each
  with a reader written from the relevant standard.
* **Filters and the command line** (`Glob`, `Argv`) and **prime tables** (`Primes`).

Objects that the C++ updates in place are classes here, and their methods are proved
against functions on values; the properties are then lemmas about those functions.
C strings are sequences without NUL (`CStrings`); reading one past the end gives the
terminator, reading further is a proof obligation. Ghost parameters (a regex's syntax
tree, a player's place, the lobby's history) exist for the proofs only. Large proofs
hide the definitions they do not need.

## What the code does against its documentation

* `RE::Init` looks only at the last character for `$`, so a regex that ends in an
  escaped `\$` is not anchored at its end. `FullMatchExact` shows that full match means
  membership of the whole string exactly for the regexes without that ending, and
  `EscapedDollarExample` gives an input. (The ending is the guard's own criterion, made
  exact: the last token is `\$` with no repeat mark.)
* A string literal with a NUL directly before an octal digit does not read back
  (`RoundTripExact`, `DigitAfterNulIsLost`).
* The packet factory registers no constructor for leave and shutdown packets, so a
  receiver refuses both (`FactoryReads`).
* The type byte of a packet is the first byte of a C++ enum in memory, which is its
  value on little-endian hosts only (`TypeOnWire`); the queue theorems are about those.
* A client's queue is cleared even when sending fails, which is sound because the
  client is then kicked (`Server.FlushTurn`).
* Player ids are 32-bit and wrap around. The lobby is proved with unbounded ticket numbers; as ids on
  the wire they are distinct for the first 2^32 players (`IdsDistinct`), and not for one more:
  `IdsCollide` gives a run after which two players in the lobby have the same id.
* The read-only `GetTestCase(int)` does not follow the shuffled order of the test cases. It agrees
  with the accessor that the run loop uses exactly while the test case indices are the identity
  (`AccessorsAgree`), and `AccessorsDiffer` shuffles two test cases after which they differ.
* The comments on `CodePointToUtf8` and `WideStringToUtf8` promise a notice for every code point
  above U+10FFFF; the code writes it above 21 bits. A code point, and a whole wide string, converts
  as promised exactly when no value lies in between (`NoticeExact`, `PromisedExact`); U+110000 in a
  32-bit wide string becomes four octets (`OverlookedExample`).
* The encoder writes octets for surrogates and for those values as well, so it conforms to RFC 3629
  exactly on the scalar values (`EncoderConforms`, `NonScalarExamples`).
* Where `char` is signed, XML output drops the bytes above 127. It is the same as elsewhere exactly
  for ASCII text (`NonAsciiBytes`, `NonAsciiEscaped`; `NonAsciiExample` loses an accented letter).
* For p = -1 the hybrid prime table answers 2 or -1, depending on whether it has a precalculated table.

## Model

| member | source | states |
|---|---|---|
| SimpleRegex.AtomMeaning | gtest/src/gtest-port.cc:228-247 | A supported atom matches exactly the characters the documented table says it denotes |
| SimpleRegex.ValidateRegex | gtest/src/gtest-port.cc:257-311 | Accepts exactly the non-null texts of `^`? (atom repeat?)* `$`? with supported atoms: a backslash before one of d D f n r s S t v w W or ASCII punctuation, or a character that is not special |
| SimpleRegex.EscapesListed | gtest/src/gtest-port.cc:210-224 | The code's two character sets hold exactly the documented escapes: the eleven letters and the four ranges of ASCII punctuation |
| SimpleRegex.ScanIsSyntax | gtest/src/gtest-port.cc:257-311 | The validator's left-to-right scan with its one flag accepts exactly the texts of supported syntax trees |
| SimpleRegex.SyntaxUnique | gtest/src/gtest-port.cc:257-311 | A valid regex has only one reading: two supported trees with the same text are equal |
| SimpleRegex.MatchRepetitionAndRegexAtHead | gtest/src/gtest-port.cc:320-342 | True iff the repeated atom followed by the remaining items matches at the head of the string; terminates by a lexicographic measure |
| SimpleRegex.MatchRegexAtHead | gtest/src/gtest-port.cc:347-373 | True iff some prefix of the string (all of it before a `$`) is a word of the items; no read passes either terminator |
| SimpleRegex.MatchRegexAnywhere | gtest/src/gtest-port.cc:383-396 | True iff both pointers are set and some substring, respecting `^` and `$`, is in the regex's language |
| SimpleRegex.AnchoredSyntax | gtest/src/gtest-port.cc:429-447 | The anchored pattern is itself a valid regex: the same items, both anchors, except that an escaped dollar at the end keeps the end anchor away |
| SimpleRegex.BuildAnchored | gtest/src/gtest-port.cc:429-447 | The buffer of len + 3 characters has room for what is written, and ends up holding the anchored pattern |
| SimpleRegex.RE.Init | gtest/src/gtest-port.cc:417-448 | Leaves an object whose flag says whether the regex is valid and whose full pattern is the anchored regex when it is |
| SimpleRegex.RE.FullMatch | gtest/src/gtest-port.cc:406-408 | True iff the regex is valid and the anchored pattern finds the string |
| SimpleRegex.RE.PartialMatch | gtest/src/gtest-port.cc:412-414 | True iff the regex is valid and some substring is in its language |
| SimpleRegex.FullMatchMeansMembership | gtest/src/gtest-port.cc:405-408 | Without an escaped dollar at the end, full match is membership of the whole string |
| SimpleRegex.FullMatchMeansPrefix | gtest/src/gtest-port.cc:444-445 | With one, full match is membership of some prefix |
| SimpleRegex.FullMatchExact | gtest/src/gtest-port.cc:405-448 | Full match is whole-string membership for every string if and only if the regex does not end in an escaped dollar |
| SimpleRegex.EscapedDollarExample | gtest/src/gtest-port.cc:444-445 | The regex `\$` fully matches `$a`, which is not in its language |
| Lobby.SweepSurvivor | server/Server.cpp:63-94 | At any moment of a pass that kicks while it iterates, a client that has not been kicked stands where the order of the survivors puts it, and its stream has gained one leave per client kicked so far, before and after its own turn |
| Lobby.FlushLeavesQueued | server/Server.cpp:77-94 | After a flush a survivor has sent everything before its turn and has queued exactly the leaves of the clients kicked at later positions, in order |
| Lobby.PassKeeps | server/Server.cpp:63-94 | Any pass over the clients, whoever it kicks, keeps the lobby invariant |
| Lobby.AcceptKeeps | server/Server.cpp:97-139 | Announcing and adding a player keeps the lobby invariant, even when the announcement kicks clients |
| Lobby.StepKeeps | server/Server.cpp:22-61 | Every event keeps the lobby invariant |
| Lobby.Reachable | server/Server.cpp:22-61 | The invariant holds after any sequence of events from the empty lobby |
| Lobby.StreamsNetOut | server/Server.cpp:63-139 | In every reachable lobby, client c's stream says about x: one leave if x was there when c came and has left; one join, with x's team, if x came later, and one leave after it if x has left; nothing otherwise |
| Lobby.TeamsEven | server/Server.cpp:141-181 | In every reachable lobby there are at most 4 clients; after k departures the teams differ by at most k + 1, and with none they are the two halves, the mercenaries the larger |
| Lobby.IdsDistinct | server/Server.cpp:165-169 | In every reachable lobby ids increase in vector order and are never issued again; as 32-bit ids they are distinct for the first 2^32 players |
| Lobby.IdsCollide | server/Server.cpp:165-169 | The bound is sharp: a run of 2^32 + 1 ids after which two players who are both present have the same 32-bit id |
| Server.Client.AddPacketToQueue | server/Client.cpp:32-42 | Appends the packet's bytes to the chosen queue only; the TCP queue stays the encoding of the unsent part of the stream |
| Server.Client.SendPacketQueue | server/Client.cpp:44-57 | Gives the chosen socket, TCP or UDP, exactly the queued bytes and empties that queue only, whether or not sending succeeds; fails iff there was something to send and the socket fails |
| Server.Client.QueueDecodes | server/Client.cpp:32-57 | A client's TCP queue is always whole packets and decodes to exactly the queued list |
| Server.Client.StreamDecodes | server/Client.cpp:32-80 | Everything the TCP socket was given and what is queued decode to the join answer and then the whole stream |
| Server.Client.SendJoinResponsePacket | server/Client.cpp:72-80 | Gives the socket the answer with the client's id and team |
| Server.Server.KickClient | server/Server.cpp:183-210 | Queues one leave for every other client, then removes the client if it is in the vector; a null pointer changes nothing |
| Server.Server.Broadcast | server/Server.cpp:63-75 | Each client gets exactly one turn, in order and none skipped by an erasure; exactly the connected ones are kept, in their order, with the packet queued for the chosen socket and nothing for the other, and the new state is the sweep of the old one |
| Server.Server.FlushClientPacketQueues | server/Server.cpp:77-94 | Each client gets exactly one turn and is kept iff it is connected and sending what each of its queues then holds works; the survivors keep their order, each has given its UDP socket all that was queued, and its TCP queue holds the bytes of the leaves of the clients kicked at later positions |
| Server.Server.TeamCounts | server/Server.cpp:147-162 | Counts the clients of each team |
| Server.Server.GetTeamForNextPlayer | server/Server.cpp:171-181 | The smaller team, the mercenaries on a tie |
| Server.Server.GetNextPlayerID | server/Server.cpp:165-169 | The counter's value, which then grows by one and wraps at 2^32 |
| Server.Server.AcceptNewClient | server/Server.cpp:97-139 | Takes a possible connection step of the lobby and writes exactly the reply that is due: a join request gets the acceptance with the next id and the smaller team, anything else (a silent socket, another packet) gets nothing. Iff the acceptance could be sent, a fresh client with the next ticket and the port it named stands last, behind those that are still connected; otherwise the clients stay as they are |
| Server.ReplyOctets | server/Server.cpp:53-57 | A refusal is ten octets, the type and then zeros; an acceptance says so and carries the 32-bit id and the team, 0 for a spy and 1 for a mercenary |
| Server.WireOctets | server/Client.cpp:32-42 | The octets of each lobby packet: its type, the 32-bit id, and for a join the team, 0 for a spy and 1 for a mercenary |
| Server.Server.HandleNewTCPConnections | server/Server.cpp:45-61 | Empties the pending connections by a possible run of connection steps, one for each socket in turn, which says whether it asked to join and whether an acceptance was sent: iff it asked, fewer than 4 clients were there and sending works. Each socket is given exactly the reply due in the lobby it found; outside the lobby phase all are refused and no client changes |
| Server.Server.ServerRound | server/Server.cpp:22-39 | One round serves every pending connection and extends the history of events by a run that ends in a flush, or by a shutdown announcement alone when there is no phase; the lobby stays what the whole history leads to from the empty one |
| Server.Server.AnnounceShutdown | server/Server.cpp:26-28 | Announces the shutdown to exactly the connected clients, and keeps those |
| Server.Server.ClientStreams | server/Server.cpp:63-139 | In every state of the server, what each client's own stream says about each player that was ever added |
| Server.Server.ClientTeams | server/Server.cpp:141-181 | In every state of the server, the bound on clients, their order by ticket and the balance of the teams |
| Protocol.NetworkDwordIsNetworkOrder | shared/Protocol.cpp:63-69 | On either byte order the wire carries the host's value in network order (Appendix B of RFC 791) |
| Protocol.ReadDwordGetsValue | shared/Protocol.cpp:31-60 | A reader of either byte order ends up with the value that was sent |
| Protocol.ValuesRoundTrip | shared/Protocol.cpp:132-215 | For every field layout, decoding gives back the encoded values whatever bytes follow |
| Protocol.Packet.Serialize | shared/Protocol.cpp:132-170 | The fresh array is the encoding of the field values the host sees |
| Protocol.Packet.Deserialize | shared/Protocol.cpp:172-215 | The host then sees the decoded values, memory outside the fields is untouched, and the returned count is the length of the layout |
| Protocol.Packet.AddField | shared/Protocol.cpp:218-221 | Adds one typed pointer and keeps the others |
| Protocol.NewPacket | shared/Protocol.cpp:230-275 | The packet object of a message has the message's layout and values, but for the type byte of a big-endian host, which is 0 |
| Protocol.MessageOctets | shared/Protocol.cpp:230-275 | The octets of each message, one by one: its type code, then its fields in order, dwords most significant octet first |
| Protocol.TypeOnWire | shared/Protocol.cpp:114-119 | The type byte on the wire is the packet type iff the host is little-endian |
| Protocol.SendAndReceive | shared/Protocol.cpp:132-215 | What one packet serialises another of the same layout reads back, on hosts of any byte order and whatever bytes follow |
| Protocol.QueueRoundTrip | server/Client.cpp:32-42 | The concatenated encodings of any messages decode to exactly those messages |
| Protocol.FactoryReads | shared/Protocol.cpp:80-104 | The factory reads back join requests, join answers and join notices whatever follows, and refuses leave and shutdown notices |
| RefCount.StepKeeps | gtest/include/gtest/internal/gtest-linked_ptr.h:142-170 | Every operation keeps captured objects conserved, and deletes exactly those that lose their last owner in it |
| RefCount.RunKeeps | gtest/include/gtest/internal/gtest-linked_ptr.h:142-170 | So does any sequence of operations, and deletions are only ever added |
| RefCount.NothingLeaks | gtest/include/gtest/internal/gtest-linked_ptr.h:194-201 | When all owners are gone, exactly the captured objects have been deleted, each once |
| RefCount.AssignWithinDeletesNothing | gtest/include/gtest/internal/gtest-linked_ptr.h:159-165 | Assigning from an owner of the same object deletes nothing and changes nothing |
| LinkedPtrs.World.Conserved | gtest/include/gtest/internal/gtest-linked_ptr.h:136-210 | In every state of the heap an object that was captured is held or was deleted, once, and never both |
| LinkedPtrs.World.NothingIsLeft | gtest/include/gtest/internal/gtest-linked_ptr.h:136-210 | Once no owner is left, exactly the captured objects have been deleted, each once |
| LinkedPtrs.LinkedPtr.constructor | gtest/include/gtest/internal/gtest-linked_ptr.h:142 | A circle of its own for a new object; the operation extends the history that the heap is the outcome of |
| LinkedPtrs.LinkedPtr.CopyOf | gtest/include/gtest/internal/gtest-linked_ptr.h:146-150 | Joins the circle of the copied owner; the operation extends the history |
| LinkedPtrs.LinkedPtr.Assign | gtest/include/gtest/internal/gtest-linked_ptr.h:159-165 | Refines the counting step, which extends the history; every owner stays on exactly one circle with all and only the owners of its object |
| LinkedPtrs.LinkedPtr.Reset | gtest/include/gtest/internal/gtest-linked_ptr.h:168-171 | Refines the counting step, with the same circles invariant |
| LinkedPtrs.LinkedPtr.Destroy | gtest/include/gtest/internal/gtest-linked_ptr.h:143 | Refines the counting step, with the same circles invariant |
| LinkedPtrs.LinkedPtr.Depart | gtest/include/gtest/internal/gtest-linked_ptr.h:194-196 | Leaves the circle, and deletes the object iff no owner is left |
| LinkedPtrs.LinkedPtr.Capture | gtest/include/gtest/internal/gtest-linked_ptr.h:198-201 | Takes over an object nobody captured before, on a circle of its own |
| LinkedPtrs.LinkedPtr.Copy | gtest/include/gtest/internal/gtest-linked_ptr.h:203-209 | Shares the object of another owner, or stays alone when it has none |
| LinkedPtrs.LinkedPtr.Join | gtest/include/gtest/internal/gtest-linked_ptr.h:108-116 | The walk around the circle ends, and the circle is linked with the new member in it |
| LinkedPtrs.LinkedPtr.DepartRing | gtest/include/gtest/internal/gtest-linked_ptr.h:120-129 | The walk ends, the rest of the circle is linked without the member, and the result says whether it was the last |
| Shuffling.NextStateIsLinear | gtest/src/gtest.cc:291-294 | 32-bit wrap-around does not disturb the linear congruence modulo 2^31 |
| Shuffling.Random.Generate | gtest/src/gtest.cc:291-306 | Steps the generator and reduces its state to the range |
| Shuffling.DrawAt | gtest/src/gtest-internal-inl.h:325-333 | Draw k of a shuffle is the generator's state after k + 1 steps, reduced to the width that is left, and one step is taken for each draw |
| Shuffling.ShuffleRange | gtest/src/gtest-internal-inl.h:311-334 | The in-place loop performs the Fisher-Yates shuffle of the range with the generator's draws |
| Shuffling.Shuffle | gtest/src/gtest-internal-inl.h:336-340 | The same for the whole vector |
| Shuffling.ShufflePermutes | gtest/src/gtest-internal-inl.h:325-333 | A shuffle loses nothing and moves nothing outside its range |
| Shuffling.EveryOrderReached | gtest/src/gtest-internal-inl.h:325-333 | Every order of the range is the result of some draws |
| Shuffling.OrderReachedOnce | gtest/src/gtest-internal-inl.h:325-333 | Different draws give different orders, so draws and orders correspond one to one |
| Scheduler.DeathCasesFirst | gtest/src/gtest.cc:4173-4206 | For any requests, the death test cases are exactly the first ones, each requested name stands once, and nothing else does |
| Scheduler.UnitTestImpl.GetTestCase | gtest/src/gtest.cc:4173-4206 | Returns the case of that name; a new death case is inserted after the last one, any other at the end, and the others keep their order |
| Scheduler.UnitTestImpl.AddTestInfo | gtest/src/gtest-internal-inl.h:654-674 | Adds exactly the given test to the registered ones, in the case it names |
| Scheduler.UnitTestImpl.DeathSlots | gtest/src/gtest.cc:4190-4199 | The death test cases occupy exactly the slots up to `last_death_test_case_` |
| Scheduler.TestCase.AddTestInfo | gtest/src/gtest.cc:2423-2426 | Appends the test and its index |
| Scheduler.TestCase.Run | gtest/src/gtest.cc:2429-2454 | Runs the chosen tests in the order of the indices, none when the case is not to run |
| Scheduler.TestCase.ShuffleTests | gtest/src/gtest.cc:2463-2465 | Shuffles the indices of the tests, which stay an order of them |
| Scheduler.TestCase.UnshuffleTests | gtest/src/gtest.cc:2468-2472 | Restores the identity |
| Scheduler.UnitTestImpl.ShuffleTests | gtest/src/gtest.cc:4601-4613 | Shuffles the death cases, the others, and the tests of each case with successive draws; the two groups stay apart |
| Scheduler.UnitTestImpl.UnshuffleTests | gtest/src/gtest.cc:4616-4623 | Restores the order of registration of cases and tests |
| Scheduler.UnitTestImpl.AccessorsAgree | gtest/src/gtest-internal-inl.h:584-596 | The read-only and the mutable accessor agree on every index iff the test case indices are the identity |
| Scheduler.AccessorsDiffer | gtest/src/gtest-internal-inl.h:584-596 | A program with two test cases and seed 1, whose shuffle swaps them, so that the accessors differ at index 0 |
| Scheduler.UnitTestImpl.RunTestCases | gtest/src/gtest.cc:4312-4317 | Runs case after case in the order of the indices; every test that is to run runs exactly once, no other does, and all death tests come first |
| Scheduler.FilteredNext | gtest/src/gtest.cc:4474-4502 | One test gets the verdict of the filter and of the shard, its number being the count of the runnable tests before it |
| Scheduler.UnitTestImpl.FilterTests | gtest/src/gtest.cc:4455-4507 | Every registered test carries the selection's verdict, a case is to run iff one of its tests is, and the result counts the selected tests |
| Scheduler.UnitTestImpl.RunAllTests | gtest/src/gtest.cc:4222-4349 | Each repetition runs each selected test once and no other, death tests first. Without shuffling it is, as a sequence, the selected tests in registration order; with it, cases and tests come in the orders that the draws of that repetition's seed give, the seeds going round 1..99999 from the one that the flag asks for. Everything is left in registration order |
| Scheduler.ShuffledRunIsDue | gtest/src/gtest.cc:4291-4317 | Running the shuffled cases one after the other gives the selected tests read through the case order and the test orders of the seed's draws |
| Scheduler.FilteredChooses | gtest/src/gtest.cc:4455-4507 | The tests marked to run are exactly those that match the filter, are not disabled, and whose number modulo the number of shards is this shard |
| Scheduler.ShardsRunEachTestOnce | gtest/src/gtest.cc:4444-4507 | Over all shards of a run, each runnable test runs on exactly one and every other test on none |
| Scheduler.SeedFromFlagMeans | gtest/src/gtest-internal-inl.h:133-146 | A valid seed: the flag itself when it is one, otherwise the flag, or the clock for 0, as a 32-bit unsigned number modulo 99999 |
| Scheduler.GetNextRandomSeed | gtest/src/gtest-internal-inl.h:151-157 | The seed of repetition i + 1 when given that of repetition i: seeds go round from 1 to 99999 |
| Sharding.ShouldShard | gtest/src/gtest.cc:4381-4421 | Ends the program exactly for inconsistent variables outside a death test; honours them, unchanged, exactly when the index is in range of more than one shard |
| Sharding.SelectionAt | gtest/src/gtest.cc:4492-4502 | A test is selected iff it is runnable and, when sharding, the count of runnable tests before it modulo the number of shards is this shard |
| Sharding.ShardsPartition | gtest/src/gtest.cc:4444-4446 | A test is runnable iff some shard picks it, and no two shards pick the same |
| Sharding.ShardsBalanced | gtest/src/gtest.cc:4444-4446 | Shard sizes differ by at most one, earlier shards having the larger |
| Sharding.SizesAddUp | gtest/src/gtest.cc:4498-4507 | The sizes returned by all shards add up to the number of runnable tests |
| Glob.MatcherExact | gtest/src/gtest.cc:440-455 | The recursive matcher decides the glob relation for the pattern up to its first colon; it terminates |
| Glob.MatchesFilter | gtest/src/gtest.cc:457-476 | True iff one of the pieces between colons matches the name |
| Glob.FilterMatchesTest | gtest/src/gtest.cc:480-506 | True iff a positive piece before the first dash matches the full name, everything when there is none but a dash, and no negative piece after it does |
| Glob.WildcardForms | gtest/src/gtest.cc:440-455 | A star before, after or around a plain text selects the names that end with, start with or contain it |
| Glob.DeathTestNames | gtest/src/gtest.cc:158 | The built-in filter selects exactly the names that end in DeathTest or contain it before a slash |
| Glob.DisabledNames | gtest/src/gtest.cc:153 | The built-in filter selects exactly the names that start with DISABLED_ or have it after a slash |
| Argv.FlagValueMeans | gtest/src/gtest.cc:4677-4704 | The value is what follows prefix, name and equals sign; only an optional value may be left out with its sign |
| Argv.AcceptedIsUnique | gtest/src/gtest.cc:4900-4927 | At most one of the seventeen flags accepts an argument, so their order does not matter |
| Argv.RecognizedMeans | gtest/src/gtest.cc:4900-4927 | Some flag accepts an argument iff the argument gives some flag a value |
| Argv.ParsedIsGiven | gtest/src/gtest.cc:4706-4760 | Parsing finds exactly the value given by the text: a bool flag is true when named alone and otherwise false iff its text starts with 0, f or F; a string flag gets its text; an int flag gets the number iff `strtol` reads the whole text and it fits 32 bits |
| Argv.StringFlags | gtest/src/gtest.cc:4903-4924 | The flags that take a text, by name |
| Argv.Int32Flags | gtest/src/gtest.cc:4916-4922 | The flags that take a number, by name |
| Argv.BoolFlags | gtest/src/gtest.cc:4900-4927 | The flags that are on when named alone, by name |
| Argv.HelpMeans | gtest/src/gtest.cc:4768-4774 | Help is asked for by four fixed arguments, and by anything that starts with `--`, `-` or `/` and the prefix of this library but not the one of its internal flags |
| Argv.LastValueWins | gtest/src/gtest.cc:4900-4927 | A flag ends with the value that the last argument giving it one gives, and keeps its own when none does |
| Argv.Shift | gtest/src/gtest.cc:4932-4934 | Moves the rest of the list and its null pointer one place down |
| Argv.GoogleTest.ParseGoogleTestFlagsOnly | gtest/src/gtest.cc:4889-4956 | Leaves argv[0] and the arguments that give no flag a value, in order, null pointers among them included, and null pointers from the new count to the old one; each flag has the last value that an argument gives it, or its old one; the help flag is set iff an argument left over asks for help; the stepped-back index still terminates |
| StringLiteral.PrintAsCharLiteralTo | gtest/src/gtest-printers.cc:142-184 | Writes the escape of a unit and says of which kind it is |
| StringLiteral.PrintAsStringLiteralTo | gtest/src/gtest-printers.cc:188-199 | The same inside a string literal |
| StringLiteral.PrintCharsAsStringTo | gtest/src/gtest-printers.cc:255-271 | Appends the literal, broken wherever a hexadecimal escape would grow |
| StringLiteral.ReadPrinted | gtest/src/gtest-printers.cc:142-271 | Read as adjacent C++ literals with greedy escapes, the output gives the units with each NUL joined to the octal digits after it |
| StringLiteral.RoundTripExact | gtest/src/gtest-printers.cc:142-271 | The output reads back as the original iff no NUL is directly followed by an octal digit |
| StringLiteral.DigitAfterNulIsLost | gtest/src/gtest-printers.cc:144-146 | NUL and the digit 1 read back as the single unit 1 |
| StringLiteral.PlainPrinted | gtest/src/gtest-printers.cc:142-271 | Printable ASCII other than the quote and the backslash is written as itself between the quotes |
| Xml.OutputXmlCDataSection | gtest/src/gtest.cc:3246-3263 | Writes the data as sections that are split at each closing mark |
| Xml.OneSection | gtest/src/gtest.cc:3246-3263 | Data without a closing mark is one section, written as it is |
| Xml.SeveralSections | gtest/src/gtest.cc:3246-3263 | Data with one ends its section there, writes the mark as `]]&gt;` and goes on in a new section |
| Xml.CDataRoundTrip | gtest/src/gtest.cc:3246-3263 | Parsing the sections (sections 2.4 and 2.7 of XML 1.0) gives back exactly the text, overlapping brackets included |
| Xml.EscapeXml | gtest/src/gtest.cc:3139-3180 | Escapes character by character |
| Xml.PlainTextSurvives | gtest/src/gtest.cc:3026-3028 | Text of tab, newline, return and 0x20 to 0x7F (section 2.2 of XML 1.0) is left alone when invalid characters are removed, and resolves back whole from its escaped form in both modes |
| Xml.ControlsDropped | gtest/src/gtest.cc:3026-3028 | No other character below 0x20 is in either output |
| Xml.RemoveInvalidXmlCharacters | gtest/src/gtest.cc:3185-3194 | Keeps exactly the valid characters, in order |
| Xml.EscapeRoundTrip | gtest/src/gtest.cc:3139-3194 | Resolving references, and normalizing in attribute mode (sections 3.3.3, 4.1 and 4.6 of XML 1.0), gives the valid characters of the original |
| Xml.NoRawMarkup | gtest/src/gtest.cc:3139-3180 | The output has no `<`, no `&` but at the start of one of the written references, and in attribute mode no quote and no whitespace that normalization would change |
| Xml.NonAsciiBytes | gtest/src/gtest.cc:3185-3194 | For every byte string, signed char loses exactly the bytes above 127 on top of the invalid ones, and the result is the same as elsewhere iff there are none |
| Xml.NonAsciiEscaped | gtest/src/gtest.cc:3139-3180 | The same of escaped text in both modes |
| Xml.NonAsciiExample | gtest/src/gtest.cc:3185-3194 | An accented letter in UTF-8 between two ASCII letters is lost where char is signed and kept elsewhere |
| Utf.ChopLowBits | gtest/src/gtest.cc:1424-1428 | For every n below the width, splits the bits into n low ones and the rest moved down, which together are the original |
| Utf.CodePointToUtf8 | gtest/src/gtest.cc:1436-1462 | Writes the encoding up to its first NUL, or the notice for a code point above 21 bits |
| Utf.NoticeReads | gtest/src/gtest.cc:1430-1439 | The notice carries the code point as an upper-case hexadecimal number without leading zeros |
| Utf.NulReplaced | gtest/src/gtest.cc:1659-1675 | Whatever surrounds it, a NUL in the stream becomes a backslash and a zero digit |
| Utf.EncodeHasLayout | gtest/src/gtest.cc:1402-1462 | The octets are exactly those of the documented layout of up to 21 bits, in the shortest form, and no others have it |
| Utf.EncodeIsRfc3629 | gtest/src/gtest.cc:1402-1462 | Octets meet section 3 of RFC 3629 for a value iff it is a scalar value and they are its encoding |
| Utf.EncoderConforms | gtest/src/gtest.cc:1436-1462 | What is written meets the standard iff the value is scalar; other values are encoded too, though the standard has no octets for them |
| Utf.NonScalarExamples | gtest/src/gtest.cc:1436-1462 | The octets written for a surrogate and for U+110000, which the standard does not allow |
| Utf.NoticeExact | gtest/src/gtest.cc:1430-1439 | A code point is written as the comment promises iff it is not above U+10FFFF within 21 bits |
| Utf.PromisedExact | gtest/src/gtest.cc:1495-1521 | A whole list of code points converts as promised iff none of them is one of those |
| Utf.OverlookedExample | gtest/src/gtest.cc:1495-1521 | U+110000 in a 32-bit wide string becomes four octets instead of the notice |
| Utf.EncodingRoundTrip | gtest/src/gtest.cc:1436-1462 | The concatenated encodings of any code points of up to 21 bits decode back to them; a reader of the standard accepts them iff all are scalar values |
| Utf.WideStringToUtf8 | gtest/src/gtest.cc:1500-1521 | Converts the code points found in the string up to its limit and terminator |
| Utf.Utf16Converts | gtest/src/gtest.cc:1471-1521 | With 16-bit characters, well-formed UTF-16 (section 2.2 of RFC 2781) becomes standard UTF-8 of the same code points, and ill-formed UTF-16 becomes octets that a reader of the standard refuses |
| Utf.Utf32Converts | gtest/src/gtest.cc:1500-1521 | With 32-bit characters every unit is a code point of its own |
| Primes.IsPrime | gtest/samples/sample1.cc:47-68 | Odd trial divisors up to the square root decide primality |
| Primes.Factorial | gtest/samples/sample1.cc:37-44 | The product of the numbers from 1 to n, and 1 when n is less than 1 |
| Primes.PrimeAbove | gtest/samples/prime_tables.h:69-75 | Euclid's theorem with the bound p! + 1, which is why the search ends |
| Primes.OnTheFlyPrimeTable.IsPrime | gtest/samples/prime_tables.h:58-67 | Trial division decides primality |
| Primes.OnTheFlyPrimeTable.GetNextPrime | gtest/samples/prime_tables.h:69-75 | The least prime above p for p >= 0, else -1 |
| Primes.PreCalculatedPrimeTable.CalculatePrimesUpTo | gtest/samples/prime_tables.h:102-114 | The sieve leaves marked exactly the primes up to max |
| Primes.PreCalculatedPrimeTable.IsPrime | gtest/samples/prime_tables.h:89-91 | Decides primality within the table |
| Primes.PreCalculatedPrimeTable.GetNextPrime | gtest/samples/prime_tables.h:93-99 | The least prime above p within the table, or -1 when there is none |
| Primes.HybridPrimeTable.IsPrime | gtest/samples/sample8_unittest.cc:62-67 | Decides primality whichever table answers |
| Primes.HybridPrimeTable.GetNextPrime | gtest/samples/sample8_unittest.cc:69-75 | The least prime above p for p >= 0, whichever table answers; below, 2 when a precalculated table holds it, else -1 |
| Primes.TablesAgree | gtest/samples/sample8_unittest.cc:50-81 | Trial division, odd divisors, sieve and hybrid agree on every number in range; so do the searches of trial division and hybrid, and the sieve finds the same prime or -1 beyond its range |

## Left out

- Sockets, host resolution, timeouts and sleeping: what a socket does is an arbitrary input of the server model.
- Reading batches of packets from a socket: the loop never learns a packet's length, so batches are decoded with the count that deserialising returns.
- Protocol.Packet.Deserialize: requires as many bytes as the layout has; the code ignores the length it is given.
- Protocol.Packet.AddField: requires a variable that is not a field already; the packet classes never list one twice.
- Ownership of packet buffers, sockets and clients, and their deletion; only `linked_ptr` has deletion as an observable event.
- Thread interleaving in the connection listener and the `linked_ptr` mutex: pending connections are a queue, and owner operations are atomic.
- Conversions between `linked_ptr` types, which follow the same circle.
- Scheduler.UnitTestImpl.RunAllTests: a negative repeat count repeats forever and is not modelled; environments, listeners, results, and a fatal failure in the global set-up are left out.
- Scheduler.UnitTestImpl.ShuffleTests: requires sizes that fit the generator's range, which the code checks by ending the program.
- Scheduler.UnitTestImpl.GetTestCase: requires unshuffled tests, as its comment does; the type parameter and set-up functions are left out.
- Argv.GoogleTest.ParseGoogleTestFlagsOnly: `strtol` is a parameter; wide arguments and the help text are left out.
- Xml.Resolve: line-end handling of the processor and references to other entities are not modelled; the text is bytes.
- StringLiteral.Read: trigraphs and universal character names are not read.
- Primes.OnTheFlyPrimeTable.IsPrime: integers are unbounded; overflow of the 32-bit counters is not modelled.
- Primes.HybridPrimeTable.GetNextPrime: with a precalculated table, requires p >= -1; below, the code reads outside its array.
- Utf.ChopLowBits: requires fewer bits than the width; a longer shift is undefined.
- Death-test processes, stream capture, locale and time functions, console colours and file names: operating-system calls.
- Assertion macros, generated arity boilerplate, parameterised test generators and the code generator script.
- Rendering, shaders, physics, lighting, input and map parsing in the client: foreign calls and floating point.
