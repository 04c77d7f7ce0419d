# opendnp3 side tools and transport: a verified model

This project models the parts of the opendnp3 repository that have real algorithmic content and
proves what they are meant to guarantee, for every input and every run:

- **Console input** (`LineReader`, `SyncProxy`): the CRLF framer in its fixed buffer, the line
  queue that feeds it, and the two together from a typed line to `AcceptLine`.
- **Console output** (`PhysicalLayer`, `SendQueue`): the flags of an asynchronous physical layer,
  and the terminal's chunked send queue driven by its callbacks.
- **Commands** (`CommandTrie`): the heap-allocated command tree against a plain map of paths.
- **Declaration ordering** (`DeclarationOrder`): the in-place multi-pass sort of the code
  generator against a least fixpoint.
- **Configuration files** (`XmlText`, `XmlBinding`, `XmlSchemas`, `XmlElements`): the generated
  XML binding. A schema lists what a generated class touches, in the order in which its code does;
  toXml and fromXml of every class are one function and one method of the schema. `XmlSchemas` holds
  the schema of every class of the four generated files, `XmlElements` builds and reads the mutable
  XML tree.
- **DNP3 framing** (`Crc`, `CrcBurst`, `CrcDivision`, `LinkFrame`, `LinkReceiver`, `RepairCrc`,
  `Transport`): the CRC table, the polynomial it divides by and the errors it cannot miss, link frames (clause 9 of IEEE Std 1815-2012), the
  resynchronizing receiver on its shifting buffer, the block-wise CRC repair, and transport
  segmentation over a channel that loses segments.
- **Test tools** (`TimerPool`, `Loopback`, `BulkTransfer`, `Convergence`, `TeamCity`): the timer
  pool with its dispatcher, the loopback layer, windowed bulk transfer, convergence detection by
  counting, and service messages for a build server.

The shape is the same throughout. What changes state in the source is a class or an in-place method
here, and its contract equates the new state with a pure function of the old one; the properties are
lemmas about those functions, over whole runs. Exceptions are results (`Threw`, `None`, `false`);
only what the source asserts of its own callers is a precondition. Callbacks are steps of a run.

Five findings are stated as theorems next to the property they limit:

- `LineFraming.NextLineSurvives`: a typed line that fits is accepted unchanged exactly when the lines
  before it leave no stray LF in the buffer. `Stray` reckons that from their lengths: a line, with the
  LF it may have met, spoils the next one when it is one octet short of a multiple of the buffer.
  With the terminal's 100 octets a line of 99 spoils one of 98, and that one the line after it.
- `SendQueue.EmptyTextSticks`: an empty text passed to `QueueSend` makes a later `AsyncWrite` throw,
  and what is queued behind it stays although the layer could write. `SendQueue.QueuedTextGoesOut`
  says that a call and the write callbacks it takes to empty the queue all return exactly when the
  text is not empty, also where the layer is busy and the call itself returns either way.
- `XmlBinding.FullRoundTrip` and `XmlBinding.SaveSucceeds`: configurations survive exactly when no
  string holds a NUL, and are written at all exactly when every enumeration is in range. A save of
  the valid parts only (`XmlBinding.ValidRoundTrip`) also loses the items not marked valid, as
  those made with `new` are; what fromXml left has none (`XmlBinding.SaveLoadSave`).
- `Transport.WrapCorrupts`: losing 64 segments in a row delivers a fragment with a hole, since the
  numbering has six bits. `Transport.LossySafety` holds for every loss pattern: exactly the fragments
  that arrived whole and fit come out if and only if the pattern splices none, which `Splices` counts
  from the losses and the lengths alone.
- `DeclarationOrder.CompleteIffRanked`: the generator emits every type exactly when the dependency
  graph is closed and acyclic; otherwise it drops the rest after a message.

`dafny verify dfyconfig.toml` checks everything.

## Model

| member | source | states |
|---|---|---|
| `LineFraming.FeedConserves` | Terminal/LineReader.cpp:35-67 | over every input: accepted lines, dropped buffers and held octets spell out the input in order; a line holds no CRLF, and only a full buffer without CRLF is dropped |
| `LineFraming.FramingUnique` | Terminal/LineReader.cpp:35-67 | what is conserved determines the outcome: no other lines and dropped buffers spell out the same stream |
| `LineFraming.LineOnTheWire` | Terminal/LineReader.cpp:49-67 | a text without 0A that fits, followed by the octets 0D 0A, is accepted as that text |
| `LineFraming.ReceiveRefinesFeed` | Terminal/LineReader.cpp:41-67 | one receive callback, with its scan, memmove and recursion, does what the octet-at-a-time automaton does |
| `LineFraming.RunIsFeed` | Terminal/LineReader.cpp:35-67 | any admissible run of reads equals the automaton on the uncut stream |
| `LineFraming.ChunkingIndependence` | Terminal/LineReader.cpp:35-67 | two ways of cutting one stream accept the same lines and keep the same rest |
| `LineFraming.KeptLength` | Terminal/LineReader.cpp:35-39 | a line of any length without LF leaves exactly its length modulo the buffer size |
| `LineFraming.ConsoleLine` | Terminal/LineReader.cpp:35-67 | the exact fate of one line of any length: accepted as its kept tail, or swallowed with a stray LF left behind |
| `LineFraming.ShortLinesSurvive` | Terminal/LineReader.cpp:35-67 | lines of at most size-2 octets are accepted once, in order, unchanged |
| `LineFraming.LongLineSpoilsNext` | Terminal/LineReader.cpp:35-67 | from either state between lines, a line spoils the short one typed next if and only if, with the stray LF it may have met, it is one octet short of a multiple of the buffer |
| `LineFraming.TypedLines` | Terminal/LineReader.cpp:35-67 | the exact fate of any typed lines of any lengths: what is accepted, and the stray LF they leave, reckoned from lengths |
| `LineFraming.NextLineSurvives` | Terminal/LineReader.cpp:35-67 | after any typed lines, the next line that fits is accepted unchanged if and only if their lengths leave no stray LF |
| `LineFraming.LineReader.Read` | Terminal/LineReader.cpp:35-39 | a full buffer is discarded, then the whole free space is requested |
| `LineFraming.LineReader.OnReceive` | Terminal/LineReader.cpp:41-47 | the fields after a callback are the automaton fed with the octets received; no read follows when the layer cannot read |
| `LineFraming.LineReader.ReadBuffer` | Terminal/LineReader.cpp:49-67 | every complete line in the buffer is accepted in order and nothing else changes; no CRLF is left |
| `LineFraming.LineReader.OnOpened` | Terminal/LineReader.cpp:17-21 | opening requests a read of the whole buffer |
| `LineFraming.LineReader.OnClosed` | Terminal/LineReader.cpp:23-33 | closing forgets the held octets |
| `SyncProxying.SyncProxy.CheckForRead` | Terminal/PhysicalLayerSyncProxy.cpp:38-54 | a waiting read gets the front of the first queued line, as many octets as it asked for or the whole line, and the remainder goes back to the front |
| `SyncProxying.SyncProxy.DoAsyncRead` | Terminal/PhysicalLayerSyncProxy.cpp:67-75 | a read is answered from the queue at once or left waiting; octets delivered and queued stay those of the lines read |
| `SyncProxying.SyncProxy.RunOnce` | Terminal/PhysicalLayerSyncProxy.cpp:85-95 | the thread reads a line only for a waiting read, and nothing is lost, doubled or reordered |
| `SyncProxying.SyncProxy.Reset` | Terminal/PhysicalLayerSyncProxy.cpp:30-36 | the queue and the waiting read are dropped |
| `ConsolePipeline.HandUp` | Terminal/PhysicalLayerSyncProxy.cpp:38-75 | one hand-over between proxy and reader, whose next request is for its new free space |
| `ConsolePipeline.Pump` | Terminal/PhysicalLayerSyncProxy.cpp:38-95 | any typed lines reach the reader as one uncut stream would |
| `ConsolePipeline.Session` | Terminal/PhysicalLayerIOStreamAsync.cpp:15-21 | from an open session on, proxy and reader objects accept of typed lines of any length exactly what is reckoned; those of at most size-2 octets once, in order and unchanged |
| `PhysicalLayers.StepBalanced` | opendnp3/APL/PhysicalLayerAsyncBase.cpp:98-105 | every call and callback keeps the flags consistent and accounts for each read, write, up and down notice |
| `PhysicalLayers.RunBalanced` | opendnp3/APL/PhysicalLayerAsyncBase.cpp:132-262 | in every run each accepted read and write is called back exactly once or outstanding, up and down notices alternate, and no callback is outstanding once the layer is down |
| `PhysicalLayers.CallsAccepted` | opendnp3/APL/PhysicalLayerAsyncBase.cpp:132-186 | an open is accepted on a closed layer only, a close at any other time but once, a read or write one at a time on an open layer that is not closing |
| `PhysicalLayers.FailureCloses` | opendnp3/APL/PhysicalLayerAsyncBase.cpp:145-160 | a close, or a read or write that fails, ends in a closed layer, at once or when what is outstanding has been called back; until then nothing is accepted |
| `PhysicalLayers.ClosingDrains` | opendnp3/APL/PhysicalLayerAsyncBase.cpp:93-105 | whatever order the outstanding callbacks come in, the last one and none before it leaves the layer closed |
| `PhysicalLayers.OpenCompletes` | opendnp3/APL/PhysicalLayerAsyncBase.cpp:188-215 | a successful open leaves the layer open and idle; one that fails, or finds the layer closing, leaves it closed |
| `SendQueue.ChunksCover` | Terminal/Terminal.cpp:215-226 | the chunks are the data, each fits, all but the last are full, and an empty chunk comes from empty data only |
| `SendQueue.HandleConserves` | Terminal/Terminal.cpp:186-236 | every event, exceptions included, keeps written plus queued equal to what was passed to QueueSend |
| `SendQueue.RunConserves` | Terminal/Terminal.cpp:186-236 | over every run since the layer last went down: octets handed to AsyncWrite followed by the queue are all data queued, in order |
| `SendQueue.QueuedTextGoesOut` | Terminal/Terminal.cpp:207-236 | on a layer in use, busy or idle, QueueSend and all the write callbacks that empty the queue return without an exception if and only if its text is not empty, and then everything queued is on the wire |
| `SendQueue.DrainsIffNoneEmpty` | Terminal/Terminal.cpp:228-236 | from any queue behind an outstanding write, the write callbacks all return if and only if no queued chunk is empty |
| `SendQueue.HandleIsGood` | Terminal/Terminal.cpp:186-236 | with no empty text an event throws only where the layer forbids the call, and a writable layer has an empty queue |
| `SendQueue.RunIsGood` | Terminal/Terminal.cpp:186-236 | the same over every run |
| `SendQueue.FlagsFollow` | opendnp3/APL/PhysicalLayerAsyncBase.cpp:132-262 | apart from reads and writes that are started, every event changes the flags as on any layer, and a forbidden one changes nothing |
| `SendQueue.HandleListens` | Terminal/LineReader.cpp:41-47 | an open layer that is not closing has a read outstanding, after every event but a read callback in which a reply throws |
| `SendQueue.RunListens` | Terminal/LineReader.cpp:41-47 | so it does over every run without an empty text |
| `SendQueue.ReadResumes` | Terminal/LineReader.cpp:41-47 | on a layer in use a read callback whose replies are not empty returns with the replies queued in order and the next read started |
| `SendQueue.OpenGreets` | Terminal/Terminal.cpp:181-200 | when the layer comes up a read is started and banner and prompt are queued in this order; an open that fails sends nothing |
| `SendQueue.DownDrops` | Terminal/Terminal.cpp:202-205 | an event that takes the layer down leaves it closed, with nothing queued |
| `SendQueue.Drains` | Terminal/Terminal.cpp:228-236 | one write callback per chunk puts everything queued on the wire |
| `SendQueue.EmptyTextSticks` | opendnp3/APL/PhysicalLayerAsyncBase.cpp:162-171 | the turn of an empty chunk throws and strands what is queued behind it, for any rest |
| `SendQueue.EmptyTextIsReached` | Terminal/Terminal.cpp:186-226 | a concrete run from a new terminal reaches that state |
| `SendQueue.AsyncLayer.AsyncWrite` | opendnp3/APL/PhysicalLayerAsyncBase.cpp:162-171 | refused exactly for no octets or a layer that cannot write; otherwise the octets are outstanding |
| `SendQueue.Terminal.CheckForSend` | Terminal/Terminal.cpp:186-194 | the front is copied to the send buffer and written only while no write is outstanding, so an outstanding buffer is never overwritten |
| `SendQueue.Terminal.QueueSendRecursive` | Terminal/Terminal.cpp:216-226 | the recursion queues exactly the chunks and sends once |
| `SendQueue.Terminal.QueueSend` | Terminal/Terminal.cpp:207-213 | state after the call, as the specification of the run says |
| `SendQueue.Terminal.OnWriteCallback` | opendnp3/APL/PhysicalLayerAsyncBase.cpp:240-262 | a write callback sends the next chunk, or completes a close |
| `SendQueue.Terminal.OnOpenCallback` | Terminal/Terminal.cpp:196-200 | an open starts a read and queues banner and prompt |
| `SendQueue.Terminal.OnReadCallback` | opendnp3/APL/PhysicalLayerAsyncBase.cpp:217-238 | replies sent while receiving go out in order, then reading resumes |
| `SendQueue.Terminal.AsyncClose` | opendnp3/APL/PhysicalLayerAsyncBase.cpp:145-160 | a close completes at once or when the callbacks are in |
| `SendQueue.Terminal.Down` | Terminal/Terminal.cpp:202-205 | the queue is cleared and the accounts start anew |
| `CommandTrie.TokenNode.FindNode` | Terminal/TokenNode.h:45-56 | returns the deepest node along the tokens and exactly the unmatched suffix |
| `CommandTrie.TokenNode.AddToken` | Terminal/TokenNode.h:58-64 | one fresh child; the assertion on an existing token is a precondition no caller violates |
| `CommandTrie.TokenNode.SetValue` | Terminal/TokenNode.h:66-69 | only the value of this node changes |
| `CommandTrie.LongestUnique` | Terminal/TokenNode.h:45-56 | a present prefix whose next token leads nowhere is the longest one |
| `CommandTrie.CommandTable.CreateInterior` | Terminal/Terminal.cpp:162-169 | the loop adds exactly the missing prefixes, as a tree with disjoint nodes |
| `CommandTrie.CommandTable.BindCommand` | Terminal/Terminal.cpp:148-179 | refused exactly when the path has a handler, then the map is unchanged; otherwise it gains the command and its prefixes |
| `CommandTrie.CommandTable.RegisterAll` | Terminal/Terminal.cpp:40-102 | registrations are bound in order up to the first refused one, and the tree holds exactly those before it; all are bound if and only if the specified run succeeds |
| `CommandTrie.CommandTable.ProcessLine` | Terminal/Terminal.cpp:260-288 | the handler of the longest registered prefix is called with exactly the remaining tokens, or the subcommands are listed |
| `CommandTrie.BindKeepsPrefixClosed` | Terminal/Terminal.cpp:162-178 | binding keeps the map prefix-closed |
| `CommandTrie.BindAllSucceeds` | Terminal/Terminal.cpp:173-178 | commands with handlers all bind if and only if no path is bound twice or was bound before |
| `CommandTrie.OrderIndependence` | Terminal/Terminal.cpp:148-179 | any order of distinct registrations has the same success and the same tree |
| `CommandTrie.BindAllStores` | Terminal/Terminal.cpp:178 | after the run every registered path holds its command |
| `CommandTrie.BindAllView` | Terminal/Terminal.cpp:148-179 | the whole tree a run of registrations leaves: nodes exactly on the way to registered paths, each with its command, or what it held, or its bare name |
| `CommandTrie.DispatchAt` | Terminal/Terminal.cpp:260-288 | a line is answered by the deepest node its tokens lead to: its handler with the tokens left over, or its subcommands |
| `CommandTrie.SubcommandsAre` | Terminal/TokenNode.h:71-75 | the subcommands listed are the tokens that lead one node further |
| `CommandTrie.RegisteredIsCalled` | Terminal/Terminal.cpp:260-276 | a registered command is what its own line runs, with exactly its arguments, unless an argument names a deeper node |
| `CommandTrie.ChildrenAreSubcommands` | Terminal/TokenNode.h:71-75 | the children of a node are the one-token extensions of its path |
| `DeclarationOrder.EmitCorrect` | CSToCppXMLBinder/CppBinder.cs:230-255 | every type comes after all it depends on, without repetition, and every type left over waits for one that is left over or missing |
| `DeclarationOrder.EmitIsRoundRobin` | CSToCppXMLBinder/CppBinder.cs:219-255 | the order itself: going round the sorted list, each emitted type is the first after the one before it that is ready then, and the first is the first without dependencies |
| `DeclarationOrder.EmitUnique` | CSToCppXMLBinder/CppBinder.cs:219-255 | a list is the emitted one if and only if it is sound, maximal and goes round in this way |
| `DeclarationOrder.OrderUnique` | CSToCppXMLBinder/CppBinder.cs:219-255 | two lists with those three properties are equal |
| `DeclarationOrder.PickAt` | CSToCppXMLBinder/CppBinder.cs:242 | the declarations are the types at the emitted places, in that order |
| `DeclarationOrder.LeastFixpoint` | CSToCppXMLBinder/CppBinder.cs:212-257 | the emitted names are the least set closed under "all dependencies emitted" |
| `DeclarationOrder.CompleteIffRanked` | CSToCppXMLBinder/CppBinder.cs:212-257 | everything is emitted if and only if the dependency graph is closed and acyclic |
| `DeclarationOrder.SortSorts` | CSToCppXMLBinder/CppBinder.cs:228 | sorting yields a sorted permutation |
| `DeclarationOrder.SortedUnique` | CSToCppXMLBinder/CppBinder.cs:199-211 | two sorted lists of the same distinct types are equal |
| `DeclarationOrder.EnumerationIndependence` | CSToCppXMLBinder/CppBinder.cs:216-228 | any enumeration order of the hash table gives the same declarations |
| `DeclarationOrder.TypeSnippet.RemoveDependency` | CSToCppXMLBinder/CppBinder.cs:269-279 | the backward loop removes every occurrence of the name and nothing else |
| `DeclarationOrder.RemoveEntries` | CSToCppXMLBinder/CppBinder.cs:264-281 | the name is removed from the dependencies of every type that still has some list |
| `DeclarationOrder.SweepTypes` | CSToCppXMLBinder/CppBinder.cs:232-248 | one pass over the list, mutating dependencies as it goes, is the specified sweep |
| `DeclarationOrder.EmitTypes` | CSToCppXMLBinder/CppBinder.cs:230-255 | the loop with its two flags terminates with the specified order |
| `DeclarationOrder.GetDeclarationOrder` | CSToCppXMLBinder/CppBinder.cs:212-257 | the method returns the specified declarations and mutates only the dependency lists |
| `XmlText.IntRoundTrip` | APLXML/tinybinding.h:77-103 | every 32-bit integer is read back from its decimal text |
| `XmlText.ParseIntExact` | APLXML/tinybinding.h:77-103 | an integer is read from exactly the texts that are spaces, at most one sign and decimal digits, with their value, if it is in range |
| `XmlText.IntTextCanonical` | APLXML/tinybinding.h:127-130 | integers are written in decimal, without leading zeros, and with a sign only when negative |
| `XmlText.FromTextExact` | APLXML/tinybinding.h:105-121 | exactly which texts are read, and as what, for every kind of attribute |
| `XmlText.TextRoundTrip` | XMLBindings/APLXML_Base.cpp:8-126 | every printable value of every kind is read back as itself, cut at a NUL |
| `XmlText.ReadIsPrintable` | APLXML/tinybinding.h:105-121 | what is read has its kind, no NUL, and can be printed again |
| `XmlBinding.SavedMemberTagged` | XMLBindings/APLXML_DNP.cpp:22-33 | a member writes under its own attribute name or tag only |
| `XmlBinding.OthersInvisible` | XMLBindings/APLXML_Base.cpp:403-430 | other members leave no trace under that name or tag |
| `XmlBinding.EveryoneFindsOwn` | XMLBindings/APLXML_Base.cpp:403-430 | among siblings of several tags each member finds exactly what it wrote, in order |
| `XmlBinding.SaveWrites` | XMLBindings/APLXML_DNP.cpp:20-34 | an object is left out if it is a wrapper without items, or not valid when that counts; any other is one element with its tag |
| `XmlBinding.SavedInOrder` | XMLBindings/APLXML_DNP.cpp:723-755 | members write in the order of the class, attributes and nodes, and one that throws makes the whole throw |
| `XmlBinding.ItemsInOrder` | APLXML/tinybinding.h:182-193 | a collection writes its items in their order, each as a save of its own |
| `XmlBinding.LoadExact` | XMLBindings/APLXML_Base.cpp:170-224 | a load succeeds if and only if every attribute is readable or, where absent, a string or defaulted, and every child and item loads; it yields exactly the attributes read, the defaults, and one item a node |
| `XmlBinding.RoundTrip` | APLXML/tinybinding.h:182-204 | for every class, loading what was saved gives the normal form: written parts valid and cut at NUL, unwritten ones as made |
| `XmlBinding.NormSameData` | XMLBindings/APLXML_DNP.cpp:8-889 | that normal form has the same data if and only if no string holds a NUL |
| `XmlBinding.SaveSucceeds` | XMLBindings/APLXML_Base.cpp:24-40 | a full save throws exactly when an enumeration is out of range |
| `XmlBinding.FullRoundTrip` | XMLBindings/APLXML_DNP.cpp:8-889 | saving everything and loading into a fresh object gives the same fields and the same order in every collection, if and only if no string holds a NUL |
| `XmlBinding.LoadClean` | XMLBindings/APLXML_DNP.cpp:8-19 | what fromXml leaves is valid exactly where a node was present, and printable there |
| `XmlBinding.NormSavesSame` | XMLBindings/APLXML_DNP.cpp:36-55 | saving valid parts never throws on such an object, and its normal form saves to the same tree |
| `XmlBinding.NormSurvives` | XMLBindings/APLXML_DNP.cpp:36-55 | for every object that can be saved, what a save of its valid parts keeps: all of them if and only if no text in them holds a NUL and no item of a collection is invalid |
| `XmlBinding.ValidRoundTrip` | APLXML/tinybinding.h:182-204 | saving the valid parts and loading them into any fresh object keeps every one, and leaves the others absent, under exactly that condition |
| `XmlBinding.SaveLoadSave` | APLXML/tinybinding.h:182-204 | of what fromXml left, the valid parts survive a save and a load: attributes equal, children and items in order, absent parts still absent; and saving again ends with the first saved tree |
| `XmlSchemas.PhysicalLayerListGood` | XMLBindings/APLXML_Base.cpp:397-430 | the physical layer classes are well-formed: distinct names, wrapper of collections only |
| `XmlSchemas.DeviceTemplateGood` | XMLBindings/APLXML_DNP.cpp:723-755 | the point classes of a device are |
| `XmlSchemas.SlaveGood` | XMLBindings/APLXML_DNP.cpp:809-889 | the slave classes are |
| `XmlSchemas.MasterGood` | XMLBindings/APLXML_DNP.cpp:781-807 | the master classes are |
| `XmlSchemas.TestSetsGood` | XMLBindings/APLXML_STS.cpp:8-44 | the two document roots are |
| `XmlSchemas.BlankMakes` | APLXML/tinybinding.h:195-204 | objects fresh from new exist for every class |
| `XmlSchemas.TestSetRoundTrip` | XMLBindings/APLXML_STS.cpp:8-44 | both directions of the round trip for every slave or master configuration tree |
| `XmlSchemas.TestSetSaveLoadSave` | XMLBindings/APLXML_MTS.cpp:8-34 | of every accepted document all valid parts are written and read again, and then written to the same tree |
| `XmlElements.TiXmlNode.SetAttribute` | XMLBindings/APLXML_DNP.cpp:29-33 | replaces the attribute or adds it at the end, nothing else |
| `XmlElements.Grown` | XMLBindings/APLXML_DNP.cpp:22-27 | a node linked to its parent before it was filled makes the parent a tree again, with one more child |
| `XmlElements.WrittenIsSaved` | XMLBindings/APLXML_DNP.cpp:20-34 | what is written without an exception is what is saved |
| `XmlElements.WrittenUpTo` | XMLBindings/APLXML_DNP.cpp:20-34 | a save that throws has written what the members before the thrower save, and of an attribute that throws nothing |
| `XmlElements.ItemsUpTo` | APLXML/tinybinding.h:182-193 | so it is with the items of a collection; the element of the throwing one is linked already |
| `XmlElements.ToXml` | XMLBindings/APLXML_DNP.cpp:20-34 | the mutable tree gains exactly the written nodes under the parent, in fresh nodes, also those a throwing save has already linked; false where the code throws |
| `XmlElements.WriteMembers` | XMLBindings/APLXML_DNP.cpp:723-755 | the members are written in order into one node, up to one that throws |
| `XmlElements.WriteList` | APLXML/tinybinding.h:182-193 | the iterator loop appends each item in order, up to one that throws |
| `XmlElements.NextElement` | APLXML/tinybinding.h:195-204 | the sibling search finds the first child with the tag from a position on |
| `XmlElements.FromXml` | XMLBindings/APLXML_DNP.cpp:8-19 | reading the mutable tree gives what Load gives on its contents |
| `XmlElements.ReadCollection` | APLXML/tinybinding.h:195-204 | one new item per child with the tag, in order, or the exception |
| `XmlElements.WriteAndRead` | APLXML/tinybinding.cpp:57-82 | written into an empty document and read back: the same data if and only if no string holds a NUL |
| `Crc.PrecomputeCrc` | opendnp3/APL/CRC.cpp:39-51 | the table holds eight shifts of each index |
| `Crc.ComputeCrc` | opendnp3/APL/CRC.cpp:23-37 | the table-driven loop computes the register form |
| `CrcDivision.CrcIsRemainder` | opendnp3/DNP3/DNPCrc.cpp:52-56 | before the inversion the CRC is the remainder of the message times x^16 on division by x^16+x^13+x^12+x^11+x^10+x^8+x^6+x^5+x^2+1, in reflected order |
| `CrcDivision.RemainderUnique` | opendnp3/APL/CRC.cpp:23-37 | there is one such remainder only |
| `CrcDivision.DivisionStep` | opendnp3/APL/CRC.cpp:39-51 | one shift of the register is one step of that division |
| `CrcDivision.CrcOfReset` | DNP3Test/TestCRC.cpp:38-43 | the CRC of the header 05 64 05 C0 01 00 00 04 is 0x21E9 |
| `Crc.LookupIsBits` | opendnp3/APL/CRC.cpp:29-32 | one table step is eight steps of the shift register |
| `Crc.RegisterInjective` | opendnp3/APL/CRC.cpp:23-37 | different registers stay different whatever follows |
| `Crc.TwoOctets` | opendnp3/APL/CRC.cpp:29-32 | two octets are sixteen shifts of the register xored with both |
| `CrcBursts.FeedIsBits` | opendnp3/APL/CRC.cpp:23-37 | up to sixteen bits at once are the shifted register xored with them |
| `CrcBursts.RegisterIsSerial` | opendnp3/APL/CRC.cpp:23-37 | the table form on octets is the register fed bit by bit in the order of the line |
| `CrcBursts.BurstChanges` | opendnp3/APL/CRC.cpp:23-37 | the register tells apart any two bit streams whose differences lie within sixteen consecutive bits |
| `CrcBursts.BurstDetected` | opendnp3/DNP3/DNPCrc.cpp:34-37 | any burst of up to sixteen bits, at any bit offset, changes the register |
| `CrcBursts.GeneratorMissed` | opendnp3/DNP3/DNPCrc.cpp:52-56 | sixteen is the limit: seventeen bits that spell the generator go unnoticed |
| `CrcBursts.NearSplit` | opendnp3/DNP3/DNPCrc.cpp:34-37 | a burst over a boundary is a burst on each side |
| `Crc.LeRoundTrip` | opendnp3/DNP3/DNPCrc.cpp:39-45 | the two CRC octets are read back as the CRC |
| `Crc.LeHalves` | opendnp3/DNP3/DNPCrc.cpp:39-45 | of the two octets the low one comes first |
| `LinkFraming.SealedIffSeal` | opendnp3/DNP3/DNPCrc.cpp:39-50 | a block passes the check if and only if it ends with the CRC of the rest |
| `LinkFraming.SealedIffResidue` | opendnp3/DNP3/DNPCrc.cpp:47-50 | a block passes the check if and only if block and CRC leave one fixed value in the register |
| `LinkFraming.SealedBurst` | opendnp3/DNP3/DNPCrc.cpp:47-50 | a block with a burst of up to sixteen bits anywhere, CRC octets included, fails |
| `LinkFraming.FrameSize` | opendnp3/DNP3/LinkFrame.cpp:92-105 | the computed frame size is the header and the blocks written |
| `LinkFraming.MaxFrameSize` | opendnp3/DNP3/LinkFrame.cpp:92-105 | no frame exceeds 292 octets |
| `LinkFraming.UserDataRoundTrip` | opendnp3/DNP3/LinkFrame.cpp:189-197 | user data is read back from its blocks, and every block passes |
| `LinkFraming.UserDataAt` | opendnp3/DNP3/LinkFrame.cpp:189-197 | octet i of the user data stands i + 2 (i / 16) octets into the body |
| `LinkFraming.ValidBodyIsWritten` | opendnp3/DNP3/LinkFrame.cpp:83-90 | conversely a body that passes is what writing its data produces |
| `LinkFraming.BodyBurstDetected` | opendnp3/DNP3/LinkFrame.cpp:83-90 | a valid body with such a burst is refused, also where it reaches over CRC octets into the next block |
| `LinkFraming.HeaderRoundTrip` | opendnp3/DNP3/LinkHeader.cpp:59-78 | a header is read back from its octets, which start with 05 64 and pass the CRC |
| `LinkFraming.HeaderLayout` | opendnp3/DNP3/LinkHeader.cpp:67-78 | which octet of a header holds what: 05 64, length, control, destination, source and CRC, low octets first |
| `LinkFraming.ResetFrame` | DNP3Test/TestCRC.cpp:38-43 | a whole frame of the tests, octet by octet |
| `LinkFraming.ControlBits` | opendnp3/DNP3/LinkHeader.cpp:48-57 | each flag and the function code are read back from the control octet |
| `LinkFraming.HeaderBurstDetected` | opendnp3/DNP3/LinkLayerReceiver.cpp:123-130 | a good header with such a burst is refused |
| `LinkFraming.FrameBits` | opendnp3/DNP3/LinkLayerReceiver.cpp:60-97 | every kind of frame passes the function code checks and is dispatched as itself |
| `LinkFraming.ControlOctets` | opendnp3/DNP3/LinkHeader.cpp:48-57 | the control octet of every kind of frame, in numbers |
| `LinkFraming.GoodIffFrame` | opendnp3/DNP3/LinkLayerReceiver.cpp:123-243 | a header passes every check if and only if its CRC is right and it is the header of a frame that can be formatted |
| `LinkFraming.FormattedHeaderGood` | opendnp3/DNP3/LinkFrame.cpp:179-187 | a formatted header passes every check of the receiver |
| `LinkFraming.FrameBurstDetected` | opendnp3/DNP3/LinkFrame.cpp:154-197 | a formatted frame with such a burst anywhere fails in its header, or keeps it and fails in its body |
| `LinkReceiving.ScanAppend` | opendnp3/DNP3/LinkReceiverStates.cpp:46-88 | scanning a stream in two pieces is scanning it at once |
| `LinkReceiving.ChunkingIndependence` | opendnp3/DNP3/LinkReceiverStates.cpp:46-88 | however the stream is cut, the same frames come out and the same octets are kept |
| `LinkReceiving.FrameScans` | opendnp3/DNP3/LinkLayerReceiver.cpp:60-121 | a formatted frame is recognized whatever follows it |
| `LinkReceiving.FramesScan` | opendnp3/DNP3/LinkLayerReceiver.cpp:60-121 | so is any list of them |
| `LinkReceiving.NoiseSkipped` | opendnp3/DNP3/LinkLayerReceiver.cpp:187-191 | octets none of which begins a frame are skipped, starting octets and broken frames included |
| `LinkReceiving.QuietIsNoise` | opendnp3/APL/ShiftableBuffer.cpp:91-104 | octets in which no 05 is followed by 64 are such noise |
| `LinkReceiving.MixedScan` | opendnp3/DNP3/LinkLayerReceiver.cpp:45-121 | noise before every frame costs nothing: exactly the frames come out, then what the tail holds |
| `LinkReceiving.StreamDelivered` | opendnp3/DNP3/LinkLayerReceiver.cpp:45-58 | noise and frames in any pieces give exactly those frames and keep nothing |
| `LinkReceiving.ScanSound` | opendnp3/DNP3/LinkLayerReceiver.cpp:60-130 | every frame that comes out stands in the stream as a checked header and the blocks its data are written as, one behind the other |
| `LinkReceiving.DamagedFrameRefused` | opendnp3/DNP3/LinkLayerReceiver.cpp:106-130 | a frame with a burst of up to sixteen bits is not taken for a frame, whatever follows |
| `LinkReceiving.DamagedIsNoise` | opendnp3/DNP3/LinkLayerReceiver.cpp:187-191 | a frame damaged by such a burst is noise in front of what follows if and only if inside it, too, no frame begins and none is waited for |
| `LinkReceiving.QuietDamageIsNoise` | opendnp3/APL/ShiftableBuffer.cpp:91-104 | a damaged frame is such noise where it holds no 05 64 from its second octet on and what follows does not begin with 64 |
| `LinkReceiving.DamageCostsItself` | opendnp3/DNP3/LinkLayerReceiver.cpp:45-130 | a damaged frame in which no other begins or is waited for costs only itself: however the stream is cut, the frames before and behind it come out and nothing is kept |
| `LinkReceiving.LeftoverBound` | opendnp3/DNP3/LinkLayerReceiver.cpp:45-58 | less than a maximal frame stays in the buffer |
| `LinkReceiving.SmallPiecesFit` | opendnp3/DNP3/LinkLayerReceiver.cpp:47-49 | pieces that leave room for one frame are always admissible |
| `LinkReceiving.ShiftableBuffer.SyncSubsequence` | opendnp3/APL/ShiftableBuffer.cpp:91-104 | the recursive pattern search finds the first 05 64, keeping a partial match at the end |
| `LinkReceiving.ShiftableBuffer.Sync` | opendnp3/APL/ShiftableBuffer.cpp:80-89 | the reader moves to that place and nowhere else |
| `LinkReceiving.ShiftableBuffer.Shift` | opendnp3/APL/ShiftableBuffer.cpp:49-55 | unread octets are moved to the front unchanged |
| `LinkReceiving.LinkLayerReceiver.ParseSync` | opendnp3/DNP3/LinkReceiverStates.cpp:46-55 | the sync state keeps the outlook of the scan and makes progress |
| `LinkReceiving.LinkLayerReceiver.ParseHeader` | opendnp3/DNP3/LinkReceiverStates.cpp:57-70 | the header state does, failing one octet further |
| `LinkReceiving.LinkLayerReceiver.ParseBody` | opendnp3/DNP3/LinkReceiverStates.cpp:74-88 | the body state does, pushing the frame it validated |
| `LinkReceiving.LinkLayerReceiver.OnRead` | opendnp3/DNP3/LinkLayerReceiver.cpp:45-58 | any piece for which there is room: the parse loop ends with exactly the frames of the scan, the octets left are determined, and there is room for a maximal frame |
| `LinkReceiving.ReceiveStream` | opendnp3/DNP3/LinkLayerReceiver.cpp:45-58 | a whole stream, each piece up to all the room there is then, is received as if uncut |
| `LinkReceiving.Roundtrip` | opendnp3/DNP3/LinkLayerReceiver.cpp:45-121 | formatted frames with noise before each, in any admissible pieces: received are exactly those frames |
| `RepairingCrc.AcceptableTiles` | DNP3Test/DNPHelpers.cpp:55-66 | the accepted sizes are exactly those that blocks tile |
| `RepairingCrc.AcceptableIffFrame` | DNP3Test/DNPHelpers.cpp:55-66 | and exactly those of link frames |
| `RepairingCrc.RepairIsRewrite` | DNP3Test/DNPHelpers.cpp:71-80 | the block walk writes what the link layer would for the same user data |
| `RepairingCrc.RepairedFramePasses` | DNP3Test/DNPHelpers.cpp:68-80 | the result passes every block check and keeps every data octet |
| `RepairingCrc.SealedBodyIsRepaired` | DNP3Test/DNPHelpers.cpp:73-80 | a body is left alone if and only if its blocks pass |
| `RepairingCrc.RepairFixpoint` | DNP3Test/DNPHelpers.cpp:51-83 | a frame is left alone if and only if it passes, and repairing twice is repairing once |
| `RepairingCrc.AddCrc` | opendnp3/DNP3/DNPCrc.cpp:39-45 | only the two CRC octets of the block change |
| `RepairingCrc.RepairCRC` | DNP3Test/DNPHelpers.cpp:51-83 | in place: accepted exactly for the tiled sizes from 10 to 292, then repaired; otherwise untouched |
| `Transport.DecodeEncode` | opendnp3/DNP3/TransportTx.cpp:87-97 | header bits and payload are read back |
| `Transport.HeaderLayout` | opendnp3/DNP3/TransportTx.cpp:87-97 | FIN is 0x80, FIR is 0x40, and the lower six bits are the number modulo 64 |
| `Transport.SegmentAt` | opendnp3/DNP3/TransportTx.cpp:57-85 | segment i carries the octets from 249 i on, 249 of them unless it is the last, with the right marks and number |
| `Transport.TransportTx.Send` | opendnp3/DNP3/TransportTx.cpp:45-55 | the first segment of the fragment goes out |
| `Transport.TransportTx.CheckForSend` | opendnp3/DNP3/TransportTx.cpp:57-78 | the next segment goes out with its FIR and FIN bits, or the fragment is done |
| `Transport.TransmitFragment` | opendnp3/DNP3/TransportTx.cpp:45-85 | a fragment goes out as its segments, numbered modulo 64 |
| `Transport.TransportRx.ValidateHeader` | opendnp3/DNP3/TransportRx.cpp:93-126 | acceptance and the state left behind, for every segment |
| `Transport.TransportRx.HandleReceive` | opendnp3/DNP3/TransportRx.cpp:51-91 | one TPDU, including both length errors and overflow of the buffer |
| `Transport.DeliversIff` | opendnp3/DNP3/TransportRx.cpp:51-126 | after any TPDUs from anywhere, duplicated, reordered or malformed: a fragment is delivered if and only if a final segment is first or follows on a chain of full segments from a FIR on, and then it is their payloads |
| `Transport.AfterHoldsChain` | opendnp3/DNP3/TransportRx.cpp:51-126 | what the receiver holds after any TPDUs is exactly such a chain |
| `Transport.TakenIffWrapped` | opendnp3/DNP3/TransportRx.cpp:93-126 | a continuation is taken by a receiver that holds something if and only if it comes a multiple of 64 TPDUs after the one expected |
| `Transport.NoteFollows` | opendnp3/DNP3/TransportRx.cpp:51-126 | the loss pattern and the lengths determine what the receiver holds and when it delivers |
| `Transport.FragmentAllOrNothing` | opendnp3/DNP3/TransportRx.cpp:51-126 | whatever subset of its segments arrives, a fragment is delivered whole if all do and it fits, else only splices come out; from an idle receiver it is whole or nothing if and only if the pattern splices nothing |
| `Transport.LossySafety` | opendnp3/DNP3/TransportRx.cpp:51-126 | over any losses the fragments that arrived whole and fit, plus one per splice; exactly the former, in order, once, unchanged, if and only if the pattern splices nothing |
| `Transport.NoWrapNoSplices` | opendnp3/DNP3/TransportRx.cpp:118-121 | where no continuation arrives a multiple of 64 TPDUs after the first loss nothing is spliced |
| `Transport.LosslessDelivery` | opendnp3/DNP3/TransportRx.cpp:51-126 | without losses every list of fragments is delivered from any receiver state |
| `Transport.WrapCorrupts` | opendnp3/DNP3/TransportRx.cpp:118-121 | 64 lost segments in a row deliver a fragment with a hole |
| `Transport.WrapSplices` | opendnp3/DNP3/TransportRx.cpp:118-121 | that run is counted as one splice |
| `Transport.Arrivals` | opendnp3/DNP3/TransportRx.cpp:51-91 | the receiver object over a lossy channel is the specified run |
| `Transport.TransmitAll` | opendnp3/DNP3/TransportTx.cpp:45-85 | the sender object over a list of fragments emits the specified stream |
| `Transport.EndToEnd` | opendnp3/DNP3/TransportTx.cpp:45-97 | sender, lossy channel and receiver on octets, any losses: delivered are the surviving fragments if and only if the pattern splices nothing |
| `TimerPool.RunInvariant` | APLTestTools/MockTimerSource.cpp:42-122 | over every run idle and pending slots are duplicate-free, disjoint and together all; every start is fired, cancelled or pending exactly once; posts run first-in-first-out |
| `TimerPool.FiresEarliest` | APLTestTools/MockTimerSource.cpp:42-68 | a fired timer is the earliest pending one, the first started among equals, and only when no post waits |
| `TimerPool.AllocationIsPeak` | APLTestTools/MockTimerSource.cpp:95-111 | the number of timers ever allocated is the peak number pending at once |
| `TimerPool.StartDoes` | APLTestTools/MockTimerSource.cpp:95-111 | a start takes the longest idle slot or a new one and waits with its own time and callback behind all that expire no later; nothing else changes |
| `TimerPool.CancelDoes` | APLTestTools/MockTimerSource.cpp:113-122 | after a cancel its slot is not pending: its entry alone is gone, the others keep their order, and the slot goes to the end of the idle ones; a cancel of any other slot changes nothing |
| `TimerPool.CancelledNeverFires` | APLTestTools/MockTimerSource.cpp:113-122 | a timer cancelled while pending never fires in any later run |
| `TimerPool.PopDoes` | APLTestTools/MockTimerSource.cpp:42-68 | a dispatch runs the oldest post, else fires the first timer and makes its slot the last idle one, else does nothing |
| `TimerPool.TurnDispatchesOne` | APLTestTools/MockTimerSource.cpp:42-68 | a dispatch with all the calls of its callback dispatches one callback exactly |
| `TimerPool.StepSizes` | APLTestTools/MockTimerSource.cpp:98-107 | a slot is added only when every slot is pending |
| `TimerPool.ActionWork` | APLTestTools/MockTimerSource.cpp:42-75 | a callback adds no more work than its script holds |
| `TimerPool.MockTimerSource.Start` | APLTestTools/MockTimerSource.cpp:95-111 | reuses the first idle timer or allocates one, and the map gains its entry behind all that expire no later |
| `TimerPool.MockTimerSource.Cancel` | APLTestTools/MockTimerSource.cpp:113-122 | the entry of a pending timer leaves the map and the timer goes to the end of the idle list; for any other timer both stay as they are |
| `TimerPool.MockTimerSource.Post` | APLTestTools/MockTimerSource.cpp:77-81 | the handler goes to the end of the queue |
| `TimerPool.MockTimerSource.TakeNext` | APLTestTools/MockTimerSource.cpp:42-57 | the oldest post, else the earliest timer, which is idle before its callback runs |
| `TimerPool.MockTimerSource.Execute` | APLTestTools/MockTimerSource.cpp:61 | a callback re-enters any operation: exactly the calls of its script are made, in order |
| `TimerPool.MockTimerSource.DispatchOne` | APLTestTools/MockTimerSource.cpp:42-68 | one dispatch is the next callback taken out and then exactly its calls; it dispatches one callback and strictly reduces the work left |
| `TimerPool.MockTimerSource.Dispatch` | APLTestTools/MockTimerSource.cpp:70-75 | as many callbacks are dispatched as it returns, one turn after the other, up to the maximum or until nothing is pending, within the work there was |
| `Loopback.ApplyKeeps` | APLTestTools/LoopbackPhysicalLayerAsync.cpp:53-103 | every call and completion keeps: one completion per operation, no waiting read beside buffered octets, octets received, in flight and buffered equal to those sent since the last close |
| `Loopback.CompletionsAreDue` | opendnp3/APL/PhysicalLayerAsyncBase.cpp:188-262 | a posted completion never finds the layer without its operation |
| `Loopback.RunKeeps` | APLTestTools/LoopbackPhysicalLayerAsync.cpp:53-103 | over every run all of that holds, and each accepted read is answered exactly once or still outstanding |
| `Loopback.ReadAnswered` | APLTestTools/LoopbackPhysicalLayerAsync.cpp:66-103 | a read waits while nothing is buffered; else it is answered at once with the front of it, as much as it asked for or all there is |
| `Loopback.WriteAnswers` | APLTestTools/LoopbackPhysicalLayerAsync.cpp:75-103 | a write is completed first, then answers a waiting read in the same way, or is buffered behind what there is |
| `Loopback.CloseDrops` | APLTestTools/LoopbackPhysicalLayerAsync.cpp:53-64 | a close drops what is buffered and fails a waiting read |
| `Loopback.OldestRuns` | opendnp3/APL/PhysicalLayerAsyncBase.cpp:188-262 | the oldest completion runs with the flags as on any layer, and hands its octets up unless the layer is closing |
| `Loopback.LoopbackPhysicalLayerAsync.CheckForReadDispatch` | APLTestTools/LoopbackPhysicalLayerAsync.cpp:87-103 | the copy loop moves the matched octets into the reader's buffer and posts one completion |
| `Loopback.LoopbackPhysicalLayerAsync.AsyncRead` | APLTestTools/LoopbackPhysicalLayerAsync.cpp:66-73 | a read is matched or waits |
| `Loopback.LoopbackPhysicalLayerAsync.AsyncWrite` | APLTestTools/LoopbackPhysicalLayerAsync.cpp:75-85 | a write is buffered, posted and matched |
| `Loopback.LoopbackPhysicalLayerAsync.AsyncClose` | APLTestTools/LoopbackPhysicalLayerAsync.cpp:53-64 | a close drops the octets and fails the waiting read |
| `Loopback.LoopbackPhysicalLayerAsync.RunNext` | opendnp3/APL/PhysicalLayerAsyncBase.cpp:188-262 | the oldest completion runs with the flags it left |
| `BulkTransfer.AdvanceInOrder` | APLTestTools/MockPhysicalLayerMonitor.cpp:66-136 | each move keeps what arrived and what is on its way a prefix of the buffer, no check fails, and a measure decreases |
| `BulkTransfer.NextBlock` | APLTestTools/MockPhysicalLayerMonitor.cpp:128-136 | a block is the next 4096 octets or all there are, and none follows the last |
| `BulkTransfer.CheckIff` | APLTestTools/MockPhysicalLayerMonitor.cpp:66-84 | the check passes exactly when what was read and what arrived go on being the front of what is expected |
| `BulkTransfer.TransferIsSafe` | APLTestTools/MockPhysicalLayerMonitor.cpp:66-136 | over every channel run: received is a prefix, blocks are at most 4096 octets, and the run is bounded |
| `BulkTransfer.StuckIsComplete` | APLTestTools/MockPhysicalLayerMonitor.cpp:123-126 | a channel that can do no more has delivered everything expected |
| `BulkTransfer.TransferCompletes` | APLTestTools/MockPhysicalLayerMonitor.cpp:66-136 | at most two moves an octet, no failure, no end before everything was received |
| `BulkTransfer.MockPhysicalLayerMonitor.TransmitNext` | APLTestTools/MockPhysicalLayerMonitor.cpp:128-136 | the next block and its size |
| `BulkTransfer.MockPhysicalLayerMonitor.OnSendSuccess` | APLTestTools/MockPhysicalLayerMonitor.cpp:101-105 | the acknowledged octets count and the next block starts |
| `BulkTransfer.MockPhysicalLayerMonitor.OnReceive` | APLTestTools/MockPhysicalLayerMonitor.cpp:66-84 | fails exactly on excess or corruption |
| `BulkTransfer.DeliveryCarries` | APLTestTools/LoopbackPhysicalLayerAsync.cpp:87-103 | a read completion on the loopback is a delivery of the channel |
| `BulkTransfer.CompletionCarries` | APLTestTools/LoopbackPhysicalLayerAsync.cpp:75-85 | a write completion on it is the channel's |
| `BulkTransfer.Turn` | APLTestTools/MockPhysicalLayerMonitor.cpp:66-105 | the layer object runs its next completion and the monitor object answers: one move of the transfer |
| `BulkTransfer.LoopbackTransfer` | APLTestTools/MockPhysicalLayerMonitor.cpp:55-136 | a monitor object on a loopback object receives all it writes, and then nothing is left to run |
| `Convergence.SumsMeet` | DNP3Test/ComparingDataObserver.cpp:46-60 | the sums of map sizes are equal if and only if the last update of every reference binary, analog and counter brought its value |
| `Convergence.UpdateAny` | DNP3Test/ComparingDataObserver.h:93-106 | an expected index is marked exactly when its value matches, others are left |
| `Convergence.ComparingDataObserver.Update` | DNP3Test/ComparingDataObserver.cpp:91-114 | the compare maps keep tracking the last update since the reset |
| `Convergence.ComparingDataObserver.IsSameData` | DNP3Test/ComparingDataObserver.cpp:46-60 | true if and only if converged |
| `Convergence.ComparingDataObserver.EndTransaction` | DNP3Test/ComparingDataObserver.cpp:81-89 | the flag is set if and only if some transaction since the reset ended converged |
| `Convergence.ComparingDataObserver.Reset` | DNP3Test/ComparingDataObserver.cpp:35-44 | the history and the flag start anew |
| `TeamCity.ValueRoundTrip` | TeamCitySupport/teamcity_messages.cpp:41-59 | a reader that stops at the first unescaped quote and refuses raw breaks and brackets gets every value back, whatever follows |
| `TeamCity.EscapeHasNoBreaks` | TeamCitySupport/teamcity_messages.cpp:41-59 | escaped text holds no line break or carriage return |
| `TeamCity.LineRoundTrip` | TeamCitySupport/teamcity_messages.cpp:61-79 | a printed message line is read back with its name and properties |
| `TeamCity.OutputRoundTrip` | TeamCitySupport/teamcity_messages.cpp:61-79 | among text no line of which starts with the marker a reader of the whole output recovers every message in order |
| `TeamCity.ReportsAreNamed` | TeamCitySupport/teamcity_messages.cpp:80-123 | every kind of report is such a message |
| `TeamCity.FailureText` | TeamCitySupport/teamcity_messages.cpp:108-115 | the message of a failed test, character by character around its escaped values |
| `TeamCity.NameText` | TeamCitySupport/teamcity_messages.cpp:80-106 | so are the messages that carry a name only |
| `TeamCity.IgnoredText` | TeamCitySupport/teamcity_messages.cpp:117-123 | and that of an ignored test |
| `TeamCity.EscapeTable` | TeamCitySupport/teamcity_messages.cpp:41-59 | what each of the five characters is escaped as, and that others are not |
| `TeamCity.TeamcityMessages.Escape` | TeamCitySupport/teamcity_messages.cpp:41-59 | the loop computes the escaping |
| `TeamCity.TeamcityMessages.TestFailed` | TeamCitySupport/teamcity_messages.cpp:108-115 | appends exactly its message |
| `TeamCity.TeamcityMessages.TestIgnored` | TeamCitySupport/teamcity_messages.cpp:117-123 | appends exactly its message |

## Left out

- Terminal: a command that closes the layer from inside `AcceptLine` (`bye`) re-enters the line reader; such handlers are not part of the console models. Handlers are numbers, and usage texts, prompts after a command, redirection and the limit of ten queued lines are not modelled.
- Tokenizing by `boost::tokenizer` and by stream extraction: token sequences are given.
- LineFraming.LineReader.OnReceive: states the equality with the automaton for a layer that can read again, which is the source's own guard; otherwise only the lines found are stated.
- SyncProxying.SyncProxy.RunOnce: the thread's loop is single turns in any order; locks and the stop signal are not modelled.
- `IOStream` reading: a line read from standard input is one without LF; an empty read at end of input is not modelled.
- SendQueue.Terminal.OnReadCallback: the received lines are represented by the texts they make the terminal send; the physical layer monitor that reopens a layer is not part of this model.
- DeclarationOrder.GetDeclarationOrder: `ArrayList.Sort` is an insertion sort and the name comparison any total order; the rest of the code generator is not modelled.
- XmlBinding.Load: fields of an object are values listed by a schema, not a C++ object per class, so what a load that throws leaves half assigned is not captured; members of a base class are listed in front of those of the derived class. The text form of XML (TinyXML parsing and printing), the switch `msExceptOnFailure`, collections of strings, and float and double fields, which no generated class has, are not modelled.
- LinkFraming: the addresses are 16-bit values in little-endian order; counters, logging and `operator==` are not modelled.
- Transport.LossySafety: segments are lost, not duplicated or reordered (for those see `Transport.DeliversIff`); a failed send of the transport layer is not modelled.
- The other DNP3 layers (link state machines, application layer, master, slave, event buffers, VTO routing) are not part of this model.
- TimerPool.MockTimerSource.DispatchOne: a callback that restarts its own timer replaces the function object while it runs; the model runs the callback it took. `PostSync`, synchronous posting, `ExpiresAt` and callbacks whose behaviour is not a finite script of calls appear only as operations of a run.
- TimerPool.MockTimerSource.Cancel: a timer is named by its slot, since a handle kept after its timer fired may denote a later start.
- Loopback.LoopbackPhysicalLayerAsync.RunNext: what the handler does in a callback follows as calls; a close from inside a callback is the next call.
- Convergence.ComparingDataObserver.Update: values are compared by equality of their type; floating-point analogs, which may differ from themselves, are not modelled. The reference stays as it was at the reset. Control and setpoint statuses are tracked but not counted, as in the source.
- TeamCity: the reader is a model of the receiving server, with message and property names made of letters, as all of the source's are.
- Sockets, serial ports, ASIO, clocks, threads, log formatting, licence code and configuration glue.
