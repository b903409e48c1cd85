# A Dafny model of f2k

f2k collects NetFlow v5, v9 and IPFIX packets and turns each flow record into a line of JSON. This
project models the parts of it that carry state, loops or arithmetic, and proves what they keep.
`dafny verify dfyconfig.toml` checks all of it.

Code that changes things in place is modelled by classes and by methods with loops. Each such method
is proved equal to a function on values, and the lemmas are about those functions and about whole
runs of them.

**DNS cache** (`DnsCacheState`, `DnsCacheLaws`, `DnsCacheRuns`, `DnsCache`, `DnsFlows`,
`DnsSchedules`, `DnsNames`). Entries are reference counted and reached through an AVL index and an
LRU queue that must agree; a save evicts until a byte budget is met, counting victims whose memory
may still be held. `DnsCache.Cache` is the class with ghost holders. `DnsFlows` is the protocol
around it: flows issue lookups, answers arrive, flows are finalised, in any interleaving. `DnsNames`
follows the names: a flow has the one its query was answered with (`DnsNames.AnsweredName`), or the
one last saved for its address (`DnsNames.LookedUpName`). librd's contracts are part of the model:
the AVL insert replaces an equal key and returns the old node, memctx tracks live bytes.

**Dissector** (`Wire`, `Dissector`, `DissectorProgress`, `Exporter`, `RoundTrip`, `Understanding`,
`OptionTables`, `Delivery`, `CutShort`, `Collector`). The v9/IPFIX decoder with its template store
(RFC 3954 sections 5.1-5.3, 6.1 and 6.2; RFC 7011 sections 3.1-3.4 and 7). `Dissector` says what the
code computes, `Collector` has the loops. `Exporter` is an independent encoder that gives each
packet a meaning, which is what its exporter tells, and an effect, which is what this collector
makes of it. `RoundTrip.PacketRead` proves that decoding an encoded packet has exactly its effect,
and `Understanding.PacketUnderstood` that the effect is the meaning where every set is understood.
`Delivery` says the same end to end, from an exporter's own template and values to what comes out
and is stored, in one packet or over several with others in between; `CutShort` says what is left of
packets and templates that end too early. Where one might expect more, the exact conditions are:
- A data set under a template that has fields, all of length zero, is never finished: the guard on
  the field count covers only the template without fields. `DissectorProgress.PacketFreezes` says
  exactly which packets do this, `DissectorProgress.FreezingFreezes` gives one, and
  `DissectorProgress.HarmlessPacketEnds` says how to keep clear of it.
- A template set has its meaning exactly when all its templates are within the limits and all field
  types below 0x8000 (`Understanding.TemplatesExactly`): a template beyond the limits takes the rest
  of its set with it, and field types lose their sixteenth bit in v9 too, which has no enterprise
  bit there (`Understanding.TypeLosesABit`).
- Option templates: only the first of a set is stored (`Understanding.AllStoredExactly`,
  `Understanding.SecondIsLost`), cut to four fields, and an enterprise number is read as one more
  field (`Understanding.EnterpriseIsAField`). A set has its meaning exactly when it holds no more
  than one template, of no more than four fields, without enterprise numbers
  (`Understanding.OptionTemplatesExactly`). Data for a cut template is read wrongly, as in
  `Understanding.SixFieldsReadTwice`.
- Option data: the length 65535 of a variable-length IPFIX field is taken as it stands, so that of
  the whole set only the fields ahead of it in the first record are seen (`RoundTrip.OptionsRead`).
  The tables get what was meant, whatever the records, exactly when the template has no such field
  or names nothing anyway (`Understanding.OptionsExactly`); `Understanding.NameIsLost` loses an
  application name.
- Padding of an option data set is read like a record. It changes no table, whatever the tables
  hold, exactly when it fills in no naming field (`RoundTrip.PaddingLearned`, with
  `RoundTrip.PaddingTakenForName` as an example).
- Flow records, of fixed or variable length, come out as they were sent exactly when the padding is
  shorter than four bytes, the last record with it is not, and no printed empty field stands at the
  very end of the set (`RoundTrip.RecordsExactly`).

**Workers** (`Workers`, `Streams`). Listeners push packets to the worker their sensor is bound to,
workers pop and dissect; a packet's dissection is not atomic (it reads the sensor's tables at the
pop and commits later), and a worker looks at its run flag some time after it found its queue empty.
Over every interleaving each sensor sees sequential behaviour, and `Streams` composes this with the
round trip: what is delivered for a sensor is the effect of its exporters' packets, in order, and
what they meant where they are understood.

**JSON lines** (`Printbuf`, `Escaper`, `Utf8`, `Bits`, `Numbers`, `Addresses`, `Domains`, `Records`,
`Json`, `StringLists`). The growable buffer, the escaper, the number and address printers, the host
name shortener and the recursive field printer, each with its reader: an unescaper, a number reader,
`str2addr`, `parse_mac`, `mac_atoi`, and a JSON object reader after RFC 8259. Exact conditions where
a round trip fails:
- Unescaping gives the string back exactly when the scanner accepts all of it; otherwise rejected
  bytes come back as %hh (`Escaper.ExactRoundTrip`). The scanner accepts all UTF-8, and also
  surrogates, overlong forms and numbers past the last code point. A string is UTF-8 exactly when
  the scanner accepts all of it and only scalar values in their shortest form (`Utf8.TextExactly`),
  and what is written is UTF-8 exactly when all the characters accepted are such
  (`Utf8.EscapedExactly`, with `Utf8.NotAllIsUtf8` for three that are not).
- Of the control characters only backspace, tab, line feed, form feed and carriage return are
  escaped, and the others pass through (`Escaper.LettersWritten`, `Escaper.ControlsPassThrough`).
- Counters from 2^63 up are printed as negative numbers (`Numbers.CounterReadsBack`).

**Long flows** (`Splitter`). A long flow becomes one line per interval. The totals are conserved
exactly under the condition of `Splitter.ConservedExactly`: a duration that is an exact multiple of
the interval, at least twice it, plans one slice more than come out. Slices are copied from a cached
prefix that points into the first slice's buffer; finishing that slice may reallocate the buffer,
and then a later slice would be copied from freed storage. `Splitter.SeparateLongTimeFlow` stops
there with `freed`: exactly when at least two full slices come out and the cached prefix has moved.
By `Splitter.CacheMovesExactly` it moves exactly when the time and the closing brace take the first
slice across 2048 or 4096 bytes; `Splitter.LongLineIsFreed` is an instance.

**Prefix lookup** (`Cidr`, `SensorsDb`, `Configured`). Masks built by repeated shifts of two words,
IPv4 inside IPv6, and the masked lookup in a map that is walked in arbitrary order, from the
configuration text to the result. What one might expect holds under exact conditions only:
- A configured network keeps all its addresses exactly when the last network configured with the
  same address has no longer a prefix (`Configured.KeepsItsAddresses`); then every one of them is
  found (`Configured.ConfiguredIsFound`). A lookup can miss exactly as `Configured.MissesExactly`
  says, with `Configured.NarrowedIsMissed` as an instance.
- A hit contains the address exactly as `SensorsDb.HitContains` says
  (`Configured.LongerMaskMayAnswer` is an instance where it does not).
- The lookup of sensors panics in some order exactly when a network of the other family is
  configured (`Configured.PanicsExactly`, `Configured.MixedMayPanic`); the lookup of home networks
  never does.

**Listeners** (`Listeners`). Reconciling the running listeners with a new configuration, in place.

## Model

| member | source | states |
|---|---|---|
| DnsCache.Cache.Save | src/rb_dns_cache.c:183-243 | the class does to its abstract state what the model's save does; the caller becomes a holder exactly when it gets an entry |
| DnsCache.Cache.Get | src/rb_dns_cache.c:245-282 | the class's lookup is the model's; a hit is one more holder |
| DnsCache.Cache.Release | src/rb_dns_cache.c:138-181 | a holder gives its reference back |
| DnsCache.Cache.FreeRoom | src/rb_dns_cache.c:188-213 | the eviction loop, with the byte count read once before it, is the recursive one |
| DnsCache.Cache.EvictLast | src/rb_dns_cache.c:203-212 | popping the queue's last entry takes it out of the AVL too and drops the index's reference |
| DnsCache.Cache.DecrefNoLock | src/rb_dns_cache.c:138-173 | an entry's memory goes back exactly when its count reaches zero |
| DnsCacheLaws.ReleaseKeeps | src/rb_dns_cache.c:138-173 | counts stay exact; the entry is freed exactly at the last reference |
| DnsCacheLaws.MakeRoomLaw | src/rb_dns_cache.c:188-213 | the victims are the shortest LRU tail that makes room; failure only with the LRU empty |
| DnsCacheLaws.SaveBounds | src/rb_dns_cache.c:183-243 | indexed bytes fit the budget, live bytes exceed it by at most this save's held victims; NULL exactly when nothing is left to evict |
| DnsCacheLaws.SaveKeeps | src/rb_dns_cache.c:183-243 | AVL and LRU agree and every count is exact after any save |
| DnsCacheLaws.SaveEvicts | src/rb_dns_cache.c:183-243 | the queue after a save is the new entry and the longest front of the old queue that leaves room, without the old entry of the address |
| DnsCacheLaws.GetKeeps | src/rb_dns_cache.c:245-282 | a hit exactly for an indexed, unexpired entry; it moves to the head; a miss leaves no entry for the address |
| DnsCacheRuns.StepKeepsInv | src/rb_dns_cache.c:138-282 | save, lookup and release each keep agreement, counts, remembered names, touch order and the budget |
| DnsCacheRuns.HitsAreLatest | src/rb_dns_cache.c:245-282 | at any point of any run a hit returns the name last saved for the address, no older than the timeout |
| DnsCacheRuns.LruIsTouchOrder | src/rb_dns_cache.c:183-282 | at any point of any run the LRU is in order of last touch |
| DnsCacheRuns.QuietMemory | src/rb_dns_cache.c:183-243 | with no handle out, exactly the indexed entries are live, with count 1, within the budget |
| DnsFlows.NextKeepsGood | src/collect.c:603-669 | every step of any interleaving keeps the cache's holders equal to the flows' handles |
| DnsSchedules.HandleAccounting | src/collect.c:1272-1322 | at every moment an entry is live exactly while indexed or held, with count = index + holders |
| DnsSchedules.HandlesReadable | src/collect.c:633-669 | a handle a flow has points to a live entry of the flow's own address |
| DnsNames.IssueLooks | src/collect.c:1272-1322 | of a new flow, a wanted side has the name of a fresh entry of the cache or waits for its own query; one that is not wanted does neither |
| DnsNames.LookedUpName | src/collect.c:1272-1322 | a side filled from the cache has, until it is finalised, the name of the last answer for its address, no older than the timeout at its lookup |
| DnsNames.AnsweredName | src/collect.c:633-669 | from its answer until it is finalised, a side has the name it was answered with, in an entry or, if and only if the cache had no room, in a copy |
| DnsNames.LatestIsLastAnswer | src/collect.c:633-669 | the name last given to the cache for an address is that of the last answer with a name to a query for it |
| DnsSchedules.FinalisedOnce | src/collect.c:603-669 | each flow is finalised at most once, after all its answers, and is never stuck |
| DnsSchedules.QuietWorld | src/collect.c:603-631 | once all is answered every flow was finalised exactly once and memory is within the budget |
| Wire.Net2NumberBigEndian | src/util.c:241-261 | net2number is the big-endian value for the sizes it knows, zero for others |
| Collector.ObservationId.SaveTemplate | src/rb_sensor.c:759-796 | a saved template replaces the one with its id; only flow templates look their elements up |
| Collector.DissectFlowTemplate | src/collect.c:891-1005 | the parsing loop, the limits on fields and lengths, and the counters |
| Collector.DissectOptionTemplate | src/collect.c:797-881 | the option template parser, cut to four fields |
| Collector.DissectTemplateSet | src/collect.c:1018-1098 | the template-set loop advances on every input and is the recursive walk |
| Collector.DissectRecord | src/collect.c:1190-1240 | the fields of one record, fixed or variable length |
| Collector.DissectFlowSet | src/collect.c:1122-1341 | the data-set loop yields the model's records, or never ends |
| Collector.DissectOptionFlow | src/collect.c:1343-1421 | the values of one option record enter the tables |
| Collector.DissectOptionFlowSet | src/collect.c:1423-1438 | the option-data loop, or never ends |
| Collector.DissectFlow | src/collect.c:1440-1522 | which template a data set is read under, and the unknown-template counter |
| Collector.DissectMessage | src/collect.c:1589-1661 | the walk over the sets of a whole message, bounded by the header's count |
| Dissector.TemplateFieldsAdvance | src/collect.c:905-960 | parsing a template moves forward |
| DissectorProgress.RecordsFreeze | src/collect.c:1145-1338 | the data-set loop runs for ever if and only if all fields are empty and there is room for one round |
| DissectorProgress.OptionsFreeze | src/collect.c:1426-1433 | the same for option data |
| DissectorProgress.DataSetFreezes | src/collect.c:1458-1461 | exactly which data sets freeze, past the guard on the field count |
| DissectorProgress.SetFreezes | src/collect.c:1524-1587 | a set never ends if and only if it is such a data set and the packet holds it |
| DissectorProgress.WalkFreezes | src/collect.c:1652-1658 | the walk over a packet ends unless it gets to such a set; zero-length sets are bounded by the count |
| DissectorProgress.FreezeStopsWalk | src/collect.c:1652-1658 | and such a set does stop the walk |
| DissectorProgress.PacketFreezes | src/collect.c:1589-1661 | exactly which packets are never finished, in terms of headers, lengths and stored templates |
| DissectorProgress.HarmlessPacketEnds | src/collect.c:1589-1661 | while no stored or arriving template has fields that are all empty, every packet is finished and none is stored |
| DissectorProgress.FreezingFreezes | src/collect.c:1458-1461 | a packet of 40 bytes that is never finished, whatever the state |
| RoundTrip.PacketRead | src/collect.c:1589-1661 | dissecting an encoded packet has exactly its effect: records in wire order under the latest template before them, tables and counters updated |
| RoundTrip.SetRead | src/collect.c:1524-1587 | the same for one set |
| RoundTrip.DefinitionsRead | src/collect.c:891-1005 | a template set stores its templates in order, up to the first beyond the limits, with 15 bits of each field type |
| RoundTrip.OptionTemplatesRead | src/collect.c:797-881 | an option template set stores its first template, cut to four pairs of 16-bit numbers |
| RoundTrip.RecordsExactly | src/collect.c:1122-1341 | records of any template, variable lengths included, come out as sent if and only if the padding is under four bytes, the last record with it is not, and nothing printed is empty at the very end |
| RoundTrip.OptionsRead | src/collect.c:1343-1436 | the tables after an option data set are its records entered in order; with a variable-length field, those fields of the first record that stand ahead of it |
| OptionTables.TablesAreEntered | src/collect.c:1343-1436 | entering records is inserting their (big-endian id, name) pairs in order, the last write winning |
| OptionTables.OptionSetEnters | src/collect.c:1343-1436 | the same for the bytes of an option data set, padding included, for what is seen of its records |
| Delivery.TemplateThenData | src/rb_sensor.c:759-796 | a template set and data in the order of its fields, in one packet: every record delivers the exporter's own values that have a printable element, in the order sent, and the template is stored as sent |
| Delivery.OptionTemplateThenData | src/rb_sensor.c:759-796 | the same for an option template and option data: the tables get what the records name |
| Delivery.LaterDataDelivered | src/collect.c:1637-1661 | data whose template came in an earlier packet is delivered likewise, with any packets for other observation ids in between |
| CutShort.PacketCut | src/collect.c:1524-1587 | a packet that ends within a set has the effect of the sets before it, and no other |
| CutShort.DefinitionsCut | src/collect.c:949-959 | of a template set that ends within a template the templates before it are stored, and one bad one is counted |
| CutShort.OptionTemplateCut | src/collect.c:840-849 | an option template that is cut short within its first four fields is dropped |
| Understanding.PacketUnderstood | src/collect.c:1589-1661 | dissecting a packet of sets that are understood yields what its exporter meant |
| Understanding.SetsUnderstood | src/collect.c:1652-1658 | set after set, the effect is the meaning |
| Understanding.TemplatesExactly | src/collect.c:913-985 | a template set has the effect it was meant to have if and only if every template is within the limits and every field type below 0x8000 |
| Understanding.MaskedExactly | src/collect.c:961 | fields are kept under the types sent if and only if these are below 0x8000, in v9 too |
| Understanding.TypeLosesABit | src/collect.c:961 | a v9 template whose field type 45003 becomes 12235 |
| Understanding.VariableFieldsAreFree | src/collect.c:964-967 | fields of variable length do not count against the limit of 1500 bytes |
| Understanding.LimitsForInstance | src/collect.c:980-985 | a template at the limit and one beyond it |
| Understanding.ZeroIsTemplates | src/collect.c:1044-1061 | set id 0 is taken for templates, in IPFIX too |
| Understanding.ReservedIds | src/collect.c:1044-1083 | every other set id below 256 that is not for templates is taken for option templates |
| Understanding.AllStoredExactly | src/collect.c:1065-1083 | all option templates of a set get stored if and only if there is no more than one |
| Understanding.SecondIsLost | src/collect.c:1065-1083 | a set of two of which one is stored |
| Understanding.OptionTemplatesExactly | src/collect.c:797-881 | an option template set has the effect it was meant to have, whatever the state, if and only if it holds at most one template, of at most four fields, none enterprise-specific |
| Understanding.EnterpriseIsAField | src/collect.c:862-877 | an options template stored with two fields that were not sent |
| Understanding.OptionsExactly | src/collect.c:1343-1436 | option data enters the tables as meant, whatever the records, if and only if no field has a variable length or nothing is named anyway |
| Understanding.NameIsLost | src/collect.c:1359-1363 | a well-formed record whose application name does not get into the table |
| Understanding.SixFieldsReadTwice | src/collect.c:829-838 | a record longer than the cut template is read as two and enters a name that is none |
| RoundTrip.PaddingEntered | src/collect.c:1343-1436 | short padding is entered like a record, and names what the template's lengths say |
| RoundTrip.PaddingLearned | src/collect.c:1343-1436 | padding leaves the tables alone, whatever they hold, if and only if it fills in no naming field |
| RoundTrip.PaddingTakenForName | src/collect.c:1343-1436 | an input where padding does enter a table |
| RoundTrip.RecordsDelivered | src/collect.c:1145-1150 | how many records come out of any bytes under a template of fixed lengths |
| RoundTrip.DeliveredExactly | src/collect.c:1145-1150 | that number is the number sent if and only if padding is under four bytes and the last record with it is not |
| Workers.DissectIgnoresStats | src/collect.c:1589-1661 | what a packet yields does not depend on the counters of the worker that dissects it |
| Workers.ProcessChanges | src/dynamic-sensors/src/sensor/mod.rs:73-78 | a packet changes the tables of its own observation id, or else of the default one, to what dissecting it leaves |
| Workers.TablesStay | src/dynamic-sensors/src/sensor/mod.rs:73-78 | the tables of an observation id stay through packets for others |
| Workers.NextKeepsGood | src/collect.c:1746-1785 | every step of listeners and workers keeps the invariant |
| Workers.SensorSeesSequence | src/collect.c:1746-1785 | processed, in hand and queued packets of a sensor are those pushed, at its own worker only; its tables are the fold over its processed packets |
| Workers.NoTwoHandsOnASensor | src/rb_listener.c:86-103 | no two workers hold packets of one sensor at the same time |
| Workers.LeftoversCameLate | src/collect.c:1773-1781 | a worker that left was stopped, and what it left was pushed after its last empty pop |
| Workers.CaughtUp | src/collect.c:1746-1785 | a sensor whose worker has caught up has the tables of all its packets in order |
| Workers.BindWorkers | src/rb_sensor.c:476-510 | the k-th sensor that parses gets worker k mod n |
| Streams.StreamRead | src/collect.c:1589-1661 | dissecting a stream of packets that fit, one after another, has exactly their effect |
| Streams.StreamUnderstood | src/collect.c:1589-1661 | and that is what the exporters meant if every packet is understood |
| Streams.StreamArrives | src/collect.c:1746-1785 | at any moment of any interleaving a sensor's tables and delivered records are the effect of the processed part of its stream |
| Streams.WholeStreamArrives | src/collect.c:1746-1785 | once its worker has caught up, the effect of the whole stream |
| Streams.MeantStreamArrives | src/collect.c:1746-1785 | and what its exporters meant, for a stream that is understood |
| Printbuf.Printbuf.constructor | src/printbuf.c:53-66 | a new buffer is empty, with 2048 bytes |
| Printbuf.Printbuf.Extend | src/printbuf.c:78-97 | moves to at least twice the size, keeping the contents |
| Printbuf.Printbuf.MemAppend | src/printbuf.c:99-109 | appends, terminates, and grows exactly when the data does not fit |
| Printbuf.Printbuf.MemAppendFast | src/printbuf.h:40-47 | the macro gives the same contents, terminator and capacity as the function |
| Printbuf.Printbuf.AppendHex | src/printbuf.h:49-57 | two hexadecimal digits |
| Printbuf.AlwaysProportionate | src/printbuf.c:78-109 | in every reachable state capacity <= max(2048, 2 * longest), and all reallocations together copied less than it |
| Printbuf.ShortLinesNeverMove | src/printbuf.c:99-109 | the first capacity is kept if and only if the contents always were shorter |
| Printbuf.FirstGrowth | src/printbuf.c:78-97 | the capacity of a new buffer after an append of any length |
| Printbuf.HexFromTable | src/printbuf.h:49-57 | the digits are those of the table in lower case, the high one first |
| Escaper.CheckMultibyteCharacters | src/util.c:313-329 | the first n bytes are continuation bytes |
| Escaper.ValidUtf8Char | src/util.c:341-375 | the length of the character the scanner sees, or -1 |
| Utf8.ScannerTakesUtf8 | src/util.c:341-375 | the scanner accepts the UTF-8 encoding of every code point, with its length |
| Utf8.AcceptedIsUtf8 | src/util.c:341-375 | an accepted character is UTF-8 if and only if its bits are a scalar value that needs all its bytes |
| Utf8.TextExactly | src/util.c:341-375 | a string is UTF-8 if and only if all of it is accepted and only scalar values in shortest form |
| Utf8.EscapedExactly | src/util.c:377-413 | the output is UTF-8 if and only if every accepted character of the input is |
| Utf8.NotAllIsUtf8 | src/util.c:377-413 | an overlong form, a surrogate and a number past the last code point that pass through |
| Utf8.TextSurvives | src/util.c:377-413 | all UTF-8 text survives escaping and unescaping |
| Escaper.AppendEscaped | src/util.c:377-413 | appends the escaped string and returns the growth |
| Escaper.LettersWritten | src/util.c:382-402 | which bytes below 0x80 are written as a backslash and which letter; all others are copied |
| Escaper.RejectedWritten | src/util.c:390-394 | a byte that starts no character is written as a percent sign and its two digits |
| Escaper.EscapeReadsBack | src/util.c:377-413 | JSON-unescaping the output gives the string with rejected bytes as %hh |
| Escaper.ExactRoundTrip | src/util.c:377-413 | it gives the string itself if and only if the scanner accepts all of it |
| Escaper.OutputAccepted | src/util.c:377-413 | the scanner accepts the output, whatever the input |
| Escaper.OutputIsOneString | src/util.c:377-413 | between quotes the output is one string: no unescaped quote |
| Escaper.OutputLength | src/util.c:377-413 | at least as long as the input, at most three times |
| Escaper.ControlsPassThrough | src/util.c:377-413 | the output is free of control characters if and only if the input has none but backspace, tab, line feed, form feed and carriage return |
| Numbers.Itoa10 | src/export.c:145-160 | the decimal text of every int64, the least too, at the end of the buffer, in at most 21 bytes |
| Numbers.AppendN10 | src/export.c:162-174 | prints a uint64 as the int64 with the same bits |
| Numbers.DecimalReadsBack | src/export.c:145-160 | decimal text is a JSON integer and reads back as its number |
| Numbers.DecimalInOrder | src/export.c:145-160 | a number and its opposite, digit by digit |
| Numbers.CounterReadsBack | src/export.c:162-174 | a counter reads back if and only if it is below 2^63, and as 2^64 less otherwise |
| Addresses.IntoaV4 | src/util.c:108-135 | dotted-quad text at the end of the buffer, at most 17 bytes touched |
| Addresses.Str2AddrInvertsIntoaV4 | src/util.c:650-657 | str2addr gives back every address from its text |
| Addresses.DottedInOrder | src/util.c:108-135 | 10.0.0.1, character by character, printed and read |
| Addresses.Str2AddrLoosely | src/util.c:650-657 | numbers count modulo 256, and fewer than four give zero |
| Addresses.PrintIpv4Addr0 | src/export.c:715-726 | appends the dotted-quad text and returns its length |
| Addresses.PrintMac0 | src/export.c:927-939 | appends six hexadecimal pairs with colons and returns 17 |
| Addresses.MacInOrder | src/export.c:927-939 | 00:1a:2b:3c:4d:5e, character by character |
| Addresses.ParseMacInvertsPrintMac | src/rb_mac.c:45-65 | parse_mac of that text is net2number of the six bytes |
| Addresses.ParseMacFails | src/rb_mac.c:33-65 | the failure value comes out if and only if the text is no MAC address |
| Addresses.MacAtoi | src/util.h:401-413 | or-ing the digits into place, for any characters; with hexadecimal digits it is their number, and parse_mac's on every valid address |
| Addresses.LooseDigitWraps | src/util.h:408-411 | any other character counts from 'a' in 64 bits |
| Domains.SkipRun | src/export.c:1853-1859 | the first byte that is another one, or the end |
| Domains.PrintHttpL2Domain | src/export.c:1861-1907 | prints the second-level domain, escaped, and returns the growth |
| Domains.DomainSlice | src/export.c:1861-1907 | what is printed is a contiguous slice of the input; the recursion ends |
| Domains.DomainIsClean | src/export.c:1861-1907 | no slash; an IP, or at most one dot and no leading one |
| Domains.DomainIsIdempotent | src/export.c:1861-1907 | the domain of a domain is itself |
| Domains.KeepsLastTwo | src/export.c:1892-1906 | of three labels or more the last two are kept |
| Domains.ProtocolAndPathGo | src/export.c:1866-1885 | protocol and path do not matter |
| StringLists.Concat | src/rb_lists.h:49-62 | the second list follows the first, node for node |
| Records.PrintRecord | src/export.c:2094-2295 | the line gets the non-empty fields in pre-order; empty ones leave no trace |
| Records.FieldsInOrder | src/export.c:2094-2295 | the fields of a tree of elements are those of its elements in pre-order, each printed for the field's bytes with the flow cache that the one before left |
| Records.PrintOwn | src/export.c:2098-2287 | one field, rolled back if its value is empty |
| Records.JoinedFirst | src/export.c:2100-2102 | on a line just opened the fields are separated by commas |
| Records.JoinedMore | src/export.c:2100-2102 | on any other line every field gets a comma before it |
| Records.JoinedPastZero | src/export.c:2100-2102 | the line is compared as a C string: behind a brace and a zero byte there is no comma |
| Json.PrintLine | src/collect.c:1171-1240 | an opened line, any calls of the field printer, and the closing brace |
| Json.AllFieldsInOrder | src/collect.c:1171-1240 | over all calls of a line too, with one flow cache handed on throughout |
| Json.LineIsObject | src/export.c:2094-2295 | every such line with well-formed values reads as a JSON object of exactly those fields |
| Json.EscapedIsGood | src/util.c:377-413 | escaped text is a well-formed value if and only if the original has no control character but backspace, tab, line feed, form feed and carriage return |
| Splitter.SeparateLongTimeFlow | src/export.c:2309-2408 | m+1 slices, newest first, only the last in the shared buffer, each equal to the text made from scratch; `freed` exactly when at least two full slices come out and the cached prefix has moved |
| Splitter.SplitTotal | src/export.c:2317-2347 | the slices sum to the total + (emitted - planned) * per slice |
| Splitter.SlicesShare | src/export.c:2330-2347 | all full slices get the same, the most that fits the planned number of times, and the final one the rest |
| Splitter.ConservedExactly | src/export.c:2317-2347 | the total is conserved if and only if planned = emitted or the full slices are empty |
| Splitter.ConservedWithinLimit | src/export.c:2317-2347 | within the limit, if and only if the duration is no exact multiple >= 2 of the interval or there is too little to share |
| Splitter.PlannedAndEmitted | src/export.c:2317-2329 | how many slices are planned and come out, also past the limit |
| Splitter.NoLimit | src/export.c:2317-2325 | a limit of zero wraps around to the largest plan |
| Splitter.TwoMinutesLoseBytes | src/export.c:2327-2347 | two full minutes and 119 bytes lose 30 |
| Splitter.Timeline | src/export.c:2349-2361 | the slices start one interval apart, the last one the last that starts within the flow |
| Splitter.SliceIsObject | src/export.c:2361-2404 | every slice of a well-formed line is a JSON object: the shared fields, its bytes, packets and time |
| Splitter.CacheMovesExactly | src/export.c:2380-2404 | the cached prefix is freed if and only if finishing the first slice takes it across 2048 or 4096 bytes |
| Splitter.ShortLinesStay | src/export.c:2380-2404 | with a prefix that fits a new buffer, if and only if the whole first slice does not |
| Splitter.LongLineIsFreed | src/export.c:2380-2404 | a line and a flow for which it is |
| Cidr.Int2Bits | src/util.c:517-546 | the shifts leave exactly the top prefix bits of 128; out of range all ones and a failure |
| Cidr.ParseAddress | src/util.c:567-641 | the network and mask of an address text, or a failure |
| Cidr.ParsedExactly | src/util.c:567-641 | which texts are accepted and which network they give; text that is no address is accepted too and leaves the network as it was |
| Cidr.Ipv4ToU32 | src/dynamic-sensors/src/util.rs:13-21 | the big-endian value of four octets |
| Cidr.Ipv6ToU128 | src/dynamic-sensors/src/util.rs:23-31 | the big-endian value of sixteen octets |
| Cidr.MaskClears | src/dynamic-sensors/src/util.rs:44-58 | applying the mask of a prefix clears exactly the free bits |
| Cidr.ConfiguredNet | src/dynamic-sensors/src/sensor/mod.rs:20-39 | from an accepted network text of either family to the net stored: its masked address and its mask |
| Cidr.Ipv4Config | src/util.c:550-563 | an IPv4 a/n is accepted for -96 <= n <= 32, and leaves 32 - n bits free, or all |
| Cidr.Ipv6Config | src/dynamic-sensors/src/sensor/mod.rs:20-28 | an IPv6 a/n is accepted for 0 <= n <= 128; it becomes IPv4 exactly if the address stands for one |
| SensorsDb.SensorsDB.AddSensor | src/dynamic-sensors/src/database/mod.rs:48-51 | the sensor is stored under its masked network |
| SensorsDb.SensorsDB.GetSensor | src/dynamic-sensors/src/database/mod.rs:19-37 | whatever the order, a hit is an entry at ip & m for a stored mask m, a miss means there is none, a panic means a mask of the other family |
| SensorsDb.HomeNetworks.AddNetwork | src/dynamic-sensors/src/observation_id/mod.rs:145-147 | the network is stored under its address |
| SensorsDb.HomeNetworks.GetNetwork | src/dynamic-sensors/src/observation_id/mod.rs:54-77 | the same lookup, skipping masks of the other family |
| SensorsDb.AddedKeepsStored | src/dynamic-sensors/src/database/mod.rs:48-51 | every net stays stored under its own network |
| SensorsDb.MayReturnExactly | src/dynamic-sensors/src/database/mod.rs:29-34 | what a lookup returns in some order is exactly what the stored masks explain |
| SensorsDb.HitContains | src/dynamic-sensors/src/database/mod.rs:29-34 | whichever mask leads to a net, it contains the address if and only if its own prefix is no longer than the mask's or no bits are set between |
| SensorsDb.MembersAreFound | src/dynamic-sensors/src/database/mod.rs:29-34 | an address of a stored net is found in every order |
| SensorsDb.OneMaskIsExact | src/dynamic-sensors/src/database/mod.rs:29-34 | with one mask for all nets the lookup is exact |
| Configured.ContainsIsSharing | src/dynamic-sensors/src/util.rs:44-58 | a configured network contains exactly the addresses that share its prefix |
| Configured.BaseExactly | src/dynamic-sensors/src/sensor/mod.rs:20-28 | which IPv6 addresses become IPv4, and which address they become |
| Configured.HostContains | src/util.c:577-580 | a network without a prefix contains its own address and no other, in both families |
| Configured.OnlyTheHost | src/dynamic-sensors/src/database/mod.rs:19-37 | with it alone, a lookup in its family hits for that address and misses for all others |
| Configured.Ipv4Contains | src/util.c:550-563 | an IPv4 a/n contains the IPv4 addresses that agree with a in the first n bits |
| Configured.Ipv6Contains | src/util.c:550-563 | the same for IPv6 addresses that do not stand for IPv4 |
| Configured.LastOneStays | src/dynamic-sensors/src/database/mod.rs:48-51 | the table holds, at each configured address, the last network configured there |
| Configured.KeepsItsAddresses | src/dynamic-sensors/src/database/mod.rs:48-51 | the entry there contains all addresses of a configured network if and only if that last one has no longer a prefix |
| Configured.ConfiguredIsFound | src/dynamic-sensors/src/database/mod.rs:19-51 | then every address sharing the prefix finds a configured network, in every order, unless a mask of the other family makes the unguarded lookup panic |
| Configured.PanicsExactly | src/dynamic-sensors/src/util.rs:56 | the lookup of sensors can panic if and only if a network of the other family is configured; the guarded one never does |
| Configured.ExporterMayPanic | src/rb_sensor.c:592-603 | for exporters: if and only if some configured sensor network is IPv6 that does not stand for IPv4 |
| Configured.MissesExactly | src/dynamic-sensors/src/database/mod.rs:29-36 | a lookup can miss if and only if no mask still in the table leads to a configured network and none of the other family stops it |
| Configured.OnlyTheLast | src/dynamic-sensors/src/database/mod.rs:48-51 | of two networks with one address only the last answers: a hit for what it contains, a miss for all else |
| Configured.NarrowerLosesAddresses | src/dynamic-sensors/src/database/mod.rs:48-51 | a narrower network of the same address always loses some addresses of the wider one |
| Configured.NarrowedMisses | src/dynamic-sensors/src/database/mod.rs:48-51 | and the lookup of such an address always misses, with or without the guard |
| Configured.NarrowedIsMissed | src/dynamic-sensors/src/database/mod.rs:48-51 | a configuration and an address that is never found |
| Configured.LongerMaskMayAnswer | src/dynamic-sensors/src/database/mod.rs:29-34 | a configuration and an address given a sensor it does not belong to |
| Configured.MixedMayPanic | src/dynamic-sensors/src/util.rs:56 | a configuration and an address for which the lookup of sensors may panic or hit, and that of home networks always hits |
| Listeners.ListenerList.IsPresent | src/rb_listener.c:222-231 | some listener of the list has the protocol and port |
| Listeners.PurgeListeners | src/rb_listener.c:235-252 | taking out while walking leaves the others in order, and closes exactly those taken out |
| Listeners.MergeNetFlowListenerList | src/rb_listener.c:269-277 | kept listeners first, as the same objects in order, then the new ones; the second list ends empty; exactly the others are closed |
| Listeners.MergedAddresses | src/rb_listener.c:269-277 | the ports afterwards are those of the new list |
| Listeners.MergedServes | src/rb_listener.c:222-277 | a port is served over a protocol afterwards if and only if the new configuration wants it over that protocol |
| Listeners.MergedInOrder | src/rb_listener.c:269-277 | running listeners first, in their order, then new ones in the order of the configuration |
| Listeners.MergedNoDuplicates | src/rb_listener.c:269-277 | no duplicates if neither list had any |
| Listeners.MergedUnchanged | src/rb_listener.c:269-277 | the same configuration again changes nothing that runs |

## Left out

- Sockets, Kafka, packet capture, GeoIP, udns, jansson, Rust's HashMap and librd are not part of this model beyond the contracts named above; parsed configuration, DNS answers and clock values are parameters.
- sFlow: its one call is commented out. NetFlow v5: flat records; its wrapper's extra rollback is a variant of the field printer.
- Timestamp sanitising, template files, packet header decoding, social media helpers, statistics, debug traces and allocation failures.
- Bytes past the end of a packet, which a malformed packet makes the dissector look at, read as zeros.
- Reference counts are unbounded; 32-bit wrap-around of the counters, and of 64-bit sizes where bytes accumulate, is not modelled.
- Issuing all lookups of one flow is one step; the addresses looked up are never NULL, as in the code.
- RoundTrip.PacketRead: data sets follow the template the collector stored; of data for an option template that was not stored as sent there is only the instance Understanding.SixFieldsReadTwice.
- The withdrawal of an IPFIX options template, whose four bytes are too few for the code; the enterprise number of a field, which is not stored, so that fields of one type and of different enterprises are the same.
- The queue of templates between workers: nothing pushes to it, as `save_template_async` is empty.
- Packets and sensors of the worker model are values; the queues are sequences, and each worker's own counters are not kept, which Workers.DissectIgnoresStats shows to make no difference.
- Printbuf.Printbuf.Extend: a reallocation is always a move; size_t overflow is not modelled.
- Records.PrintRecord: an export function appends its text in one piece, so the capacity it promises is that of print_number and other one-piece printers; the contents do not depend on it. `int` overflow of the returned length is not modelled.
- Records.PrintOwn: printers that append raw text, such as SSIDs and option names, are covered by the line's contents but not by the well-formedness of Json.LineIsObject.
- Escaper.AppendEscaped: strings of 4 GiB and more, where the 32-bit index wraps.
- Addresses.MacAtoi: text of less than 17 bytes, past whose end the code reads.
- Addresses.Str2AddrInvertsIntoaV4: numbers beyond `int`, where sscanf is undefined.
- Splitter.SeparateLongTimeFlow: the floating-point share is any value from zero to the total, all of it for a flow within one interval; totals from 2^53 up, which a double rounds, and times that wrap around 64 bits are not modelled.
- Cidr.Int2Bits: the 16 bytes of a mask are two words of 64 bits; the byte order conversions cancel.
- Configured.ConfiguredIsFound: text that is no address, for which parseAddress succeeds with whatever the network held before, as Cidr.ParseAddress says.
- SensorsDb.SensorsDB.GetSensor: a sensor's observation ids and worker are in the worker model.
- Listeners.MergeNetFlowListenerList: the sockets and threads of a listener are a flag that says whether it was closed.
