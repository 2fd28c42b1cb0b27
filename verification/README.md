# hostwild in Dafny

hostwild is an authoritative DNS server with its own wire codec. This project models its protocol
path and proves what the parts promise each other:

- `Bytes.dfy`, `Names.dfy`, `Emission.dfy`: octets and strings; the compressed-name codec as
  functions; message bodies as lists of pieces, so that one proof covers every interleaving of names
  and other bytes.
- `Wire.dfy`, `Codec.dfy`: the builder and the cursor as objects, and Encode and Decode as the loops
  and in-place patches the program runs. Each method is proved against the functions.
- `Messages.dfy`, `RoundTrip.dfy`, `Reencoding.dfy`: messages, their bytes, the round trip with its exact
  boundary, which messages encode and which decoded ones encode again.
- `Grammar.dfy`: the wire format as a grammar, and Decode as exactly its reader.
- `Magic.dfy`, `Notations.dfy`: the four address notations, the renderings they accept, and the
  converse: which labels carry which address, and which carry none.
- `Zone.dfy`, `StoreRuns.dfy`: the record store as an object; runs of updates, interleaved readers,
  failing saves and crashes.
- `Resolver.dfy`, `Ladder.dfy`, `Answers.dfy`: the answer ladder, its rungs one by one, and why every
  verdict fits on the wire.
- `Server.dfy`, `Requests.dfy`: the request-to-response transform, and what each kind of request gets
  back, decoded.
- `Api.dfy`, `EndToEnd.dfy`: update requests as store operations, and the chain from an update to the
  bytes a client decodes.

How to read it: a function such as `WriteLabels` gives the bytes appended at an offset and the suffix
table left behind. Names are byte strings, as in Go. `Entry.depth` records, for every remembered
suffix, how many pointers a reader of it follows; it exists only to state the hop bound exactly, and
the builder keeps it as ghost state beside the offsets the program stores.

What the proofs found:

- For well-typed messages the hop cap is all that keeps Decode from inverting Encode, letter case and
  four-bit fields aside. It limits chain depth,
  which the encoder does not bound: the 34th of the names a, a.a, a.a.a, ... does not decode
  (internal/dnswire/name.go:180-182).
- The decoder does not count a name's terminator, so it accepts one octet more than the encoder
  (internal/dnswire/name.go:190).
- A decoded label may hold a dot. A question spelled as a dot before the zone passes the resolver as
  the apex (internal/resolver/resolver.go:103-105), but its name has an empty label for the encoder, so
  the client gets the SERVFAIL fallback and never sees those answers.
- Decode does not compare the end of a name inside a payload with the payload's length, and ignores
  what follows the last record (internal/dnswire/rdata.go:149-180, internal/dnswire/message.go:149-189).
- An AAAA payload that is a mapped IPv4 address decodes and cannot be encoded
  (internal/dnswire/rdata.go:130-134, 37-39).
- A '%' in a label starts an IPv6 zone identifier that can hide hex digits behind it
  (internal/magic/magic.go:146-151).
- A prefix can turn dashed IPv4 into IPv6: "a--10-0-0-7" reads as a::10:0:0:7, because the prefix's own
  trailing dash completes a double one (internal/magic/magic.go:146-151). Prefixes of plain words do so
  only when they are exactly four hex groups.
- The ACME route takes the zone put under itself for the apex (internal/api/api.go:252-257).
- A serial that wrapped to zero is not restored by Load (internal/zone/zone.go:253-255).
- docs/resolution.md says any class but IN is refused; the code also answers class 255
  (internal/resolver/resolver.go:72). The model follows the code.

## Model

| member | source | states |
|---|---|---|
| `Wire.Builder.Name` | internal/dnswire/name.go:66-98 | accepts exactly the names RFC 1035's limits allow, terminator counted; a refused name leaves buffer and table untouched; an accepted one appends what WriteLabels says |
| `Wire.Builder.WriteSuffixes` | internal/dnswire/name.go:84-97 | the look-up, record, then write loop leaves the buffer and offset table of WriteLabels, although each suffix is recorded before its bytes exist |
| `Wire.Cursor.Name` | internal/dnswire/name.go:148-198 | on any bytes and start: result is ReadName's, the cursor stops behind the in-place bytes, every read is in bounds, and the loop starts at most 160 rounds |
| `Names.NameFaultMeaning` | internal/dnswire/name.go:68-83 | the encoder's length checks pass exactly for labels of 1 to 63 octets and at most 255 octets with the terminator |
| `Names.PendingNeverHit` | internal/dnswire/name.go:84-94 | while a name is half written, entries for its own unfinished suffixes change neither its bytes nor its look-ups: a name never points into itself |
| `Names.GreedyLongestMatch` | internal/dnswire/name.go:84-96 | the output is literal labels up to the first suffix known before the name started, then one pointer to it, or the terminator |
| `Names.NeverLonger` | internal/dnswire/name.go:84-96 | a compressed name is never longer than its plain form |
| `Names.WriteLabelsInReach` | internal/dnswire/name.go:86-94 | a suffix at 0x4000 or beyond is written but never remembered, so every offset in the table stays below |
| `Names.PointerBytes` | internal/dnswire/name.go:86-89 | reading back the pointer to any remembered suffix gives its offset, all 14 bits of it |
| `Names.PointerOr` | internal/dnswire/name.go:86-89 | OR-ing the pointer mark over 14 bits adds it to their value, which is how Pointer is written |
| `Names.WriteLabelsSound` | internal/dnswire/name.go:84-97 | writing a name keeps every remembered suffix readable, makes all its own suffixes readable, and the name spells itself at its start, whatever bytes follow |
| `Names.SpelledReads` | internal/dnswire/name.go:154-197 | reading spelled labels returns exactly them, or a pointer loop when and only when the pointers exceed 32 |
| `Names.DecoderExact` | internal/dnswire/name.go:148-198 | the cursor reads a label list if and only if the bytes spell it with at most 32 backward pointers and at most 255 label octets |
| `Names.HopCapOnlyFilters` | internal/dnswire/name.go:165-183 | the walk already ends by the backward rule and the length limit; the hop cap only rejects names with more than 32 pointers |
| `Names.WriteLabelsShallow` | internal/dnswire/name.go:84-97 | after n names no remembered suffix needs n pointers or as many as it has labels |
| `Names.DecodedNameEncodable` | internal/dnswire/name.go:186-195 | a decoded name can be written back exactly when its labels leave one of the 255 octets unused and no label starts or ends with a dot or holds two in a row |
| `Names.DecoderOneOctetLooser` | internal/dnswire/name.go:71-83 | every name of exactly 255 label octets decodes and cannot be encoded |
| `Emission.CompressionRoundTrip` | internal/dnswire/name.go:66-98 | a name written anywhere among other names and arbitrary bytes reads back lowercased and stops right after its own bytes, exactly when its pointers nest at most 32 deep |
| `Emission.EmitSound` | internal/dnswire/name.go:84-97 | any interleaving of names, bytes and length-prefixed blocks keeps the suffix table sound |
| `Emission.SlotNeverRead` | internal/dnswire/message.go:131-144 | whatever two bytes are patched in front of a payload, no suffix recorded before or inside it changes what it spells |
| `Emission.EmitShallow` | internal/dnswire/name.go:84-97 | pointer depth is bounded by the number of labels and by the number of names written earlier |
| `Messages.FlagsRoundTrip` | internal/dnswire/message.go:22-56 | unpacking a packed header gives it back, opcode and rcode cut to four bits |
| `Messages.FlagsDropReserved` | internal/dnswire/message.go:22-56 | packing an unpacked flag word loses bits 4 to 6 and nothing else |
| `Codec.Flags` | internal/dnswire/message.go:22-42 | the word built field by field equals the packed header |
| `Codec.WriteSized` | internal/dnswire/message.go:130-145 | reserve, write, patch: the final bytes are those of writing the exact payload length first; payloads over 65535 octets are refused |
| `Codec.EncodeRR` | internal/dnswire/message.go:122-146 | one record appends its pieces or fails with the first fault in source order |
| `Codec.AppendTexts` | internal/dnswire/rdata.go:50-62 | TXT strings are written length-prefixed; none at all or one over 255 octets is refused |
| `Codec.AppendSOA` | internal/dnswire/rdata.go:94-107 | both SOA names compress, then the five words follow |
| `Codec.AppendData` | internal/dnswire/rdata.go:24-117 | each payload kind appends its wire form or refuses the wrong address family |
| `Codec.Encode` | internal/dnswire/message.go:92-120 | the method returns EncodeMessage's bytes or its first error |
| `Codec.DecodeTexts` | internal/dnswire/rdata.go:135-148 | the TXT loop returns ReadTexts' strings or its error |
| `Codec.DecodeRData` | internal/dnswire/rdata.go:123-183 | payloads decode by type; names inside them are read from the whole message |
| `Codec.DecodeRR` | internal/dnswire/message.go:191-219 | one record decodes as ReadRR says and the cursor ends behind its payload, inside the message |
| `Codec.Decode` | internal/dnswire/message.go:149-189 | the method returns DecodeMessage's result on every input |
| `RoundTrip.RRReads` | internal/dnswire/message.go:191-219 | any emitted, well-typed record reads back with its exact payload length |
| `RoundTrip.TextsRead` | internal/dnswire/rdata.go:135-148 | TXT strings, empty ones included, survive the wire |
| `RoundTrip.MessageRoundTrip` | internal/dnswire/message.go:92-219 | every well-typed message that encodes decodes to itself up to letter case and four-bit header fields, or to a pointer loop exactly when some name nests more than 32 pointers |
| `RoundTrip.RoundTripExactly` | internal/dnswire/message.go:92-219 | Decode inverts Encode on exactly the well-typed, lowercase, four-bit messages nesting at most 32 pointers |
| `RoundTrip.SmallMessagesRoundTrip` | internal/dnswire/message.go:92-219 | at most 32 labels per name, or at most 33 names, suffices |
| `RoundTrip.HopCapReached` | internal/dnswire/name.go:180-182 | the encoder does not bound nesting: questions for a, a.a, up to n labels always encode and decode again exactly when n is at most 33 |
| `RoundTrip.DecodedWellTyped` | internal/dnswire/rdata.go:123-183 | every decoded record carries the payload its type calls for |
| `RoundTrip.DecodeAccounting` | internal/dnswire/message.go:149-219 | success means the claimed counts are met and 12 + 5q + 11r octets were there to pay for them |
| `RoundTrip.EncodedSize` | internal/dnswire/message.go:92-120 | a message is at least its header and never longer than its uncompressed form |
| `RoundTrip.HeaderOctets` | internal/dnswire/message.go:22-42 | the twelve header octets of any encoded message, bit by bit |
| `RoundTrip.QueryBytes` | internal/dnswire/message.go:222-227 | a query's wire form, octet for octet; letter case and a trailing dot make no difference |
| `Reencoding.EncodesExactly` | internal/dnswire/message.go:92-146 | a message encodes exactly when its counts fit, its names are encodable, its payloads are of the right family and its texts and payloads fit their length fields |
| `Grammar.NameExact` | internal/dnswire/name.go:148-198 | a name is read exactly where bytes spell it, in any letter case, within both caps |
| `Grammar.PayloadExact` | internal/dnswire/rdata.go:123-183 | each payload is read exactly from the octets that hold it: four for A, sixteen for AAAA, whole strings for TXT, SOA fields in their order |
| `Grammar.RecordExact` | internal/dnswire/message.go:191-219 | a record is read exactly from name, type, class, TTL, length and payload, in that order |
| `Grammar.DecodeExact` | internal/dnswire/message.go:149-189 | Decode reads a message exactly from the bytes that lay it out, whoever wrote them |
| `Grammar.MalformedRecordFails` | internal/dnswire/rdata.go:125-148 | an A or AAAA payload of another length, or a TXT payload that does not split into strings, anywhere among the announced records, makes Decode fail |
| `Reencoding.EncodedIsWritable` | internal/dnswire/message.go:92-146 | whatever encodes has encodable names throughout, payloads of the right address family, texts that fit |
| `Reencoding.DecodedEncodesAgain` | internal/dnswire/message.go:92-219 | a decoded message encodes again exactly when all its names keep the encoder's limits and no AAAA payload is a mapped address; then it decodes to itself, or to a pointer loop when its names now nest too deep |
| `Reencoding.MappedDecodesOnly` | internal/dnswire/rdata.go:37-39 | for every IPv4 address a message with its mapped form in an AAAA record decodes and cannot be encoded |
| `Codec.EveryWriteKeepsTable` | internal/dnswire/message.go:122-146 | every writing step, back-patches included, keeps each remembered suffix readable in the builder's own buffer |
| `Server.ErrorBytes` | internal/server/server.go:50-57 | an error reply's wire form, octet for octet |
| `Magic.Octet` | internal/magic/magic.go:52-69 | the digit loop computes OctetOf |
| `Magic.OctetCanonical` | internal/magic/magic.go:52-69 | the octet reader accepts exactly the canonical decimal rendering of each value |
| `Magic.FourOctets` | internal/magic/magic.go:72-103 | the loop over the last four parts computes LastFour |
| `Magic.LastFourCanonical` | internal/magic/magic.go:72-103 | a match means the last four parts are the address's own rendering |
| `Magic.ReadHexIPv4` | internal/magic/magic.go:107-125 | the two-digit loop computes HexIPv4 |
| `Magic.HexCanonical` | internal/magic/magic.go:107-136 | the hex reader accepts exactly the eight lowercase digits of each address |
| `Magic.ExtractAddr` | internal/magic/magic.go:29-47 | the four readers run in order and give Extract, which the two Exact lemmas of Notations characterise |
| `Magic.ExtractFamily` | internal/magic/magic.go:29-47 | the result is plain IPv4 or genuine IPv6, never a mapped address |
| `Magic.DottedForm` | internal/magic/magic.go:72-85 | dotted labels yield their address behind any other labels |
| `Magic.DashedFormExtracts` | internal/magic/magic.go:89-103 | the bare dashed form yields its address: it is never IPv6 text |
| `Magic.PrefixedDashedForm` | internal/magic/magic.go:89-103 | behind a prefix the dashed form yields its address exactly when the prefix, alone, does not make the label IPv6 text |
| `Magic.WordsOpenIPv6` | internal/magic/magic.go:142-152 | a prefix of plain words makes it IPv6 text exactly when the words are four hex groups |
| `Magic.DoubleDashShadowsDashed` | internal/magic/magic.go:142-152 | "a--" and a dashed IPv4 address read as IPv6, for every address |
| `Magic.HexFormExtracts` | internal/magic/magic.go:107-125 | the bare hex form yields its address |
| `Magic.PrefixedHexForm` | internal/magic/magic.go:107-125 | with any dash prefix the hex form yields its address exactly when the prefix does not hold IPv6 text ended by a zone mark |
| `Magic.ZoneMarkShadowsHex` | internal/magic/magic.go:142-152 | a label with a zone mark swallows the hex digits and reads as the unspecified IPv6 address |
| `Magic.DashedIPv6Extracts` | internal/magic/magic.go:26-42 | eight dashed hex groups, however spelled, are read whole as their IPv6 address, never as the IPv4 address in their tail, exactly when they do not spell a mapped address |
| `Magic.PaddedIPv6Extracts` | internal/magic/magic.go:142-152 | so every genuine IPv6 address has a label that yields it |
| `Magic.DoubleDashAsIPv6` | internal/magic/magic.go:138-152 | words around a double dash are IPv6 text exactly when they are at most seven hex groups, and then the double dash stands for the missing zero groups |
| `Magic.DoubleDashExtracts` | internal/magic/magic.go:138-152 | such a label yields that address, whatever labels come before it, exactly when it is not a mapped one |
| `Notations.GroupExact` | internal/magic/magic.go:142-152 | a hex group is one to four digits of either case whose padded form is the rendering of its value |
| `Notations.IPv6TextExact` | internal/magic/magic.go:142-152 | text reads as an IPv6 address exactly when it is eight groups, or at most seven around one double colon, bare or with a zone name behind |
| `Notations.ExtractIPv4Exact` | internal/magic/magic.go:29-47 | an IPv4 address comes out exactly when the labels end in its octets, or else the last label names no IPv6 address and its dashed parts end in them, or else in its hex digits |
| `Notations.ExtractIPv6Exact` | internal/magic/magic.go:29-47 | an IPv6 address comes out exactly when the last label holds a dash, spells it, and it is not a mapped one |
| `Notations.WordsCarryNothing` | internal/magic/magic.go:29-47 | a last label without a dash that is neither a decimal octet nor eight hex digits carries no address |
| `Zone.ValidateName` | internal/zone/zone.go:100-124 | the nested loops accept exactly valid owners |
| `Zone.ValidOwnerExact` | internal/zone/zone.go:100-124 | valid owners are the joins of one to three labels of 1 to 63 letters, digits, hyphens and underscores, none edged by a hyphen |
| `Zone.ValidOwnerIsLower` | internal/zone/zone.go:113-121 | a valid owner is lowercase, so it is its own key |
| `Zone.Store.Set` | internal/zone/zone.go:128-144 | replaces the record of the same type and bumps the serial; a bad owner changes nothing; it reports success exactly when the owner is good and the save completes, and then the file holds the new state; a failed save keeps the mutation |
| `Zone.Store.Delete` | internal/zone/zone.go:148-174 | removes one type or all, bumping and saving only when something went; success is reported exactly when nothing needed saving or the save completed |
| `Zone.Store.Save` | internal/zone/zone.go:215-229 | succeeds exactly when the snapshot renders and write and rename go through; then the file is that snapshot and the temporary file is gone, otherwise the file is as before |
| `Zone.Store.Lookup` | internal/zone/zone.go:177-185 | the records at the lowercased name |
| `Zone.Store.LoadFile` | internal/zone/zone.go:233-257 | a missing file changes nothing, a torn one fails and changes nothing, a snapshot is restored |
| `Zone.Utf8Exact` | internal/zone/zone.go:39-50 | valid UTF-8 is what sequences of characters encode to |
| `Zone.RepairKeeps` | internal/zone/zone.go:39-50 | a string survives JSON exactly when it is valid UTF-8 |
| `Zone.RepairReplaces` | internal/zone/zone.go:39-50 | otherwise the first octet that opens no character becomes U+FFFD, and so on behind it |
| `Zone.RecordShape` | internal/zone/zone.go:39-77 | a record survives its stored shape exactly when it uses only its type's fields and its texts are valid UTF-8 |
| `Zone.SnapshotRestores` | internal/zone/zone.go:215-257 | a snapshot of clean records restores them all, and the serial unless it is zero |
| `StoreRuns.PutRefines` | internal/zone/zone.go:128-144 | a set keeps one record per type and agrees with updating a plain (owner, type) map |
| `StoreRuns.RemoveRefines` | internal/zone/zone.go:148-174 | a delete agrees with striking keys from that map, and reports removal exactly when a key was struck |
| `StoreRuns.OrderKept` | internal/zone/zone.go:128-174 | a set puts its record behind the others of the name, in place of the one of its type; a typed delete takes out one and keeps the rest in order |
| `StoreRuns.StoreRefinesBook` | internal/zone/zone.go:79-205 | over any run the contents are the plain map's, owners stay valid, lists stay non-empty with one record per type, and the serial is one plus the effective mutations modulo 2^32 |
| `StoreRuns.LookupIsBook` | internal/zone/zone.go:177-185 | over any run a look-up in any letter case finds, for every type, the record last set and not deleted since |
| `StoreRuns.SerialExact` | internal/api/api.go:184-191 | the order of RFC 1982 means fewer than 2^31 increments away |
| `StoreRuns.LaterReadersSeeNoLess` | internal/api/api.go:184-191 | under any interleaving a serial read later is equal or after in RFC 1982 order, and equal serials mean an unchanged store, short of 2^31 mutations |
| `StoreRuns.FileAlwaysWhole` | internal/zone/zone.go:213-229 | whatever fails and whenever the process dies, the state file is a complete snapshot of what the store held at its last completed save, or the initial file if no save completed |
| `StoreRuns.RunsSaveAndLoad` | internal/zone/zone.go:213-257 | every state that clean updates reach saves, and loads back whole into a fresh store |
| `StoreRuns.CleanRunsHoldClean` | internal/zone/zone.go:213-257 | through crashes and restarts, clean updates from a clean state file keep every state the store holds clean |
| `StoreRuns.RestartRestores` | internal/zone/zone.go:231-257 | a restart holds exactly the state of the last completed save, or of the initial file if none completed; only a serial of zero comes back as one |
| `StoreRuns.SetThenReload` | internal/zone/zone.go:128-257 | a set that reports success leaves a disk from which a fresh store loads the very state it was made on, and it does report success when both system calls do |
| `StoreRuns.DeleteThenReload` | internal/zone/zone.go:148-257 | the same for a delete |
| `StoreRuns.PersistIsSteps` | internal/zone/zone.go:213-229 | the store's own save is a path of the crash model's steps, for every outcome of its system calls |
| `Resolver.MembershipIsLabelWise` | internal/resolver/resolver.go:99-107 | the string suffix test holds exactly when the zone's labels end the name's, and the relative part splits into exactly the labels before |
| `Resolver.RelativeOfOwner` | internal/resolver/resolver.go:99-107 | an owner put under the zone comes back as the same store key |
| `Resolver.VerdictDiscipline` | internal/resolver/resolver.go:70-225 | the code depends on name and class only; answers match question name and type, come with NOERROR and no authority; empty NOERROR or NXDOMAIN carries exactly the live SOA, REFUSED nothing |
| `Resolver.ZoneResolver.StoredAnswers` | internal/resolver/resolver.go:160-187 | the loop turns matching records into answers in order, NODATA when none match |
| `Resolver.ZoneResolver.Apex` | internal/resolver/resolver.go:138-157 | SOA, NS and apex address are appended as asked, NODATA when none match |
| `Resolver.ZoneResolver.ResolveQuestion` | internal/resolver/resolver.go:70-95 | the rungs run in order and give Resolve's verdict, which the rung lemmas of Ladder spell out |
| `Ladder.RefusedRung` | internal/resolver/resolver.go:70-80 | another class, or labels that do not end in the zone's: REFUSED and nothing else |
| `Ladder.ApexRung` | internal/resolver/resolver.go:138-157 | the apex answers SOA, NS and its address as asked, all in that order for ANY, and NODATA otherwise |
| `Ladder.NsHostRung` | internal/resolver/resolver.go:82-84 | the name-server host answers the apex address, when there is one |
| `Ladder.StoredRung` | internal/resolver/resolver.go:85-87 | a name with any record answers the record of the type asked, all of them in order for ANY, and NODATA for a type it lacks, whatever its labels carry and whatever the fallback |
| `Ladder.MagicRung` | internal/resolver/resolver.go:88-90 | an unclaimed name whose labels carry an address answers it for its family and ANY, NODATA otherwise |
| `Ladder.FallbackRung` | internal/resolver/resolver.go:91-93 | one that carries none answers the configured fallback likewise |
| `Ladder.LastRung` | internal/resolver/resolver.go:94 | without a fallback it gets NXDOMAIN with the live SOA |
| `Ladder.RungsCover` | internal/resolver/resolver.go:70-95 | every question stands on one of these rungs |
| `Answers.RunsStaySound` | internal/zone/zone.go:128-174 | every store reached by well-formed updates holds at most one sound A, AAAA and TXT record per name |
| `Answers.VerdictFits` | internal/resolver/resolver.go:70-225 | from a sound store and configuration every verdict encodes, with at most three answers and one authority record |
| `Server.QueryServer.HandleQuery` | internal/server/server.go:46-86 | filling, encoding, clearing and re-encoding the reply gives Respond's bytes, which the lemmas of Requests spell out |
| `Requests.UndecodableRequest` | internal/server/server.go:50-57 | bytes that do not decode get the twelve octets of FORMERR under their own ID |
| `Requests.UnsupportedRequest` | internal/server/server.go:65-66 | any opcode but QUERY gets NOTIMP with its own ID, opcode and RD, AA, and no section |
| `Requests.MiscountedRequest` | internal/server/server.go:67-68 | a query with no question or several gets FORMERR in the same form |
| `Requests.AnsweredRequest` | internal/server/server.go:58-86 | a query of one encodable question gets its ID, RD, AA, the verdict's code, the question and the verdict's records, or TC and no records exactly when the full reply exceeds the limit |
| `Requests.ApexQuery` | internal/resolver/resolver.go:28-42 | decoded, defaults filled in: the SOA with names, timers and live serial, the NS record, the apex address, NODATA for the rest |
| `Requests.NsHostQuery` | internal/resolver/resolver.go:28-42 | the default name-server host answers the apex address |
| `Requests.OtherTypeQuery` | internal/resolver/resolver.go:160-187 | a registered name asked for a type it lacks gets NODATA with the live SOA |
| `Requests.UnknownNameQuery` | internal/resolver/resolver.go:91-95 | an unregistered name that carries no address gets NXDOMAIN with the live SOA, or the fallback address |
| `Requests.ServiceNameQuery` | internal/resolver/resolver.go:91-95 | ordinary words are such names |
| `Server.ResponseDiscipline` | internal/server/server.go:46-99 | dropped exactly when under 12 bytes or decoding as a response; otherwise at least 12 bytes with the request's ID and QR set, malformed input and fallback included |
| `Server.UdpSizeBound` | internal/server/server.go:77-85 | with a limit, no response exceeds the larger of it and 271 octets; at 512 none exceeds 512 |
| `Server.TruncationRefines` | internal/server/server.go:77-85 | a reply that fits goes out unchanged; otherwise it decodes to the same message with TC set and no records, unless the question itself cannot be re-encoded, when the SERVFAIL fallback goes out as it is |
| `Server.ReplyEncodes` | internal/server/server.go:88-99 | from a sound store no encodable question ever falls back to SERVFAIL, the reply takes at most 3451 octets, and its pointers stay within the hop cap |
| `Server.RepliesDecode` | internal/server/server.go:46-86 | over any transport a client decodes exactly the reply the server meant, or its question alone with TC set where it is too long |
| `Server.OneAnswerOctets` | internal/dnswire/message.go:122-146 | a reply with one answer, octet for octet behind the header: the question, a pointer to offset 12, type, class, TTL, length, payload |
| `Server.OneAnswerSize` | internal/dnswire/name.go:84-96 | it takes exactly 30 octets, the name's length and the payload's |
| `Server.UnencodableFallsBack` | internal/server/server.go:88-99 | a question that cannot be encoded again gets the bare SERVFAIL, over any transport |
| `Server.DottedApexFallsBack` | internal/resolver/resolver.go:99-107 | so does every name spelled as a dot before the zone |
| `Server.DottedApexReached` | internal/resolver/resolver.go:99-107 | and requests for one exist: the resolver gives them the apex verdict, the server SERVFAIL |
| `Server.AnswersNameTheQuestion` | internal/server/server.go:46-86 | from any store and configuration, a response with answers repeats the one question asked, and every answer is owned by exactly that name and has the type asked for |
| `Server.FrameExact` | internal/server/server.go:191-199 | over TCP the 16-bit length prefix is exact, and what it announces is the response |
| `Api.BuildRecordExact` | internal/api/api.go:209-234 | exactly which bodies pass, the type spelled in any letter case, and the record each stores: the address sent, a mapped one unmapped, or the text, under the TTL sent |
| `Api.BuiltRecordsAreSound` | internal/api/api.go:209-234 | only records whose family or text length fits their type pass, with their TTL |
| `Api.RelNameIsValid` | internal/api/api.go:140-152 | no request writes outside valid owners or at the apex |
| `Api.RelNameExact` | internal/api/api.go:140-152 | a path segment names an owner exactly when it is a qualified spelling of it, or a bare one that neither is nor ends in the zone's name, in any letter case, with or without a trailing dot |
| `Api.RelNameSpellings` | internal/api/api.go:140-152 | in particular every valid owner's own spellings |
| `Api.AcmeOwners` | internal/api/api.go:250-258 | "@", nothing and the zone give the bare challenge owner; a qualified name gets the challenge label in front exactly when it is not the zone under itself, a relative one exactly when it neither is nor ends in the zone's name |
| `Api.AcmeAnyCase` | internal/api/api.go:250-258 | letter case never matters on that route |
| `Api.OpsAreSound` | internal/api/api.go:162-295 | both routes only ask for operations that keep the store sound and survive the state file |
| `Api.Handler.Record` | internal/api/api.go:162-206 | an unauthenticated request gets 401, a bad name or body 400, another method 405, and none changes anything; an accepted one sets or removes, and answers 200, 404 or 500 by what happened to store and disk |
| `Api.Handler.Acme` | internal/api/api.go:245-295 | the same for challenges: a 30-second TXT record set, or the TXT record alone removed |
| `EndToEnd.PutThenQuery` | internal/server/server.go:46-86 | put a record, encode a query, hand over the bytes, decode the response: NOERROR, AA, the question and exactly that record with its TTL or the zone default; or, over UDP, TC and the question exactly when the response would not fit |
| `EndToEnd.FitsUdp` | internal/server/server.go:77-85 | a registered address always fits 512 octets, a text exactly when it and the name have at most 481 octets |
| `EndToEnd.ApiPutThenQuery` | internal/api/api.go:162-234 | from any reachable store and for any accepted PUT a query sees the very value of the request, its TTL or the configured or default one, and TC exactly when name and value are too long for the transport |
| `EndToEnd.ChallengeThenQuery` | internal/api/api.go:245-281 | after setting a challenge a TXT query sees exactly the token, for 30 seconds; over UDP TC is set exactly when name and token are too long for the transport |
| `EndToEnd.DeleteThenQuery` | internal/api/api.go:192-202 | after DELETE every request about the name gets, byte for byte, the response of a store without records |
| `EndToEnd.UpdatesAreIsolated` | internal/zone/zone.go:128-174 | an update leaves every other name's code and answers alone, and a response carrying answers byte for byte |
| `EndToEnd.FqdnFits` | internal/dnswire/name.go:71-83 | a name under the zone fits the wire exactly when it has at most 253 octets |
| `EndToEnd.MagicNameAnswers` | internal/resolver/resolver.go:88-90 | a name carrying an IPv4 or IPv6 address answers it, bytes to bytes, without registration, over any transport it fits |
| `EndToEnd.MagicFitsUdp` | internal/server/server.go:77-85 | and it always fits 512 octets |
| `EndToEnd.DottedNameAnswers` | internal/magic/magic.go:72-85 | in particular every dotted address behind any labels |
| `EndToEnd.DefaultsAreSound` | internal/resolver/resolver.go:28-42 | with default name server and mailbox the configuration encodes exactly for zones of at most 242 octets |

## Left out

- Sockets, goroutines, deadlines, listeners and shutdown: the model starts at request bytes and ends at response bytes and their frame.
- HTTP routing, JSON text, HMAC signatures and the read-only listing and health routes: requests arrive parsed, authentication is a flag, and body size limits are not modelled.
- Lowercasing outside ASCII: Go folds and repairs non-ASCII names, the model leaves such bytes alone.
- Address parsing and printing for stored and submitted addresses: they are values, and printing then parsing one is taken to give it back. Zone identifiers of addresses are dropped, as they never reach the wire.
- IPv6 text with an embedded dotted tail: labels reach that reader already split at dots.
- Owner names in a snapshot: they are carried as they are; the store only ever holds ASCII ones.
- Presentation rendering of records, types and codes.
- Load of hand-edited state files: any snapshot value loads in the model too, but the run theorems speak of files the store wrote.
- A resolver answer computed while another client mutates the store: the model resolves against one state; the lookup and the SOA serial are two locked reads in the program.
- Error texts: errors are distinguished by kind only.
- Server.TruncationRefines: the fallback reply keeps only the ID, so for a question that cannot be re-encoded no TC bit and no question are promised, because the code sends none.
- StoreRuns.LaterReadersSeeNoLess: says nothing once 2^31 mutations lie between two reads, where serial arithmetic itself stops ordering.
