# BGP and MRT codec, session machine and worker pool

This project models fgbgp, a BGP speaker library, and proves what its codec, its session machine and its MRT reader and
writer promise each other. The model follows the code. Where the code and its evident intent differ, the difference is
stated as a lemma: either a concrete counterexample or the exact condition under which the promise holds.

The writers are methods over a growing buffer, the readers are methods with the cursors and loops of the code, and a
neighbor and a byte reader are classes with the fields the code updates. Each of them is proved equal to a recursive
specification function, and the main results are lemmas about those functions:

- **UPDATE and its attributes** (`Nlri`, `AsPath`, `Attributes`, `AttributeProofs`, `UpdateMessage`). What is written is
  read back up to a normal form, and that form is named. What is accepted and written again is in normal form after one
  step. The attributes that survive unchanged are characterised exactly, AS paths of any shape included. Accepted
  attribute lists tile their input and can be joined.
- **OPEN and negotiation** (`OpenMessage`, `Negotiation`). OPEN messages round-trip. Two peers that exchange OPENs,
  whatever each knew before, derive matching modes exactly when the modes kept from earlier sessions match and the two
  ends test the same bits for each pair of entries. Every update one peer writes under its derived modes arrives at the
  other with all its routes and path identifiers exactly when the modes match on the families the decoder knows (routes
  of other families are dropped whatever the modes).
- **Session** (`Session`, `Framing`, `Packet`, `BgpHeader`). Over every run, with lost packets and disconnects at any
  point: ESTABLISHED is reached only through the handshake, the sending order is fixed, the state rank never falls,
  silence ends a session; what two neighbors derive after disconnects is related to what they knew before. Messages are
  cut out of the octet stream independently of how it is chunked, up to the first one the receive loop refuses.
  Step by step (`SessionSteps`): for each state the exact condition under which one evolution ends in it, what it enqueues,
  and the runs that establish a session.
- **Worker pool** (`WorkerPool`). In every interleaving no message is lost or handled twice; without stop signals all work
  gets done, and each stop signal that is taken strands exactly one message.
- **MRT** (`MrtReader`, `Mrt`, `MrtDecode`, `MrtProofs`). A stream of written records is read back record by record,
  consuming every octet, and a damaged record body does not disturb the records after it.
- **Octets** (`Readings`, `MrtReadings`, `WireForm`). What the readers make of octets in plain numbers, among them forms
  the library never writes (two-octet AGGREGATOR, peers with four-octet ASNs, entries with path identifiers, the first
  table dump) and damaged ones; and what the writers put where, with the attribute flags held against the RFCs. So reader
  and writer cannot both be wrong in the same way.

`dafny verify dfyconfig.toml` checks everything.

## What the proofs found

Each of these is stated by the member named, and the code is modelled as it is.

- A path segment whose length is a positive multiple of 255 is written with a last count of 0 (messages/bgp_update.go:336)
  and never read back (`AsPath.MultipleOf255IsLost`). An empty segment writes nothing and disappears. Paths with either never
  survive, whatever their ASNs are (`AsPath.PathSurvivesIff`).
- AGGREGATOR is always written in its eight-octet form, so it survives only in four-octet mode and with a complete
  identifier (`AttributeProofs.AggregatorSurvivesIff`); without an identifier it takes the next four octets for one
  (`AttributeProofs.AggregatorSwallows`).
- MP_UNREACH decoded with path identifiers forgets that it was, and survives only when it carries no route
  (`AttributeProofs.UnreachLosesPathIds`).
- Truncated path segments are padded when they are written again; attributes that grow past 65535 octets are never read
  back (`UpdateMessage.CutCountFails`). A body of 329 octets is enough for that (`UpdateMessage.PaddingOverflows`).
- LOCAL_PREF, ATOMIC_AGGREGATE and AGGREGATOR are written with flags other than those of section 5 of RFC 4271
  (`WireForm.FlagsAreStandardIff`).
- `CompareAddPath` tests `remote[i]` where `remote[j]` matched (server/server.go:265-268). The two ends can derive different
  modes (`Negotiation.MismatchedLists`), and the index can be out of range: a neighbor with the default add-path list
  faults on a peer that announces add-path for IPv6 only (`Negotiation.ShortListFaults`, `Session.DefaultNeighborFaults`).
- A disconnect clears nothing of what is known about the peer, and an OPEN without add-path leaves the modes alone. So a
  neighbor whose peer comes back without add-path still sends with path identifiers (`Session.StaleSession`,
  `Negotiation.StaleModes`), and no update that carries one arrives with its routes (`Negotiation.LostPathIds`).
- The family list of the peer is rebuilt from the local list by each capability, so only the last one stays; default
  neighbors end up with IPv6 twice (`Negotiation.DefaultFamiliesAreDoubled`, `Negotiation.FamiliesKeptIff`).
- What an optional parameter of another type holds is not skipped but read as parameters; eight octets of it can announce
  an ASN (`OpenMessage.HiddenCapability`). An OPEN that ends in such a parameter is read as meant exactly when that holds
  at most one octet (`OpenMessage.OpenWithOtherParameterIff`); elsewhere longer contents can be read as meant by
  coincidence (`OpenMessage.MeantByCoincidence`).
- A message other than an UPDATE that does not parse ends the session. ROUTE-REFRESH, which the library writes, is one
  (`Framing.RouteRefreshEndsSession`).
- A NOTIFICATION without content is decoded from the octets of its header, the only message of which this is noticed
  (`Framing.EmptyNotificationReadsMarker`, `Framing.DecodesAsContentIff`).
- An active neighbor with a hold time, which has not heard anything yet, falls back to IDLE in the very step that sends its
  OPEN (`Session.FirstOpenIsDropped`, `Session.OpenIsKeptIff`).
- The keepalive interval counts nanoseconds, so a keepalive goes out in nearly every step (`Session.KeepAliveEveryStep`,
  `Session.KeepAliveAsMeantIff`).
- With `ReplicateASN` the ASN announced in answer to an OPEN is the one known before it, 0 for a new neighbor
  (`Session.ReplicationIsLate`, `Session.ReplicationAnnouncesZero`).
- A stop signal leaves the `select` but not the loop. It leaves the channel of its worker with one holder more for ever
  (`WorkerPool.MatchedIffNoStops`) and strands one message (`WorkerPool.EachStopStrandsOne`).
- A peer index entry with an ASN above 65535 is written under a flag the reader does not look at (`MrtProofs.LongAsnIsLost`).
- A generic RIB record announces one octet less than it writes (`MrtProofs.GenericRibIsCutShort`).
- Host routes of the first TABLE_DUMP format come out one bit short (`MrtProofs.HostRouteIsCutIff`).

## Model

| member | source | states |
|---|---|---|
| Nlri.MaskSizeInverts | messages/messages.go:167-333 | Taking the size of a mask, as the writer does, gives the row number back for every row of the IPv4 and the IPv6 table |
| Nlri.MaskBits | messages/messages.go:167-333 | Every row of both mask tables, bit by bit: the bits before its row number are set and no other |
| Nlri.SizeMeansRow | messages/messages.go:388-407 | A mask has a size exactly when it is a row of the table, and then that row number; a mask with a gap has none |
| Nlri.Write | messages/messages.go:397-407 | Appends the wire form of one prefix and nothing else, for both address families and both modes |
| Nlri.WriteList | messages/bgp_update.go:206-222 | Appends the wire forms of all prefixes in order |
| Nlri.ListLen | messages/bgp_update.go:174-200 | The running sum of prefix lengths is the number of octets the writer appends |
| Nlri.ParseNLRI | messages/bgp_update.go:523-578 | The cursor loop returns, on every input, the list and the error of the recursive decoder, including a list next to an error and the list dropped for a short path identifier |
| Nlri.ParseInvertsEncode | messages/bgp_update.go:523-578 | Decoding what was written returns every canonical prefix list without an error, for both families, with and without path identifiers |
| Nlri.EncodeInvertsParse | messages/bgp_update.go:523-578 | What was decoded, written again, is a prefix of the input, and it is the whole input byte for byte, host bits included, exactly when decoding succeeded |
| Nlri.ParseFromAfter | messages/bgp_update.go:523-578 | Written prefixes in front of any other input are decoded first, and that input then as on its own |
| Nlri.DamagedList | messages/bgp_update.go:523-578 | In plain octets: prefixes before a bad length or a cut address come with the error, those before a cut path identifier do not, and other families give nothing |
| Nlri.ParseCanonical | messages/bgp_update.go:523-578 | Every prefix the decoder returns, even next to an error, is canonical and can be written without a fault |
| Nlri.PathIdsTakeRoom | messages/messages.go:380-407 | The form with path identifiers is four octets longer for each prefix |
| AsPath.LenContentIsWritten | messages/bgp_update.go:304-323 | The closed form 2*ceil(n/255) + width*n is the number of octets the nested chunk loops write |
| AsPath.Write | messages/bgp_update.go:325-348 | The two nested loops append the wire segments of one path segment, with the modulo count of the last one |
| AsPath.WriteAll | messages/bgp_update.go:285-294 | Appends the wire segments of a whole path in order |
| AsPath.LenAll | messages/bgp_update.go:296-302 | The summed segment lengths are the number of octets written for the path |
| AsPath.ReadSegmentAsns | messages/bgp_update.go:664-682 | The inner loop fills the announced number of ASNs, leaves those missing from the input at 0, and stops where the segment ends |
| AsPath.ParseAsPath | messages/bgp_update.go:655-686 | The outer loop yields the recursive decoding of the path on every input, truncated ones included |
| AsPath.ParseInvertsEncode | messages/bgp_update.go:325-348 | Reading a written segment whose length is not a positive multiple of 255 gives its chunks, and then whatever follows it |
| AsPath.MultipleOf255IsLost | messages/bgp_update.go:333-347 | A positive multiple of 255 is never read back as its chunks, whatever follows |
| AsPath.PathRoundTrip | messages/bgp_update.go:304-348 | A written path is read back as its chunks exactly when no segment holds a positive multiple of 255 ASNs |
| AsPath.ChunksCarryThePath | messages/bgp_update.go:325-348 | The chunks are ceil(n/255) segments of 1 to 255 ASNs of the original type whose concatenation is the original path, cut to 16 bits in two-octet mode |
| AsPath.ParsedSegments | messages/bgp_update.go:655-686 | Every decoded segment holds at most 255 ASNs that fit the width |
| AsPath.ParsedLength | messages/bgp_update.go:655-686 | Re-encoding a decoded path adds at most 2040 octets of padding: at most two segments can be cut short |
| AsPath.ShortPathDropsEmpty | messages/bgp_update.go:325-329 | For decoded paths the only thing writing removes is the empty segments |
| AsPath.ReaderAheadFails | messages/bgp_update.go:325-348 | A reader that is ahead of the writer by an even number of octets whose counts are 0 or 255 never reads back what is written |
| AsPath.PathSurvivesIff | messages/bgp_update.go:304-348 | Any path is read back unchanged exactly when every segment holds 1 to 254 ASNs that fit the width: no ASNs that happen to look like counts make an empty or a full segment survive |
| AsPath.RewrittenLength | messages/bgp_update.go:655-686 | Rewriting a decoded two-octet path adds at most 510 octets |
| AsPath.InsideIsFront | messages/bgp_update.go:655-686 | The octets a two-octet path was decoded from can stand inside those written for it only at their front |
| AsPath.NonEmptyIff | messages/bgp_update.go:327-329 | Removing empty segments changes nothing exactly when there are none |
| Attributes.WriteAttributeHeader | messages/bgp_update.go:365-376 | Appends flags, code and a length of one octet, or of two under the extended flag, switching at 256 |
| Attributes.WrittenAlikeIff | messages/bgp_update.go:358-363 | Two addresses are written alike exactly when they are the same address, in whichever of its forms each is kept |
| Attributes.ContentLen | messages/bgp_update.go:378-490 | Every attribute kind announces the size its header carries |
| Attributes.Len | messages/bgp_update.go:224-507 | An attribute's declared length is the number of octets written, exactly unless it is an AGGREGATOR whose identifier is not four octets |
| Attributes.Write | messages/bgp_update.go:224-507 | Appends the header and content of any attribute |
| Attributes.WriteAll | messages/bgp_update.go:214-218 | Appends the attributes in order |
| Attributes.DeclaredIsWritten | messages/bgp_update.go:182-188 | With complete identifiers the announced lengths of a list add up to the octets written |
| Attributes.LenAll | messages/bgp_update.go:182-188 | The loop sums the announced lengths, which with complete identifiers is the number of octets written |
| Attributes.FindAfiSafi | messages/messages.go:556-563 | The search loop finds a family exactly when it is in the list |
| Attributes.ReadCommunities | messages/bgp_update.go:692-698 | The loop reads every complete four-octet community and ignores the octets left over |
| Attributes.ReadLargeCommunities | messages/bgp_update.go:699-709 | The loop reads every complete twelve-octet community and ignores the octets left over |
| Attributes.ReadReach | messages/bgp_update.go:710-736 | The MP_REACH branch agrees with the specification on every input, with its three errors and the dropped prefix error |
| Attributes.ReadUnreach | messages/bgp_update.go:737-749 | The MP_UNREACH branch agrees with the specification on every input and never records path identifiers |
| Attributes.ReadData | messages/bgp_update.go:614-756 | The `switch` on the attribute code decodes any data to the attribute or the error of the specification |
| Attributes.ParsePathAttribute | messages/bgp_update.go:580-763 | The whole parser returns, on every octet string, the attributes and the error of the recursive decoder, and ends because the remaining input shrinks |
| AttributeProofs.HeaderRoundTrip | messages/bgp_update.go:365-376 | A written attribute header is read back with its code, size and flags, and the data and the rest are cut where they were joined |
| AttributeProofs.ContentRoundTrip | messages/bgp_update.go:614-756 | The content of every encodable attribute kind is decoded to the attribute's normal form |
| AttributeProofs.AttributeRoundTrip | messages/bgp_update.go:580-763 | One written attribute, whatever follows it, is decoded to its normal form and exactly its octets are used |
| AttributeProofs.ListRoundTrip | messages/bgp_update.go:580-763 | A written attribute list is decoded to the normal forms in order, without an error |
| AttributeProofs.DecodedIsRegular | messages/bgp_update.go:614-756 | Every decoded attribute has the shape the re-encoding results need, can be written, and grows by at most 2040 octets |
| AttributeProofs.ParsedIsRegular | messages/bgp_update.go:580-763 | The same for every attribute of every decoded list, also when decoding ended with an error |
| AttributeProofs.NormIsWrittenAlike | messages/bgp_update.go:224-507 | A stable decoded attribute and its normal form are written as the same octets |
| AttributeProofs.NormIsIdempotent | messages/bgp_update.go:580-763 | Taking the normal form twice changes nothing more |
| AttributeProofs.ReencodingIsNormal | messages/bgp_update.go:580-763 | For every accepted octet string with stable attributes, reading what is written gives the normal forms, and writing those gives the same octets: one step reaches the normal form |
| AttributeProofs.NormalIff | messages/bgp_update.go:580-763 | Which decoded attributes are their own normal form: no empty segments, an address in its shortest form, the extended flag of an unknown attribute set only when needed |
| AttributeProofs.FramedTurn | messages/bgp_update.go:580-612 | A written attribute whose content is as long as announced is cut off where it ends, whatever follows and whatever becomes of its content |
| AttributeProofs.AggregatorSwallows | messages/bgp_update.go:239-247 | An AGGREGATOR written without its identifier takes the next four octets for it, or ends the list with an error |
| AttributeProofs.AttributesAheadFail | messages/bgp_update.go:580-763 | In two-octet mode, reading a written list from any place but its start never gives that list |
| AttributeProofs.ListSurvivesIff | messages/bgp_update.go:580-763 | A list of decoded attributes comes back unchanged exactly when each of them on its own does |
| AttributeProofs.ReencodingIsIdentityIff | messages/bgp_update.go:580-763 | For accepted input, stable or not, reading what was re-encoded gives the decoded list back exactly when each attribute is stable, or an MP_UNREACH without routes, and in normal form |
| AttributeProofs.UnreachLosesPathIds | messages/bgp_update.go:738-749 | An MP_UNREACH of a family with path identifiers is read back after re-encoding exactly when it has no routes |
| AttributeProofs.AggregatorSurvivesIff | messages/bgp_update.go:235-247 | A decoded AGGREGATOR survives re-encoding exactly in four-octet mode with a complete identifier |
| AttributeProofs.PathSurvivesIff | messages/bgp_update.go:325-376 | A path attribute is read back unchanged exactly when its width is the reader's and every segment holds 1 to 254 ASNs that fit it |
| AttributeProofs.UnreachSurvivesIff | messages/bgp_update.go:458-480 | A decoded MP_UNREACH survives exactly when its family has no path identifiers or it has no routes |
| AttributeProofs.SurvivesIff | messages/bgp_update.go:580-763 | Exactly which decoded attributes of any kind come back unchanged from writing and reading |
| AttributeProofs.NextIgnoresRest | messages/bgp_update.go:580-612 | Input after a complete attribute does not influence how it is decoded |
| AttributeProofs.ParseConcat | messages/bgp_update.go:580-763 | Decoding an accepted list with more input behind it gives the two results joined |
| AttributeProofs.AttributesTile | messages/bgp_update.go:580-763 | An accepted input is cut without gap or overlap into one piece for each attribute, and each piece alone decodes to just that attribute |
| AttributeProofs.AttributeAlone | messages/bgp_update.go:580-763 | The octets used by the first attribute decode, on their own, to it alone |
| BgpHeader.WriteBGPHeader | messages/messages.go:643-647 | Appends marker, 16-bit length with wrap-around, and type |
| BgpHeader.WrappedHeader | messages/messages.go:567-589 | What a header says whose size may wrap at 16 bits: the wrapped length, or an error when that is out of range |
| BgpHeader.HeaderRoundTrip | messages/messages.go:567-589 | A header written for content of any size is read back with its type and size, whatever follows, exactly when the content fits 4077 octets |
| UpdateMessage.ComputeLenContent | messages/bgp_update.go:174-204 | The declared content length is the number of octets of the body when identifiers are complete |
| UpdateMessage.Write | messages/bgp_update.go:206-222 | Appends header, withdrawn routes, attributes and routes with their two counts |
| UpdateMessage.Read | messages/bgp_update.go:765-809 | Agrees with the specification decoder on every body, with its six kinds of error |
| UpdateMessage.UpdateRoundTrip | messages/bgp_update.go:206-222 | The written body of every encodable update is decoded, with the matching list and width, to the same withdrawn routes and routes and to the attributes in normal form and order |
| UpdateMessage.UpdateIdentityIff | messages/bgp_update.go:765-809 | The decoded update equals the written one exactly when its attributes are in normal form |
| UpdateMessage.UpdateIsFramed | messages/bgp_update.go:202-222 | An update within the message limit announces exactly its body, so a reader cuts it off where it ends |
| UpdateMessage.CutCountFails | messages/bgp_update.go:206-222 | Attributes longer than their 16-bit count are never read back |
| UpdateMessage.ReencodedUpdate | messages/bgp_update.go:765-809 | Every accepted body with stable attributes can be written, and reading that gives its normal form exactly when the attributes still fit their 16-bit length |
| UpdateMessage.PaddingOverflows | messages/bgp_update.go:765-809 | A body of 329 octets, accepted and stable, whose attributes take 66430 octets when written again and are not read back |
| OpenMessage.CapabilityLen | messages/bgp_open.go:128-195 | The length of each capability is the number of octets written for it |
| OpenMessage.ParametersLen | messages/bgp_open.go:197-228 | The summed parameter lengths are the number of octets written for all parameters |
| OpenMessage.WriteCapability | messages/bgp_open.go:122-195 | Appends type, length and data of any capability |
| OpenMessage.WriteParameter | messages/bgp_open.go:204-212 | Appends one parameter with its capability list |
| OpenMessage.Write | messages/bgp_open.go:230-240 | Appends the whole OPEN message |
| OpenMessage.ReadCapability | messages/bgp_open.go:242-276 | The reads from a draining buffer decode any capability data as specified, short data included |
| OpenMessage.ReadCapabilities | messages/bgp_open.go:321-341 | The inner loop with its shared cursor and its count of octets left consumes and yields what the recursive decoder does, and fails on the same inputs |
| OpenMessage.Read | messages/bgp_open.go:278-354 | The nested loops of `ParseOpen` agree with the recursive decoder on every input, errors included |
| OpenMessage.CapabilityRoundTrip | messages/bgp_open.go:242-276 | Every capability, known or not, is decoded back from its data |
| OpenMessage.OpenRoundTrip | messages/bgp_open.go:230-354 | Every OPEN whose capabilities and parameters fit their length octets is read back unchanged, capabilities in order |
| OpenMessage.OtherParametersAreNotSkipped | messages/bgp_open.go:315-346 | The content of a parameter of another type, and what follows it, is decoded as parameters |
| OpenMessage.HiddenCapability | messages/bgp_open.go:315-346 | Eight octets held by a parameter of type 1 are read as a capability that announces AS 65536 |
| OpenMessage.ParsedParameters | messages/bgp_open.go:303-350 | In any OPEN that was parsed exactly the capability parameters hold data, so the type assertion on them cannot fail |
| OpenMessage.LastParameterIff | messages/bgp_open.go:305-351 | A last parameter of another type is read as that parameter alone exactly when it holds at most one octet |
| OpenMessage.OpenWithOtherParameterIff | messages/bgp_open.go:278-354 | An OPEN that ends in a parameter of another type is read as meant exactly when that holds at most one octet |
| OpenMessage.MeantByCoincidence | messages/bgp_open.go:315-346 | A content of four octets that is read together with the capability parameter after it, and comes out as if it had been skipped |
| OpenMessage.OpenParsesIff | messages/bgp_open.go:230-354 | A written OPEN in which only capability parameters hold data parses exactly when its parameters fit 255 octets |
| OpenMessage.CraftOpenMessage | messages/bgp_open.go:356-394 | The crafted OPEN carries the ASN or 23456, and all capabilities in the fixed order |
| OpenMessage.CraftedFits | messages/bgp_open.go:356-394 | A crafted OPEN whose parameters fit 255 octets meets the conditions of the round trip |
| Negotiation.CompareAddPath | server/server.go:258-277 | The nested loops, with the index used as the code uses it, give the two family lists of the specification, or the fault |
| Negotiation.CompareMeaning | server/server.go:258-277 | Which families each list holds, and that the comparison faults exactly when an entry past the end of the remote list is matched |
| Negotiation.SingleEntries | server/server.go:258-277 | For single entries of one family with any TxRx octets: to send when 2 or 3 meets 1 or 3, to decode when 1 or 3 meets 2 or 3, and otherwise neither |
| Negotiation.AlignedMeansAgreed | server/server.go:258-277 | On aligned lists the comparison never faults and gives exactly the families one side sends and the other receives, as section 4 of RFC 7911 asks |
| Negotiation.SendMatchesDecodeIff | server/server.go:258-277 | For duplicate-free lists, one side's send set is the other's decode set exactly when for each matched pair of entries the two ends test the same directions |
| Negotiation.MismatchedLists | server/server.go:265-268 | Two well-formed lists for which the derived modes differ |
| Negotiation.ShortListFaults | server/server.go:265-268 | The default add-path list compared with one for IPv6 only is an index fault |
| Negotiation.NoFault | server/server.go:258-277 | A local list no longer than the remote one cannot fault |
| Negotiation.ApplyFamilies | server/server.go:288-289 | After any number of family capabilities the peer's list is the local list and the last family |
| Negotiation.ApplyOneCapability | server/server.go:286-300 | Each capability changes its own fields of the peer view, the comparison of its add-path list can fault, and one of another type changes nothing |
| Negotiation.ApplyOldOpen | server/server.go:279-303 | An OPEN without capability parameters sets the two-octet ASN, the identifier and two-octet decoding, and nothing else |
| Negotiation.BareParameterFaults | server/server.go:284-286 | An OPEN with a capability parameter without capabilities faults wherever that stands |
| Negotiation.FamiliesKeptIff | server/server.go:288-289 | The peer's list is the announced one exactly when the local list is that one without its last family |
| Negotiation.DefaultFamiliesAreDoubled | server/server.go:605-607 | Two default neighbors each end up with IPv4 once and IPv6 twice for the other |
| Negotiation.ApplyCrafted | server/server.go:279-303 | Applying a crafted OPEN to any earlier view recovers the full ASN, even when the two-octet field carries 23456, turns on four-octet mode, and replaces the modes only if add-path was announced; it faults exactly when the comparison does |
| Negotiation.ExchangeGivesModes | server/server.go:279-303 | After an OPEN was written, parsed and applied to any earlier view, one end knows the full ASN and the compared or the kept modes, or faults exactly when the comparison does |
| Negotiation.ExchangeGivesAgreed | server/server.go:279-303 | With aligned lists the exchange never faults, and if add-path was announced the families agreed on replace whatever was known before |
| Negotiation.ModesMatchIff | server/server.go:258-303 | After two peers exchanged OPENs, whatever each knew before, one's send set is the other's decode set exactly when the kept modes match and matched entries are tested alike on both ends |
| Negotiation.PeersAgree | server/server.go:258-303 | With aligned lists neither end faults, both know the full ASN, and the modes match in each direction exactly when those kept from before do; new neighbors, and two that both announce add-path, always match |
| Negotiation.StaleModes | server/server.go:279-303 | A neighbor that sent a family with path identifiers still does after an OPEN without add-path, and a new peer does not decode them |
| Negotiation.UpdateRoutesCross | server/update.go:53-77 | An update written for one set of modes arrives with every withdrawn route, route and path identifier under another that agrees with it on the known families |
| Negotiation.LostPathIds | server/update.go:53-77 | An update that carries a path identifier anywhere (withdrawn routes, routes, MP_REACH or MP_UNREACH) for a known family which the peer decodes without them does not arrive with its routes |
| Negotiation.DefaultRouteIsLost | server/update.go:53-77 | For a known family on which the modes differ, either way, an update that announces its default route does not arrive with it |
| Negotiation.AllCrossIff | server/update.go:53-77 | Every update written for one set of modes arrives with all its routes under another exactly when the two agree on the known families |
| Negotiation.UpdatesCrossIff | server/update.go:53-77 | After the two OPENs, from any earlier views, every update one end writes arrives at the other with all its routes exactly when the kept modes match on the known families |
| Negotiation.UpdateCrosses | server/update.go:53-77 | With kept modes that match on all families, every update arrives in normal form, and with all its routes of known families |
| Session.Neighbor.constructor | server/server.go:584-633 | A new neighbor starts IDLE, or ACTIVE when made from a connection, with the default families and add-path list, and with hold times under 3 seconds turned off |
| Session.Neighbor.Disconnect | server/server.go:196-220 | Clears connection and OPEN, goes to IDLE, and starts a new history |
| Session.Neighbor.ApplyCapabilities | server/server.go:286-300 | The loop over capabilities leaves what the specification derives, or faults where it does |
| Session.Neighbor.UpdateFromOpen | server/server.go:279-303 | Leaves exactly the peer view the specification derives from the OPEN, and changes no other field |
| Session.Neighbor.ReceiveOpen | server/server.go:305-330 | An OPEN sets the hold time, copies the ASN late, updates the peer, and disconnects when the handler refuses |
| Session.Neighbor.ReceivePacket | server/server.go:305-345 | The first `switch`: OPEN, KEEPALIVE and NOTIFICATION move the fields as specified, and any packet refreshes the receive time |
| Session.Neighbor.AdvanceState | server/server.go:347-399 | The second `switch`: connecting, the OPEN with its KEEPALIVE, confirming, keepalives |
| Session.Neighbor.KeepAlive | server/server.go:384-398 | A keepalive is enqueued only when the interval has passed |
| Session.Neighbor.EvolveState | server/server.go:305-407 | One evolution changes the fields exactly as the step function over which runs are studied, or faults where it does |
| Session.EvolveWith | server/server.go:305-407 | Without a disconnect the state never goes back, an OPEN is not forgotten, ACTIVE and OPENSENT with an OPEN advance, and past ACTIVE the hold time has not run out |
| Session.TakeKeeps | server/server.go:305-407 | The handshake and sending invariant is kept by every step: evolution, received octets, disconnect |
| Session.RunKeeps | server/server.go:305-407 | The invariant holds after every run |
| Session.EstablishedSafety | server/server.go:305-407 | In every reachable ESTABLISHED state, since the last disconnect both OPENs came, in either order, then OPENCONFIRM, then a KEEPALIVE of the peer |
| Session.SendDiscipline | server/server.go:347-399 | Since the last disconnect the messages enqueued are none, or one OPEN, one KEEPALIVE and then only KEEPALIVEs, they are the end of the queue, and a passive neighbor's OPEN follows one of the peer |
| Session.SettingsAreFixed | server/server.go:305-407 | No run changes what was set when the neighbor was made |
| Session.RankNeverFalls | server/server.go:305-407 | A step without a disconnect never lowers the state rank nor forgets an OPEN |
| Session.RankNeverFallsInRun | server/server.go:305-407 | The same over every run |
| Session.TwoEvolutionsConfirm | server/server.go:347-399 | From ACTIVE with an OPEN processed, any run with two evolutions and no disconnect is at least in OPENCONFIRM |
| Session.NoSessionSurvivesSilence | server/server.go:401-405 | With evolutions at most a gap apart, a session past ACTIVE heard from its peer no longer ago than hold time plus gap |
| Session.PassiveIdleForever | server/server.go:347-361 | A passive neighbor in IDLE is in IDLE after every run |
| Session.FirstOpenIsDropped | server/server.go:401-405 | With a hold time that already ran out and nothing heard, no run gets past ACTIVE |
| Session.OpenIsKeptIff | server/server.go:358-405 | A step that sends the OPEN ends in OPENSENT exactly when the hold time since the last sign of the peer has not run out, and in IDLE otherwise |
| Session.KeepAliveEveryStep | server/server.go:384-389 | Steps at least 21846 nanoseconds apart each enqueue a keepalive, whatever hold time was negotiated |
| Session.KeepAliveAsMeantIff | server/server.go:383-398 | A step, with or without a packet, enqueues what an interval of a third of the hold time asks for exactly when it does not fall between that interval taken as nanoseconds and the interval meant |
| Session.HoldIsWholeSeconds | server/server.go:310-313 | In every run the peer's hold time is a positive whole number of seconds below 65536 once keepalives are on |
| Session.ReplicationIsLate | server/server.go:315-317 | In any state, a neighbor with `ReplicateASN` answers an OPEN with the ASN known before it, which is the peer's exactly when it was known already |
| Session.ReplicationAnnouncesZero | server/server.go:315-317 | A new neighbor with `ReplicateASN` answers AS 65001 as AS 0 |
| Session.OpenNegotiates | server/server.go:305-345 | In any state, a crafted OPEN leaves the peer's ASN and the compared or the kept modes, accepted or not, and faults exactly when the comparison does |
| Session.OpenGivesExchange | server/server.go:305-345 | In any state, what arrives of an OPEN over the wire leaves exactly what the exchange gives for the view held before |
| Session.OpenFaultsIff | server/server.go:258-303 | A neighbor faults on a crafted OPEN exactly when an entry of its own list is matched past the end of the announced list |
| Session.DefaultNeighborFaults | server/server.go:620-624 | In any state, a neighbor with the default add-path list faults on a peer that announces add-path for IPv6 only |
| Session.PeerIsKept | server/server.go:196-220 | No run without an OPEN, disconnects and reconnects included, changes what is known about the peer |
| Session.ReopenNegotiates | server/server.go:196-303 | The OPEN after any such run is applied to the view from before it |
| Session.SessionsAgreeIff | server/server.go:196-303 | Two neighbors in any states, after any runs with disconnects and without an OPEN, that then process each other's OPEN have matching modes exactly when the modes they had match, on all families and on the known ones |
| Session.StaleSession | server/server.go:196-303 | A run in which a neighbor agrees on add-path, disconnects, meets the peer without add-path and still sends IPv4 with path identifiers |
| SessionSteps.EstablishedIff | server/server.go:305-407 | A step ends in ESTABLISHED exactly when the hold time since the last sign of the peer has not run out, the packet neither is a NOTIFICATION nor an OPEN that is refused, and the neighbor was in ESTABLISHED or took a KEEPALIVE in OPENCONFIRM |
| SessionSteps.OpenConfirmIff | server/server.go:305-407 | The same for OPENCONFIRM: it stays without a KEEPALIVE, or an OPEN has come by this step in OPENSENT |
| SessionSteps.OpenSentIff | server/server.go:305-407 | The same for OPENSENT: it stays without an OPEN of the peer, or an ACTIVE neighbor may send its own |
| SessionSteps.ActiveIff | server/server.go:305-407 | The same for ACTIVE: a passive neighbor that still waits, or one that has just connected, also in the very step that disconnected it |
| SessionSteps.IdleIff | server/server.go:305-407 | The same for IDLE: a packet or the hold time ended the session, or it was IDLE, and no connection was made |
| SessionSteps.DisconnectedFields | server/server.go:196-220 | Which steps disconnect, that none does it twice, and what connection, OPEN and history are after a step that does and one that does not |
| SessionSteps.DisconnectKeepsRest | server/server.go:196-220 | A disconnect leaves the queue, the timers and all that is known about the peer as they were |
| SessionSteps.TimerFields | server/server.go:305-345 | The peer's hold time is the last one other than 0 announced by an OPEN, in seconds, and the receive time is that of the last packet |
| SessionSteps.QueueFields | server/server.go:347-399 | What each step enqueues, in any state with any packet, and when the time of the last keepalive moves |
| SessionSteps.HistoryIsFaithful | server/server.go:305-407 | The history over which the safety properties speak notes the packet of each step, what the step enqueued and the move to OPENCONFIRM, in that order and nothing else |
| SessionSteps.KeepAliveEstablishes | server/server.go:330-334 | From ACTIVE with an OPEN processed, any run with two evolutions and then one that takes a KEEPALIVE, without a disconnect, ends in ESTABLISHED |
| SessionSteps.HandshakeEstablishes | server/server.go:305-407 | An active neighbor without a hold time that connects, takes an accepted OPEN, evolves and takes a KEEPALIVE is in ESTABLISHED |
| SessionSteps.NewNeighborEstablishes | server/server.go:584-633 | So is a neighbor just made, with any lists, unless the comparison of add-path lists faults |
| SessionSteps.NewNeighborDropsOpens | server/server.go:401-405 | A new active neighbor with a hold time never ends a step past ACTIVE, at any time since 1970, until it has heard something |
| SessionSteps.ReceptionKeepsSession | server/server.go:485-487 | Whatever is received keeps an ESTABLISHED session for the hold time from then on, and not longer without another sign |
| SessionSteps.AnnouncedHold | server/server.go:358-366 | The hold time given to the constructor is announced as it is from 3 to 65535 seconds, as 0 below, and modulo 65536 above |
| SessionSteps.HoldTimeCrosses | server/server.go:310-313 | A hold time of 3 to 65535 seconds, written in an OPEN, sent and read, is what the peer holds the neighbor to |
| Packet.Write | messages/messages.go:473-554 | Appends any of the four messages with its header |
| Packet.Read | messages/messages.go:591-633 | Agrees with the specification of `ParsePacket` for every type and content |
| Packet.DeclaredIsWritten | messages/messages.go:546-554 | The announced size of every kind of message is the number of octets after the header |
| Packet.MessageRoundTrip | messages/messages.go:618-633 | Every message that fits is read back, up to the normal form of UPDATE attributes |
| Framing.Socket.Read | server/server.go:448 | A socket read returns some non-empty next part of the stream, at most as long as asked |
| Framing.ReadFromSocket | server/server.go:442-459 | Fills the whole buffer with the next octets, however they are chunked, or fails when the stream ends |
| Framing.ReceiveFrames | server/server.go:461-505 | The receive loop hands on what the specification finds in the octet stream, whatever the chunking, up to the end of the stream, a bad header or a message that does not parse |
| Framing.ChunkingDoesNotMatter | server/server.go:442-484 | Two splits of one stream give the same frames and the same end |
| Framing.RefusedIff | server/server.go:490-497 | Which messages end the session: an unknown type, an OPEN that does not parse, a NOTIFICATION of one octet |
| Framing.FramesAreTheMessages | server/server.go:461-505 | Any sequence of written messages comes out, types and contents in order, up to the first that is refused or too long; a refused one ends the loop |
| Framing.TooLongIsNotReceived | server/server.go:461-505 | Content of more than 4077 octets, which the writer does not refuse, is never received as it is |
| Framing.AllReceivedIff | server/server.go:461-505 | All of them come out exactly when each fits 4077 octets and none is refused |
| Framing.RouteRefreshEndsSession | messages/messages.go:495-505 | A ROUTE-REFRESH followed by a KEEPALIVE is received as nothing |
| Framing.SentIsReceived | server/server.go:423-505 | What the sender writes for a list of messages of any kind and size is received as exactly those messages if and only if each fits 4077 octets and every OPEN among them parses |
| Framing.EmptyNotificationReadsMarker | server/server.go:464-492 | A NOTIFICATION without content is decoded as code 255 and subcode 255 by the receive loop, where decoding no content at all is an error |
| Framing.DecodesAsContentIff | server/server.go:464-492 | The buffer handed on decodes to the message the content decodes to exactly unless it is a NOTIFICATION without content |
| Framing.UpdateDecodesAsContent | server/server.go:464-516 | For an UPDATE the buffer handed on decodes to what the content decodes to, under any modes |
| WorkerPool.TakeConserves | server/workerpool.go:56-83 | Each rendezvous keeps the dispatched messages the disjoint union of processed, in a worker, and held by a dispatcher |
| WorkerPool.EveryRunConserves | server/workerpool.go:56-83 | In every interleaving with any stop signals no message is lost and none is handled twice |
| WorkerPool.TakeKeepsMatched | server/workerpool.go:56-83 | Every step but taking a stop keeps each held channel with one holder and its worker in the `select` |
| WorkerPool.HoldersAreStops | server/workerpool.go:56-83 | In every run a worker's channel has one holder while the worker waits in its `select`, and one more for every stop signal it took |
| WorkerPool.MatchedIffNoStops | server/workerpool.go:56-83 | A run leaves at most one holder for each channel, and only while its worker waits, exactly when no stop signal was taken |
| WorkerPool.WithoutStopsProgress | server/workerpool.go:56-83 | As long as no stop was taken, a pool with a worker never blocks with a message unfinished |
| WorkerPool.RestMeansProcessed | server/workerpool.go:56-83 | When such a pool has nothing left to do, everything dispatched was processed, each message once |
| WorkerPool.InternalStepsEnd | server/workerpool.go:56-83 | Every step between calls does one unit of the work left, so such steps end |
| WorkerPool.StrandedIsStuck | server/workerpool.go:56-83 | When all workers offer and no dispatcher is there to take, nothing moves until another call begins |
| WorkerPool.StopStrandsMessage | server/workerpool.go:68-71 | A run in which one stop leaves a dispatched message undelivered, and a second dispatcher then gets the same channel |
| WorkerPool.QuietIsStranded | server/workerpool.go:56-83 | When nothing but new calls can happen, every worker offers its channel and no dispatcher waits for one |
| WorkerPool.EachStopStrandsOne | server/workerpool.go:68-71 | When a pool has nothing left to do, as many dispatched messages were never processed as stop signals were taken, and they are those still held |
| WorkerPool.AnyPairMeets | server/workerpool.go:56-83 | Any worker that offers its channel can meet any dispatcher that wants one, which then holds that channel and its own message |
| WorkerPool.AnyHolderDelivers | server/workerpool.go:56-83 | A waiting worker can take the message of any holder of its channel, or any stop sent to it |
| WorkerPool.AnyCallBegins | server/workerpool.go:56-83 | A call can begin at any time, however many are pending, and moves nothing by itself |
| WorkerPool.StopsConserved | server/workerpool.go:68-71 | In every run each stop sent to a worker is taken once or still pending |
| Readings.ScalarData | messages/bgp_update.go:614-691 | ORIGIN, MED, LOCAL_PREF, NEXT_HOP and ATOMIC_AGGREGATE take their octets from the front of data of any length |
| Readings.ShortScalarData | messages/bgp_update.go:614-691 | With too little data each has its own error |
| Readings.AggregatorData | messages/bgp_update.go:633-643 | AGGREGATOR in either mode: the ASN in two or four octets, then the identifier, and neither for data of any other size |
| Readings.ShortAggregatorInList | messages/bgp_update.go:633-643 | A two-octet AGGREGATOR anywhere in a list comes out with its ASN and identifier |
| Readings.CommunityData | messages/bgp_update.go:692-709 | All complete communities of either kind are read and the octets left over are ignored |
| Readings.ReachData | messages/bgp_update.go:710-736 | MP_REACH with a next hop of any length and any octet behind it; routes before an error among them are kept, and the error is not |
| Readings.ShortReachData | messages/bgp_update.go:710-741 | Which error MP_REACH and MP_UNREACH give for which missing octets |
| Readings.UnreachData | messages/bgp_update.go:737-749 | MP_UNREACH reads its routes with path identifiers when the list has the family and never records it |
| Readings.OtherData | messages/bgp_update.go:750-755 | An attribute of any code that is not known is kept with its flags, code and data |
| Readings.WholeSegment | messages/bgp_update.go:655-686 | A path segment with all of its 0 to 255 ASNs is read, and then the rest of the path |
| Readings.CutSegment | messages/bgp_update.go:655-686 | A segment that announces more ASNs than there are has zeros for those missing |
| Readings.AttributeInList | messages/bgp_update.go:580-763 | Any acceptable attribute, with one or two length octets, between any lists is read as its data says and takes exactly its octets |
| Readings.BadAttributeInList | messages/bgp_update.go:580-763 | Data that is refused ends the list; what came before is returned with the error, but not with a short NEXT_HOP |
| Readings.CutAttributeInList | messages/bgp_update.go:580-612 | Octets that are no attribute end the list with the error for what is missing |
| Readings.CountedBody | messages/bgp_update.go:765-809 | What each part of an UPDATE body gives, and what its error leaves of the message |
| Readings.MiscountedBody | messages/bgp_update.go:765-809 | A body that is too short for its counts is refused with the error of that count |
| Readings.HeaderOctets | messages/messages.go:643-647 | The 19 octets of a header, one by one |
| Readings.HeaderReading | messages/messages.go:567-589 | The error or the type and size that any octets give as a header, octet by octet |
| Readings.PacketData | messages/messages.go:595-633 | What any content gives for each message type; a KEEPALIVE may hold anything |
| Readings.DamagedStream | server/server.go:461-505 | A stream that stops short or goes on with a bad header ends the receive loop with that cause |
| Readings.MessagesBeforeDamage | server/server.go:461-505 | Messages that are received are received whatever follows, and what follows decides how the loop ends |
| Readings.CapabilityData | messages/bgp_open.go:242-276 | Capability data of any length: fields that are missing stay 0 and octets left over are ignored |
| Readings.OtherCapability | messages/bgp_open.go:242-276 | A capability of any other type keeps its data |
| Readings.MiscountedOpen | messages/bgp_open.go:278-302 | An OPEN that is too short, or longer or shorter than it says, is refused |
| Readings.OpenFields | messages/bgp_open.go:278-354 | The fields of any OPEN, in order, next to whatever its parameters give |
| Readings.OverlongParameters | messages/bgp_open.go:305-340 | A parameter or a capability that announces more than there is ends the OPEN with its own error |
| MrtReader.ByteReader.ReadUint8 | mrt/reader.go:26-37 | One octet, or zero and the sticky error |
| MrtReader.ByteReader.ReadUint16 | mrt/reader.go:39-50 | A 16-bit number, or zero and the sticky error |
| MrtReader.ByteReader.ReadUint32 | mrt/reader.go:52-63 | A 32-bit number, or zero and the sticky error |
| MrtReader.ByteReader.ReadBytes | mrt/reader.go:65-77 | The octets asked for, or as many zeros and the sticky error |
| MrtReader.ReadsGoForward | mrt/reader.go:26-77 | Over any sequence of reads what is left is an end of what was there, and an error stays |
| MrtReader.GoodReadsReturnInput | mrt/reader.go:26-77 | Without an error the octets returned, joined, are exactly those consumed |
| MrtReader.ErrorSticks | mrt/reader.go:26-77 | After the first error the position is frozen and every read gives zeros of the size asked for |
| Mrt.WriteCommonHeader | mrt/mrt.go:61-66 | Appends timestamp, type, subtype and length |
| Mrt.WritePeer | mrt/mrt.go:74-98 | Appends one peer entry with its flags, in 2 or 4 octets of ASN and 4 or 16 of address |
| Mrt.WriteEntry | mrt/mrt.go:165-192 | Appends one RIB entry with its 16-bit attribute length |
| Mrt.WriteSession | mrt/mrt.go:409-421 | Appends the two ends of a session in the family of the peer address |
| Mrt.ComputeLen | mrt/mrt.go:151-157 | The loops behind `Len` give the length the record announces |
| Mrt.WriteBody | mrt/mrt.go:331-346 | Appends the body of each kind of record |
| Mrt.Write | mrt/mrt.go:139-149 | Appends header and body of each kind of record |
| MrtDecode.ReadPeer | mrt/mrt.go:789-816 | One peer entry is read by its flags, in any state of the reader |
| MrtDecode.ReadPeerIndex | mrt/mrt.go:781-824 | A peer index table is read as specified from any content, also with too little of it |
| MrtDecode.ReadEntry | mrt/mrt.go:586-623 | One RIB entry with its attributes and their error, with and without a path identifier |
| MrtDecode.ReadEntries | mrt/mrt.go:675-686 | All announced entries are read and only the last error is kept |
| MrtDecode.ReadRib | mrt/mrt.go:645-687 | The part shared by RIB records: prefix, its two errors, and entries |
| MrtDecode.ReadTableDumpV2 | mrt/mrt.go:776-867 | The `switch` on the TABLE_DUMP_V2 subtype, including the generic form read in its own field order |
| MrtDecode.ReadSession | mrt/mrt.go:487-498 | The two ends of a session, with addresses of the size the family asks for |
| MrtDecode.ReadMessage | mrt/mrt.go:486-526 | A message record: its negative length, bad header and overlong message errors, then the message and its own error |
| MrtDecode.ReadStateChange | mrt/mrt.go:527-554 | A state change, padded with zeros when the content is short |
| MrtDecode.ReadTableDump | mrt/mrt.go:712-763 | A route of the first TABLE_DUMP format, with its capped prefix length and two-octet attributes, also from too little content and of an unknown subtype |
| MrtDecode.Stream.ReadFull | mrt/mrt.go:873-890 | Takes the octets asked for, or all that is left and fails |
| MrtDecode.ReadSingle | mrt/mrt.go:871-909 | One record and the exact position in the stream after it, on every stream |
| MrtProofs.PeerRoundTrip | mrt/mrt.go:74-98 | A peer with a 16-bit ASN is read back and exactly its octets are used |
| MrtProofs.LongAsnIsLost | mrt/mrt.go:795-797 | The ASN read back for a longer one never exceeds 16 bits |
| MrtProofs.PeersRoundTripIff | mrt/mrt.go:74-98 | A written peer list is read back exactly when every ASN fits 16 bits |
| MrtProofs.PeerIndexRoundTripIff | mrt/mrt.go:139-149 | A peer index table is read back exactly when every ASN fits 16 bits |
| MrtProofs.EntryRoundTrip | mrt/mrt.go:165-192 | A RIB entry is read back with its attributes in normal form |
| MrtProofs.EntriesRoundTrip | mrt/mrt.go:675-686 | All entries are read back in order, without an error |
| MrtProofs.SessionRoundTrip | mrt/mrt.go:409-421 | The two ends of a session are read back, and their three size computations agree |
| MrtProofs.LenIsWritten | mrt/mrt.go:151-208 | For every record whose addresses are addresses and whose aggregator identifiers are complete, generic RIB records apart, the announced length is the number of octets written |
| MrtProofs.BodyRoundTrip | mrt/mrt.go:481-558 | The body of every kind of record is decoded to the record's normal form |
| MrtProofs.RecordRoundTrip | mrt/mrt.go:871-909 | A written record is read back, whatever follows, and exactly its octets are consumed |
| MrtProofs.StreamRoundTrip | mrt/mrt.go:871-909 | Repeated `DecodeSingle` on any list of written records returns those records in order, attributes in normal form, and consumes every octet |
| MrtProofs.FramingIgnoresBody | mrt/mrt.go:871-909 | Whenever the announced length is allowed and there, exactly 12 octets plus that length are consumed, and what follows changes nothing, whatever the type or body error |
| MrtProofs.EachRecordAlone | mrt/mrt.go:871-909 | Reading any stream of records cut at their announced lengths, damaged or not, gives each the outcome it has on its own and consumes every octet |
| MrtProofs.LaterRecordsUnaffected | mrt/mrt.go:871-909 | Each written record in such a stream, at any place, is read back whatever the others hold |
| MrtProofs.GenericRibIsCutShort | mrt/mrt.go:348-358 | A generic RIB record announces one octet less than it writes, and reading it leaves the stream one octet early |
| MrtProofs.HostRouteIsCutIff | mrt/mrt.go:725-737 | A route of the first TABLE_DUMP format keeps its prefix length exactly when that is below the size of the address |
| MrtReadings.FramedRecord | mrt/mrt.go:871-909 | A header with literal fields around any body: that body is decoded under that timestamp, type and subtype |
| MrtReadings.DamagedFrames | mrt/mrt.go:871-890 | An incomplete header or body uses up the stream, and a length over 2^20 the header only |
| MrtReadings.UnknownKinds | mrt/mrt.go:893-908 | Every type and subtype without a decoder, with its error; another BGP4MP subtype has neither record nor error |
| MrtReadings.WirePeerReads | mrt/mrt.go:789-816 | A peer with any flags: 1 for a sixteen-octet address, 2 for a four-octet ASN, and every field its own octets |
| MrtReadings.PeerTableReads | mrt/mrt.go:781-824 | `DecodeSingle` reads a table of such peers as it stands, four-octet ASNs included |
| MrtReadings.WireEntryReads | mrt/mrt.go:596-623 | A RIB entry with and without the four octets of a path identifier, with any attribute data |
| MrtReadings.WireEntriesRead | mrt/mrt.go:675-686 | All entries of a record, and the error of the last one whatever the others had |
| MrtReadings.RibReads | mrt/mrt.go:625-687 | `DecodeSingle` on the six subtypes with a family of their own: literal family and path mode, any prefix length, any entries |
| MrtReadings.GenericRibReads | mrt/mrt.go:826-851 | The generic subtype, with the sequence number before the family, and with any family |
| MrtReadings.RouteReads | mrt/mrt.go:712-763 | Every field of a first-format route in order, for every subtype and prefix length; no attributes are kept next to an error |
| MrtReadings.MessageReads | mrt/mrt.go:486-526 | A message record by its two ends and whatever follows them: header errors, missing octets, octets left over |
| MrtReadings.NegativeLengthIff | mrt/mrt.go:500-503 | The exact bodies refused for their length: under 20 octets, or under 44 with the IPv6 family in them |
| MrtReadings.StateChangeReads | mrt/mrt.go:527-554 | A state change with both states, with one and with none; missing octets count as zeros without an error |
| WireForm.FlagsAreStandardIff | messages/bgp_update.go:224-507 | The flags written are those the RFCs ask for exactly for all attributes but LOCAL_PREF, ATOMIC_AGGREGATE and AGGREGATOR |
| WireForm.AddPathCapability | messages/messages_test.go:10-34 | The octets of the add-path capability in the repository's own example |
| WireForm.UpdateAttributes | messages/messages_test.go:36-45 | The octets of four attributes of the repository's own UPDATE example |
| WireForm.PrefixOctets | messages/messages.go:397-407 | The octets of one prefix in both modes |
| WireForm.AttributeHeader | messages/bgp_update.go:350-376 | Flags, code and one or two length octets of any attribute of up to 65535 octets |
| WireForm.FixedAttributes | messages/bgp_update.go:224-497 | The octets of every attribute with fixed content, for any values |
| WireForm.ListAttributes | messages/bgp_update.go:285-408 | The octets in front of a path and of both kinds of communities |
| WireForm.RouteAttributes | messages/bgp_update.go:446-480 | The octets of MP_REACH and MP_UNREACH around their prefixes |
| WireForm.LargeAndShortAsns | messages/bgp_update.go:325-408 | The order of a large community's fields, and a two-octet path whose first ASN loses its high octets |
| WireForm.MessageOctets | messages/messages.go:643-647 | Marker, length, type and content of the four kinds of message |
| WireForm.DefaultOpen | messages/bgp_open.go:356-394 | The OPEN of a default neighbor, octet by octet, for any ASN, identifier and hold time |
| WireForm.DefaultAnnouncement | messages/bgp_open.go:356-394 | The OPEN of a default neighbor with or without add-path and route refresh: its fields, and its capabilities in order in one parameter |
| WireForm.PeerOctets | mrt/mrt.go:74-98 | The flags and fields of a written peer, with bit 4 for an ASN over 16 bits |
| WireForm.RecordHeader | mrt/mrt.go:61-66 | The type and subtype of every kind of record and family, in octets |
| WireForm.GenericBody | mrt/mrt.go:331-346 | A generic RIB record is written with the family before the sequence number |

## Left out

- Sockets, dialing, listening and accepting: the incoming stream is a sequence of octets read in arbitrary non-empty chunks, and whether a connection succeeds is an argument of each step.
- Clocks: each evolution gets one time as an argument, so the several calls of `time.Now` in one evolution coincide.
- Data races: `EvolveState` and `Disconnect` are atomic steps, which the sender and the receiver may interleave in any order; field accesses inside one step do not interleave.
- User callbacks: whether the handler accepts the peer is a boolean argument; what a handler does to the neighbor is not part of the model.
- The capacity of `OutQueue` (1000 messages): the queue is an unbounded sequence, and a sender that blocks is not modelled.
- Manager lists, locks, memory pools, and goroutine shutdown through `qLife` and `qSender`: routine list filtering and non-blocking sends.
- Route refresh, `SendRoute`, `CraftUpdate` and `UpdateRib`: ROUTE-REFRESH is written but not parsed by `ParsePacket`, and the others have empty bodies.
- The conversion of RIB entries to updates (mrt/mrt.go:238-298), whose append at mrt/mrt.go:271-273 is lost, and the short RIB form of MP_REACH, which is only written for attributes held by pointer (mrt/mrt.go:173-186) and which the parser does not read.
- `String` methods, name tables, logging, `Equals` and `GetAfi` of prefixes, and the seed extractor: text output and plain comparisons.
- Slice aliasing between parsed data and input, and between the local and the peer family list: parsed octets are values.
- The two mask tables are given by their rule (row k has k leading ones) instead of as literal tables; `net.IPMask.Size`, `To4` and `To16` of the Go library are modelled by what they compute.
- Bit operations on flags and TxRx are written as arithmetic on octets.
- Worker pool objects: the pool is a transition system on values, because its content is the order of rendezvous, not fields updated by one routine.
- The writers' index faults on malformed values (an address shorter than its mask, an OPEN identifier under four octets, a RIB record without a prefix) are preconditions, since the code panics there.
- Attributes.Len: for an AGGREGATOR with an incomplete identifier the declared length is not the number of octets written, as in the code.
- UpdateMessage.ReencodedUpdate: bodies of up to 63495 octets, which is above the 4077 of any BGP message.
- MrtProofs.StreamRoundTrip: RIB records with path identifiers, generic RIB records and TABLE_DUMP routes have no round trip in the code; `MrtProofs.GenericRibIsCutShort` and `MrtProofs.HostRouteIsCutIff` state the second and third.
- Framing.ReceiveFrames: covers one connection up to the disconnect that ends it; that the event handler may drop a message and that the hand-over to the life routine may lose one are steps of `Session`.
- OpenMessage.OpenWithOtherParameterIff: the parameter of another type is the last one. In front of others no condition on its own size is exact, as `OpenMessage.MeantByCoincidence` shows; `OpenMessage.OtherParametersAreNotSkipped` says what it is read as.
