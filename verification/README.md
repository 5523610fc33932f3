# Verified model of a PyHSS core

PyHSS is a home subscriber server for mobile networks. It speaks Diameter to the network's nodes,
keeps the table of active PDN connections, issues authentication vectors, logs every change of its
database so that it can be rolled back, and tracks its connected peers. This project models the parts
of it that carry state or arithmetic and proves what they promise.

- **Diameter codec** (`PyText`, `AvpCodec`, `AvpTree`, `AvpLookup`, `AvpText`, `Framing`,
  `AsyncCodec`). Packets are hexadecimal text, as in the program, with Python's slices and
  `int(text, 16)` spelled out. The printers of AVPs and messages are functions; both decoders, the
  message splitter and the lookups are the program's loops, proved against recursive specifications.
  On top of those, trees of AVPs: the decoder, a machine with a stack and one counter shared by two
  loops, computes a recursive flattening of the printed tree.
- **TBCD digits** (`Tbcd`).
- **PDN connections** (`ServingApn`, `PdnSessions`). The table is a class whose rows are created,
  overwritten and deleted; the Gx requests and the updates of a redundant server drive it. Invariants
  over all runs, and what a late termination can and cannot remove.
- **Authentication** (`Milenage`, `AuthVectors`, `AuthRequest`). The block cipher and the key derivation are
  arbitrary functions of their arguments; exclusive or, rotation, 48-bit numbers, AUTS and the stepping
  of the stored sequence number are concrete. A USIM that holds the same key is modelled as the partner
  that has to accept what is issued. `AuthRequest` joins the decoder to the vector loop: from the text
  of a request to its vectors.
- **Operation log and rollback** (`OperationLog`, `ChangeText`, `Rollback`). The bounded log as a class;
  the printing of changes and the parsing that takes them back; the tables before and after.
- **Peer table** (`DiameterPeers`). The dictionary of peers, the prune pass with its early end, and the
  mirror in a Redis hash.

Members marked `method` below are the program's loops and state changes, each proved equal to the
specification function named in its contract; what the program promises is then proved of those
functions. Single assignments (`AucStore.UpdateAuc`, `Log.UpdateOldRecord`, `PeerService.Identify`,
`PeerService.Disconnect`) are methods too, but no results of their own. `Option`
stands for a raised exception where the program raises.

Where the program and its description part ways, the code is modelled and a member says exactly when
the description holds:

- The table of PDN connections is described as holding one address per connection. A call with an empty
  gateway name, or without an address, skips the duplicate check (`ServingApn.IpsStayUnique`,
  `ServingApn.UnsafeCallRepeatsIp`).
- The guard of a termination looks a connection up by the exact APN name, the deletion by the
  subscriber's list ignoring case and falling back on the last entry (`PdnSessions.EndRemovesOnlyNamed`,
  `PdnSessions.MisplacedGuardRemovesOther`).
- Rolling back an update loses the last character of every old value (`ChangeText.UpdateTextInverts`,
  `Rollback.UndoUpdate`); an update that moves the text of `last_modified` on is therefore not undone
  exactly.
- Rolling back a deletion needs texts that cannot be mistaken for the separators around them
  (`ChangeText.DeleteTextInverts`, `Rollback.UndoDelete`).
- Sequence numbers of thirteen, fifteen and so on hexadecimal digits make the vector printer raise
  (`Milenage.SqnBytesRaises`, `AuthVectors.IssueRaises`).
- The MAC-S of a resynchronisation token is computed but never compared, which section 6.3.5 of 3GPP
  TS 33.102 asks for (`AuthVectors.OnlyVerifiedMovesExactly`, `AuthVectors.ForgedTokenMoves`).
- A resynchronisation token whose RAND begins like an AVP is taken for a group and lost
  (`AuthRequest.TokenReaches`, `AuthRequest.LostTokenStartsAgain`).
- The second decoder does not skip the padding between the members of a group and does not take the
  vendor field off. It takes leaves with a vendor for groups whose vendor and payload together look
  like an AVP, four-byte numbers up to eight among them; one that declares a length of zero uses up its
  failsafe, and an Origin-Host behind it is not found by the peer validation, which discards the message
  (`AsyncCodec.DecodersAgreeExactly`, `AsyncCodec.VendorGroupLooks`, `AsyncCodec.VendorLeafLooks`,
  `AsyncCodec.OriginHostAgrees`, `AsyncCodec.OriginHostLost`).
- The message splitter takes a negative length for granted (`Framing.NegativeLengthRepeats`). Its only
  caller passes bytes, so no received packet holds the minus sign that takes.
- The timeout of a disconnected peer ignores whole days, and fires after the clock was set back
  (`DiameterPeers.TimeoutIgnoresDays`, `DiameterPeers.TimedWrong`).
- A last AVP that is only a header is dropped, no more than a hundred AVPs are read, and a payload that
  looks like an AVP is unpacked (`AvpTree.DecodePrinted`, `AvpTree.RoundTrip`). Eight bytes that look like
  the front of an AVP with a vendor block everything behind them (`AvpTree.RaisingLeafBlocks`).

Verify with `dafny verify dfyconfig.toml`.

## Model

| member | source | states |
|---|---|---|
| AvpCodec.UnpackSubAvps | lib/diameter.py:638-684 | method: the inner loop over the stack of unread siblings and group contents computes `UnpackSpec`, with the failsafe counter it shares with the outer loop and the exception that ends it |
| AvpCodec.DecodeAvpPacket | lib/diameter.py:574-696 | method: for any text at all the decoder ends, never takes from an empty stack and returns `Decode` |
| AvpCodec.DecodeBounded | lib/diameter.py:586-603 | whatever the text, at most a hundred records come back, nested ones counted, and none for sixteen characters or fewer |
| AvpCodec.NothingBehindUnreadable | lib/diameter.py:597-696 | a text whose first header is no number is tried until the failsafe is used up and yields nothing, whatever stands behind |
| AvpTree.ReadPrinted | lib/diameter.py:308-350 | whichever printer made an AVP, its code, flags, length, vendor and payload are read back and the reader stands behind its padding, whatever follows |
| AvpTree.PrintAvpFields | lib/diameter.py:308-350 | where code, flags, length, vendor, content and padding of a printed AVP stand; the length counts header, vendor and content and not the padding |
| AvpTree.GuessIsRight | lib/diameter.py:455-471 | the guess whether a payload is grouped is right on every node of a tree whose leaves do not look like an AVP; an empty group holds nothing to unpack |
| AvpTree.UnpackPrinted | lib/diameter.py:638-684 | the stack machine on printed lists yields the recursive flattening of everything on the stack, cut exactly where the shared counter runs out |
| AvpTree.FlattenOrder | lib/diameter.py:579-582 | the flattening is the siblings in order and then the contents of the groups among them, last group first |
| AvpTree.DecodePrinted | lib/diameter.py:574-696 | decoding any printed forest gives one record a top-level AVP with its flattened members, without a bare header at the end and cut at a hundred nodes |
| AvpTree.FalseGroupSpoils | lib/diameter.py:638-684 | on lists of which one holds a leaf that looks like an AVP, at any depth, the stack machine never yields their flattening, whatever else lies on the stack and wherever the counter is |
| AvpTree.RaisingLeafBlocks | lib/diameter.py:597-696 | a leaf of eight bytes that looks like the front of an AVP with a vendor raises in the inner loop until the failsafe is used up: neither it nor anything behind it is decoded |
| AvpTree.RoundTrip | lib/diameter.py:308-350 | the decoder inverts the printer, for all forests whose fields fit, if and only if there are at most a hundred AVPs, the last is no bare header, and no leaf looks like an AVP |
| AvpLookup.GetAvpData | lib/diameter.py:698-711 | method: the two nested loops compute `Lookup`; a blank AVP gives its sub-AVP list, any other its payload |
| AvpLookup.LookupPrinted | lib/diameter.py:698-711 | on a decoded forest the lookup finds exactly the tree's nodes with the code, each as often as it occurs and in flattening order |
| AvpLookup.LookupUnique | lib/diameter.py:698-711 | when one AVP of the tree has the code, the lookup is exactly its datum, which is what the callers' `[0]` relies on |
| AvpText.GuessOnBytes | lib/diameter.py:455-471 | the exact bytes that are taken for a group: a known flags byte in fifth place and a length that the payload covers |
| AvpText.TextIsNoGroup | lib/diameter.py:455-471 | payloads of up to five bytes, and printable text shorter than 0x202020 bytes, are never taken for a group; longer text can be |
| Framing.SplitDiameterMessage | lib/diameter.py:473-533 | method: the framing loop computes `SplitSpec`, ends, and returns at most fifty-one messages |
| Framing.SplitConserves | lib/diameter.py:489-533 | on any text without a minus sign the messages laid end to end are the front of it, and splitting stops only for want of a header, at fifty-one messages, or at a header of which the length, the command code or the application id is no number, of which received bytes have none |
| Framing.NegativeLengthRepeats | lib/diameter.py:508-523 | behind any message, any header that declares minus its length makes the loop deliver the message again, so the result is not the front of the text |
| Framing.NegativeLengthExists | lib/diameter.py:508-523 | there are such a message and such a header |
| Framing.PrintedHeader | lib/diameter.py:352-366 | a printed message is as long as its header declares, header included, and its header parses (section 3 of RFC 6733) |
| Framing.PrintedLayout | lib/diameter.py:352-366 | version, length, flags, command code, application id, hop-by-hop id, end-to-end id and AVPs stand at characters 0, 2, 8, 10, 16, 24, 32 and 40 of a printed message |
| Framing.SplitInvertsConcat | lib/diameter.py:473-533 | splitting the concatenation of any list of printed messages returns the first fifty-one of them unchanged |
| AsyncCodec.UnpackSiblings | lib/diameterAsync.py:212-243 | method: the second decoder's inner loop, which goes on without skipping padding, computes `InnerSpec` |
| AsyncCodec.DecodeAsync | lib/diameterAsync.py:160-255 | method: the second decoder ends on any text and returns `AsyncSpec` |
| AsyncCodec.GetAvpDataAsync | lib/diameterAsync.py:85-91 | method: the payloads of the top-level AVPs with the code, in order |
| AsyncCodec.DecodersAgree | lib/diameterAsync.py:160-255 | on every printed list, of any length, of AVPs neither takes for groups and vendorless groups with no padding between their members, both decoders return the same codes, flags, lengths, payloads and members in the same order; a vendor field stays in front of the payload in the second |
| AsyncCodec.SecondReadsAHundred | lib/diameterAsync.py:172-179 | of a printed list that the decoders see alike the second reads a hundred AVPs, nested ones counted, and no more |
| AsyncCodec.OnlyVendorIdIsParsed | lib/diameterAsync.py:180-212 | of a printed AVP the second decoder parses the first four bytes as a vendor if and only if its code is 266, and leaves a vendor in front of the payload |
| AsyncCodec.DecodersAgreeExactly | lib/diameterAsync.py:172-253 | for every list within the failsafe in which no vendor's number is the code of its group's first member, the decoders agree if and only if every AVP is seen alike, or all but a last ungrouped one to which the second decoder comes with the failsafe just used up, at once or after its exceptions |
| AsyncCodec.DecodersAgreeQuietly | lib/diameterAsync.py:172-253 | with one AVP to spare and no exception they agree if and only if every AVP is seen alike: a group has no vendor, members with nothing inside and no padding between them, and nothing else looks like an AVP |
| AsyncCodec.RaisingLeafIsCutInTime | lib/diameterAsync.py:172-253 | the exception is real: one leaf with a vendor, alone in a packet, makes the second decoder raise thirty-three times and comes out alike although it is not seen alike |
| AsyncCodec.ShiftedDiffers | lib/diameterAsync.py:223-241 | behind padding that was not skipped no member is ever read with its own code, flags and length |
| AsyncCodec.MembersDiffer | lib/diameterAsync.py:218-243 | where members do not stand in line the inner loop raises or differs from the flattening, wherever the counter is |
| AsyncCodec.VendorGroupLooks | lib/diameterAsync.py:178-212 | the second decoder leaves a group with a vendor whole if and only if the top byte of its first member's code is no flags byte or the other three exceed the group's length less eight; otherwise it takes it apart with the vendor number for a code |
| AsyncCodec.VendorLeafLooks | lib/diameterAsync.py:178-212 | the second decoder takes a leaf with a vendor for a group if and only if the vendor's four bytes and the payload together meet the exact byte condition for one |
| AsyncCodec.VendorNumberLooks | lib/diameterAsync.py:93-112 | of four-byte numbers those are taken for a group whose first byte is a flags byte and whose other three are at most eight |
| AsyncCodec.VendorNumberCosts | lib/diameterAsync.py:218-243 | a number from one to eight, such as ULR-Flags, costs the inner loop three turns, two or one, raises nothing and is got past |
| AsyncCodec.VendorLeafStuck | lib/diameterAsync.py:223-243 | known flags and three zero bytes at the front of such a payload declare a length of zero |
| AsyncCodec.NothingBehindStuck | lib/diameterAsync.py:218-243 | behind an AVP whose content declares a length of zero the second decoder reads nothing |
| AsyncCodec.OriginHostLostBehindStuck | services/diameterService.py:59-73 | a code that only occurs behind such an AVP is not found by the peer validation, in any list |
| AsyncCodec.OriginHostLost | lib/diameter.py:4459-4459 | a capability AVP of value zero before any Origin-Host: the answers find it and the peer validation does not |
| AsyncCodec.FirstReadsExactly | lib/diameter.py:597-696 | the first decoder reads a top-level AVP if and only if it is no bare header at the end and fewer than a hundred nodes stand before it |
| AsyncCodec.SecondReadsExactly | lib/diameterAsync.py:172-253 | the second decoder reads a top-level AVP if and only if it is no bare header at the end, nothing before it raises, what stands before it costs fewer than a hundred turns, and, if it raises itself, its tries do not end at the failsafe exactly |
| AsyncCodec.OriginHostAgrees | services/diameterService.py:59-73 | on every list, for every code used plainly, peer validation finds the same payloads as the answers do, such as Origin-Host, if and only if no AVP with the code is read by one decoder and not by the other |
| AsyncCodec.OriginHostAgreesWithin | services/diameterService.py:59-73 | so it does wherever nothing raises and neither counter runs out, whatever the second decoder takes apart |
| AsyncCodec.OriginHostAgreesAlike | services/diameterService.py:59-73 | and on every list that the decoders see alike, however long |
| AsyncCodec.PassedGroupCosts | lib/diameterAsync.py:218-243 | a group without a vendor in which nothing behind padding looks like an AVP raises nothing and costs no more than its nodes |
| AsyncCodec.WholeCosts | lib/diameterAsync.py:211-218 | an AVP that does not look like a group to it costs the second decoder one turn |
| Tbcd.Encode | lib/diameter.py:249-288 | method: the pairwise loop computes `EncodeFrom`, special characters and the odd end included |
| Tbcd.Decode | lib/diameter.py:290-304 | method: the pairwise loop computes `DecodeFrom`; None where the lone filler makes it raise |
| Tbcd.RoundTrip | lib/diameter.py:249-304 | for text of any length without special characters decoding inverts encoding; the encoding has even length, and the filler stands exactly once, second to last, when the length is odd (section 17.7.8 of 3GPP TS 29.002) |
| Tbcd.RoundTripExactly | lib/diameter.py:226-304 | for text of any length decoding inverts encoding if and only if every pair is free of special characters and fillers, or made of digits and 'c' with no zero in second place, and an odd last character is not special, or is 'c' behind a pair |
| Tbcd.SpecialCodes | lib/diameter.py:226-288 | next to one of "*#abc" a pair becomes the digits of its characters, swapped, '*', '#', 'a', 'b' and 'c' being a, b, c, d and c, and loses a leading zero; it raises next to any other character, and so does a special character that is the whole text |
| ServingApn.Table.DeleteObj | lib/database.py:1208-1237 | method: takes out the one row with the id, or raises and changes nothing |
| ServingApn.Table.CreateObj | lib/database.py:1240-1268 | method: appends the call's data under a fresh id |
| ServingApn.Table.UpdateObj | lib/database.py:1172-1206 | method: overwrites the row with the id by the call's data, leaving id and position |
| ServingApn.Table.DeleteSuperseded | lib/database.py:2062-2072 | method: the loop that deletes rows by id leaves exactly `Purge` |
| ServingApn.Table.ResolveApn | lib/database.py:2079-2100 | method: the search that breaks on the first matching name and otherwise ends on the last entry |
| ServingApn.Table.WriteRow | lib/database.py:2116-2161 | method: delete, overwrite or create, as the gateway and the existing row decide |
| ServingApn.Table.UpdateServingApn | lib/database.py:2026-2161 | method: one call takes the table to `Apply`, and raises exactly when subscriber or APN cannot be resolved |
| ServingApn.Table.GetServingApn | lib/database.py:2184-2197 | method: the first row of a subscriber and APN |
| ServingApn.Table.GetUeByIp | lib/database.py:2325-2339 | method: the only row with an address, raising for none and for several |
| ServingApn.Table.GetServingApnByIp | lib/database.py:2239-2253 | method: the first row with an address |
| ServingApn.PurgeKeeps | lib/database.py:2062-2072 | the duplicate check leaves exactly the rows that have another address and have one at all |
| ServingApn.KeysStayUnique | lib/database.py:2127-2161 | no call whatsoever makes a second row for the same subscriber and APN |
| ServingApn.IpsStayUnique | lib/database.py:2027-2043 | a call that ends a connection, has an empty address, or names gateway and address keeps all other addresses unique |
| ServingApn.UnsafeCallRepeatsIp | lib/database.py:2062-2072 | for every other call that resolves, and any other connection of the same directory, one safe call on the empty table leads to a table in which it makes a second row with a served address |
| ServingApn.SoleConnectionKeepsIps | lib/database.py:2062-2161 | without another connection it cannot: where all calls are about one connection, addresses stay unique after any run of any calls |
| ServingApn.RunKeeps | lib/database.py:2026-2161 | both uniqueness invariants hold after any run of safe calls, the subscriber and APN tables changing in between |
| ServingApn.UeByIpExactly | lib/database.py:2325-2339 | on every table `.one()` succeeds if and only if one row alone has the address, and then finds it |
| ServingApn.FirstByIpIs | lib/database.py:2239-2253 | on every table `.first()` finds the first row with the address |
| ServingApn.LookupsAgree | lib/database.py:2239-2339 | after any run of safe calls from the empty table, `.one()` succeeds exactly on the addresses served and agrees with `.first()` |
| ServingApn.OthersStay | lib/database.py:2026-2161 | the rows of the other connections after a call are exactly those there were, less, when a known subscriber's call names a gateway and an address, those with that address or with none; a call for an unknown subscriber changes nothing |
| ServingApn.CallIsStored | lib/database.py:2116-2161 | a call with a gateway leaves exactly one row for its connection, holding its session, address, gateway, realm and peer, an absent one as "None", if the gateway is well formed or there was no row |
| ServingApn.CallEnds | lib/database.py:2127-2155 | a call without a gateway, or overwriting with a malformed one, leaves no row for its connection |
| ServingApn.PgwWithNone | lib/database.py:2143-2145 | an overwriting call is refused for an empty gateway name and for every one with "None" in it |
| ServingApn.OnlyPgwWithNone | lib/database.py:2143-2145 | and for no other |
| ServingApn.CaseIgnored | lib/database.py:2097-2097 | names that differ in the case of letters only resolve to the same connection |
| ServingApn.DefaultComesFirst | lib/database.py:2083-2099 | the default APN is tried first, on the list or not: if it bears the name it is taken, and if it is unknown the call raises |
| ServingApn.ListComesInOrder | lib/database.py:2093-2099 | then the subscriber's list is tried in order: the first entry that bears the name is taken, unless an unknown one stands before it, which raises |
| ServingApn.NoneTakesLast | lib/database.py:2083-2100 | when none bears the name, the last entry is taken of the list without the first occurrence of the default, and the default when nothing remains |
| ServingApn.OnlyBearerIsFound | lib/database.py:2083-2100 | when all APNs are known and one alone of the default and the list bears the name, it is the one taken, wherever it stands |
| PdnSessions.EndGuarded | services/apiService.py:2089-2111 | method: the table changes only when the stored session id is the one received |
| PdnSessions.Handle | lib/diameter.py:2668-2854 | method: one initiating, terminating or geo-redundancy event takes the table to `Next` |
| PdnSessions.EndRemovesOnlyNamed | lib/diameter.py:2811-2854 | when the guard looks at the row to be deleted, a termination adds and alters no row and removes one only if it names that row's session |
| PdnSessions.NamedSessionEnds | lib/diameter.py:2811-2854 | a termination, or a received update without a gateway, that names the session stored for its connection removes exactly that row, wherever it stands in the table |
| PdnSessions.OtherwiseNothingEnds | services/apiService.py:2089-2111 | it changes nothing when the subscriber is unknown, when no APN or more than one has exactly its name, when the connection has no row, or when that row stores another session |
| PdnSessions.ImsHoldsUp | lib/diameter.py:2841-2848 | with "ims" anywhere in the name a termination changes nothing when clearing the CSCFs fails |
| PdnSessions.InitiationIsStored | lib/diameter.py:2668-2702 | an initiation leaves exactly one row for its connection, with its session, address, gateway, realm and peer |
| PdnSessions.GeoUpdateIsStored | services/apiService.py:2112-2122 | and so does a received update with a gateway |
| PdnSessions.MisplacedGuardRemovesOther | lib/diameter.py:2811-2822 | whenever the guard looks at another row, two initiations from the empty table, the first under the subscriber's former default APN, lead to a table in which a termination of one session removes another |
| PdnSessions.ListedNamesFit | lib/database.py:2093-2100 | the guard does look at the row to be deleted when the APN is on the subscriber's list and names differ by more than case |
| PdnSessions.NextKeepsUnique | services/apiService.py:2081-2122 | one event of any kind keeps both uniqueness invariants |
| PdnSessions.RunKeepsUnique | services/apiService.py:2081-2122 | and so does every run of events |
| PdnSessions.SessionSurvives | lib/diameter.py:2811-2854 | a live session outlasts any run of events about other connections and addresses and of terminations naming other sessions, however late |
| PdnSessions.StaleTerminationIsHarmless | lib/diameter.py:2668-2854 | a session stored by a newer initiation is still the stored one after such a run, stale terminations of the same connection included |
| Milenage.SqnRoundTrip | lib/milenage.py:47-47 | a number prints as six bytes that read back as it if and only if it is below 2^48 |
| Milenage.SqnBytesRaises | lib/milenage.py:47-47 | a number does not print as bytes if and only if it has an odd number of hexadecimal digits above twelve |
| Milenage.XorCancels | lib/milenage.py:505-520 | exclusive or with the same bytes twice changes nothing |
| Milenage.XorByteBits | lib/milenage.py:505-520 | bit by bit it is one exactly where two bytes differ |
| Milenage.RotateComposes | lib/milenage.py:523-534 | rotations add up, and rotating by nothing or by the length changes nothing |
| Milenage.RotateMoves | lib/milenage.py:523-534 | a rotation puts that many bytes from the front behind the others |
| Milenage.FlipIsXor | lib/milenage.py:299-302 | flipping the lowest bit of the sixteenth byte is rotating by nothing and masking with c2 |
| Milenage.F2 | lib/milenage.py:294-306 | method: the f2 that works in place on a byte array returns the first result of `F2F5` |
| Milenage.MatchesStandard | lib/milenage.py:260-403 | f1, f1*, f2, f3, f4, f5 and f5* are the functions of section 4.1 of 3GPP TS 35.206 for every cipher, key, RAND, OPc, SQN and AMF |
| Milenage.ResyncInvertsAuts | lib/milenage.py:219-257 | resynchronisation recovers from AUTS the number it was made for and its MAC-S if and only if that number is below 2^48 |
| Milenage.ResyncRecovers | lib/milenage.py:219-257 | the number comes back from the first six bytes of a token whatever AMF the SIM took for its MAC-S and whatever stands in its place |
| Milenage.UsimAccepts | lib/milenage.py:25-75 | a USIM with the same key accepts the vector, finds its sequence number and the AMF given in AUTN, answers with XRES and derives the same KASME |
| Milenage.UsimAcceptsAny | lib/milenage.py:25-75 | a USIM with the same key accepts every vector there is and is handed the AMF; past 48 bits it finds the number without the bytes behind the sixth |
| AuthVectors.AucStore.GetVectorsAir | lib/database.py:1596-1606 | method: one vector from the stored number, which then steps by 100; no step when the vector cannot be made |
| AuthVectors.AucStore.GetVectorsResync | lib/database.py:1608-1614 | method: the stored number becomes the SIM's plus 100, 100 for an empty payload, or nothing changes |
| AuthVectors.AucStore.ReadAuthInfo | lib/diameter.py:2298-2334 | method: the pass over the members of the request computes `ReadInfos` |
| AuthVectors.AucStore.IssueVectors | lib/diameter.py:2338-2350 | method: the loop that counts down computes `Issue` |
| AuthVectors.AucStore.AnswerRequest | lib/diameter.py:2297-2350 | method: the whole request takes the record and the answer to `Answer` |
| AuthVectors.IssueExact | lib/diameter.py:2338-2350 | issuing n vectors whose numbers all print makes exactly n, numbered from n down, that carry the record's AMF and that the USIM accepts for s, s+100, s+200 and so on, and stores s+100n |
| AuthVectors.IssueRaises | lib/diameter.py:2338-2350 | for every stored number there is no answer if and only if one of the n numbers asked for does not print, and the stored number is then the first such |
| AuthVectors.ReadInfosMeans | lib/diameter.py:2298-2334 | the last resynchronisation in a readable request decides the stored number, and the last Number-Of-Requested-Vectors, at most 32 and by default one, how many are made |
| AuthVectors.UnreadableStops | lib/diameter.py:2298-2334 | the pass ends at the first member that cannot be read: no answer, and the record as the members before it made it |
| AuthVectors.AnswerCount | lib/diameter.py:2329-2350 | every answer that is completed has as many vectors as the last number in the request says, 32 at most, and one without a number |
| AuthVectors.ShortTokens | lib/database.py:1608-1614 | an empty payload sets the stored number to 100, and one of 1 to 21 bytes raises, alone of all |
| AuthVectors.MacNeverMatters | lib/database.py:1608-1614 | two payloads equal in RAND and the concealed number leave the same record |
| AuthVectors.OnlyVerifiedMovesExactly | lib/database.py:1608-1614 | that the record is unchanged or the token verifies (section 6.3.5 of 3GPP TS 33.102) holds for a payload of 22 bytes or more if and only if its MAC-S is f1* of the concealed number or that number plus 100 is the one stored |
| AuthVectors.ForgedTokenMoves | lib/database.py:1608-1614 | for every record, SIM and RAND the SIM's token verifies, and with its last byte changed it does not and is accepted all the same |
| AuthVectors.AnswerMeans | lib/diameter.py:2297-2350 | the whole answer to any readable request: whether there is one, how many vectors, their numbers, and what is stored |
| AuthVectors.ResyncedAnswer | lib/diameter.py:2297-2350 | a request with a SIM's token, its MAC-S under any AMF, is answered by min(n,32) vectors with the record's AMF carrying the SIM's number plus 100, plus 200 and so on, whatever was stored before, and the stored number ends ahead of all of them; there is no answer exactly when the last would pass 48 bits |
| AuthVectors.PlainAnswer | lib/diameter.py:2297-2350 | without a resynchronisation the vectors continue from the stored number, and there is no answer exactly when one of their numbers does not print |
| AuthRequest.DecodedOfBytes | lib/diameter.py:598-696 | whatever the decoder cuts out of received bytes is whole bytes |
| AuthRequest.RequestedNumber | lib/diameter.py:2331-2331 | the number of vectors asked for, read from text, is that of the bytes the text stands for |
| AuthRequest.DecodedIsSettled | lib/diameter.py:625-629 | no record of any decoded text, at either level, still holds data that looks like an AVP |
| AuthRequest.TakenTokenIsLost | lib/diameter.py:2299-2326 | a token that is taken for a group reaches the loop over the request's members in no packet of bytes whatsoever |
| AuthRequest.TakenByRand | lib/diameter.py:455-471 | a token of RAND and AUTS is taken for a group if and only if RAND's fifth byte is a flags byte and its next three are at most 30 |
| AuthRequest.RequestInfos | lib/diameter.py:2299-2334 | in a request in which nothing is mistaken the loop goes through the flattened members of its one 1408, and the last resynchronisation is its token |
| AuthRequest.TokenReaches | lib/diameter.py:2299-2326 | in a request in which nothing else is mistaken the token reaches the loop if and only if it is not taken for a group |
| AuthRequest.TokenAloneReaches | lib/diameter.py:2299-2326 | the same for every token of thirty bytes in a request of its own, with no premise |
| AuthRequest.PacketResynced | lib/diameter.py:2297-2350 | from the text of such a packet to the vectors: the answer is ahead of the SIM, whatever was stored |
| AuthRequest.PacketCount | lib/diameter.py:2329-2350 | from the text of a packet to the number of vectors: a completed answer has as many as the one 1410 in its 1408 says, at any depth, and 32 at most |
| AuthRequest.PacketCountsOne | lib/diameter.py:2298-2350 | and one when the 1408 has no 1410 |
| AuthRequest.PacketWithoutGroup | lib/diameter.py:2299-2350 | without a 1408, or with a blank one, the answer is one vector for the stored number; with one that holds text there is none and the record stays |
| AuthRequest.TokenAloneAnswered | lib/diameter.py:2297-2350 | a SIM's token, under any AMF of its own, that is not taken for a group and sent alone: the one vector carries the SIM's number plus 100 and the stored number is 100 ahead of that |
| AuthRequest.LostTokenStartsAgain | lib/diameter.py:2297-2350 | for one RAND, and every AUTS, key and stored number, the token is lost, the stored number starts again from 100 and the one vector carries 100 |
| OperationLog.Log.LogChange | lib/database.py:525-555 | method: below a thousand rows one is added, from then on the oldest is overwritten |
| OperationLog.RingTurns | lib/database.py:514-523 | overwriting the oldest row of a full log turns the ring by one |
| OperationLog.LogHoldsLast | lib/database.py:525-555 | after any history of changes with increasing timestamps the rows, read around from the right position, are its last thousand changes in order |
| OperationLog.IdsStay | lib/database.py:514-523 | after any history there are as many rows as changes, a thousand at most, with ids from one on: an overwritten row keeps its id |
| OperationLog.OrderedLogIsHistory | lib/database.py:514-555 | ordering the rows by timestamp gives exactly the last thousand changes in order of issue |
| ChangeText.PrintedText | lib/database.py:533-533 | the text of a change, character by character, and of changes joined by two line breaks |
| ChangeText.InsertText | lib/database.py:605-617 | an insertion is logged as "[NoneType] None" and the new value with its type for every column, in table order |
| ChangeText.InsertTextParses | lib/database.py:605-617 | parsed like a deletion that text gives None for every column, when no value shows a line break of the log |
| ChangeText.ParsePrinted | lib/database.py:533-533 | the old value of a printed line is parsed back with its type, unless its type has no conversion |
| ChangeText.ParsePrintedUpdate | lib/database.py:680-686 | with its last character cut off it is parsed back if and only if it was None or False; a string comes back one character short |
| ChangeText.OldValues | lib/database.py:704-718 | method: the loop over the lines of a deletion computes `OldValuesOf` |
| ChangeText.RevertUpdate | lib/database.py:678-689 | method: the loop over the lines of an update computes `RevertOf` |
| ChangeText.OldValuesAreRestorable | lib/database.py:704-718 | whatever text is rolled back, the values it yields could have been logged and restored |
| ChangeText.DeleteTextInverts | lib/database.py:605-617 | the text of a deletion gives back the row if and only if every value is a number, a truth value, None or text free of the separators |
| ChangeText.UpdateTextInverts | lib/database.py:678-689 | the text of an update, whose old texts may hold anything and whose new texts show no line break of the log, gives back the old row if and only if every changed column was None or False |
| ChangeText.BreakInNewText | lib/database.py:678-683 | that premise is needed: a new text with such a line break and no line of its own behind it makes the rollback raise even where the old value was None or False |
| ChangeText.LineInNewText | lib/database.py:678-689 | and for the other direction too: a new text that spells a line of its own brings back an old text whole that would have lost its last character |
| Rollback.Database.CreateObj | lib/database.py:1240-1268 | method: the row is in the table and the insertion, all its columns from None, in the log |
| Rollback.Database.DeleteObj | lib/database.py:1208-1237 | method: the row is gone and the deletion, all its columns to None, in the log; raises when there is no such row |
| Rollback.Database.UpdateObj | lib/database.py:1172-1206 | method: the row is replaced and the columns that changed are in the log, if any did |
| Rollback.Database.RollbackLastChange | lib/database.py:648-744 | method: the newest log entry takes the tables to `RolledBack`; its error returns change nothing |
| Rollback.LoggedIsNewest | lib/database.py:658-658 | whether the log was full or not, its newest row is the change just made |
| Rollback.UndoInsert | lib/database.py:695-701 | rolling back an insertion restores the tables, whatever the row's text and however full the log |
| Rollback.UndoDelete | lib/database.py:703-726 | rolling back a deletion restores the tables, row and key, if and only if every value of the row is restorable |
| Rollback.UndoUpdate | lib/database.py:674-694 | rolling back an update restores the tables if and only if every changed column was None or False; columns it does not touch may hold anything |
| Rollback.RollbackTouchesOne | lib/database.py:648-744 | a rollback changes no other table than the one the newest entry names and in it no other row than the one it names; an insertion's row is gone, an update adds and removes none, a deletion overwrites none |
| Rollback.DeletedRowComesBack | lib/database.py:703-726 | the row that a deletion's text makes, for any text that parses: nothing for a name that is no column or a key that is missing, no number or taken; else its values, and None for the columns it does not name |
| Rollback.UnparsedChangesNothing | lib/database.py:678-718 | one line that cannot be parsed leaves all tables as they are |
| Rollback.RollbackTwice | lib/database.py:648-744 | the log entry stays, yet rolling the same insertion or deletion back again changes nothing |
| DiameterPeers.PeerService.Connect | services/diameterService.py:331-361 | method: a new peer is appended or a known one counted as reconnected, and its fields set |
| DiameterPeers.PeerService.CollectHosts | services/diameterService.py:130-136 | method: the dictionary of hostnames holds each one's keys in table order |
| DiameterPeers.PeerService.DuplicateKeys | services/diameterService.py:138-142 | method: sorting and slicing every group collects exactly the peers that do not lead their hostname |
| DiameterPeers.PeerService.TimedOutKeys | services/diameterService.py:144-148 | method: the keys of the disconnected peers past the timeout, in table order |
| DiameterPeers.PeerService.DeleteStale | services/diameterService.py:150-158 | method: deletes from table and hash up to the first key that is already gone, which raises |
| DiameterPeers.PeerService.Mirror | services/diameterService.py:160-162 | method: writing key by key makes the hash equal to the table |
| DiameterPeers.PeerService.Prune | services/diameterService.py:118-162 | method: one pass keeps the invariant and does exactly what `Pass` says |
| DiameterPeers.TimeoutIgnoresDays | services/diameterService.py:147-147 | for every clock reading and timeout: the test says that the peer has been gone for longer than the timeout, in whole seconds, if and only if it was gone less than a day, or no longer than the timeout, or what is left of the last day is beyond it; or, the clock set back, if what is left is not |
| DiameterPeers.TimedWrong | services/diameterService.py:147-147 | a day and ten seconds against a timeout of ten, and a clock set back by a second, are the wrong way round |
| DiameterPeers.LongTimeoutNeverFires | services/diameterService.py:147-147 | a timeout of 86,399 seconds or more never fires |
| DiameterPeers.StaleOfHost | services/diameterService.py:138-142 | dropping the first of a sorted group leaves all of it but the latest connected |
| DiameterPeers.PassMembers | services/diameterService.py:150-158 | the delete loop removes every duplicate and the timed-out peers up to the first that was also a duplicate, from the hash too |
| DiameterPeers.HostsUnshared | services/diameterService.py:106-158 | after one pass, even one that ended early, no two peers share a hostname and each survivor connected last of its host |
| DiameterPeers.PassClears | services/diameterService.py:144-158 | one pass removes every timed-out peer if and only if, in table order, none that is no duplicate stands behind one that is |
| DiameterPeers.SecondPassClears | services/diameterService.py:144-158 | a second pass at the same time always does |
| DiameterPeers.ConnectedPeer | services/diameterService.py:336-361 | a connection makes a peer of no host under "address-port", or keeps what is known of the one there and counts it once more, connected at that time; no other peer changes |
| DiameterPeers.LatestSurvives | services/diameterService.py:138-158 | a pass leaves a connected peer that names no host, or that connected last of its host, the first in table order among equals, and then it is the only one of its host |
| DiameterPeers.ReconnectedLeads | services/diameterService.py:354-361 | a known peer that connects again, later than all others, is the one peer of its host after the next pass |
| DiameterPeers.DisconnectedStays | services/diameterService.py:379-380 | a peer that disconnects stays through a pass for as many seconds as the timeout, marked disconnected at that time, if it is alone of its host |
| DiameterPeers.DisconnectedGoes | services/diameterService.py:144-158 | beyond that and within a day it is gone after two passes |
| DiameterPeers.IdentifiedLeads | services/diameterService.py:59-73 | a connected peer that names its host and connected last of it is known under it and alone of it after the next pass |
| DiameterPeers.PassKeepsValid | services/diameterService.py:115-162 | a pass keeps the hash within the table and, on a table that was not empty, makes them equal |
| DiameterPeers.StepKeepsValid | services/diameterService.py:336-380 | so does every connection, disconnection and identification keep the hash within the table and disconnect times in place |
| DiameterPeers.RunMirrors | services/diameterService.py:115-165 | in every state of every run from the start the hash holds live peers only and a disconnected peer has a disconnect time; right after a pass over a non-empty table hash and table are equal |
| PyText.FixedHexRoundTrip | lib/diameter.py:309-309 | a number that fits a fixed-width hexadecimal field fills it and is read back from it |
| PyText.IntTextRoundTrip | lib/database.py:634-635 | every integer's decimal text is read back as that integer |
| PyText.ParseIntOfDigits | lib/diameter.py:460-464 | text of digits only is read as its value; no sign, prefix, space or underscore can interfere |
| PyText.ParseIntSyntax | lib/diameter.py:460-464 | what else `int` reads: a sign, spaces around, an underscore between digits, in base sixteen "0x"; not a space between digits, nor the empty text |

## Left out

- Sockets, asyncio scheduling, SCTP, the Redis client, Flask routing, metrics and logging are not modelled.
- DiameterPeers: a prune pass is one step; events between its awaits, and the expiry of the hash a day after its last write, are not modelled.
- SQLAlchemy sessions, foreign keys, cascades, webhooks, failing commits and the sending side of geo-redundancy are left out; tables are sequences or finite maps with fresh ids.
- AES and HMAC are arbitrary functions; random challenges, clocks and database keys are inputs.
- Keys, OPc and AMF are given as bytes; their hexadecimal decoding in lib/S6a_crypt.py is not modelled.
- The other actions of `Get_Vectors_AuC` (SIP, AKA, 2G/3G, EAP-AKA, digest) and COMP128 are left out.
- The remaining `Answer_*` and `Request_*` builders only concatenate AVPs; the emergency ("sos") branch of the Gx answer keeps another table.
- PyText: `int` is modelled on ASCII; digits and spaces of other scripts are not.
- AsyncCodec.DecodersAgreeExactly: premises that no vendor's number equals the code of its group's first member and that a Vendor-Id (266) carries a number; AsyncCodec.OriginHostAgrees the latter only.
- ServingApn: the timestamps of a row and the conversion of the APN list from text to numbers are left out.
- AuthRequest.TakenTokenIsLost: says that the token is lost, not what is stored instead, which depends on what its bytes are read as; `AuthRequest.LostTokenStartsAgain` follows one RAND to the end.
- AuthRequest: the PLMN of a request is given, not read from its 1407.
- OperationLog.LogHoldsLast: premises increasing timestamps; a new row takes its timestamp from the database clock, which may repeat within its resolution.
- OperationLog: the fields operation_id and last_modified are left out.
- Rollback: ids are positive, float columns count as values without a conversion, a row whose key an update rollback rewrites stays under its id, and `rollback_change_by_operation_id` is left out.
- Rollback.UndoUpdate: premises new texts without a line break of the log, like `ChangeText.UpdateTextInverts`. Neither direction holds without it (`ChangeText.BreakInNewText`, `ChangeText.LineInNewText`).
