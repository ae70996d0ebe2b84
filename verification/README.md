# Wireshark: ARP, 5G LI and logging cores in Dafny

This project models three self-contained pieces of Wireshark and proves
properties about them.

- **The ARP/RARP dissector** (`packet-arp.c`) covers the following:
  - the eight-octet fixed header of RFC 826 ("Packet format"), with the reverse opcodes of RFC 903;
  - the four variable-length addresses that follow the header, and their display text;
  - the generic hex rendering of `arpaddr_to_str`, plus the Ethernet and IPv4 special cases;
  - the protocol and info column text;
  - the top tree item and its nine field items.
- **The 5G lawful-interception X2/X3 dissector** (`epan/dissectors/packet-li5g.c`) covers the header and conditional attributes of ETSI TS 103 221-2, clause 5:
  - the heuristic that claims a buffer;
  - the header reads;
  - the attribute walk, whose loop test is an unsigned 32-bit subtraction;
  - the top, header, attribute and payload items;
  - the hand-off of the payload to the sub-dissector registered for its format;
  - the recursion on the rest of the buffer;
  - the columns, and the restoring of the packet's addresses and ports.
- **The filtering core of the logging library** (`wsutil/wslog.c`) covers:
  - level names;
  - the level and domain tests and the drop decision;
  - the level setters;
  - the domain-filter tokeniser;
  - the removal of `--log-level`, `--log-domains` and `--log-file` from the argument vector;
  - the level and filter that initialisation picks.

Everything is modelled as pure functions over immutable values:
- A packet is a `seq<byte>`, and text is a `string`.
- The logging library's static variables are one `LogState` value. Every setter takes it and returns it.
- The framework calls that the code relies on but that are not part of this model are function-valued parameters:
  - `ether_to_str`, `ip_to_str`, `ethertype_to_str`;
  - the sub-dissectors;
  - opening a log file.

The supporting modules model the framework helpers the three cores use, as far as the cores depend on them:
- `Bytes`: big-endian reads.
- `Printf`: `%04x`, `%d` and the hex digit table.
- `Ascii`: `g_ascii_tolower`, `g_ascii_strcasecmp(...) == 0` and `g_str_has_prefix`.
- `ValueStrings`: `match_strval`, `try_val_to_str` and `val_to_str`.
- `Tree`: items that cover a byte range back to back.

The framework's exceptions are modelled as follows:
- A read or an item past the end of the buffer aborts the 5G LI dissection, as the framework's exception does. `Extent` models the framework's length conventions: a `gint` length of -1 means "to the end", and any other range must fit.
- The ARP dissector does not check its lengths (its own comment says so). The model therefore asks the caller for a fully captured message (`CapturedWhole`).

## Model

| member | source | states |
|---|---|---|
| Arp.ArpAddrToStr | packet-arp.c:82-118 | The first min(n, 8) octets appear as uppercase hex pairs, high nibble first. The pairs read back as those octets. "..." follows exactly when n > 8. The length is 2·min(n, 8) plus 3 when octets are left out, never more than 19. An empty address gives the empty string. |
| Arp.FormatArpAddr | packet-arp.c:101-116 | The loop of `arpaddr_to_str`, which spends a 16-digit budget two digits at a time and then adds the ellipsis, produces exactly the generic rendering. |
| Arp.ArpAddrToStrInjective | packet-arp.c:102-116 | Addresses of up to eight octets render alike only if they are equal: the rendering loses nothing below the cap. |
| Arp.HexPairs | packet-arp.c:91-92 | Two uppercase hex digits per octet, which read back as the octets. |
| Arp.HrdAddrToStr | packet-arp.c:120-127 | Ethernet text exactly when the hardware type is 1 and the address has six octets. Otherwise the generic rendering. |
| Arp.ProAddrToStr | packet-arp.c:129-136 | Dotted IPv4 text exactly when the protocol type is 0x0800 and the address has four octets. Otherwise the generic rendering. |
| Arp.DecodeHeader | packet-arp.c:138-143 | Hardware type, protocol type and opcode are big-endian 16-bit values at offset+0, +2 and +6. The two sizes are the single octets at +4 and +5. |
| Arp.DecodeEncodedHeader | packet-arp.c:194-198 | Reading the header back from its wire encoding, wherever it sits in the packet, gives the header that was encoded. |
| Arp.AddressLayout | packet-arp.c:200-207 | The addresses follow the header back to back: sha at offset+8, then spa, tha and tpa, each where the previous one ends. The last ends at offset + 8 + 2·hln + 2·pln. |
| Arp.ExtractAddresses | packet-arp.c:200-208 | The two hardware addresses carry the hardware type and hln octets each. The two protocol addresses carry the protocol type and pln octets each. Together, in the order sha, spa, tha, tpa, the four octet strings are exactly the address area of the message. |
| Arp.ProtocolTextByOpcode | packet-arp.c:156-161 | The protocol column names opcodes 1 to 4 ("ARP request", "ARP reply", "RARP request", "RARP reply") and shows "ARP" for every other opcode. |
| Arp.OpcodeName | packet-arp.c:156-161 | The opcode table names exactly opcodes 1 to 4, in order. |
| Arp.InfoFor | packet-arp.c:217-237 | The opcode picks the sentence and the addresses it quotes. A request asks for the tpa on behalf of the spa, and a RARP request asks for the tha on behalf of the sha. A reply says the spa is at the sha, and a RARP reply the reverse. Any other opcode is reported by value. |
| Arp.InfoText | packet-arp.c:217-237 | "Who has T?  Tell S" and "Who is T?  Tell S" are 16 and 15 characters longer than the two quoted texts, with T right after the fixed opening and S at the end. "O is at H" is 7 characters longer than O and H, starts with O and ends with H. An unknown opcode is written as 25 characters ending in four hex digits that read back as the opcode. |
| Arp.InfoTextReadsBack | packet-arp.c:220-228 | Two "Who has" sentences with targets of equal length read alike exactly when they quote the same target and teller texts. A "Who has" sentence never reads like a "Who is" one. |
| Arp.SummaryText | packet-arp.c:239-245 | The top item names the opcode when it is in the table. Otherwise it reads "Unknown ARP (opcode 0x…)" with four hex digits that read back as the opcode. |
| Arp.OpcodeText | packet-arp.c:256-257 | The opcode line shows the opcode in four hex digits that read back as it, then its name or "Unknown" in parentheses. |
| Arp.SizeLinesReadBack | packet-arp.c:252-255 | The two size lines print their octet in decimal, and the decimal reads back as the size. |
| Arp.Lines | packet-arp.c:248-265 | Nine lines: the hardware type, protocol type, the two sizes and the opcode from the header, then one address line per role in the order sender hardware, sender protocol, target hardware, target protocol, each showing the address of its role. |
| Arp.PlaceTiles | packet-arp.c:241-265 | The nine field items cover the span of the top item back to back, with no gap and no overlap. |
| Arp.Dissect | packet-arp.c:145-267 | Each column and the tree are produced exactly when the caller asks for them. The top item starts at the header and lies inside the captured bytes. Its nine field items tile its span. |
| Arp.BuildTree | packet-arp.c:239-266 | The top item spans 8 + 2·hln + 2·pln octets, and the field items are the nine lines placed at their fields. |
| Arp.HeaderItemsShowTheirBytes | packet-arp.c:241-257 | Each header item shows the value read from the octets it highlights, at the cited offset/length pairs. |
| Arp.AddressItemsShowTheirBytes | packet-arp.c:258-265 | Each address item highlights exactly the octets its line shows, each starting where the previous one ends. |
| Arp.ColumnsByOpcode | packet-arp.c:210-237 | For each of the four opcodes, the info column quotes the right addresses and the protocol column names the opcode. Any other opcode gives "ARP" and a by-value report. |
| Arp.EncodeArp | packet-arp.c:194-208 | The wire layout the dissector reads: the header, then the four addresses. |
| Arp.DissectEncoded | packet-arp.c:194-265 | Decoding inverts encoding: dissecting an encoded message gives back its header fields, its addresses with their octets, and a top item over exactly the message. |
| Arp.EthernetIpv4Request | packet-arp.c:120-136 | A 28-octet Ethernet/IPv4 request is named "ARP request". Its info quotes the IPv4 texts, and its sender hardware line uses the Ethernet text. |
| Arp.UnknownOpcodeText | packet-arp.c:233-257 | Opcode 0x0099 gives protocol "ARP", info "Unknown ARP opcode 0x0099", top item "Unknown ARP (opcode 0x0099)" and opcode line "0x0099 (Unknown)". |
| ArpRotation.GenericAsWritten | packet-arp.c:87-100 | The static formatter writes the next of its three buffers, returns it, and leaves the other two untouched. |
| ArpRotation.AddrAsWritten | packet-arp.c:120-136 | The special Ethernet and IPv4 cases do not touch the buffers. Every other address goes through them. |
| ArpRotation.ThreeCallsDistinct | packet-arp.c:94-100 | Three calls in a row write three different buffers, so three generic addresses can be held at once. |
| ArpRotation.FourthCallReusesFirst | packet-arp.c:94-100 | The fourth call overwrites the buffer of the first. |
| ArpRotation.SenderHardwareShowsTargetProtocol | packet-arp.c:201-208 | When all four addresses are generic, the sender hardware pointer shows the target protocol address's text. |
| ArpRotation.ReplyQuotesWrongAddress | packet-arp.c:223-225 | As written, the reply below reads "01 is at 02" instead of "01 is at AA". |
| ArpRotation.ReplyQuotesSenderAddress | packet-arp.c:223-225 | Rendering each address on its own, the same reply reads "01 is at AA". |
| Li5g.Handle | epan/dissectors/packet-li5g.c:270-282 | A sub-dissector is registered exactly for payload formats 2 and 5 to 13. |
| Li5g.AsGint | epan/dissectors/packet-li5g.c:121 | An unsigned 32-bit length passed as a `gint` keeps its value below 2^31 and turns negative from there on. |
| Li5g.Extent | epan/dissectors/packet-li5g.c:121 | An item or sub-buffer of length -1 runs to the end. Any other non-negative length must fit in the buffer. Any other negative length fails. |
| Li5g.MoreAttrsUnlessLanded | epan/dissectors/packet-li5g.c:133 | The unsigned loop test `headerLen - offset > 0` holds exactly when the offset is not equal to the header length. |
| Li5g.WalkTiles | epan/dissectors/packet-li5g.c:132-148 | A walk that completes covers the header from offset 40 to `headerLen` back to back, each step taking 4 + attrLen octets. |
| Li5g.WalkReads | epan/dissectors/packet-li5g.c:134-147 | Every step shows the type and the length read at its offset. A shown attribute's value lies inside the buffer. |
| Li5g.WalkLands | epan/dissectors/packet-li5g.c:133-148 | A walk completes only by landing exactly on the header length. |
| Li5g.WalkOvershoots | epan/dissectors/packet-li5g.c:133-148 | Once past the header length, the walk never lands on it: it runs on until a read fails. |
| Li5g.ShortHeaderAborts | epan/dissectors/packet-li5g.c:107-148 | A header length below 40 makes the walk start past it, so the PDU is never decoded. |
| Li5g.AttrSubtrees | epan/dissectors/packet-li5g.c:136-145 | There is one subtree per walk step of a shown type (5 to 18), and each is over an attribute value of a shown type. |
| Li5g.AttrSubtreesOrder | epan/dissectors/packet-li5g.c:133-148 | Each step of a shown type has its subtree at the position given by the number of shown steps before it, so the subtrees follow walk order. |
| Li5g.AttrSubtreesFrom | epan/dissectors/packet-li5g.c:136-145 | Every subtree is the one of a step of a shown type. Steps of types 1 to 4 and 19 on get none. |
| Li5g.AttrViewTiles | epan/dissectors/packet-li5g.c:140-144 | A shown attribute's type, length and value items cover its octets back to back. Its value item lies inside the buffer. |
| Li5g.EncodeAttrs | epan/dissectors/packet-li5g.c:134-147 | The wire layout the walk reads: a big-endian type and length, then the value. |
| Li5g.WalkEncoded | epan/dissectors/packet-li5g.c:132-148 | Decoding inverts encoding: the walk over encoded attributes that end at the header length finds each attribute, in order, with its type and length. |
| Li5g.HeaderItemsTile | epan/dissectors/packet-li5g.c:123-130 | The eight header field items cover the 40-octet fixed header back to back. |
| Li5g.DecodeOne | epan/dissectors/packet-li5g.c:117-150 | A decoded PDU starts at its base and has a header of at least 40 octets. Its payload item lies inside the buffer. Its attributes are what the walk finds. Its top item runs to the next PDU, or to the end when there is none. Its hand-off is the handle of its format. A buffer shorter than 40 octets never decodes. |
| Li5g.PduAdvances | epan/dissectors/packet-li5g.c:171-172 | The next PDU is looked for `headerLen + payloadLen` octets on, at least 40, except for the all-ones payload length, where it is one octet less than the header length. |
| Li5g.AllOnesPayload | epan/dissectors/packet-li5g.c:150-172 | With a payload length of all ones, the payload item runs to the end, while the next PDU is looked for one octet before the payload. |
| Li5g.PduSpansTile | epan/dissectors/packet-li5g.c:121-150 | The header fields, the attribute walk steps and the payload cover the PDU's header and payload back to back. Each step holds the type and length read at its offset. |
| Li5g.PduTree | epan/dissectors/packet-li5g.c:122-150 | The PDU's subtree has the eight header fields, one subtree per attribute of a shown type and the payload. No attribute walk step appears in it. |
| Li5g.DecodedPduTree | epan/dissectors/packet-li5g.c:134-145 | In a decoded PDU, each attribute subtree is over a value inside the variable header and the buffer. The two 16-bit words before the value are its shown type and its length. Its children cover the type, length and value octets. |
| Li5g.Dissect | epan/dissectors/packet-li5g.c:102-190 | A failed read aborts with the endpoints unchanged. Otherwise the first PDU is the one decoded at the start, the protocol column is "5GLI", the info column is the first PDU's type name or empty, and the endpoints are restored to their entry values. |
| Li5g.DissectAfter | epan/dissectors/packet-li5g.c:164-187 | After the hand-off and any further PDUs, the columns come from this PDU and the endpoints are put back. |
| Li5g.DissectDecodes | epan/dissectors/packet-li5g.c:171-172 | Every PDU of a completed dissection is what the decoder finds at that PDU's start. |
| Li5g.DissectChain | epan/dissectors/packet-li5g.c:171-172 | The PDUs of a completed dissection form a chain: each starts where the previous one points, and the last points at or past the end. |
| Li5g.TopItemsTile | epan/dissectors/packet-li5g.c:121-172 | The top items of a completed dissection cover the buffer from its start to its end, back to back. |
| Li5g.ChainDissects | epan/dissectors/packet-li5g.c:102-190 | The converse of the two lemmas above: a chain of PDUs that decode where they sit, ending past the buffer, is exactly what the dissection finds. |
| Li5g.HandOffEncoded | epan/dissectors/packet-li5g.c:164-165 | The sub-dissector of the format, when there is one, receives exactly the payload the sender put in. Otherwise nothing is called. |
| Li5g.DecodeEncoded | epan/dissectors/packet-li5g.c:117-150 | Decoding inverts encoding: a PDU built by a sender, wherever it sits, decodes to its header fields, attributes, top item and payload. |
| Li5g.DissectFrames | epan/dissectors/packet-li5g.c:102-190 | PDUs sent back to back dissect to those PDUs in order. The columns come from the first, and the endpoints are as they were. |
| Li5g.Heuristic | epan/dissectors/packet-li5g.c:192-209 | A buffer is refused only when it is shorter than 40 octets, its version is not 1, or its PDU type is outside 1 to 4. |
| Li5g.HeuristicRejects | epan/dissectors/packet-li5g.c:195-202 | Each of those conditions refuses the buffer, whatever else it holds. |
| Li5g.HeuristicNamesPdu | epan/dissectors/packet-li5g.c:175-181 | A claimed buffer that dissects names the first PDU's type in the info column, never empty. |
| Li5g.HeuristicAcceptsFrames | epan/dissectors/packet-li5g.c:192-209 | PDUs sent back to back whose first type is 1 to 4 are claimed and dissect to those PDUs. |
| Bytes.U16OfBE16 | packet-arp.c:194-198 | A big-endian 16-bit read gives back the value that was written, wherever it sits. |
| Bytes.U32OfBE32 | epan/dissectors/packet-li5g.c:117-118 | A big-endian 32-bit read gives back the value that was written, wherever it sits. |
| Printf.Hex04 | packet-arp.c:234 | `%04x` of a 16-bit value is four lowercase hex digits that read back as the value. |
| Printf.DecimalRoundTrip | packet-arp.c:252-255 | `%d` text reads back as the number. |
| Printf.DecimalInjective | packet-arp.c:252-255 | Distinct sizes print differently. |
| ValueStrings.MatchStrvalFirst | packet-arp.c:211 | The table lookup finds nothing exactly when no entry has the code. Otherwise it returns the label of the first entry that has it. |
| ValueStrings.ValToStr | packet-arp.c:248-249 | A code in the table gives its label. A missing code gives "Unknown (0x…)" with four hex digits that read back as the code. |
| Ascii.EqualsIgnoreCaseIsLowerEquality | wsutil/wslog.c:89 | Case-insensitive equality is equality after folding ASCII letters to lower case. |
| WsLog.LevelToString | wsutil/wslog.c:54-74 | Each of the seven levels has its own name, upper case for the real ones. Exactly the other values give "(BOGUS LOG LEVEL)". |
| WsLog.LevelNamesDistinct | wsutil/wslog.c:54-74 | Different levels have different names. |
| WsLog.DomainIsActive | wsutil/wslog.c:83-95 | The scan returns true exactly when no filter is set or some entry equals the domain ignoring ASCII case. |
| WsLog.EmptyFilterBlocksAll | wsutil/wslog.c:83-95 | A filter that is set but empty lets no domain through. |
| WsLog.DomainActiveIgnoresCase | wsutil/wslog.c:89 | The domain test does not depend on the case of the domain. |
| WsLog.DropMessage | wsutil/wslog.c:98-104 | Errors and critical messages are never dropped. Any other message is dropped exactly when its level or its domain is not active. |
| WsLog.DropWithoutFilter | wsutil/wslog.c:77-104 | Without a filter, a message is dropped exactly when its level is above both the critical level and the current level. |
| WsLog.DropMonotoneInLevel | wsutil/wslog.c:77-104 | Raising the current level never drops a message that was kept. |
| WsLog.DropMonotoneInFilter | wsutil/wslog.c:83-104 | Adding filter entries never drops a message that was kept. |
| WsLog.SetLevel | wsutil/wslog.c:113-119 | The new level becomes current and is returned. That level is active and the one above it is not. |
| WsLog.NamedLevel | wsutil/wslog.c:129-142 | Only the six level names are known, and each maps to a real level. |
| WsLog.SetLevelStr | wsutil/wslog.c:122-146 | A known name, in any case, becomes the current level and is returned. A null or unknown name returns the none level and changes nothing. |
| WsLog.SetLevelStrOfName | wsutil/wslog.c:54-146 | The printed name of every real level sets that level back. |
| WsLog.SetLevelStrRejectsOthers | wsutil/wslog.c:54-146 | "(none)" and "(BOGUS LOG LEVEL)" are not names the parser knows. |
| WsLog.SetLevelStrIgnoresCase | wsutil/wslog.c:129-140 | Names that differ only in ASCII case set the same level. |
| WsLog.Tokens | wsutil/wslog.c:254-272 | The filter tokens are non-empty and contain no `,` or `;`. |
| WsLog.TokensOfJoin | wsutil/wslog.c:265-269 | Tokenising undoes joining: non-empty separator-free words joined with `,` or `;` read back as the same list. |
| WsLog.TokensKeepText | wsutil/wslog.c:265-269 | Only separators are lost: the tokens, end to end, are the string with its separators removed. |
| WsLog.SetDomainFilterStr | wsutil/wslog.c:254-272 | The filter is replaced by the tokens of the string. The level and the custom file are untouched. |
| WsLog.FilterFromString | wsutil/wslog.c:83-95 | After setting the filter from a string, a domain passes exactly when it equals one of the string's tokens, ignoring case. |
| WsLog.OptionPrefix | wsutil/wslog.c:163-180 | The option an argument starts with, tried in the order level, domains, file. |
| WsLog.OptionNames | wsutil/wslog.c:149-151 | Each option name alone is recognised as itself. |
| WsLog.ParseArgs | wsutil/wslog.c:154-251 | The arguments left are the input with some removed, in order. None of them is a logging option. The error count is at most the number of slots removed. Which arguments stay is pinned down by `ParseArgsKept`. |
| WsLog.ParseArgsKept | wsutil/wslog.c:163-248 | The arguments left are exactly those that are neither a logging option nor the separate value taken by a bare option name before them, in their order. |
| WsLog.ParseArgsKeepsOthers | wsutil/wslog.c:176-180 | Arguments that are not logging options pass through, and nothing is set or reported. |
| WsLog.ParseArgsIdempotent | wsutil/wslog.c:154-251 | A second pass over the remaining arguments takes, sets and reports nothing. |
| WsLog.ParseSeparateValue | wsutil/wslog.c:188-201 | An option followed by a separate value removes both slots and acts on the value. |
| WsLog.ParseMissingValue | wsutil/wslog.c:188-200 | A missing, empty or dash-led separate value removes only the option slot, reports one error, and leaves the next argument to be examined. |
| WsLog.ParseInvalidLevel | wsutil/wslog.c:202-218 | `--log-level=<value>` with an unknown name reports one error, keeps the level, and removes the slot. |
| WsLog.ParseAttachedValue | wsutil/wslog.c:202-247 | `--<option>=<value>` removes its one slot and acts on the value, and parsing continues with the next argument. |
| WsLog.ParseKeepsLongerNames | wsutil/wslog.c:164-212 | Any argument that is not a logging option stays in place, and nothing is set or reported for it. This covers arguments that name no option and arguments that continue an option name with something other than `=`. |
| WsLog.ApplyOption | wsutil/wslog.c:214-235 | A level value that names a level sets it; any other reports "invalid level" and changes nothing. A domains value replaces the filter with its tokens. A file that opens becomes the custom file, replacing any earlier one; one that does not open reports the failure and changes nothing. |
| WsLog.AddCustomFile | wsutil/wslog.c:485-491 | The new file becomes the custom file. The level and the filter are untouched. |
| WsLog.LastFileWins | wsutil/wslog.c:485-491 | Adding two files in a row leaves only the second. Adding a file changes no drop decision. |
| WsLog.ApplyLevelByName | wsutil/wslog.c:214-219 | `--log-level` with the printed name of a real level sets that level without a report. From then on a message is dropped exactly when it is above CRITICAL and either above that level or outside the filter. |
| WsLog.ApplyDomainsOrFileDrops | wsutil/wslog.c:220-232 | After `--log-domains`, a message above CRITICAL is dropped exactly when it is above the level or its domain is not among the tokens, ignoring case. `--log-file` changes no drop decision, whether the file opens or not. |
| WsLog.Init | wsutil/wslog.c:294-303 | The level starts at MESSAGE, and an environment value naming a level replaces it. An invalid value is ignored with a warning. A domains value replaces the filter. The custom file is untouched. |
| WsLog.InitDefaultVerbosity | wsutil/wslog.c:294-303 | With no environment, exactly the info and debug messages are dropped. |

## Left out

- Drawing the tree and writing the columns are not modelled. Items and columns are values: an item carries what it shows, and `LineText`/`InfoText` render it.
- `check_col` and `tree != NULL` become the three flags of `Arp.View`.
- `ether_to_str`, `ip_to_str` and `ethertype_to_str` are parameters. Their text is not modelled.
- The ARP opcode values 1 to 4 and the IPv4 protocol type 0x0800 come from RFC 826, RFC 903 and the Ethernet type registry. The headers that define them are not part of this model.
- The missing length check of `dissect_arp` is a precondition (`CapturedWhole`), not a modelled error path, because the code reads without checking.
- Arp.Dissect: renders each address on its own, not through the three rotating static buffers. The as-written behaviour is in `ArpRotation` (see Findings).
- Li5g items: the field encodings (`ENC_BIG_ENDIAN`, GUID, time, addresses) and the type-specific length checks of the registered fields are not modelled. Only the octet ranges and the parts they show are.
- Li5g.Dissect: an exception that aborts the dissection leaves no partial tree in the model. Only the endpoints as the sub-dissectors left them are kept.
- The sub-dissectors' internals and their own exceptions are not modelled. A sub-dissector is a function from its name, its payload and the endpoints to new endpoints.
- The `tree->parent` swap around the sub-dissector call, the column fence, and the heuristic's write of the handle into `*data` are left out. None of them changes what is decoded.
- Registration (`proto_register_li5g`, `proto_reg_handoff_li5g`) is not modelled, apart from which payload formats have a sub-dissector.
- Li5g.Handle: a payload format of 14 or more indexes past the handle table in the code (undefined behaviour). The model treats it as "no sub-dissector".
- WsLog: writing messages, timestamps, colour, the writer callbacks, `atexit` cleanup and the breakpoint on errors are left out, because they are I/O or process control.
- The `print_err` texts are not modelled. Each report is a `ParseError` value, and the returned count is the number of reports.
- WsLog.ApplyOption: opening a file for `--log-file` is a parameter `opens`, and the open `FILE *` is represented by its path. Closing the previous custom file is modelled as the replacement in `AddCustomFile`; the `fclose` itself is I/O.
- The environment lookups of `ws_log_init` are parameters. The application name, the writer and the colour check are left out.
- A null domain passed to `ws_log_domain_is_active` is not modelled, because the comparison is GLib's.
- Strings are Dafny sequences: an embedded NUL does not end them.
- The numeric order NONE < ERROR < CRITICAL < WARNING < MESSAGE < INFO < DEBUG (0 to 6) is an assumption. The enumeration is declared in `wslog.h`, which is not part of this model.

## Findings

| source | as written | input that shows it | evidently intended | confidence | as-written member | corrected member |
|---|---|---|---|---|---|---|
| packet-arp.c:87-100, 201-208, 223-225 | `arpaddr_to_str` formats into one of three static buffers taken in rotation, and `dissect_arp` formats all four addresses before reading any result. When all four take the generic path, the target protocol address overwrites the sender hardware address's buffer. | the reply `00 06 01 01 01 01 00 02 AA 01 BB 02` (hardware type 6, protocol type 0x0101, one-octet addresses: sender AA/01, target BB/02) reads "01 is at 02" | "01 is at AA": each pointer shows its own address | not executed; follows from the three-slot rotation | ArpRotation.ReplyQuotesWrongAddress | ArpRotation.ReplyQuotesSenderAddress |
