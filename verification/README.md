# NetSlicer, modelled in Dafny

NetSlicer captures packets on a network interface and marks each IPv4
packet with a random type-of-service value. It reads the slice tag
(`SliceLayer`, a 16-bit slice id) that a packet may carry, cuts the tag out
of the layer chain and counts the packet on one of five network slices
(`urllc`, `eMBB`, `mMTC`, `ns3`, `ns4`). Around this pipeline sit an
interactive scanner, a packet table and a few helpers:

- the scanner builds the interface menu and turns the chosen protocols
  and an optional BPF text into one capture filter;
- the packet table shows only the layers the filter asks for;
- the helpers decide which log lines are printed, format MAC addresses
  and provide a dictionary whose keys are also attributes;
- a traffic-class record (`Policy`) is built from keyword arguments;
- two counters track packets and bytes.

This project models that logic and proves what each part promises.

| file | module | models |
|---|---|---|
| `wrappers.dfy` | `Wrappers` | `Option` |
| `seqs.dfy` | `Seqs` | `list(dict.fromkeys(...))`: first-occurrence de-duplication |
| `pytext.dfy` | `PyText` | the `str` operations the code relies on: `isspace`, `strip`, `lower`, `upper`, `in`, `find`, `split`, `join` |
| `packets.dfy` | `Packets` | a scapy packet as its chain of layers, outermost first, in a `Packet` object edited in place |
| `network_slice.dfy` | `Slicing` | `core/network_slice.py`: the five per-slice counters and `handle_packet` |
| `classifier.dfy` | `Classification` | `core/classifier.py`: `remove_slice_layer` (a loop down the chain) and `classify_packet` |
| `scanner.dfy` | `Scanning` | `core/scanner.py`: interface titles, the filter normalisation, and the `Scanner` object |
| `sniffer.dfy` | `Sniffing` | `core/sniffer.py`: `add_slice_info`, the layer filter of `display_packet`, `process_packet`, and the round trip from the scanner's filter to the display filter |
| `helpers.dfy` | `Helpers` | `utils/helpers.py`: the visibility rule of `log`, `get_mac_addr`, and the `Map` class |
| `policy.dfy` | `Policies` | `core/policy.py`: the `Policy` record, its defaults, and its printed form |
| `metrics.dfy` | `Metrics` | `utils/metrics.py`: `PacketMetrics` and `update` |

Imperative parts of the code are modelled as classes whose methods update
fields. Each of these methods is proved against a specification function:

- `Packet`, `NetworkSlice`, `PacketClassifier`, `Scanner`, `Sniffer`,
  `Map` and `PacketMetrics` are classes;
- `remove_slice_layer`, `_get_interfaces` and the layer walk of
  `display_packet` are `while`/`for` loops with invariants;
- `WithoutInnerSlice`, `Marked`, `AfterPacket`, `ShownLayers` and
  `FilterString` are the specification functions.

The pure parts are functions with lemmas about them.

Where the code calls something that does not exist, the model keeps the
evident intent:

- `classify_packet` (core/classifier.py:21) calls `self.slicer`, which
  `__init__` never sets; it stores the dispatcher as `self.slices`.
  `PacketClassifier` keeps the dispatcher in a field `slicer`.
- `NetworkSlice.__init__` calls `configure`, which calls an undefined
  `configure_slice` (core/network_slice.py:14, 24-30). The model's
  constructor records the id, the TOS and the interface, and starts the
  counters.
- `core/slice_layer.py` is not part of this model. The slice tag is taken
  to be a layer of class `SliceLayer` with one unsigned 16-bit `SID`, the
  shape core/slices_setup.py gives it.

## Model

| member | source | states |
|---|---|---|
| `Seqs.Dedup` | core/scanner.py:83-85 | no duplicates; every element of the result comes from the input, and every input element is in the result; the order is that of first occurrences |
| `PyText.StripSpec` | core/scanner.py:84 | `strip` returns a slice of its argument with only whitespace before and after it, and whitespace at neither end of the slice |
| `PyText.StripNonEmpty` | core/scanner.py:84 | a text with a non-whitespace character does not strip to the empty text |
| `PyText.StripPadded` | core/sniffer.py:74 | a whitespace-free word padded with whitespace strips back to the word |
| `PyText.LowerIsLower` | core/scanner.py:84 | `lower` leaves no upper-case letter, is idempotent, and neither adds nor removes whitespace |
| `PyText.Find` | core/sniffer.py:139 | `find` gives the first position where the substring occurs; None means it occurs nowhere (`in` is `Find(...).Some?`) |
| `PyText.SplitAfter` | core/sniffer.py:74 | when the separator does not occur before the end of `a`, `split` cuts `a + sep + b` right after `a` |
| `Packets.FirstSliceFrom` | core/classifier.py:25-29 | the first slice tag at or after a position; None means there is no tag there |
| `Packets.FirstHeader` | core/sniffer.py:55-63 | the first header of a class, the one `packet[cls]` returns; None iff there is no such header |
| `Packets.FirstSid` | core/classifier.py:18 | the SID read is that of the first slice tag in the chain |
| `Slicing.CounterFor` | core/network_slice.py:35-47 | ids 0 to 4 select one of the five counter keys and any other id selects none |
| `Slicing.SidSelectsCounter` | core/network_slice.py:35-68 | id 0 raises `urllc`, 1 `eMBB`, 2 `mMTC`, 3 `ns3` and 4 `ns4` by one (3 and 4 through `ns4_slice` and `ns5_slice`) |
| `Slicing.CounterForIsBijective` | core/network_slice.py:35-68 | ids 0 to 4 and the five counter keys correspond one to one |
| `Slicing.AfterPacketChangesOneCounter` | core/network_slice.py:35-68 | for ids 0 to 4 the id's own counter rises by exactly one and the others keep their values; any other id changes nothing |
| `Slicing.AfterPacketMonotone` | core/network_slice.py:49-68 | no counter goes down |
| `Slicing.AfterPacketsCounts` | core/network_slice.py:35-68 | after a run of packets, each counter has risen by the number of packets whose id selects it |
| `Slicing.FreshCountersCount` | core/network_slice.py:16-68 | from a fresh slice, each counter equals the number of packets routed to it |
| `Slicing.NetworkSlice.constructor` | core/network_slice.py:8-22 | records the id, the TOS and the interface; all five counters start at 0 |
| `Slicing.NetworkSlice.HandlePacket` | core/network_slice.py:35-47 | the counters become `AfterPacket(old counters, sid)`; the packet is unchanged |
| `Slicing.NetworkSlice.URLLCSlice` | core/network_slice.py:49-51 | `urllc` rises by one, and nothing else changes |
| `Slicing.NetworkSlice.EMBBSlice` | core/network_slice.py:54-56 | `eMBB` rises by one, and nothing else changes |
| `Slicing.NetworkSlice.MMTCSlice` | core/network_slice.py:58-60 | `mMTC` rises by one, and nothing else changes |
| `Slicing.NetworkSlice.Ns4Slice` | core/network_slice.py:62-64 | `ns3` rises by one, and nothing else changes |
| `Slicing.NetworkSlice.Ns5Slice` | core/network_slice.py:66-68 | `ns4` rises by one, and nothing else changes |
| `Classification.WithoutInnerSliceSpec` | core/classifier.py:23-30 | the chain is unchanged iff no layer below the outermost is a slice tag; the outermost layer always stays; at most one layer goes, and it is the first tag below the outermost; the rest keep their order, and the tag's parent is followed by the tag's payload |
| `Classification.WithoutInnerSliceKeepsTheRest` | core/classifier.py:25-29 | the multiset of layers is unchanged, or it loses exactly one slice tag |
| `Classification.DispatchedTagIsRemovedTag` | core/classifier.py:17-21 | when the outermost layer is not a tag, the dispatched SID is that of the tag that is removed; when it is a tag, its SID is read but the tag stays |
| `Classification.PacketClassifier.constructor` | core/classifier.py:9-11 | stores the slice dispatcher |
| `Classification.PacketClassifier.RemoveSliceLayer` | core/classifier.py:23-30 | returns the same packet, whose chain becomes `WithoutInnerSlice` of the old chain |
| `Classification.PacketClassifier.ClassifyPacket` | core/classifier.py:13-21 | without a slice tag, the packet and the counters are unchanged; with one, the tag is removed and the counters become `AfterPacket` of the first tag's SID |
| `Scanning.FirstInet` | core/scanner.py:23-26 | the first `AF_INET` address record; None means there is none |
| `Scanning.TitleRoundTrip` | core/scanner.py:27-34 | a title reads back as the interface's up/down status and its shown IPv4 address, so the title is `<iface> <status>` with ` inet <ip>` exactly when there is an address |
| `Scanning.GetInterfaces` | core/scanner.py:16-36 | one choice per interface, in order, valued by the interface name and titled by `Title` |
| `Scanning.ValidateSelection` | core/scanner.py:73 | the validator rejects, with its message, exactly the empty selection |
| `Scanning.KeptIff` | core/scanner.py:84 | an item is kept iff it is non-empty and holds no whitespace character |
| `Scanning.KeptLowered` | core/scanner.py:84 | every kept item is non-empty, whitespace-free and lower-case |
| `Scanning.KeptLoweredAppend` | core/scanner.py:82-84 | filtering a concatenation is concatenating the filtered parts |
| `Scanning.KeptLoweredMembers` | core/scanner.py:84 | a token comes out iff some kept item lowers to it |
| `Scanning.FilterTokensSpec` | core/scanner.py:82-86 | the tokens are distinct, non-empty, whitespace-free and lower-case; they are exactly the lowered kept candidates; they appear in first-occurrence order |
| `Scanning.MultiWordBpfDropped` | core/scanner.py:82-84 | a BPF text with whitespace in it leaves the filter as if no BPF text had been given |
| `Scanning.SingleWordBpfAppended` | core/scanner.py:82-85 | a one-word BPF text is lowered and appended after the protocols, unless it repeats one of them |
| `Scanning.AcceptedSelectionFilter` | core/scanner.py:70-86 | any selection the validator accepts yields a non-empty filter that contains the first chosen protocol |
| `Scanning.ProtocolsAreWords` | core/scanner.py:56-61 | every offered protocol is a non-empty word whose lowered form does not contain `or` |
| `Scanning.Scanner.constructor` | core/scanner.py:11-13 | no interface and no filter yet |
| `Scanning.Scanner.SelectInterface` | core/scanner.py:38-53 | stores and returns the chosen interface's name (None when the prompt is cancelled); the filter is unchanged |
| `Scanning.Scanner.PacketFilter` | core/scanner.py:55-88 | stores and returns `FilterString` of the two answers; the interface is unchanged |
| `Sniffing.Transport` | core/sniffer.py:57-63 | the first TCP header when there is one, else the first UDP header; None iff there is neither |
| `Sniffing.MarkedSpec` | core/sniffer.py:52-65 | marking adds and drops no layer; the first IP header gets the TOS and loses its checksum; the `Transport` header loses its checksum; every other layer is kept |
| `Sniffing.MarkedKeepsClasses` | core/sniffer.py:52-63 | marking renames no layer and leaves every slice tag as it was |
| `Sniffing.MarkedKeepsTags` | core/sniffer.py:35-44 | after marking, the classifier sees the same tags, reads the same SID and removes the same tag |
| `Sniffing.Sniffer.AddSliceInfo` | core/sniffer.py:51-65 | None for a packet with no IP header, which is left alone; otherwise the same packet comes back, marked with some TOS from 1 to 4 |
| `Sniffing.NoFilterShowsAll` | core/sniffer.py:73-78 | without a filter every layer is shown, in chain order |
| `Sniffing.ShownLayersMembers` | core/sniffer.py:110-149 | a class name is among the rows iff some layer of that class passes the filter |
| `Sniffing.RequestedAlwaysHolds` | core/sniffer.py:75-76 | a filter that is not blank always requests `ether` and `slice` |
| `Sniffing.EtherAndSliceAlwaysShown` | core/sniffer.py:73-78 | the `Ether` layer and the slice tag pass every filter |
| `Sniffing.SplitJoinedPieces` | core/sniffer.py:74 | splitting the `" or "`-joined tokens on `or` cuts exactly at the separators when no token contains `or` |
| `Sniffing.PiecesTokens` | core/sniffer.py:74 | each of those pieces strips and lowers back to its token |
| `Sniffing.SplitJoined` | core/sniffer.py:74 | splitting the joined tokens gives one piece per token, and each piece strips and lowers back to its token |
| `Sniffing.PiecesToTokens` | core/sniffer.py:74 | pieces that map one to one onto tokens give exactly the token set |
| `Sniffing.RequestedFromPieces` | core/sniffer.py:73-76 | a non-blank filter requests the stripped, lowered pieces plus `ether` and `slice` |
| `Sniffing.FilterRoundTrip` | core/sniffer.py:73-78 | when no token contains `or`, the display filter recovers exactly the joined tokens plus `ether` and `slice`; with no tokens every layer is shown |
| `Sniffing.ScannerToSniffer` | core/sniffer.py:73-76 | the scanner's filter string, read by the display filter, gives back the scanner's tokens plus `ether` and `slice`, or shows every layer when there are none |
| `Sniffing.OrInsideAWord` | core/sniffer.py:74 | the split is on the substring: `t or xory` requests `t`, `x` and `y`, not `xory` |
| `Sniffing.Sniffer.constructor` | core/sniffer.py:21-28 | takes the interface and the filter from the scanner; starts metrics at zero with the given start time |
| `Sniffing.Sniffer.DisplayedLayers` | core/sniffer.py:67-149 | the table rows are `ShownLayers` of the packet's chain under `Requested(filters)`; there are no rows for None |
| `Sniffing.Sniffer.ProcessPacket` | core/sniffer.py:35-49 | counts one packet of the given size first. A packet without IP is not changed and not classified. Otherwise it is marked with some TOS from 1 to 4 and, when there is a classifier, it is classified (`WithoutInnerSlice` and `AfterPacket` of its first SID) |
| `Helpers.LogLine` | utils/helpers.py:12-48 | a line is printed iff the level shows the colour; a known colour prints the message in that colour, and a given message is printed as it is |
| `Helpers.LevelsNested` | utils/helpers.py:24-31 | what ERROR shows, WARNING shows; what WARNING shows, INFO shows; what INFO shows, DEBUG shows |
| `Helpers.VisibleColors` | utils/helpers.py:24-31 | ERROR shows red, green and blue; WARNING adds cyan and yellow; INFO adds white and magenta; DEBUG shows everything |
| `Helpers.LevelCaseInsensitive` | utils/helpers.py:24-29 | the level name is read case-insensitively |
| `Helpers.DefaultShowsAll` | utils/helpers.py:14-31 | with no `verbose` setting, or an unknown name, the level is DEBUG and every call is printed |
| `Helpers.DebugShorthand` | utils/helpers.py:30-37 | at DEBUG, `log(text)` with a text that is no known colour prints the text in cyan |
| `Helpers.Hex2` | utils/helpers.py:87 | `'{:02x}'` gives exactly two lower-case hex digits, high nibble first, that denote the byte |
| `Helpers.JoinedPairs` | utils/helpers.py:87 | the joined text has two digits per byte, high nibble first, with a colon between bytes |
| `Helpers.MacAddrShape` | utils/helpers.py:86-87 | the MAC text has 3n-1 characters for n bytes (none for no bytes); upper-case hex digits, with colons at every third position |
| `Helpers.MacAddrRoundTrip` | utils/helpers.py:86-87 | the MAC text reads back as the bytes, so different byte strings never format alike |
| `Helpers.ParseMacSound` | utils/helpers.py:86-87 | every text the reader accepts is the MAC text of the bytes it reads |
| `Helpers.PairsToMap` | utils/helpers.py:57-58 | `dict(pairs)` holds every key of the pairs, each with the value of the last pair that has it |
| `Helpers.Map.constructor` | utils/helpers.py:57-66 | the dict holds the positional argument and then the keywords; the attributes hold a dict argument and the keywords |
| `Helpers.Map.AttrIsGet` | utils/helpers.py:68-69 | reading an attribute is `get` on the dict, and gives None for a missing key |
| `Helpers.Map.GetItem` | utils/helpers.py:51 | `m[k]` gives the value, or a KeyError (None) when the key is missing |
| `Helpers.Map.GetAttr` | utils/helpers.py:68-69 | `m.k` gives the value, or None when the key is missing |
| `Helpers.Map.SetItem` | utils/helpers.py:74-76 | after `m[k] = v`, both the dict and the attributes hold `v` at `k`, and `m[k]` and `m.k` give `v` |
| `Helpers.Map.SetAttr` | utils/helpers.py:71-72 | `m.k = v` has the same effect as `m[k] = v` |
| `Helpers.Map.DelItem` | utils/helpers.py:81-83 | a missing key is a KeyError and changes nothing; otherwise the key leaves the dict and the attributes, and the call fails only when the key was never an attribute |
| `Helpers.Map.DelAttr` | utils/helpers.py:78-79 | `del m.k` has the same effect as `del m[k]` |
| `Policies.Defaults` | core/policy.py:8-16 | without keywords: 10mbit rate, 20mbit ceiling, 15k burst, priority 0 and MTU 1500 |
| `Policies.ClassIdHasHandle` | core/policy.py:6 | the class id is `1:` followed by the given id |
| `Policies.KeywordsOverride` | core/policy.py:8-14 | a keyword that is given wins over the default, whatever its value |
| `Policies.MtuFollowsPrio` | core/policy.py:16 | the MTU is the priority when one is given and 1500 otherwise; an `mtu` keyword has no effect |
| `Policies.OnlyFourKeywordsRead` | core/policy.py:8-16 | keyword maps that agree on `rate`, `ceil`, `burst` and `prio` give the same record |
| `Policies.MtuKeywordIgnored` | core/policy.py:16 | `mtu=9000` gives an MTU of 1500, and `prio=2` gives an MTU of 2 |
| `Policies.IntendedPolicy` | core/policy.py:16 | the corrected record: the MTU comes from the `mtu` keyword (1500 by default), and every other field is as in `NewPolicy` |
| `Policies.IntendedMtu` | core/policy.py:16 | in the corrected record the MTU is the one asked for, 1500 without one, and the priority does not affect it |
| `Policies.ParseEscaped` | core/policy.py:19 | the escaped body of a string `repr`, followed by its closing quote, reads back as the string |
| `Policies.ParseValueOf` | core/policy.py:19 | `repr` of a string or an integer reads back as that value |
| `Policies.PolicyStringRoundTrip` | core/policy.py:18-20 | the printed form reads back as the policy it was printed from |
| `Policies.PolicyStringInjective` | core/policy.py:18-20 | two different policies never print the same |
| `Policies.PolicyStringShape` | core/policy.py:18-20 | the printed form opens with `Policy(classid=` and the quoted class id, and ends with `)` |
| `Metrics.PacketMetrics.constructor` | utils/metrics.py:4-7 | both counters start at 0, and the start time is the given clock reading |
| `Metrics.PacketMetrics.Update` | utils/metrics.py:9-11 | one more packet, `packet_size` more bytes, and the same start time |
| `Metrics.ReplayTotals` | utils/metrics.py:9-11 | a run of updates adds one packet per call and the sum of the sizes to the byte total |
| `Metrics.ReplayMonotone` | utils/metrics.py:9-11 | with sizes that are never negative, neither counter ever goes down along a run |

## Left out

- Operating-system configuration is left out. This covers the `tc`, `dnctl`, `pfctl`, `sysctl` and `iptables` calls through `subprocess` (core/network_slice.py:70-99, the rest of utils/helpers.py), which are external side effects.
- Packet capture and transmission are left out: scapy's `sniff` (core/sniffer.py:30-33) is I/O. A captured packet is a parameter of `ProcessPacket`.
- The questionary prompts and the psutil queries are parameters: the interface list, the stats map, the chosen menu position, the checked protocols and the BPF text. `print` and the `selected` echo are left out.
- Printing is left out: `cprint`, `colored` and the PrettyTable. This covers the `log` prefix (title, `tsize`, file and line), the other table columns (addresses, ports, sizes) and `display_metrics`. `LogLine` and `DisplayedLayers` model what is printed: the colour and message of a log line, and the class name of each table row.
- `pps` and `throughput` (utils/metrics.py:13-21) are left out. They depend on the wall clock and on floating-point rounding; the start time is only stored.
- `Sniffing.Sniffer.AddSliceInfo`: the random TOS is a nondeterministic choice from 1 to 4, so the contract says which values are possible, not how likely each is.
- Header checksums are not computed. The code only deletes `chksum` so that scapy recomputes it, and the model clears the field the same way.
- `PyText.Lower` and `PyText.Upper` change the ASCII letters only. Python's Unicode case mapping is not modelled.
- `Policies.Repr` models `repr` of strings only for the Latin-1 range. Beyond it, the printability test for `\x`, `\u` and `\U` escapes is not modelled. Values other than strings and integers are not modelled either.
- `Helpers.Map` models string keys only. It does not model class attributes or methods shadowing an attribute read, and `__dict__` entries set by any other route.
- `Sniffing.Sniffer.ProcessPacket` does not model `display_metrics` and `display_packet` (printing only). The `KeyboardInterrupt` handler is left out, and so is any other exception apart from classifying a missing packet, which the code catches.
- The `slices` dict that `main.py` builds, and the `exit(0)` there that stops the program before the classifier runs, are not part of this model. argparse (core/parser.py), the InfluxDB store (utils/store.py) and the rest of config.py (only `HANDLE` is used) are not part of this model either.
- `core/slice_layer.py` is not part of this model (see above for the tag shape that is assumed).
- `Sniffing.Sniffer.ProcessPacket`: the packet length that `metrics.update(packet_size=len(packet))` passes (core/sniffer.py:37) is a separate `size` parameter, because the model's layers carry no wire bytes; the model does not tie the counted size to the packet's layers.
- `Scanning.Scanner.PacketFilter`: the checked protocols are a sequence of strings. When the checkbox prompt is cancelled, `ask()` returns None and `selected_protocols + [...]` raises TypeError (core/scanner.py:82); the model does not capture that failure.
- The integer fields of headers are unbounded. Field widths matter only for the 16-bit SID, which is a bounded type.

## Findings

| source | as written | input that shows it | evidently intended | confidence | as-written member | corrected member |
|---|---|---|---|---|---|---|
| core/policy.py:16 | the maximum packet size is read from the `prio` keyword, defaulting to 1500 | `Policy(1, mtu=9000)` has MTU 1500; `Policy(1, prio=2)` has MTU 2 | read from the `mtu` keyword, defaulting to 1500 | high (the comment says maximum packet size); not executed | `Policies.MtuKeywordIgnored` | `Policies.IntendedMtu` |
