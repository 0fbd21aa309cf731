# Verified models of nvme-cli

A Dafny model of the parts of nvme-cli that are algorithms rather than plumbing, with proofs of what
they promise. `dafny verify dfyconfig.toml` verifies everything.

| files | what they model |
|---|---|
| `Discovery.dfy` | the discovery-log reader: header, whole log, header again, and a retry when the generation counter moved, against a controller that may replace its log between any two commands |
| `LogPage.dfy` | the Get Log Page command and the loop that reads a log in pieces of 4096 bytes |
| `Wildcard.dfy`, `Tokens.dfy` | the glob matcher that remembers only its last star, and the matcher for option patterns |
| `JsonTree.dfy`, `JsonText.dfy`, `JsonLines.dfy`, `JsonRoundTrip.dfy` | the JSON tree with its parent pointers, the text printed for it, its lines with the blanks in front of them, and a reader after RFC 8259 to hold the text against |
| `ConnArgs.dfy`, `ConnOptions.dfy` | connect-argument strings, written through a moving cursor and read back by field name |
| `Micron.dfy` | the two chunked log readers of the Micron plugin |
| `Firmware.dfy` | the firmware download loop and the drive that puts the image together |
| `OpenChannel.dfy`, `Bits.dfy` | packing of open-channel device addresses for any layout; shifts and unions of bits |
| `AnaLog.dfy` | the walk over the variable-length descriptors of an ANA log |
| `Fabric.dfy`, `VfReset.dfy` | listing the namespaces behind a Switchtec fabric, and the capability walk of its function level reset |
| `Suffix.dfy`, `LatStats.dfy` | binary size suffixes, and logarithmic latency buckets |
| `Basics.dfy`, `Wire.dfy` | optional values, decimal numbers, integer widths, little-endian fields |

Code that works step by step is a method over arrays and objects, proved against a function or a
predicate; what the source promises is then proved of that function for all inputs.

Devices and library calls are parameters. A controller is an `Environment`: the log it publishes at each
command, the status of each command, and the bytes behind the end of the log. A failing command is taken
to leave the buffer alone. A fabric is a set of `Answers`. `strtol` and its relatives are a function that
says how much of a text is a number.

## Where the code and what is said of it differ

The model follows the code. These differences are theorems here:

- A trailing `**` of a wildcard pattern behaves like `?*`, because only one star is skipped after the
  loop (`util/parser.c:242-244`): `Wildcard.CompleteIffNoTrailingDoubleStar`.
- JSON names are printed without escaping, and control characters are never escaped
  (`util/json.c:103-107`, `util/json.c:365`): `JsonRoundTrip.ReadsBackIffClean`. An empty string cannot be
  added to a tree (`util/json.c:90-91`).
- A connect argument with a comma in its value reads back cut off, and a host name with one can stand
  in for a field that is absent: `ConnOptions.ReadBackIff`, `ConnOptions.HostNameGivesAddress`.
- A discovery log of 4 GiB or more with fewer than 2^31 records passes all of the reader's checks, but
  is cut off by the unsigned size: `Discovery.SnapshotIsWhole`, `Discovery.CountSurvives`.
- A transfer size that is not a multiple of 4 leaves holes in a firmware image:
  `Firmware.NoHolesIffWholeDwords`.
- Negative sizes are rounded towards zero after half a unit was added: `Suffix.NearestIff`.
- The Micron readers go on after a failing command and return the status of the last one only:
  `Micron.FilledIffAllSucceed`. Identifier 7 is sent as 87h.
- A tunnel whose status cannot be read is handled by the status of the endpoint before it, and so an
  enabled tunnel can end up disabled: `Fabric.TunnelsRestoredIff`.
- A function level reset of a function without a PCI Express capability resets nothing and returns 0:
  `VfReset.Reset`.

## Model

| member | source | states |
|---|---|---|
| Discovery.GetLogPageDiscovery | fabrics.c:470-588 | on every exit an opened handle has been closed once and every buffer freed once except the one returned; at most ten passes; each result names the open, allocation or command that failed and says that those before it did not, or what the passes saw: success is a snapshot, exhaustion means the counter changed within each of ten passes; when nothing fails and the log stays the same, with 1 to 2^22 - 2 records, the result is success with the whole log and its record count |
| Discovery.FetchLog | fabrics.c:487-584 | the same for the part between open and close; out of memory exactly for an allocation of its own that was refused |
| Discovery.Turn | fabrics.c:508-561 | one turn frees the buffer it starts with, allocates one unless the count is 0, and leaves a whole-log read under a second header, or ends with the exit that applies: out of memory exactly when its one allocation was refused |
| Discovery.ReadTwice | fabrics.c:541-559 | the buffer after both reads is the second header over the rest of the first read, and the counter returned is the first read's |
| Discovery.NvmeDiscoveryLog | nvme-ioctl.c:545-548 | a discovery read asks only for log 70h of namespace 0 without RAE, and on success its buffer holds the header of the log at its first command |
| Discovery.SameCounterSameLog | fabrics.c:548-561 | when counters only grow, equal counters at two commands mean that the same log was published at every command between them |
| Discovery.CounterNeverFalls | fabrics.c:548-561 | a later log is the same or has a larger counter, over any number of commands |
| Discovery.QuietPassIsSnapshot | fabrics.c:508-579 | a pass whose counter did not move leaves exactly one published version in the buffer, although it was read in many commands, with that version's record count |
| Discovery.SnapshotIsWhole | fabrics.c:528-529 | a snapshot is the complete serialization with the exact record count if and only if the log has fewer than 2^22 - 1 records |
| Discovery.LogSizeIsComplete | fabrics.c:528-529 | the unsigned size is that of the whole log if and only if header and records stay below 4 GiB, and never more |
| Discovery.LogSizeOfInt | fabrics.c:512-529 | cutting the 64-bit count down to an int does not change the size computed from it |
| Discovery.QuietRunSucceeds | fabrics.c:508-580 | against a controller that leaves its log alone, a fetch in which no call fails reports no log exactly when the count cut to an int is 0, and otherwise reads one pass and returns it exactly when the record count survives the int |
| Discovery.StillLogIsFetched | fabrics.c:508-580 | when no allocation and no command fails and the log stays the same, with 1 to 2^22 - 2 records, the complete log comes back with its record count |
| Discovery.LogLayout | linux/nvme.h:1143-1149 | where counter, record count, the rest of the header and record i stand in a log |
| Discovery.CountSurvives | fabrics.c:512-573 | the check of the record counts passes exactly for counts below 2^31 and from 2^64 - 2^31 on |
| Discovery.SizeWrapsToZero | fabrics.c:528-541 | the counts whose size wraps to 0 are one less than a multiple of 2^22, and the command then sent asks for 16 GiB |
| Discovery.CountersReadBack | fabrics.c:512-513 | the little-endian counters of a header are read back as the log's |
| LogPage.CommandDecodes | nvme-ioctl.c:420-440 | for every argument a controller decodes the log, offset and identifier that were meant; the whole dwords of the length, or 16 GiB where there is none; RAE and LSP whenever LSP fits four bits |
| LogPage.WordsAreUnions | nvme-ioctl.c:423-437 | opcode, namespace, length and UUID index as given, and the four dwords as the shifts and unions of the arguments, for every argument |
| LogPage.NvmeGetLog13 | nvme-ioctl.c:442-448 | one command, for all arguments with at least one dword; the buffer is overwritten by the whole dwords of the reply, or unchanged on an error |
| LogPage.NvmeGetLog | nvme-ioctl.c:450-477 | on success the buffer holds chunk after chunk, each as its own command answered it, up to the last whole dword; on an error exactly the chunks before it; which commands were sent, and how many |
| LogPage.ReadChunk | nvme-ioctl.c:463-473 | one round of it |
| LogPage.Controller.Submit | nvme-ioctl.c:439 | the controller writes its reply at the command's data pointer and nothing else, and counts time by commands |
| LogPage.CommandsTile | nvme-ioctl.c:462-474 | the commands decode to ranges of at most 4096 bytes that cover the log in order without gap or overlap |
| LogPage.CommandsAgree | nvme-ioctl.c:462-474 | all commands of a read name the same log, namespace and RAE bit |
| LogPage.CommandAt | nvme-ioctl.c:462-474 | command number k of a read asks for chunk k |
| LogPage.ChunksIsCeiling | nvme-ioctl.c:462-474 | the number of commands is the length divided by the piece size, rounded up |
| LogPage.ChunkAppends | nvme-ioctl.c:467-473 | a command that succeeds extends the bytes read so far by its chunk |
| LogPage.ReadOfUnchangingLog | nvme-ioctl.c:450-477 | on a log that does not change the pieces put together are one large read |
| LogPage.Environment.ReadLogAt | nvme-ioctl.c:467-473 | byte i of a finished read is the byte that command i / 4096 found there |
| Wildcard.MatchWildcard | util/parser.c:208-245 | the loop decides the recursive meaning of the effective pattern, is sound for the documented meaning, and takes at most (length of pattern + 1) * (length of string + 1) iterations |
| Wildcard.CompleteIffNoTrailingDoubleStar | util/parser.c:200-207 | code and documented meaning agree on every string if and only if the pattern does not end in two stars |
| Wildcard.AcceptsIsSound | util/parser.c:208-245 | what is accepted matches the documented meaning, for every pattern |
| Wildcard.AcceptsIsEffective | util/parser.c:242-244 | the code accepts exactly the strings that match the pattern with its trailing run of stars replaced by `?*` |
| Wildcard.LeftmostLosesNothing | util/parser.c:220-237 | forgetting all but the last star loses no match: the leftmost placement of a segment leaves every later one reachable |
| Wildcard.SegmentConsumes | util/parser.c:214-240 | a segment without stars consumes exactly its own length wherever it is placed |
| Wildcard.PassStar | util/parser.c:220-226 | passing a star keeps the set of placements still to be tried |
| Wildcard.NoRoomLeft | util/parser.c:242-244 | when the string ends inside a segment no later placement can match |
| Wildcard.StepBound | util/parser.c:214-240 | the iteration bound follows from a potential of restart position and pattern position |
| Wildcard.EffectiveIsIdentity | util/parser.c:242-244 | a pattern that does not end in two stars is its own effective pattern |
| Wildcard.DoubleStarExample | util/parser.c:242-244 | `a**` is documented to match `a`, and is rejected |
| Tokens.MatchOne | util/parser.c:28-93 | true exactly for the strings that the reference splitter lays the pattern over with at most three conversions; the substrings are left in the argument array and later slots are unchanged |
| Tokens.MatchToken | util/parser.c:109-117 | ends on every table with a null pattern, at the first entry that matches, with its token and its arguments |
| Tokens.AcceptedIffFilled | util/parser.c:28-93 | a string matches if and only if it is the pattern filled with at most three texts, each as long as its conversion makes it |
| Tokens.FillingIsUnique | util/parser.c:28-93 | there is only one such filling |
| Tokens.SplitRenders | util/parser.c:58-92 | the substrings of a match are ordered, disjoint and inside the string, and putting them back into the pattern renders the string |
| Tokens.RenderSplits | util/parser.c:58-92 | every string made by filling the pattern is split into exactly the texts it was filled with |
| Tokens.SplitText | util/parser.c:39-46 | comparing a run of literal text at once agrees with laying the pattern character by character |
| Tokens.Convert | util/parser.c:48-91 | one conversion writes one slot of the argument array and advances string and pattern as the reference does |
| Tokens.NumbersMatched | util/parser.c:72-86 | `%d` and `%u`, `%o`, `%x` match the number that strtol or strtoul finds there in base 0, 8 or 16, and nothing else; what follows in the pattern must follow it |
| Tokens.WholeNumberMatched | util/parser.c:72-86 | text and one number conversion match exactly the text and a number that ends the string |
| Tokens.StringMatched | util/parser.c:62-71 | `%s` matches all that is left, and at least one character |
| Tokens.WidthMatched | util/parser.c:48-71 | `%Ns` matches N characters, or fewer when fewer are left, but at least one is; N is cut to 32 bits |
| Tokens.OthersMatchNothing | util/parser.c:87-88 | any other letter, or the end of the pattern, matches nothing |
| Tokens.PercentMatched | util/parser.c:50-55 | `%%` matches a percent sign |
| JsonTree.JsonForest.ObjectLevel | util/json.c:313-318 | following parent pointers ends and gives the number of containers around an object |
| JsonTree.JsonForest.PairLevel | util/json.c:320-323 | the same for a pair, one more than its object |
| JsonTree.JsonForest.ArrayLevel | util/json.c:325-328 | the same for an array |
| JsonTree.JsonForest.ValueLevel | util/json.c:330-336 | the same for a value, one more than what holds it |
| JsonTree.JsonForest.AddToObject | util/json.c:239-275 | keeps the forest valid, appends the number, the text, `(null)` for a null string, or the child's tree as one member to the object's tree and nothing else, fails exactly for the empty string and then changes nothing |
| JsonTree.JsonForest.InsertInObject | util/json.c:239-275 | which objects, pairs and parent pointers an addition changes |
| JsonTree.JsonForest.AddToArray | util/json.c:278-308 | keeps the forest valid, appends the same as one item to the array's tree and nothing else, fails exactly for the empty string and then changes nothing |
| JsonTree.JsonForest.InsertInArray | util/json.c:278-308 | which arrays and parent pointers an addition changes |
| JsonTree.MemberIsLast | util/json.c:225-237 | a member is added behind all others, whose order stays |
| JsonTree.ItemIsLast | util/json.c:209-223 | the same for an item |
| JsonTree.JsonForest.CreateValue | util/json.c:116-161 | a new value without a holder that has the number, the escaped text or the child; a child object or array points up to it |
| JsonTree.JsonForest.CreateObject | util/json.c:14-20 | a new root, everything else unchanged |
| JsonTree.JsonForest.CreateArray | util/json.c:22-28 | the same for an array |
| JsonTree.JsonForest.CreatePair | util/json.c:30-43 | a new pair that its value points up to |
| JsonTree.JsonForest.ObjectAddPair | util/json.c:225-237 | appends the pair and sets its parent |
| JsonTree.JsonForest.ArrayAddValue | util/json.c:209-223 | appends the value and sets its parent |
| JsonTree.JsonForest.GrewKeepsValid | util/json.c:209-237 | attaching a tree below a node keeps every parent pointer and every level of the forest consistent, in any order of creating, filling and attaching |
| JsonTree.JsonForest.TreeKept | util/json.c:209-237 | an addition leaves every other tree as it was |
| JsonTree.JsonForest.ObjectGrew | util/json.c:225-237 | an object's tree gains one member at its end |
| JsonTree.JsonForest.ArrayGrew | util/json.c:209-223 | an array's tree gains one item at its end |
| JsonTree.JsonForest.PrintObject | util/json.c:347-360 | prints the lines of the tree, each behind two blanks for every container around what it starts, the object's own level found through the parents; the text reads back as the tree if and only if the tree is clean |
| JsonTree.JsonForest.PrintPair | util/json.c:362-367 | prints the lines of a member, the first one with its name |
| JsonTree.JsonForest.PrintArray | util/json.c:369-383 | prints the lines of an array in the same way |
| JsonTree.JsonForest.PrintValue | util/json.c:385-407 | prints the rendering of a value at the level of its line |
| JsonTree.StrdupEscape | util/json.c:84-111 | two passes: a buffer of exactly the size counted, filled with the escaped string; null exactly for the empty string |
| JsonTree.EscapeLength | util/json.c:93-99 | the escaped string is longer by the number of quotes and backslashes |
| JsonTree.EscapeIs | util/json.c:103-108 | character by character, a backslash goes before a quote or a backslash and before nothing else |
| JsonLines.RenderIsLines | util/json.c:338-407 | the text of a value at any level is its lines joined by line feeds, each behind twice as many blanks as containers are around what it starts |
| JsonLines.LinesAreDense | util/json.c:338-407 | no line starts with a blank of its own, so those blanks are all there are |
| JsonLines.IndentIsBlanks | util/json.c:338-342 | an indentation is two blanks for each level |
| JsonRoundTrip.ReadsBackIffClean | util/json.c:347-407 | at every level the printed text is read as the same tree if and only if names hold no quote, backslash or control character and texts no control character |
| JsonRoundTrip.ValueReadsBack | util/json.c:385-407 | the same inside a longer text, at any place |
| JsonRoundTrip.MembersReadBack | util/json.c:352-356 | the same for the members of an object |
| JsonRoundTrip.ItemsReadBack | util/json.c:374-379 | the same for the items of an array |
| JsonRoundTrip.EscapedReadsBack | util/json.c:103-108 | an escaped string is read back up to its closing quote, exactly when it holds no control character |
| JsonRoundTrip.DirtyNameIsLost | util/json.c:365 | no name with a quote, backslash or control character survives printing |
| JsonRoundTrip.NumberReadsBack | util/json.c:391-398 | a whole number is read back in full, whatever ends it |
| ConnArgs.ParseConnArg | fabrics.c:222-264 | on every string, the value of the first part of the form field=value, or empty; wherever else the field's name occurs |
| ConnArgs.SplitJoins | fabrics.c:225-262 | the parts of a string hold no delimiter and make it up again with one between any two |
| ConnArgs.ValueOfFirstPart | fabrics.c:239-259 | the first part that starts with field and assignment is these and the value |
| ConnArgs.FromUnfolds | fabrics.c:234-251 | skipping to the next delimiter skips exactly one part |
| ConnArgs.PassParts | fabrics.c:235-237 | the parts before an occurrence found by strstr cannot hold the field |
| ConnArgs.NameAtStart | fabrics.c:239-245 | the prior-character and assignment checks decide whether the part holds the field |
| ConnOptions.ReadBackIff | fabrics.c:803-862 | nqn, transport, traddr, trsvcid and host_traddr all read back as configured, or empty where absent or none, if and only if their values hold no comma and neither host name gives an absent one a value behind a comma |
| ConnOptions.ReadConnectArgs | fabrics.c:1164-1168 | which field each read asks for; the five reads of a string that was built for a configuration give the configured values under exactly that condition |
| ConnOptions.HostNameGivesAddress | fabrics.c:830-833 | without an address, a host nqn `h,traddr=x` reads back as the address x |
| ConnOptions.BuildOptions | fabrics.c:803-862 | fails with EINVAL exactly without a transport, or without an address for a transport other than loop, and then writes nothing; otherwise the buffer holds the options' text and its NUL, with the host files in place of host names not given |
| ConnOptions.TextOfOptions | fabrics.c:803-862 | that text written out: every option by name, in order, with the condition under which it is there |
| ConnOptions.NumbersReadBack | fabrics.c:834-852 | without commas in the strings each number reads back exactly when it is not 0, or not -1 for tos, and in a discovery without the three that are left out; otherwise there is no part of its name |
| ConnOptions.FlagsAreParts | fabrics.c:853-858 | without commas in the strings a flag's name is a part of the text exactly when the flag is set |
| ConnOptions.StringsReadBack | fabrics.c:819-833 | without commas in them all strings, host names included, read back when they are given and not none; otherwise there is no part of their name |
| ConnOptions.AddArgument | fabrics.c:788-801 | advances cursor and remaining length by what it wrote, keeping the text before the cursor |
| ConnOptions.AddIntArgument | fabrics.c:771-785 | the same for a number, left out at 0, or at -1 where 0 is allowed |
| ConnOptions.AddBoolArgument | fabrics.c:755-768 | the same for a flag |
| ConnOptions.PresentIsRead | fabrics.c:822-861 | an option that is present reads as its value up to the first comma, in spite of names that contain each other |
| ConnOptions.AbsentIsRead | fabrics.c:822-861 | an option that is absent reads as what the host names hold for it behind their commas, empty if nothing |
| ConnOptions.AbsentIsLookedUp | fabrics.c:234-259 | in a list of entries without the field, the field is the first one of that name behind a comma in some value |
| ConnOptions.FirstOfNameIsRead | fabrics.c:234-259 | in a list of entries the first of a name is the one that is read |
| ConnOptions.HasFieldIffNamed | fabrics.c:239-245 | an entry answers to a field exactly when it is the key of that name |
| Micron.NVMEGetLogPage | plugins/micron/micron-nvme.c:218-273 | every chunk whose command succeeded is in place, every other byte is as before; the number of commands and the log they name; the result is the last status |
| Micron.GetCommonLogPage | plugins/micron/micron-nvme.c:299-350 | the same over a zeroed buffer, with full chunks read aside and the last one copied in part |
| Micron.CopyChunk | plugins/micron/micron-nvme.c:312-346 | one round of it |
| Micron.ReadChunk | plugins/micron/micron-nvme.c:241-270 | one round of NVMEGetLogPage |
| Micron.PlanChunks | plugins/micron/micron-nvme.c:236-239 | the ceiling division covers the buffer: full chunks and at most one remainder |
| Micron.FilledIffAllSucceed | plugins/micron/micron-nvme.c:241-272 | on a log that does not change either reader delivers the log, for every earlier content of the buffer, if and only if all its commands succeed |
| Micron.CopyAppends | plugins/micron/micron-nvme.c:337-345 | copying from the zeroed spare buffer has the effect of a command straight into the buffer |
| Micron.PieceAppends | plugins/micron/micron-nvme.c:265-269 | a command that succeeds or fails extends the read so far accordingly |
| Micron.ReadCommandDecodes | plugins/micron/micron-nvme.c:248-265 | a controller decodes the log, offset and byte count that were meant |
| Firmware.FwDownload | nvme.c:2372-2386 | on success the drive has received all pieces of the image, on an error exactly those before it |
| Firmware.TransferAt | nvme.c:2372-2386 | command k sends the bytes from k transfer sizes on, as many as one transfer or as are left, at an offset that wraps at 32 bits |
| Firmware.TransferCount | nvme.c:2372-2386 | the commands are enough for the whole image |
| Firmware.CommandFields | nvme-ioctl.c:736-747 | the dwords of a command: its whole dwords less one, wrapping below four bytes, and its offset in dwords |
| Firmware.WholeImageArrives | nvme.c:2372-2386 | for whole dwords the pieces rebuild the image, byte for byte, at the starting offset |
| Firmware.PrefixArrives | nvme.c:2372-2386 | after k commands the drive holds exactly the first k pieces |
| Firmware.TilesIffWholeDwords | nvme-ioctl.c:736-747 | the commands name the image's range without gap or overlap if and only if the transfer size is a multiple of 4 or the image goes in one piece |
| Firmware.NoHolesIffWholeDwords | nvme.c:2372-2386 | the drive holds every place of the image if and only if the transfer size is a multiple of 4 or the image goes in one piece |
| Firmware.SentIsProduct | nvme.c:2373-2385 | k pieces hold k transfer sizes of bytes, or the whole image |
| Firmware.OverlayAt | nvme-ioctl.c:736-747 | a piece changes exactly the bytes it names |
| OpenChannel.InjectiveIffDisjoint | nvme-lightnvm.h:301-314 | distinct sectors get distinct device addresses if and only if no two coordinates reach the same bit of the layout |
| OpenChannel.CoordinateExtracts | nvme-lightnvm.h:301-314 | every coordinate is read back from its field |
| OpenChannel.FieldsExtract | nvme-lightnvm.h:277-314 | block, page, sector, plane, unit and channel by name, within 16, 16, 8, 8, 8 and 7 bits |
| OpenChannel.BitOfPacked | nvme-lightnvm.h:306-311 | each bit of the packed address is the union of what the coordinates shift there |
| AnaLog.ShowAnaLog | nvme-print.c:3493-3531 | walking a serialized log of any groups, whatever follows it, shows exactly those groups, each at its offset |
| AnaLog.PlacedAt | nvme-print.c:3519-3530 | the running offset is the header and the lengths of all descriptors before |
| AnaLog.SizeIsLength | nvme-print.c:3519-3530 | those lengths are the bytes that the descriptors take |
| AnaLog.ShowGroup | nvme-print.c:3514-3531 | one turn shows the group at the offset and moves to the next descriptor |
| AnaLog.WalkNsids | nvme-print.c:3526-3528 | the namespaces of a descriptor, all and in order |
| AnaLog.NextGroup | nvme-print.c:3514-3530 | where the fields of a group and its successor lie |
| Fabric.PaxGetNvmePfList | plugins/microchip/switchtec-nvme.c:360-412 | the namespaces listed and the tunnels left are those of visiting the reachable PAXes in order, and when every call succeeds the list is written out PAX by PAX; the local PAX is selected at the end; an early failure returns -1, -2 or -3 and lists nothing |
| Fabric.ListPax | plugins/microchip/switchtec-nvme.c:387-408 | one round of it: a PAX that is not reachable, cannot be selected or has no functions adds nothing |
| Fabric.TunnelsRestoredIff | plugins/microchip/switchtec-nvme.c:324-355 | every tunnel returns to its prior state, whatever the tunnels were, if and only if each endpoint's status can be read and its tunnel disabled if it can be enabled, or neither can be done to it |
| Fabric.SuccessfulListing | plugins/microchip/switchtec-nvme.c:360-412 | when every call succeeds tunnels are as before, and the list is, for every PAX that is its own or is routed and reached by unicast and can be selected, for every NVMe physical function of its endpoint ports and switch ports, the namespaces in use, all in order |
| Fabric.ListedIff | plugins/microchip/switchtec-nvme.c:360-412 | a namespace is then listed if and only if such a function on such a PAX has it in use |
| Fabric.FoundIff | plugins/microchip/switchtec-nvme.c:282-307 | a function is found on a PAX if and only if the PAX is reached and selected and the function, of capability 3 and class 010802h, is in one of its endpoint ports or in an endpoint of one of its switch ports |
| Fabric.PortsPfsAreKept | plugins/microchip/switchtec-nvme.c:282-307 | the functions found are the filter of all functions of the dump, in its order |
| Fabric.VisitIs | plugins/microchip/switchtec-nvme.c:323-355 | what one visit does to the tunnel, when the status can and when it cannot be read, and to no other tunnel |
| Fabric.ReportedIs | plugins/microchip/switchtec-nvme.c:333-345 | an endpoint's nonzero identifiers are listed in order, through an enabled tunnel only |
| Fabric.ListedInOrder | plugins/microchip/switchtec-nvme.c:311-358 | with endpoints that can be restored, what is listed depends only on which tunnels are or can be enabled |
| Fabric.Restores | plugins/microchip/switchtec-nvme.c:324-355 | visiting any endpoints that can be restored leaves all tunnels as they were |
| Fabric.MistakeHappens | plugins/microchip/switchtec-nvme.c:325-331 | one endpoint that cannot be restored leaves some state of the tunnels changed, whatever is visited before and after |
| Fabric.PaxBuildNvmePfList | plugins/microchip/switchtec-nvme.c:311-358 | visits the functions one after another and appends their namespaces to the list |
| Fabric.VisitEndpoint | plugins/microchip/switchtec-nvme.c:323-355 | one visit: the tunnel as it is left, and the namespaces the endpoint reports through it |
| Fabric.PaxGetNvmePfFunctions | plugins/microchip/switchtec-nvme.c:270-309 | the NVMe physical functions of all endpoint and switch ports, in the order of the dump, when they fit; -1 without a dump |
| Fabric.PaxEnumEp | plugins/microchip/switchtec-nvme.c:245-268 | the NVMe physical functions of an endpoint up to the limit, but at least one, behind what was collected before |
| Fabric.ListInUse | plugins/microchip/switchtec-nvme.c:336-345 | the identifiers in use are appended in order |
| VfReset.EndsWithin255 | plugins/microchip/switchtec-nvme.c:738-755 | the walk along the capability list ends if and only if it ends within 255 capabilities |
| VfReset.AtMostOnce | plugins/microchip/switchtec-nvme.c:738-755 | the capabilities passed by a walk that ends are pairwise different |
| VfReset.FindCapability | plugins/microchip/switchtec-nvme.c:737-755 | the first PCI Express capability of the list, or that there is none, or that a read failed |
| VfReset.WalkIs | plugins/microchip/switchtec-nvme.c:737-755 | the path of a walk, each capability named by the second byte of the one before, and the outcome by its last one |
| VfReset.AlignedBits | plugins/microchip/switchtec-nvme.c:737 | the first address loses its two low bits and no other |
| VfReset.ResetBits | plugins/microchip/switchtec-nvme.c:771 | writing the flags back sets bit 15 and keeps the others |
| VfReset.Reset | plugins/microchip/switchtec-nvme.c:731-776 | one write, of the device control register with its reset bit added, or none; no capability is no error |
| Suffix.WrittenReadsBack | util/suffix.c:83-132 | from zero up a value written with its suffix reads back within half a unit, and exactly when it is a multiple of the unit |
| Suffix.NearestIff | util/suffix.c:87-93 | the number written is a nearest one exactly from zero up, for values below any unit, and for negative values an odd number of half units from zero |
| Suffix.ScaledIsShort | util/suffix.c:87-93 | below the largest suffix the number is between 1 and 1024 |
| Suffix.MultipleIsExact | util/suffix.c:91-92 | a multiple of its unit is written exactly |
| Suffix.SuffixBinaryGet | util/suffix.c:83-96 | the suffix of the largest power of 1024 that the magnitude reaches, and the value scaled by it |
| Suffix.UnitTable | util/suffix.c:71-81 | the power of 1024 that each suffix stands for |
| Suffix.RoundingIs | util/suffix.c:87-93 | the exact range of values that give a number, from zero up and below zero |
| Suffix.SuffixBinaryParse | util/suffix.c:112-132 | the number times the unit its letter names, in 64 bits; other suffixes and numbers out of range are reported |
| Suffix.ParsedIs | util/suffix.c:112-132 | the factor for each letter in either case, and which suffixes are errors |
| Suffix.ShiftInWord | util/suffix.c:115-123 | shifting the unsigned word is multiplying the number, up to its low 64 bits |
| LatStats.LogScaleIncreases | plugins/intel/intel-nvme.c:555-570 | larger indices give larger latencies |
| LatStats.LogScaleTable | plugins/intel/intel-nvme.c:555-570 | the values themselves: up to 127 the index, then odd numbers, and from index 192 on twice the value 64 indices before |
| LatStats.BucketsPartition | plugins/intel/intel-nvme.c:562-569 | the buckets below n partition the latencies below the end of the last |
| LatStats.ErrorIsSmall | plugins/intel/intel-nvme.c:555-570 | each latency differs from its bucket's value by at most 1/128 of itself |
| LatStats.LogScaleIsMiddle | plugins/intel/intel-nvme.c:569 | the value is the middle of its bucket |
| LatStats.FitsInt | plugins/intel/intel-nvme.c:566-569 | below index 1664 the value is an int |
| Wire.LittleEndian | fabrics.c:512-513 | fields of two, four and eight bytes have their least significant byte first |
| Wire.ToIntIsCongruent | fabrics.c:512-513 | cutting to an int changes a number by a multiple of 2^32 and gives one that an int holds |
| Wire.ToU64IsCongruent | util/suffix.c:115-123 | the same for 64 unsigned bits |
| Basics.DecimalIs | fabrics.c:777 | decimal notation, digit by digit, with the sign in front |

## Left out

- Discovery.GetLogPageDiscovery: requires that no published log's size wraps to exactly 0 (the counts of `Discovery.SizeWrapsToZero`), where the source allocates an empty buffer and reads the header from it; the translation of the status to an errno is not modelled.
- Discovery.FetchLog: requires the same.
- Discovery.Turn: requires the same.
- LogPage.NvmeGetLog: requires a buffer that the length fits and a last piece of at least 4 bytes; a shorter one, or a length of 0, asks the controller for 16 GiB.
- LogPage.NvmeGetLog13: requires at least 4 bytes for the same reason.
- LogPage.CommandDecodes: a log specific field of more than four bits overlaps the RAE bit, and its decoding is not stated.
- Tokens.MatchOne: the number scanners are a parameter, so which texts are numbers is not modelled; the string is shorter than 2 GiB.
- ConnArgs.ParseConnArg: requires a delimiter that is neither the assignment character nor in the field name, as all its callers have.
- ConnOptions.BuildOptions: requires a buffer that the text fits, a subsystem name, and an snprintf that does not fail; the host files are parameters.
- JsonTree.JsonForest.ArrayLevel: requires that the tree's root is an object; the source follows a null pointer for an array at the root.
- JsonTree.JsonForest.AddToObject: allocation always succeeds, and floating-point numbers are whole; freeing trees and sharing a node between two trees are not modelled.
- JsonRoundTrip.ReadsBackIffClean: the reference reader knows `\u` escapes of the basic plane only, no fractions and no exponents, none of which is printed.
- Micron.NVMEGetLogPage: not for logs E6h and E7h, whose commands carry no offset and, the first time, a dword count of 65536 too many; what a drive answers to them is vendor-specific. Requires at least 4 bytes, below which the source divides by zero.
- Micron.GetCommonLogPage: requires an allocation that succeeds and a size below 2 GiB less one chunk, so that the count of bytes read stays an int.
- Firmware.FwDownload: reading the image file and rejecting a size that is not a multiple of 4 happen before the part modelled.
- OpenChannel.InjectiveIffDisjoint: for layouts whose reachable bits stay within 64; a shift of 64 or more has no meaning in C.
- AnaLog.ShowAnaLog: the buffer holds the complete log, as its caller provides, and is shorter than 2 GiB, so that the offset stays an int; the JSON form of the walk (nvme-print.c:676-733) is not modelled.
- AnaLog.ShowGroup: requires the same length.
- Fabric.PaxGetNvmePfList: requires that functions and namespaces fit their buffers; the answers stay the same during one listing; the identify data and node names of the entries are not modelled.
- VfReset.FindCapability: requires a list that ends; on a cyclic one the source never returns.
- Suffix.SuffixBinaryGet: requires values from which half a unit can be added, and not the least 64-bit number.
- LatStats.LogScale: requires an index below 1664, above which the shift leaves the int.
- Connecting and its retry (fabrics.c:1098-1101), and discovery referrals: neither ends for every answer of the target.
- `pax_check_pdfid_type`: a failed selection leaves its error code in the result that its callers compare.
- Files, sockets, ioctl and MRPC transport, option parsing, help texts, plugin dispatch, field-by-field printing, status strings, other vendor plugins and SI suffixes: input and output, or one case each.
