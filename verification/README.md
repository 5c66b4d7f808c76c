# Verified models of the interaction codec, the UUID library, the deframer, the ring queue and field extraction

A Dafny 4.11 model of the algorithmic parts of the repository and proofs of what they are for.
`dafny verify dfyconfig.toml` checks the whole project.

**Interaction messages** (`WireFormat`, `FieldFold`, `FieldWriters`, `PresenceBits`, and for each class a
`...Spec` module and a module with the class). The generated classes are Dafny classes with the presence word
as a 32-bit vector, members updated in place, and submessages that are null until needed and kept when cleared.
Each class has a `Value()`, an immutable message in which an absent member is `None`. The invariant `Valid()` says
that a member whose bit is off holds its default; for submessages, null or a cleared object. Every method is
proved against the value: the parse loop against absorbing fields, the serializer against the encoding, the
size computation against the length of the encoding, `MergeFrom` against merging. The theorems (parsing a
concatenation is merging, round trips, injectivity) are then about the values and so about the objects.
`TermCommandInfo` and `BaseCommandInfo` differ only in their enumeration, so one class with a flag stands for both.

**UUIDs** (`BigEndian`, `UuidLayout`, `UuidClock`, `UuidTime`, `UuidGenerator`, `UuidText`). `get_clock` is a
state machine over the last reading, the adjustment and the clock sequence, fed with arbitrary readings that may
stall or run backwards. The adjustment reaches 10, which is a whole microsecond, so timestamps are not strictly
increasing. The uniqueness theorem states when two emissions coincide, in both directions, and an example
shows that they do. Readings may be any that `gettimeofday` can return, before 1970 too, other than (0, 0), the
mark of an unset clock. Decoding a time before 1970 fails, since `uuid_time` subtracts the offset as an unsigned
number; the theorem gives the exact condition.

**Deframer and frame generator** (`Deframer`, `FrameGenerator`). One loop stands for the UDP and the SPI receiver.
`Frame` and `CircularBuffer` are not part of this model. The loop is proved for every `Format`, under three
assumptions: type and length are functions of the first `FRAME_HEAD_PACKET_LEN_SIZE` bytes; the checksum is
judged on the first packet-length bytes; and the least packet length is positive, since a packet of length zero
would keep the loop on the same byte for ever. The end-to-end theorems, with and without noise between the frames,
use the layout the generator writes.

**Ring queue** (`RingSpec`, `AQueue`). Indices are unsigned 32-bit numbers, the tail of an empty queue is 2^32 - 1.
The ring is shown to be a bounded deque. `pop_back` lets the tail underflow; a single removal keeps the indices in
step under an exact guard, and all runs are safe if and only if the capacity divides 2^32. The source means to hold the tail at 0 (`Utility/AQueue.h:253`), but its test for a negative
tail is never true of an unsigned number; the model follows what the code does.

**Field extraction** (`FieldExtraction`). `distill_string` against the leftmost split of the source. An empty field
behind a trailing separator cannot be reached. `replace_char` loops for ever when it is to replace a character
that occurs with itself.

Definitions that two sides share (encoder and decoder, printer and parser, loop and specification) are tied not only
to each other but to literal bytes, digits, dates and places.

`Arithmetic`, `Wrappers` and `Machine` hold facts about quotients, the optional value and the machine integers.

## Model

| member | source | states |
|---|---|---|
| `InteractionSpec.ParseOfConcatenationIsMerge` | protobuf_test/LT.Interaction.pb.cc:2885-3041 | If `a` parses, parsing `a` followed by `b` is the merge of the two parses, and fails exactly if `b` does not parse: one parse loop run on the concatenation does what `MergeFrom` does, at both nesting levels |
| `InteractionSpec.MergeAssociates` | protobuf_test/LT.Interaction.pb.cc:3314-3352 | Merging three messages does not depend on the grouping, submessages and lists included |
| `InteractionSpec.AbsorbMerges` | protobuf_test/LT.Interaction.pb.cc:3314-3352 | The empty message is neutral for merging, and every single field, known or not, does to a message what merging in the message made of that field does, failures included |
| `InteractionSpec.RoundTrip` | protobuf_test/LT.Interaction.pb.cc:3043-3118 | Parsing the serialization of a well-formed message under 2 GB succeeds, uses every byte and gives the same message: any presence pattern, any bytes, negative numbers, nested messages, lists of any length, unknown fields |
| `InteractionSpec.RoundTripExactly` | protobuf_test/LT.Interaction.pb.cc:2885-3041 | The round trip holds for exactly the well-formed messages: command numbers inside their enumeration and unknown fields the class really does not know |
| `InteractionSpec.ParsedIsWellFormed` | protobuf_test/LT.Interaction.pb.cc:2885-3041 | Whatever bytes come in, what is parsed is well formed; no command number outside the enumerations gets in |
| `InteractionSpec.ReprintedParsesTheSame` | protobuf_test/LT.Interaction.pb.cc:3043-3118 | Serializing what was parsed from any input, canonical or not, parses to the same message |
| `InteractionSpec.PrintedTwiceIsMerged` | protobuf_test/LT.Interaction.pb.cc:3314-3352 | Two serializations sent back to back arrive as the merge of the two messages |
| `InteractionSpec.SerializeIsInjective` | protobuf_test/LT.Interaction.pb.cc:3043-3118 | Two well-formed messages have the same encoding only if they are equal, so absent and present-but-empty stay distinct |
| `InteractionSpec.SmallMessageFits` | protobuf_test/LT.Interaction.pb.cc:3206-3297 | In a message whose encoding is under 2 GB every submessage and list element is under 2 GB, so all length prefixes can be read back |
| `TerminalInfoSpec.RoundTrip` | protobuf_test/LT.Interaction.pb.cc:742-839 | Printing and parsing a terminal description gives it back, for every presence pattern |
| `TerminalInfoSpec.AbsorbMerges` | protobuf_test/LT.Interaction.pb.cc:1069-1114 | Merging is associative with the empty message as unit, and one field does what merging in its one-field message does |
| `BaseStationInfoSpec.RoundTrip` | protobuf_test/LT.Interaction.pb.cc:1470-1552 | Printing and parsing a base station description gives it back, for every presence pattern |
| `BaseStationInfoSpec.AbsorbMerges` | protobuf_test/LT.Interaction.pb.cc:1762-1805 | Merging is associative with the empty message as unit, and one field does what merging in its one-field message does |
| `CommandInfoSpec.RoundTrip` | protobuf_test/LT.Interaction.pb.cc:2400-2546 | Printing and parsing a command gives it back if its number exists in the enumeration of its class |
| `CommandInfoSpec.AbsorbMerges` | protobuf_test/LT.Interaction.pb.cc:2662-2688 | Merging is associative with the empty message as unit, and one field does what merging in its one-field message does, also when an unknown command number is kept as an unknown varint |
| `CommandInfoSpec.ParsedOntoWellFormed` | protobuf_test/LT.Interaction.pb.cc:2413-2430 | Parsing any bytes onto a command leaves its number inside the enumeration; other numbers end up among the unknown fields |
| `CommandInfoSpec.AbsorbKeepsWellFormed` | protobuf_test/LT.Interaction.pb.cc:357-395 | One field never makes a command number outside `IsValid` visible |
| `WireFormat.FieldsOfConcatenation` | protobuf_test/LT.Interaction.pb.cc:2885-3041 | Splitting two concatenated inputs into fields gives the fields of the one and then of the other (Protocol Buffers Encoding guide, section "Last One Wins") |
| `WireFormat.FieldsOfEncoding` | protobuf_test/LT.Interaction.pb.cc:3043-3118 | Reading the encoding of a list of fields gives that list |
| `WireFormat.VarintSizeIsLength` | protobuf_test/LT.Interaction.pb.cc:3217-3284 | The comparison-based varint size is the number of bytes a varint takes (Protocol Buffers Encoding guide, section "Base 128 Varints") |
| `TerminalInfoSpec.MergeMembers` | protobuf_test/LT.Interaction.pb.cc:1069-1114 | For each member the merge holds the later value if there is one, else the earlier; unknown fields are appended |
| `TerminalInfoSpec.AbsorbMembers` | protobuf_test/LT.Interaction.pb.cc:570-740 | Each field number with its wire type overwrites its member, and no other member |
| `TerminalInfoSpec.AbsorbOthers` | protobuf_test/LT.Interaction.pb.cc:570-740 | Every other field, by number or by wire type, is appended to the unknown fields |
| `TerminalInfoSpec.SerializedBytes` | protobuf_test/LT.Interaction.pb.cc:742-839 | The bytes: for each present member in order its literal tag byte, length or varint, and value, then the unknown fields |
| `TerminalInfoSpec.LastOneWins` | protobuf_test/LT.Interaction.pb.cc:570-740 | One more member, as literal bytes, at the end of any input that parses sets that member and changes nothing else |
| `TerminalInfoSpec.RequiredExactly` | protobuf_test/LT.Interaction.pb.cc:570-740 | What was parsed holds the required members exactly if the input carries every one of them |
| `BaseStationInfoSpec.MergeMembers` | protobuf_test/LT.Interaction.pb.cc:1762-1805 | For each member the merge holds the later value if there is one, else the earlier; unknown fields are appended |
| `BaseStationInfoSpec.AbsorbMembers` | protobuf_test/LT.Interaction.pb.cc:1304-1468 | Each field number with its wire type overwrites its member, and no other member |
| `BaseStationInfoSpec.AbsorbOthers` | protobuf_test/LT.Interaction.pb.cc:1304-1468 | Every other field, by number or by wire type, is appended to the unknown fields |
| `BaseStationInfoSpec.SerializedBytes` | protobuf_test/LT.Interaction.pb.cc:1470-1552 | The bytes: for each present member in order its literal tag byte, length or varint, and value, then the unknown fields |
| `BaseStationInfoSpec.LastOneWins` | protobuf_test/LT.Interaction.pb.cc:1304-1468 | One more member, as literal bytes, at the end of any input that parses sets that member and changes nothing else |
| `BaseStationInfoSpec.RequiredExactly` | protobuf_test/LT.Interaction.pb.cc:1304-1468 | What was parsed holds the required members exactly if the input carries every one of them |
| `CommandInfoSpec.MergeMembers` | protobuf_test/LT.Interaction.pb.cc:2662-2688 | For each member the merge holds the later value if there is one, else the earlier; unknown fields are appended |
| `CommandInfoSpec.AbsorbMembers` | protobuf_test/LT.Interaction.pb.cc:2400-2496 | Each field number with its wire type overwrites its member, and no other member |
| `CommandInfoSpec.AbsorbOthers` | protobuf_test/LT.Interaction.pb.cc:2400-2496 | Every other field, by number or by wire type, is appended to the unknown fields |
| `CommandInfoSpec.SerializedBytes` | protobuf_test/LT.Interaction.pb.cc:2498-2546 | The bytes: for each present member in order its literal tag byte, length or varint, and value, then the unknown fields |
| `CommandInfoSpec.LastOneWins` | protobuf_test/LT.Interaction.pb.cc:2400-2496 | One more member, as literal bytes, at the end of any input that parses sets that member and changes nothing else |
| `CommandInfoSpec.RequiredExactly` | protobuf_test/LT.Interaction.pb.cc:2400-2496 | What was parsed holds the required members exactly if the input carries every one of them |
| `CommandInfoSpec.ValidIds` | protobuf_test/LT.Interaction.pb.cc:357-395 | The command numbers are 0 to 2 for terminals and 0 to 5 for base stations |
| `InteractionSpec.MergeMembers` | protobuf_test/LT.Interaction.pb.cc:3314-3352 | Of two scalars the later counts, a submessage on both sides is merged, one on one side is kept, lists and unknown fields are appended |
| `InteractionSpec.MergeNestedMembers` | protobuf_test/LT.Interaction.pb.cc:3331-3342 | A member that a submessage has on both sides takes the later value |
| `InteractionSpec.AbsorbMembers` | protobuf_test/LT.Interaction.pb.cc:2885-3041 | The four scalar fields overwrite their members |
| `InteractionSpec.AbsorbSubmessages` | protobuf_test/LT.Interaction.pb.cc:2910-3013 | A submessage is merged into the one there or becomes it, a list element goes to the end, and one that does not parse refuses the input |
| `InteractionSpec.AbsorbOthers` | protobuf_test/LT.Interaction.pb.cc:3014-3032 | Every other field is appended to the unknown fields |
| `InteractionSpec.SerializedBytes` | protobuf_test/LT.Interaction.pb.cc:3043-3118 | The bytes: literal tags 08 12 1a 20 2a 32 38 4a 52 5a in that order, each with its value, then the unknown fields |
| `InteractionSpec.LastOneWins` | protobuf_test/LT.Interaction.pb.cc:2885-3041 | One more scalar, as literal bytes, at the end of any input that parses sets that member and changes nothing else |
| `InteractionSpec.LastSubmessageMerges` | protobuf_test/LT.Interaction.pb.cc:2910-3013 | One more submessage at the end of any input merges into the one there, one more list element is appended |
| `InteractionSpec.RequiredExactly` | protobuf_test/LT.Interaction.pb.cc:3368-3385 | An input that parses gives an initialized message exactly if it carries field 1, the required fields of every submessage that is there, over all its occurrences, and those of every list element |
| `InteractionSpec.PresentExactly` | protobuf_test/LT.Interaction.pb.cc:2885-3041 | A member is present after parsing exactly if the input carries its field |
| `WireFormat.VarintBytes` | protobuf_test/LT.Interaction.pb.cc:3049-3053 | Byte i of a varint holds seven bits, v / 128^i mod 128, and has its high bit set on all bytes but the last (section "Base 128 Varints" of the Protocol Buffers Encoding guide) |
| `WireFormat.ReadVarintExactly` | protobuf_test/LT.Interaction.pb.cc:2896-2904 | A varint is read exactly if it ends within ten bytes; its seven-bit digits are those of the bytes, and sixty-four bits are kept |
| `WireFormat.WireTypes` | protobuf_test/LT.Interaction.pb.cc:3043-3118 | The bytes of a field: tag 8 * number + 0, 1, 2 or 5, then varint, eight bytes, length and data, or four bytes (section "Message Structure" of the Protocol Buffers Encoding guide) |
| `WireFormat.FieldHeader` | protobuf_test/LT.Interaction.pb.cc:2891-2893 | A field is read exactly if its tag and payload can be; number and wire type are the two parts of the 32-bit tag |
| `WireFormat.ReadRawPayload` | protobuf_test/LT.Interaction.pb.cc:3014-3032 | How many bytes each wire type takes; groups and undefined types are refused |
| `FieldFold.ParseOneMore` | protobuf_test/LT.Interaction.pb.cc:2885-3041 | One more field at the end of an input is absorbed last, onto what the input gave |
| `FieldFold.FoldIsMerge` | protobuf_test/LT.Interaction.pb.cc:3314-3352 | For any message class whose fields act as merges, absorbing a run of fields onto a message is absorbing it onto an empty one and merging the result in |
| `TerminalInfo.TerminalInfo.Clear` | protobuf_test/LT.Interaction.pb.cc:524-568 | The mask-guarded reset leaves every member at its default, whatever the presence bits were; the value is the empty message |
| `TerminalInfo.TerminalInfo.MergeFrom` | protobuf_test/LT.Interaction.pb.cc:1069-1114 | The mask-grouped member-by-member update gives the merge of the two values and leaves the source alone |
| `TerminalInfo.TerminalInfo.CopyFrom` | protobuf_test/LT.Interaction.pb.cc:1123-1128 | The target then equals the source, whatever it held before |
| `TerminalInfo.TerminalInfo.MergePartialFromCodedStream` | protobuf_test/LT.Interaction.pb.cc:570-740 | The tag-dispatch loop parses the whole input onto the message or fails, exactly as absorbing the fields one by one does |
| `TerminalInfo.TerminalInfo.SerializeWithCachedSizes` | protobuf_test/LT.Interaction.pb.cc:742-839 | Writing the present members in turn emits exactly the encoding of the value |
| `TerminalInfo.TerminalInfo.RequiredFieldsByteSizeFallback` | protobuf_test/LT.Interaction.pb.cc:950-975 | Counts the required members that are present, one by one |
| `TerminalInfo.TerminalInfo.RequiredFieldsByteSize` | protobuf_test/LT.Interaction.pb.cc:986-1004 | The fast path for all required members present and the fallback count the same bytes |
| `TerminalInfo.TerminalInfo.ByteSizeLong` | protobuf_test/LT.Interaction.pb.cc:977-1052 | The size computed through masks and fast path is the exact length of the serialization, for every presence pattern |
| `TerminalInfo.TerminalInfo.IsInitialized` | protobuf_test/LT.Interaction.pb.cc:1130-1133 | The mask test holds exactly if every required member is present |
| `BaseStationInfo.BaseStationInfo.Clear` | protobuf_test/LT.Interaction.pb.cc:1265-1302 | The mask-guarded reset leaves every member at its default, whatever the presence bits were; the value is the empty message |
| `BaseStationInfo.BaseStationInfo.MergeFrom` | protobuf_test/LT.Interaction.pb.cc:1762-1805 | The mask-grouped member-by-member update gives the merge of the two values and leaves the source alone |
| `BaseStationInfo.BaseStationInfo.CopyFrom` | protobuf_test/LT.Interaction.pb.cc:1814-1819 | The target then equals the source, whatever it held before |
| `BaseStationInfo.BaseStationInfo.MergePartialFromCodedStream` | protobuf_test/LT.Interaction.pb.cc:1304-1468 | The tag-dispatch loop parses the whole input onto the message or fails, exactly as absorbing the fields one by one does |
| `BaseStationInfo.BaseStationInfo.SerializeWithCachedSizes` | protobuf_test/LT.Interaction.pb.cc:1470-1552 | Writing the present members in turn emits exactly the encoding of the value |
| `BaseStationInfo.BaseStationInfo.RequiredFieldsByteSizeFallback` | protobuf_test/LT.Interaction.pb.cc:1645-1670 | Counts the required members that are present, one by one |
| `BaseStationInfo.BaseStationInfo.RequiredFieldsByteSize` | protobuf_test/LT.Interaction.pb.cc:1681-1699 | The fast path for all required members present and the fallback count the same bytes |
| `BaseStationInfo.BaseStationInfo.ByteSizeLong` | protobuf_test/LT.Interaction.pb.cc:1672-1745 | The size computed through masks and fast path is the exact length of the serialization, for every presence pattern |
| `BaseStationInfo.BaseStationInfo.IsInitialized` | protobuf_test/LT.Interaction.pb.cc:1821-1824 | The mask test holds exactly if every required member is present |
| `CommandInfo.CommandInfo.Clear` | protobuf_test/LT.Interaction.pb.cc:2374-2398 | The mask-guarded reset leaves every member at its default, whatever the presence bits were; the value is the empty message |
| `CommandInfo.CommandInfo.MergeFrom` | protobuf_test/LT.Interaction.pb.cc:2662-2688 | The mask-grouped member-by-member update gives the merge of the two values and leaves the source alone |
| `CommandInfo.CommandInfo.CopyFrom` | protobuf_test/LT.Interaction.pb.cc:2697-2702 | The target then equals the source, whatever it held before |
| `CommandInfo.CommandInfo.MergePartialFromCodedStream` | protobuf_test/LT.Interaction.pb.cc:2400-2496 | The tag-dispatch loop parses the whole input onto the message or fails, exactly as absorbing the fields one by one does |
| `CommandInfo.CommandInfo.SerializeWithCachedSizes` | protobuf_test/LT.Interaction.pb.cc:2498-2546 | Writing the present members in turn emits exactly the encoding of the value |
| `CommandInfo.CommandInfo.ByteSizeLong` | protobuf_test/LT.Interaction.pb.cc:2603-2645 | The size computed through masks and fast path is the exact length of the serialization, for every presence pattern |
| `CommandInfo.CommandInfo.IsInitialized` | protobuf_test/LT.Interaction.pb.cc:2704-2707 | The mask test holds exactly if every required member is present |
| `InteractionMessage.Interaction.Clear` | protobuf_test/LT.Interaction.pb.cc:2845-2883 | The mask-guarded reset gives the empty message; submessages are kept but cleared, lists are emptied, all presence bits go off |
| `InteractionMessage.Interaction.MergeGroup` | protobuf_test/LT.Interaction.pb.cc:3321-3351 | The members behind the presence mask are merged; lists and unknown fields are not touched yet |
| `InteractionMessage.Interaction.MergeFrom` | protobuf_test/LT.Interaction.pb.cc:3314-3352 | The value becomes the merge of the two values: submessages made on demand and merged in turn, list elements copied; the source keeps its value and shares nothing with the target |
| `InteractionMessage.Interaction.CopyFrom` | protobuf_test/LT.Interaction.pb.cc:3361-3366 | The target then equals the source, whatever it held before; copying onto itself changes nothing |
| `InteractionMessage.Interaction.MergeMessageField` | protobuf_test/LT.Interaction.pb.cc:2910-2985 | A submessage is parsed onto the one already there, a list element is parsed into a new one |
| `InteractionMessage.Interaction.MergeField` | protobuf_test/LT.Interaction.pb.cc:2890-3032 | One turn of the tag-dispatch loop absorbs exactly one field, or fails exactly where that field is malformed |
| `InteractionMessage.Interaction.MergePartialFromCodedStream` | protobuf_test/LT.Interaction.pb.cc:2885-3041 | The loop parses the whole input onto the message or fails, exactly as absorbing the fields one by one does |
| `InteractionMessage.Interaction.ParseFromString` | protobuf_test/LT.Interaction.pb.cc:2885-3041 | A fresh parse succeeds exactly if the input parses and carries every required member of the message, of each submessage that is there and of each list element; it then gives the parsed message |
| `InteractionMessage.Interaction.IsInitialized` | protobuf_test/LT.Interaction.pb.cc:3368-3385 | True exactly if every required member is present, recursively through lists and submessages |
| `InteractionMessage.Interaction.SerializeWithCachedSizes` | protobuf_test/LT.Interaction.pb.cc:3043-3118 | The fixed-order writes emit exactly the encoding of the value |
| `InteractionMessage.Interaction.GroupedFieldsByteSize` | protobuf_test/LT.Interaction.pb.cc:3243-3278 | The members behind the mask 31 are counted exactly, also when the mask test skips them all |
| `InteractionMessage.Interaction.ByteSizeLong` | protobuf_test/LT.Interaction.pb.cc:3206-3297 | The computed size is the exact length of the serialization, recursively through submessages and lists |
| `InteractionMessage.Interaction.MutableTerminalInfo` | protobuf_test/LT.Interaction.pb.h:2678-2685 | `terminal_info` is present afterwards, made only if there was none; a cleared one that was kept shows as empty; every other member is as before |
| `InteractionMessage.Interaction.ClearTerminalInfo` | protobuf_test/LT.Interaction.pb.h:2661-2664 | `terminal_info` is absent afterwards, and an object that is there is kept and cleared |
| `InteractionMessage.Interaction.ReleaseTerminalInfo` | protobuf_test/LT.Interaction.pb.h:2671-2677 | Gives the object away: `terminal_info` is absent and the message no longer owns it |
| `InteractionMessage.Interaction.SetAllocatedTerminalInfo` | protobuf_test/LT.Interaction.pb.h:2686-2703 | `terminal_info` is then the object given, or absent for null, whatever was there |
| `InteractionMessage.Interaction.MutableTerminalCmdInfo` | protobuf_test/LT.Interaction.pb.h:2732-2739 | `terminal_cmd_info` is present afterwards, made only if there was none; a cleared one that was kept shows as empty; every other member is as before |
| `InteractionMessage.Interaction.ClearTerminalCmdInfo` | protobuf_test/LT.Interaction.pb.h:2715-2718 | `terminal_cmd_info` is absent afterwards, and an object that is there is kept and cleared |
| `InteractionMessage.Interaction.ReleaseTerminalCmdInfo` | protobuf_test/LT.Interaction.pb.h:2725-2731 | Gives the object away: `terminal_cmd_info` is absent and the message no longer owns it |
| `InteractionMessage.Interaction.SetAllocatedTerminalCmdInfo` | protobuf_test/LT.Interaction.pb.h:2740-2757 | `terminal_cmd_info` is then the object given, or absent for null, whatever was there |
| `InteractionMessage.Interaction.MutableBaseStationInfo` | protobuf_test/LT.Interaction.pb.h:2810-2817 | `base_station_info` is present afterwards, made only if there was none; a cleared one that was kept shows as empty; every other member is as before |
| `InteractionMessage.Interaction.ClearBaseStationInfo` | protobuf_test/LT.Interaction.pb.h:2793-2796 | `base_station_info` is absent afterwards, and an object that is there is kept and cleared |
| `InteractionMessage.Interaction.ReleaseBaseStationInfo` | protobuf_test/LT.Interaction.pb.h:2803-2809 | Gives the object away: `base_station_info` is absent and the message no longer owns it |
| `InteractionMessage.Interaction.SetAllocatedBaseStationInfo` | protobuf_test/LT.Interaction.pb.h:2818-2835 | `base_station_info` is then the object given, or absent for null, whatever was there |
| `InteractionMessage.Interaction.MutableBaseCmdInfo` | protobuf_test/LT.Interaction.pb.h:2864-2871 | `base_cmd_info` is present afterwards, made only if there was none; a cleared one that was kept shows as empty; every other member is as before |
| `InteractionMessage.Interaction.ClearBaseCmdInfo` | protobuf_test/LT.Interaction.pb.h:2847-2850 | `base_cmd_info` is absent afterwards, and an object that is there is kept and cleared |
| `InteractionMessage.Interaction.ReleaseBaseCmdInfo` | protobuf_test/LT.Interaction.pb.h:2857-2863 | Gives the object away: `base_cmd_info` is absent and the message no longer owns it |
| `InteractionMessage.Interaction.SetAllocatedBaseCmdInfo` | protobuf_test/LT.Interaction.pb.h:2872-2889 | `base_cmd_info` is then the object given, or absent for null, whatever was there |
| `InteractionMessage.Interaction.TakeMsgId` | protobuf_test/LT.Interaction.pb.h:2645-2648 | Sets the number and its presence bit if there is one to take; the representation invariant is kept |
| `InteractionMessage.Interaction.TakeConfigFile` | protobuf_test/LT.Interaction.pb.h:2933-2937 | Sets the string and its presence bit if there is one to take; the representation invariant is kept |
| `InteractionMessage.Interaction.ClearMsgId` | protobuf_test/LT.Interaction.pb.h:2637-2640 | The member is absent and default again, every other as before |
| `InteractionMessage.Interaction.ClearConfigFile` | protobuf_test/LT.Interaction.pb.h:2925-2928 | The member is absent and empty again, every other as before |
| `InteractionMessage.Interaction.ReleaseConfigFile` | protobuf_test/LT.Interaction.pb.h:2963-2967 | Gives the string away; the member is absent and empty, every other as before |
| `InteractionMessage.Interaction.SetAllocatedConfigFile` | protobuf_test/LT.Interaction.pb.h:2968-2976 | The member is then the string given, or absent for none |
| `InteractionMessage.Interaction.ClearTerminalInfoList` | protobuf_test/LT.Interaction.pb.h:2982-2984 | `terminal_info_list` is empty, every other member as before |
| `InteractionMessage.Interaction.AddTerminalInfoList` | protobuf_test/LT.Interaction.pb.h:2993-2996 | A new empty element stands at the end of `terminal_info_list`, owned by the message and by no other |
| `InteractionMessage.Interaction.MutableTerminalInfoList` | protobuf_test/LT.Interaction.pb.h:2989-2992 | The object at that place of `terminal_info_list`, with the value the message shows there |
| `InteractionMessage.Interaction.TerminalInfoElementChanged` | protobuf_test/LT.Interaction.pb.h:2989-2992 | Changing that object through its own methods keeps the representation invariant and changes that place of `terminal_info_list` only |
| `InteractionMessage.Interaction.ClearBaseStationInfoList` | protobuf_test/LT.Interaction.pb.h:3012-3014 | `base_station_info_list` is empty, every other member as before |
| `InteractionMessage.Interaction.AddBaseStationInfoList` | protobuf_test/LT.Interaction.pb.h:3023-3026 | A new empty element stands at the end of `base_station_info_list`, owned by the message and by no other |
| `InteractionMessage.Interaction.MutableBaseStationInfoList` | protobuf_test/LT.Interaction.pb.h:3019-3022 | The object at that place of `base_station_info_list`, with the value the message shows there |
| `InteractionMessage.Interaction.BaseStationInfoElementChanged` | protobuf_test/LT.Interaction.pb.h:3019-3022 | Changing that object through its own methods keeps the representation invariant and changes that place of `base_station_info_list` only |
| `InteractionMessage.Interaction.TerminalInfoChanged` | protobuf_test/LT.Interaction.pb.h:2678-2685 | Changing the object got for `terminal_info` through its own methods keeps the representation invariant and changes that member only |
| `InteractionMessage.Interaction.TerminalCmdInfoChanged` | protobuf_test/LT.Interaction.pb.h:2732-2739 | Changing the object got for `terminal_cmd_info` through its own methods keeps the representation invariant and changes that member only |
| `InteractionMessage.Interaction.BaseStationInfoChanged` | protobuf_test/LT.Interaction.pb.h:2810-2817 | Changing the object got for `base_station_info` through its own methods keeps the representation invariant and changes that member only |
| `InteractionMessage.Interaction.BaseCmdInfoChanged` | protobuf_test/LT.Interaction.pb.h:2864-2871 | Changing the object got for `base_cmd_info` through its own methods keeps the representation invariant and changes that member only |
| `UuidLayout.UuidPack` | UUID/pack.c:39-69 | Writing each field from its last byte back by shifting gives the big-endian layout of RFC 4122, section 4.1.2 |
| `UuidLayout.UuidUnpack` | UUID/unpack.c:39-63 | Shifting the bytes in from the front reads that layout |
| `UuidLayout.UnpackedPacked` | UUID/unpack.c:39-63 | Unpacking what was packed gives the fields back |
| `UuidLayout.PackedUnpacked` | UUID/pack.c:39-69 | Packing what was unpacked gives the 16 bytes back |
| `UuidLayout.PackedBytes` | UUID/pack.c:39-69 | The sixteen bytes one by one: each field with its high byte first, in the order of the fields, then the node |
| `UuidLayout.UnpackedBytes` | UUID/unpack.c:39-63 | Each field in terms of its bytes |
| `UuidLayout.FirstDifferenceDecides` | UUID/gen_uuid.c:306-320 | The first byte that differs decides: -1 if it is smaller, 1 if it is greater |
| `UuidLayout.UuidCompareIsByteOrder` | UUID/gen_uuid.c:306-320 | Comparing decoded fields and then the node has the sign of comparing the 16 raw bytes as unsigned |
| `UuidLayout.UuidCompareIsTotalOrder` | UUID/gen_uuid.c:306-320 | `uuid_compare` is antisymmetric and transitive, and zero exactly on equal bytes |
| `UuidClock.EpochOffset` | UUID/gen_uuid.c:244 | The offset is the 141427 days from 15 October 1582 to 1 January 1970, in ticks of 100 ns |
| `UuidClock.ClockCountsTicks` | UUID/gen_uuid.c:242-246 | The clock is the reading in ticks since 15 October 1582 plus the adjustment, modulo 2^64 |
| `UuidClock.StepExactly` | UUID/gen_uuid.c:224-240 | The four cases: earlier reading (next sequence number), later reading, same reading (one more tick), same reading with ten ticks used (retried) |
| `UuidClock.FirstEmission` | UUID/gen_uuid.c:218-223 | The first reading is used as it is, with adjustment 0 and fourteen of the bits drawn |
| `UuidClock.RunIsChain` | UUID/gen_uuid.c:210-250 | Over every run each emission follows the one before in one of three ways (later reading, same reading with one more tick, earlier reading with the next sequence number), every sequence number is below 0x4000, and the links that go back are as many as the backward readings |
| `UuidClock.RunUniqueness` | UUID/gen_uuid.c:210-250 | Over any run of readings other than (0, 0), before 1970 too, with fewer than 2^14 backward steps, two emissions share timestamp and sequence number if and only if they are consecutive, the earlier used adjustment 10, and the later reading is one microsecond on, or a multiple of 2^64 ticks lies between them; within an epoch the unwrapped timestamps never decrease |
| `UuidClock.RunUniquenessInRange` | UUID/gen_uuid.c:210-250 | With readings in one range of the 64-bit counter only the tenth adjustment makes two emissions meet, and timestamps never decrease within an epoch |
| `UuidClock.ChainUniqueness` | UUID/gen_uuid.c:218-241 | The same on any chain of emissions, whatever produced it |
| `UuidClock.TicksNeverDecrease` | UUID/gen_uuid.c:236-241 | Between two backward steps timestamps never decrease |
| `UuidClock.KeysIncrease` | UUID/gen_uuid.c:224-241 | Within an epoch the pair of reading and adjustment strictly increases, by at least one a call |
| `UuidClock.SequenceAfter` | UUID/gen_uuid.c:227-229 | The sequence number moves on by one, modulo 2^14, for every backward step between two emissions |
| `UuidClock.CollisionExample` | UUID/gen_uuid.c:206-242 | The exception happens: eleven equal readings and then the next microsecond give one timestamp twice |
| `UuidGenerator.NextEmissionIsRun` | UUID/gen_uuid.c:217-240 | Calls of `get_clock` in a row, each retrying until a reading can be used, emit the run of the state machine one by one |
| `UuidGenerator.Generator.GetClock` | UUID/gen_uuid.c:210-250 | The retry loop over the static variables performs one step of the state machine per reading and returns the two halves of the 64-bit clock and the sequence number |
| `UuidGenerator.Generator.InitNode` | UUID/gen_uuid.c:259-270 | The node id is set once; a random one has the multicast bit set and its other bits as drawn |
| `UuidGenerator.Generator.GenerateTime` | UUID/gen_uuid.c:252-277 | Fills the output with the time-based UUID of the next emission and the node |
| `UuidGenerator.Generator.GenerateRandom` | UUID/gen_uuid.c:279-290 | Unpacks sixteen random bytes, overwrites version and variant, and packs them again |
| `UuidTime.DecodedTimeOfTimeUuid` | UUID/uuid_time.c:46-66 | For every emission: decoding the generated UUID gives the reading in microseconds plus adjustment / 10 if and only if the clock is below 2^60 and the ticks since 1970 are not negative and below 2^64; the decoded microseconds are always below a million |
| `UuidTime.DecodedTimeBelow60` | UUID/uuid_time.c:46-66 | For clocks below 2^60 decoding is right if and only if the clock is not before 1970: the offset is subtracted as an unsigned number |
| `UuidTime.DecodedBefore1970` | UUID/uuid_time.c:58-60 | The input that shows it: one second before 1970 decodes to (2^64 - 10^7) / 10^7 seconds |
| `UuidTime.TimeUuidBytes` | UUID/gen_uuid.c:271-276 | Where clock, version 1, variant, sequence number and node stand in the sixteen bytes (RFC 4122, section 4.1.2) |
| `UuidTime.DecodedFromBytes` | UUID/uuid_time.c:46-91 | Time, type and variant read from any sixteen bytes, in terms of the bytes; the variant by ranges of byte 8 |
| `UuidTime.RandomizedBytes` | UUID/gen_uuid.c:279-290 | A random UUID is the bytes drawn, but for four bits of byte 6 and two of byte 8 |
| `UuidTime.TimeUuidInjective` | UUID/gen_uuid.c:271-276 | For all emissions and nodes the 16 bytes are the same exactly if the low 60 bits of the clock, the sequence number and the node are |
| `UuidTime.RunUuidsUnique` | UUID/gen_uuid.c:252-277 | Over any run of one node with fewer than 2^14 backward steps two UUIDs are equal if and only if they are consecutive across the tenth adjustment of one microsecond, or a multiple of 2^60 ticks lies between them at the same sequence number |
| `UuidTime.RunUuidsUniqueInRange` | UUID/gen_uuid.c:252-277 | With timestamps that fit 60 bits only the tenth adjustment makes two UUIDs equal |
| `UuidTime.TimeUuidTypeAndVariant` | UUID/uuid_time.c:68-91 | Every time-based UUID decodes to type 1 and the DCE variant (RFC 4122, sections 4.1.1 and 4.1.3) |
| `UuidTime.RandomUuidTypeAndVariant` | UUID/gen_uuid.c:279-290 | A random UUID decodes to type 4 and the DCE variant, and every other bit is the one drawn |
| `UuidText.UuidParse` | UUID/parse.c:43-80 | Accepts a string of any length exactly if it has the 8-4-4-4-12 hexadecimal form; writes the 16 bytes it spells then, and nothing otherwise |
| `UuidText.NumbersOfText` | UUID/parse.c:66-76 | `strtoul` from the start of each group reads exactly that group |
| `UuidText.ParseNode` | UUID/parse.c:70-76 | Two digits at a time through a three-character buffer give the six node bytes |
| `UuidText.DigitsExactly` | UUID/unparse.c:40-44 | The digits printed for 0 to 15 are 0123456789abcdef or 0123456789ABCDEF, those characters are the hexadecimal ones, and each is read as its value |
| `UuidText.UnparsedBytes` | UUID/unparse.c:52-62 | The two digits of each byte, high half first, stand at the places the 8-4-4-4-12 form gives them, in either case |
| `UuidText.ParsedBytes` | UUID/parse.c:66-78 | Each byte parsed is sixteen times the digit at its place plus the digit behind it |
| `UuidText.ParsedUnparsed` | UUID/unparse.c:40-72 | Parsing what was printed, in lower or upper case, gives the 16 bytes back |
| `UuidText.UnparsedParsed` | UUID/unparse.c:64-67 | Printing in lower case what was parsed gives the input in lower case |
| `UuidText.UnparsedPieces` | UUID/unparse.c:40-62 | A printed UUID has the 8-4-4-4-12 form and its groups are the fields, the two bytes of the clock sequence forming one group |
| `Deframer.ChunkingIndependence` | device_test/testCase/UdpDevice_test.cpp:48-126 | Any two ways of cutting one byte stream into reads give the same frames, the same dropped bytes in the same order, and the same bytes kept |
| `Deframer.DeframeInTwo` | device_test/testCase/spi_test.cpp:62-114 | Deframing a queue and going on when more bytes arrive is deframing all of it at once |
| `Deframer.ReceiveIsDeframe` | device_test/testCase/UdpDevice_test.cpp:48-126 | Reading chunk after chunk, keeping the rest each time, is deframing the whole stream |
| `Deframer.DecisionStands` | device_test/testCase/UdpDevice_test.cpp:76-119 | Bytes that arrive later never change a decision that could already be made |
| `Deframer.DeframeIsTheTrace` | device_test/testCase/UdpDevice_test.cpp:76-121 | The events of a queue are the only ones that wait only for a header or for the rest of a frame within the limits, deliver wherever a complete frame with a good checksum stands, and drop a byte only where neither is so |
| `Deframer.DecideExactly` | device_test/testCase/UdpDevice_test.cpp:76-121 | One iteration waits exactly in those two cases and delivers exactly a complete good frame |
| `Deframer.DeframeConserves` | device_test/testCase/UdpDevice_test.cpp:76-126 | Delivered frames, dropped bytes and kept bytes, in order, are the input, each byte once |
| `Deframer.DeframeDelivers` | device_test/testCase/UdpDevice_test.cpp:76-126 | Only frames within the limits and with a good checksum are delivered; what is kept is too short for a header, or the start of a frame within the limits that is not all there, so at most max(header length, largest frame - 1) bytes |
| `Deframer.FramesAreDelivered` | device_test/testCase/UdpDevice_test.cpp:116-126 | Good frames laid end to end are delivered one by one, whatever follows them |
| `Deframer.Receiver.Feed` | device_test/testCase/UdpDevice_test.cpp:68-126 | One read and the loop after it: terminates, and delivers, drops and keeps exactly what deframing the queue with the new bytes does |
| `Deframer.Receiver.Loop` | device_test/testCase/UdpDevice_test.cpp:50-126 | With frames of at most 2049 bytes and a header of at most 2048 the 4096-byte queue has room for every 2048-byte read, and the frames delivered are those of the whole stream |
| `FrameGenerator.FillCheckSum` | protocal_test/generate_data.cpp:37-46 | Appends the 16-bit sum of the bytes before it, high byte first, and touches nothing else |
| `FrameGenerator.BuildFrame` | protocal_test/generate_data.cpp:59-80 | The writes at the moving index build the 30-byte frame: magic, length, sequence number, payload, fixed bytes, checksum |
| `FrameGenerator.Generate` | protocal_test/generate_data.cpp:57-87 | The loop builds a frame for each payload, the sequence number counting on and wrapping at 2^16 |
| `FrameGenerator.FrameRecognised` | protocal_test/generate_data.cpp:61-80 | Every generated frame passes the header, length and checksum tests of a receiver for its layout |
| `FrameGenerator.GeneratedFramesArrive` | protocal_test/generate_data.cpp:57-87 | Any list of generated frames, cut into pieces anywhere, comes out of an empty receiver frame by frame, once each, in order, nothing dropped and nothing kept |
| `FrameGenerator.NoisyFramesArrive` | device_test/testCase/UdpDevice_test.cpp:76-126 | Resynchronisation: noise before and between generated frames is dropped byte by byte, and every frame is delivered once, in order, nothing kept, in whatever pieces the bytes arrive; wherever f8 f4 f2 11 occurs in the noise the length behind it must be out of limits, or end within the noise with a bad checksum |
| `FrameGenerator.FramesArriveAfterNoise` | device_test/testCase/spi_test.cpp:62-114 | The same for a receiver that joins late: noise, then a non-empty run of frames |
| `FrameGenerator.MagicWithinNoise` | device_test/testCase/UdpDevice_test.cpp:84-89 | A header seen in the noise lies in the noise: none runs on across its end into the frame that follows |
| `FrameGenerator.CorruptedIsHarmless` | device_test/testCase/UdpDevice_test.cpp:109-121 | A frame whose checksum fails and in which no other begins is harmless noise |
| `FrameGenerator.OneByteIsNoticed` | protocal_test/generate_data.cpp:37-46 | A change of any one byte of a frame behind its length field makes the checksum fail |
| `FrameGenerator.DamagedFrameCostsNoOther` | device_test/testCase/UdpDevice_test.cpp:109-121 | A generated frame damaged in one byte behind its length field, with no other beginning in it, is dropped byte by byte, and every good frame after it is delivered |
| `FrameGenerator.FrameBytes` | protocal_test/generate_data.cpp:59-80 | The frame byte by byte: f8 f4 f2 11, length 30, sequence number high byte first, payload, fixed bytes, sum of the first 28 |
| `FrameGenerator.Frames16At` | protocal_test/generate_data.cpp:57-87 | The i-th frame carries the i-th payload and the first sequence number plus i, modulo 2^16 |
| `FrameGenerator.Sum16Append` | protocal_test/generate_data.cpp:37-46 | The sum of two pieces is the sum of their sums, modulo 2^16 |
| `RingSpec.RunRefines` | Utility/AQueue.h:133-254 | Over every run of `push_back`, `push_front`, `pop_front`, `pop_back`, `clear` and `resize`, on any capacity, the ring shows the elements of a bounded deque, provided each `pop_back` finds an empty queue, a tail other than 2^32 - 1, or a capacity that divides 2^32 |
| `RingSpec.InStepExactly` | Utility/AQueue.h:133-254 | That guard is what it takes: the indices stay in step through the whole run if and only if every `pop_back` in it meets the guard |
| `RingSpec.RunRefinesOnDividing` | Utility/AQueue.h:243-254 | On capacities that divide 2^32 runs may remove at the back at any time |
| `RingSpec.DequeMeaning` | Utility/AQueue.h:133-254 | What the deque does: the newest elements that fit, one more in front if there is room, the two ends taken off |
| `RingSpec.KeepsNewest` | Utility/AQueue.h:180-204 | After any pushes at the back of an empty ring it holds the newest of them that fit, in order |
| `RingSpec.Acts` | Utility/AQueue.h:133-234 | Each operation but `pop_back` takes a ring in step to one in step that shows what the operation makes of the deque |
| `RingSpec.PushBackRefines` | Utility/AQueue.h:180-204 | Appends, dropping the oldest element when full; keeps the index invariant, from a tail of 2^32 - 1 too |
| `RingSpec.PushFrontRefines` | Utility/AQueue.h:215-234 | Prepends, and is refused when full |
| `RingSpec.PopFrontRefines` | Utility/AQueue.h:133-142 | Removes the first element; nothing on an empty queue |
| `RingSpec.PopBackRefines` | Utility/AQueue.h:243-254 | Always leaves the right elements readable |
| `RingSpec.PopBackKeepsStep` | Utility/AQueue.h:243-254 | Keeps the tail in step with head and size if and only if the queue was empty, the tail was not 2^32 - 1, or the capacity divides 2^32 |
| `RingSpec.AlwaysFaithfulExactly` | Utility/AQueue.h:197-254 | With `pop_back` included every run without `resize` behaves as the deque if and only if the capacity divides 2^32 |
| `RingSpec.MisplacedPush` | Utility/AQueue.h:197-254 | For any other capacity five operations (push back, push front, pop back twice, push back) leave the wrong element readable |
| `RingSpec.BackIsLast` | Utility/AQueue.h:155-164 | With indices in step and the tail in range, the slot at the tail holds the last element |
| `RingSpec.BackIsLastAfterRun` | Utility/AQueue.h:155-204 | After any guarded run with a `push_back` since the last reset, and no `pop_back` after it that took the tail below slot 0, `back()` is the last element of a non-empty queue |
| `RingSpec.BlockOfElements` | Utility/AQueue.h:395-416 | A block started at the slot of the k-th element holds the elements k to k + len |
| `AQueue.AQueue.PushBack` | Utility/AQueue.h:180-204 | A queue with its indices in step appends the element, losing the oldest when full, and stays in step; returns 1 when an element was lost, 0 otherwise, -1 without a buffer; all fields follow the 32-bit arithmetic |
| `AQueue.AQueue.PushFront` | Utility/AQueue.h:215-234 | A queue in step prepends the element and stays in step; when full it returns 1 and changes nothing; -1 without a buffer |
| `AQueue.AQueue.PopFront` | Utility/AQueue.h:133-142 | A queue in step loses its first element and stays in step; an empty one is unchanged |
| `AQueue.AQueue.PopBack` | Utility/AQueue.h:243-254 | The last element is gone from what can be read, and the tail underflows as an unsigned number |
| `AQueue.AQueue.Clear` | Utility/AQueue.h:369-374 | An empty queue with the same buffer |
| `AQueue.AQueue.Resize` | Utility/AQueue.h:328-357 | Refuses capacity 0 and changes nothing; otherwise a new, empty buffer of the new capacity |
| `AQueue.AQueue.Front` | Utility/AQueue.h:112-121 | The first element, or the error value |
| `AQueue.AQueue.Back` | Utility/AQueue.h:155-164 | The last element when the indices are in step, or the error value |
| `AQueue.AQueue.Read` | Utility/AQueue.h:430-441 | For an index below the size the element at that place of the deque; from there up to the capacity the stale slot (head + index) mod capacity; the error value beyond or when empty |
| `AQueue.AQueue.ReadBlock` | Utility/AQueue.h:395-416 | One or two copies give slot (start + i) mod capacity at place i, and leave the rest of the destination alone |
| `AQueue.AQueue.Assign` | Utility/AQueue.h:476-495 | Copies another queue of the same capacity, and does nothing for itself or another capacity |
| `FieldExtraction.DistillString` | Utility/Misc.cpp:99-141 | For a non-empty separator succeeds exactly if the field exists and the fields and separators before it do not use up the source, and gives that field of the leftmost split; on failure the destination is as before; an empty separator gives an empty field |
| `FieldExtraction.SplitIsLeftmost` | Utility/Misc.cpp:99-141 | The split the extraction follows joins back to the source and each field ends at the first separator after its start |
| `FieldExtraction.LeftmostSplitIsUnique` | Utility/Misc.cpp:99-141 | No other list of fields does both |
| `FieldExtraction.ObtainableExactly` | Utility/Misc.cpp:99-141 | A field can be extracted exactly if it exists and the fields and separators before it do not use up the source |
| `FieldExtraction.ObtainableJoin` | Utility/Misc.cpp:118-122 | The obtainable fields joined give the source back, up to one trailing separator behind which the empty field cannot be reached |
| `FieldExtraction.ReplaceChar` | Utility/Misc.cpp:70-84 | Replaces every occurrence and nothing else |
| `FieldExtraction.ReplaceEndsExactly` | Utility/Misc.cpp:75-83 | The replacement loop comes to an end if and only if the two characters differ or there is nothing to replace |

## Left out

- InteractionMessage.Interaction.MergePartialFromCodedStream: returns false at a zero tag, where the source stops with success and leaves it to its caller to find that input is left, and at a group, where the source ends or skips it; after a failure only the representation invariant is stated, not which members had already been set.
- TerminalInfo.TerminalInfo.MergePartialFromCodedStream: returns false at a zero tag, where the source stops with success and leaves it to its caller to find that input is left, and at a group, where the source ends or skips it; after a failure only the representation invariant is stated, not which members had already been set.
- BaseStationInfo.BaseStationInfo.MergePartialFromCodedStream: returns false at a zero tag, where the source stops with success and leaves it to its caller to find that input is left, and at a group, where the source ends or skips it; after a failure only the representation invariant is stated, not which members had already been set.
- CommandInfo.CommandInfo.MergePartialFromCodedStream: returns false at a zero tag, where the source stops with success and leaves it to its caller to find that input is left, and at a group, where the source ends or skips it; after a failure only the representation invariant is stated, not which members had already been set.
- InteractionMessage.Interaction.MergeField: a start-group tag is refused, where the source skips the group into the unknown fields.
- InteractionMessage.Interaction.ParseFromString: inputs that hold groups are refused, where the library skips them.
- InteractionMessage.Interaction.ByteSizeLong: sizes are not reduced modulo the width of `size_t` or of the cached `int`.
- InteractionMessage.Interaction.SerializeWithCachedSizes: the output is a value, not a buffer that is written in place.
- UuidGenerator.Generator.GetClock: the readings are a given list; a call that would retry for ever shows as running out of readings.
- AQueue.AQueue.Resize: capacities above 2^31, where index sums wrap, are excluded.
- AQueue.AQueue.Back: the value is stated only while the tail is inside the buffer; the source reads outside it otherwise.
- AQueue.AQueue.ReadBlock: a start or length above the capacity, where the source copies out of bounds, is excluded.
- AQueue.AQueue.Assign: the two queues do not share a buffer.
- FieldExtraction.ReplaceChar: covers the calls that end; `FieldExtraction.ReplaceEndsExactly` says which they are.
- Deframer.Receiver.Feed: the queue must have room for the read; `CircularBuffer`'s behaviour on overflow is not part of this model.
- FrameGenerator.BuildFrame: the read from the random device delivers all fourteen bytes.
- Wire groups (wire types 3 and 4): refused rather than skipped; recursion limits and stream buffering are library behaviour.
- Field number 0 and length prefixes of 2^31 or more: refused, as the library does.
- Descriptors, reflection, arenas, `Swap`, move constructors, default instances, UTF-8 checks and the array form of the serializer: library glue around the modelled methods.
- The release, set-allocated and clear accessors of the string and scalar members of the submessage classes, and the accessors that hand out a whole list or a pointer to a string: callers change those objects without the message's methods.
- Reuse of cleared list elements inside `RepeatedPtrField`: lists are emptied and grow by new elements.
- `MergeFrom` of `interaction`, of `BaseStationInfo` and of the two command classes sets the presence bits of scalar members together at the end of the group; the model sets each with its member.
- `get_random_bytes`, `get_node_id` and the choice in `uuid_generate`: random bytes and the hardware address are parameters.
- `isxdigit` and `strtoul` in other locales: the C locale is modelled.
- Allocation failure in `AQueue`, its destructor, and the two-argument `read`, which calls an undeclared function.
- Sequence-gap reports and printing in the receivers: they depend on classes that are not part of this model.
- The other helpers of `Utility/Misc.cpp`, and the device, socket, file and keyboard code: floating point, system calls or plumbing.
