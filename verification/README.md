# Metric messages and command line of the AI server, modelled in Dafny

The generated Protocol Buffers classes of the repository's metric packages parse, print, size, merge,
clear, copy and swap their messages field by field, in place, with has-bits, a oneof, lazily created
sub-messages and cached sizes. This project models that code and proves what it is for: that printer and
parser undo each other, that concatenating bytes is merging messages, that the two-pass size protocol
writes correct length prefixes at every depth, that nothing on the wire is lost, and that objects own and
free their parts exactly once. A second part models the hand-written command-line parser.

How the project is built:

- `Wire`, `Utf8`, `Message` say what a byte string, a record and a message are. A *schema* lists the
  fields a class switches on (number, kind, presence, oneof membership), and parsing, printing, sizing and
  merging are functions of a schema. Doubles and integers are kept as the bit pattern that travels. Unknown
  fields are records in order.
- `Literals` and `Unicode` say what stands in each byte: varint groups, octets, tags, map entries, characters.
- `RoundTrip`, `Streaming`, `FieldOrder`, `MergeAlgebra`, `Canonical`, `Sizes`, `TwoPass` prove the laws of
  the wire format for **every** schema, so they hold for each generated class and at every nesting depth.
- `Schemas` holds the tables of the generated classes and what only MetricPoint or the episode facts need;
  `Tables` follows the classes that are tables only tag by tag.
- `Runtime` has the readers and writers the generated code calls at a buffer position, and connects one trip
  round a parse loop, one printed field and one size term to the schema-level functions.
- `Counts`, `Points`, `EpisodeFacts`, `Episodes`, `Transport`, `Batches` are the classes: objects with the source's
  fields whose methods update them in place, loop over buffers, gather has-bits in a local word and store
  cached sizes. `Oneof`, `PointState`, `FactState`, `BatchState`, `Memory` say what their raw fields mean.
- `PointBytes`, `Ends` and `BatchEnds` put size pass, print pass and parser of objects together; `Lives` follows
  two points that hand sub-objects to one another through any sequence of calls, and accounts for every one.
- `CommandLine` is the parser of `main/main.cpp`.

A has-bits word is modelled as the set of the masks that are on in it; a range of trivially copyable
fields as an array of cells in the declared order, one field a cell. The wire rules are those of the
Protocol Buffers Encoding specification ("Base 128 Varints", "Message Structure", "Length-Delimited
Records", "Last One Wins", "Maps", "Field Order"), UTF-8 validity is that of section 4 of RFC 3629, and the
limits (ten-byte varints, five-byte tags and length prefixes, sizes up to 0x7FFFFFEF) are those of the
runtime library the generated code links against.

Where the code and its messages disagree the model follows the code: a `--evaluation-model` without a
value is reported as a duplicate, and a missing value of three other flags as a malformed one.

## Model

| member | source | states |
|---|---|---|
| Wire.VarintRoundTrip | proto/metrics/registry.pb.cc:1624-1630 | Base 128 varints: what the writer emits for any number, followed by anything, reads back as that number and consumes exactly its bytes |
| Literals.VarintByte | proto/maze/metrics.pb.cc:521-527 | Byte i of a printed varint carries bits 7i to 7i + 6 of the number, and every byte but the last the continuation bit |
| Literals.VarintLength | proto/maze/metrics.pb.cc:655-690 | A varint has as many bytes as its number has groups of seven bits |
| Literals.ReadVarintExactly | proto/maze/metrics.pb.cc:358-365 | A varint is read exactly when its last byte lies within the limit; the value is the sum of its seven-bit groups times powers of 128 |
| Literals.VarintExample | proto/maze/metrics.pb.cc:358-365 | 300 is AC 02 on the wire, both ways |
| Literals.FixedByte | proto/metrics/registry.pb.cc:1710-1714 | Byte i of a printed double carries bits 8i to 8i + 7 of its pattern |
| Literals.FixedValueIsOctets | proto/metrics/registry.pb.cc:1615-1622 | The pattern read from eight bytes is the sum of the bytes times powers of 256 |
| Literals.DoubleExample | proto/metrics/registry.pb.cc:1615-1622 | 1.0 is 00 00 00 00 00 00 F0 3F on the wire, both ways |
| Literals.RecordBytes | proto/metrics/registry.pb.cc:1694-1777 | A record is printed as eight times its number plus 0, 1, 2 or 5, and its varint, eight or four octets, or length and content |
| Literals.StartIsRead | proto/metrics/registry.pb.cc:1601-1682 | Bytes of that form, padded varints included, are read as that record |
| Literals.ReadIsStart | proto/metrics/registry.pb.cc:1601-1682 | Every record that is read has that form |
| Literals.EntryIsText | proto/metrics/registry.pb.cc:1746-1757 | A printed map entry is 10, length, key, 18, length, value |
| Literals.EntryExactly | proto/metrics/registry.pb.cc:1639-1651 | An entry is accepted exactly when it is whole records whose texts numbered 1 and 2 are valid; the key is the last content numbered 1, the value the last numbered 2, each empty when there is none |
| Literals.EntriesBytes | proto/metrics/registry.pb.cc:1746-1757 | Printed entries are, one after the other, the field's tag, the length and the text of each |
| Unicode.CharIsScalar | proto/maze/metrics.pb.cc:374-382 | A character the check accepts is the encoding of a Unicode scalar value |
| Unicode.ValidExactly | proto/maze/metrics.pb.cc:374-382 | Bytes pass the check if and only if they are encodings of scalar values, one after the other |
| Wire.VarintMinimal | proto/maze/metrics.pb.cc:343-349 | An over-long varint is accepted, and writing the value again takes no more bytes than were read |
| Wire.RecordRoundTrip | proto/metrics/registry.pb.cc:1601-1682 | Any tag-and-payload record printed before any bytes is read back as itself, and reading stops right behind it |
| Wire.RecordLocal | proto/metrics/registry.pb.cc:1601-1683 | What a record is depends only on its own bytes: the reader never looks past the end it reports |
| Wire.ReadRecordSound | proto/metrics/registry.pb.cc:1673-1683 | Every record read from the wire is legal (field number in range, payload within the width of its wire type) and prints in at most the bytes it was read from |
| Wire.EncodeRecordsConcat | proto/metrics/registry.pb.cc:1694-1777 | Printing a list of records is printing its parts one after the other |
| Message.PutSlot | proto/metrics/registry.pb.h:1909-1915 | Storing a field changes that field only, except that storing one oneof alternative empties the others |
| Message.SameSlots | proto/metrics/registry.pb.cc:1694-1777 | Two messages that print the same fields and unknown records are the same message: absence is the only difference between an implicit default and nothing |
| RoundTrip.ParseRecords | proto/metrics/registry.pb.cc:1598-1692 | The byte loop and the record-by-record fold agree: parsing printed records, then more bytes, is folding the records and parsing on from there |
| RoundTrip.FoldIsMerge | proto/metrics/registry.pb.cc:1598-1692 | For every class: folding the records of b into a gives what MergeFrom(b) gives, although the parser visits wire order and the merger visits declared fields |
| RoundTrip.ConcatenationIsMerge | proto/maze/metrics.pb.cc:723-783 | Last One Wins: parsing serialize(a) ++ serialize(b) yields exactly MergeFrom(a, b), for every schema, oneof switches, sub-messages, repeated fields, maps and unknown fields included |
| RoundTrip.RoundTrips | proto/metrics/registry.pb.cc:1694-1777 | parse(serialize(m)) == m for every legal message of every schema: absent and present-zero, unset oneof and scalar 0.0, and every double bit pattern stay apart |
| RoundTrip.ParseThrough | proto/metrics/registry.pb.cc:1598-1692 | Parsing a printed message onto any message, with more input behind it, is merging it in and going on |
| RoundTrip.MergeEmptyLeft | proto/maze/metrics.pb.cc:785-790 | The default message is a left unit of merge: CopyFrom, which clears and merges, copies |
| RoundTrip.MergeEmptyRight | proto/maze/metrics.pb.cc:723-783 | Merging a default message changes nothing |
| RoundTrip.EntryRoundTrip | proto/metrics/registry.pb.cc:1746-1757 | A printed map entry reads back as its key and value, whatever they are |
| RoundTrip.DuplicateKey | proto/metrics/registry.pb.cc:1639-1651 | Maps: of two entries for one key on the wire the later decides, as if the earlier had not been there |
| RoundTrip.FoldEntries | proto/metrics/registry.pb.cc:1639-1651 | The entries of a map, printed in any order, are folded into exactly the right operand's map over the left one |
| Streaming.ParseIsFold | proto/metrics/registry.pb.cc:2022-2088 | A parse ends at its limit exactly when the input splits into whole records that are all accepted, never at a zero or end-group tag; the message is then the fold of those records |
| Streaming.Resume | proto/metrics/registry.pb.cc:1601-1691 | If x parses to its end, parsing x ++ y into m is parsing y into the result of parsing x into m |
| Streaming.Truncation | proto/maze/metrics.pb.cc:338-496 | Any prefix of an accepted input is accepted if and only if the cut is a top-level record boundary, and fails otherwise |
| Streaming.PrintedTruncation | proto/maze/metrics.pb.cc:338-496 | A strict prefix of a serialized message parses to its end exactly when it is cut at the end of one of its top-level records |
| FieldOrder.Commutes | proto/metrics/registry.pb.cc:1598-1692 | Two adjacent records may change places, result and failure included, unless they share a field number, both belong to the oneof, or both are unknown |
| FieldOrder.OrderIndependence | proto/maze/metrics.pb.cc:335-497 | Any reordering of the records that keeps, for each field, for the oneof and for unknown records, their relative order, gives the same message or the same failure |
| FieldOrder.ReorderedInput | proto/maze/metrics.pb.cc:335-497 | The same at byte level: reordering the records of an input does not change whether it is accepted nor the message |
| FieldOrder.FieldIsFoldOfItsRecords | proto/metrics/registry.pb.cc:1598-1692 | After accepted records a field outside the oneof holds what its own records make of it, in order, and no other record has touched it |
| FieldOrder.LastOneWins | proto/maze/metrics.pb.cc:341-475 | Last One Wins: a number, string or bytes field holds the last value sent, cut to its width; never sent, it is unchanged |
| FieldOrder.SubFold | proto/metrics/transport.pb.cc:1221-1228 | A sub-message sent in parts holds what one record with the parts concatenated would give |
| FieldOrder.OneofIsLastRun | proto/metrics/registry.pb.cc:1615-1638 | A oneof alternative holds what its own records behind the last record of any other alternative make of it, starting from what was there only when there is no such record |
| FieldOrder.OneofShowsLast | proto/metrics/registry.pb.cc:1554-1576 | After accepted records of a oneof the alternative of the last one is present and every other is absent, whatever was there before |
| FieldOrder.OneofHoldsLast | proto/metrics/registry.pb.cc:1615-1630 | A number or string alternative holds the last value sent |
| FieldOrder.OneofMergesLastRun | proto/metrics/registry.pb.cc:1631-1638 | A sub-message alternative is parsed from its last run of records as from one piece |
| FieldOrder.AcceptedByEveryField | proto/metrics/registry.pb.cc:1598-1692 | A list of records is accepted exactly when every field accepts its own records, or those of its oneof |
| Schemas.PointValue | proto/metrics/registry.pb.cc:1615-1638 | What accepted records leave in fields 2, 3 and 4 of a point: the last alternative alone; the last number, or the sum_count parsed from the records behind the last number |
| FieldOrder.NothingDropped | proto/metrics/transport.pb.cc:535-585 | The unknown records of the result are the old ones followed by every record no case took, in order, wrong wire types and retired numbers included |
| Schemas.OneofOrderMatters | proto/metrics/registry.pb.cc:1615-1630 | A concrete pair of oneof records whose order shows, so the exception is needed |
| MergeAlgebra.MergeLegal | proto/metrics/registry.pb.cc:1848-1889 | Merging legal messages gives a legal one: two alternatives of a oneof never meet |
| MergeAlgebra.Associative | proto/maze/metrics.pb.cc:723-783 | MergeFrom is associative for every class with no oneof in itself or its singular sub-messages |
| MergeAlgebra.AssociativeExactly | proto/metrics/registry.pb.cc:1870-1887 | With a oneof, both groupings agree if and only if no oneof message held by the outer operands and displaced by the middle one would have contributed something |
| Schemas.PointMergeExactly | proto/metrics/registry.pb.cc:1870-1887 | MetricPoint merges of three agree if and only if it is not the case that the first has sum_count, the middle scalar or unsigned_value, the last sum_count, and the first holds a field or unknown record the last does not cover |
| Schemas.PointMergeCounterexample | proto/metrics/registry.pb.h:2023-2030 | A concrete triple of points on which the two groupings differ |
| Canonical.ParseLegal | proto/maze/metrics.pb.cc:335-497 | Whatever was parsed, even when a tag stopped the loop, is a legal message |
| Canonical.Reencoding | proto/maze/metrics.pb.cc:499-615 | For every accepted input, the re-encoding parses to the same message and is a fixed point of re-encoding |
| Canonical.UnknownSurvives | proto/metrics/transport.pb.cc:626-629 | Over any number of parse-and-serialize hops the message and its unknown records stay the same, the unknown ones printed in order behind all known fields |
| Canonical.NeverGrows | proto/maze/metrics.pb.cc:335-714 | For every class without maps, int32 and enum fields, re-encoding an accepted input never takes more bytes, over-long varints, repeated singular fields, truncated values and odd booleans notwithstanding |
| Canonical.Grows | proto/metrics/transport.pb.cc:1867-1882 | For every class with a map, int32 or enum field at any depth of nesting there is a small accepted input whose re-encoding is longer |
| Canonical.GrowsOutside | proto/metrics/transport.pb.cc:1184-1196 | A growing input of a nested class, sent as one record, makes the outer class grow |
| Canonical.NeverLongerExactly | proto/maze/metrics.pb.cc:335-714 | Re-encoding never takes more bytes, on any accepted input, if and only if no map, int32 or enum field occurs in the class or below it |
| Schemas.WhichTablesGrow | proto/metrics/transport.pb.cc:634-667 | Applied to every table: both facts, both sum-counts and the gap never grow; definitions, points, registered records, events, batches (through their events) and requests each accept an input that does |
| Schemas.EpisodeFactReencoding | proto/maze/metrics.pb.cc:918-1052 | For episode facts, three levels deep: re-encoding is canonical and at most as long as the input |
| Sizes.VarintSize | proto/maze/metrics.pb.cc:655-690 | The size pass counts seven-bit groups from the highest bit without writing anything, and that is the length the writer emits |
| Sizes.EncodedLength | proto/maze/metrics.pb.cc:617-714 | The size pass, which never looks at the printing order, predicts the length of every printer output exactly |
| Sizes.EntriesInAnyOrder | proto/metrics/registry.pb.cc:1787-1794 | A map's entries add up to the same size in whatever order they are visited |
| Sizes.AnyEnumeration | proto/metrics/registry.pb.cc:1729-1757 | Every enumeration of a map's keys is what some order of visiting makes of it, so results about all orders leave none out and are not about nothing |
| Sizes.EnumeratesExactly | proto/metrics/registry.pb.cc:1729-1757 | An enumeration lists exactly the keys of the map, each once |
| Sizes.MapOrderIrrelevant | proto/metrics/registry.pb.cc:1729-1757 | Sorted and hash-order serializations have the same length, that of ByteSizeLong, and parse to the same message |
| TwoPass.SizePassExact | proto/metrics/transport.pb.cc:1330-1395 | The size pass leaves in every nested object, at every depth, that object's encoded length |
| TwoPass.PrintsExactly | proto/metrics/transport.pb.cc:1252-1328 | The printer, which copies cached sizes into length prefixes, emits the encoding if and only if every cached size at every depth is right: one stale size anywhere spoils the bytes |
| TwoPass.TwoPasses | proto/metrics/registry.pb.cc:2090-2182 | Size pass, then print pass: exactly the announced number of bytes, and they parse back to the message |
| Schemas.TablesAreLegal | proto/metrics/transport.pb.cc:1138-1250 | The field tables of all twelve classes are legal class descriptions, so the results above hold for each of them, whatever the schema of ServiceInstanceIdentity |
| Schemas.EpisodeFactTable | proto/maze/metrics.pb.cc:918-978 | EpisodeMetricFact and everything nested in it is oneof-free and has no field kind that can grow on re-encoding |
| Schemas.RegisteredTable | proto/metrics/registry.pb.cc:2022-2088 | RegisteredMetricRecord is legal and oneof-free, and its map keeps it out of NeverGrows |
| Tables.DefinitionTexts | proto/metrics/registry.pb.cc:794-887 | MetricDefinition: tags 10, 18, 26, 34, 58, 66 and 74 store fields 1, 2, 3, 4, 7, 8 and 9, each replacing what was there, empty text meaning absent |
| Tables.DefinitionEnums | proto/metrics/registry.pb.cc:834-850 | Tags 40 and 48 store the signed value of the low 32 bits in fields 5 and 6 |
| Tables.DefinitionOthers | proto/metrics/registry.pb.cc:884-900 | Every other record is kept as unknown |
| Tables.RegisteredDefinition | proto/metrics/registry.pb.cc:2028-2040 | Tag 10 appends to field 1 what the definition parser makes of the content, or fails with it |
| Tables.RegisteredPoint | proto/metrics/registry.pb.cc:2041-2053 | Tag 18 appends to field 2 what the point parser makes of the content, or fails with it |
| Tables.RegisteredAttribute | proto/metrics/registry.pb.cc:2054-2066 | Tag 26 maps the text behind 10 in the entry to the text behind 18 |
| Tables.RegisteredOthers | proto/metrics/registry.pb.cc:2067-2085 | Every other record is kept as unknown |
| Tables.RegisteredBoth | proto/metrics/registry.pb.cc:2022-2088 | A printed definition behind tag 10 and a printed point behind tag 18 are read as exactly these two |
| Tables.CursorNumbers | proto/metrics/transport.pb.cc:1562-1606 | MetricBatchCursor: tags 16 and 24 store fields 2 and 3 |
| Tables.CursorIdentity | proto/metrics/transport.pb.cc:1562-1606 | Tag 10 parses onto the identity held |
| Tables.RequestNumbers | proto/metrics/transport.pb.cc:1837-1904 | GetMetricBatchReq: tag 32 keeps 32 bits, tag 40 all 64, tag 48 the signed value of 32 bits |
| Tables.RequestNested | proto/metrics/transport.pb.cc:1837-1904 | Tag 18 parses onto the identity held, tag 26 onto the cursor held |
| Schemas.RequestTable | proto/metrics/transport.pb.cc:1837-1904 | GetMetricBatchReq with its cursor is a legal class; its int32 field keeps it out of NeverGrows |
| Runtime.TwosComplement | proto/metrics/transport.pb.cc:1867-1882 | Every cast of an integer changes it by a multiple of 2^64 or of 2^32 only, and sign extension keeps the signed value |
| Runtime.SignedRoundTrip | proto/metrics/transport.pb.cc:1932-1987 | Every int32, int64 and enum value, negative or unlisted, reads back through a 32-bit or 64-bit varint plus cast; a negative one takes ten bytes in the size pass as on the wire |
| Runtime.StepUnknown | proto/maze/metrics.pb.cc:478-489 | A tag no case takes: the record is kept, legal, at the end of the unknown set, or the whole parse fails |
| Runtime.ExpectTag | proto/metrics/registry.pb.cc:1648 | The one-byte peek of the fast path recognises exactly the tag the full tag reader would return |
| Runtime.PrintIsPrinted | proto/maze/metrics.pb.cc:499-615 | Printing field by field in ascending order and the unknown set last is what the print pass emits |
| TwoPass.LeafPrint | proto/metrics/registry.pb.cc:1290-1318 | A class in which none nests prints its encoding whatever was cached |
| Runtime.EntryBytes | proto/metrics/registry.pb.cc:1746-1757 | The entry writer, which computes its length on the spot, prints the entry's record |
| Runtime.BuildMerge | proto/maze/metrics.pb.cc:723-783 | Merging field by field is merging the messages |
| Counts.RawMetricSumCount.InternalParse | proto/metrics/registry.pb.cc:417-470 | Agrees with the schema-level parse on every input and limit: same failure, same stopping tag, same message |
| Counts.RawMetricSumCount.ByteSizeLong | proto/metrics/registry.pb.cc:512-543 | Returns and caches the encoded length |
| Counts.RawMetricSumCount.InternalSerialize | proto/metrics/registry.pb.cc:472-510 | Appends exactly the encoding |
| Counts.RawMetricSumCount.MergeFrom | proto/metrics/registry.pb.cc:551-573 | Leaves the merge of the two messages |
| Counts.RawMetricSumCount.CopyFrom | proto/metrics/registry.pb.cc:575-580 | Leaves a copy, itself included |
| Counts.RawMetricSumCount.Legal | proto/metrics/registry.pb.cc:417-470 | What an object with valid strings holds is a legal message |
| Counts.MetricSumCount.InternalParse | proto/metrics/registry.pb.cc:1245-1288 | Agrees with the schema-level parse on every input and limit |
| Counts.MetricSumCount.ByteSizeLong | proto/metrics/registry.pb.cc:1320-1345 | Returns and caches the encoded length; doubles are compared by raw bits, so -0.0 is written |
| Counts.MetricSumCount.InternalSerialize | proto/metrics/registry.pb.cc:1290-1318 | Appends exactly the encoding |
| Counts.MetricSumCount.MergeFrom | proto/metrics/registry.pb.cc:1352-1371 | Leaves the merge of the two messages |
| Counts.MetricSumCount.CopiedByMerging | proto/metrics/registry.pb.cc:1373-1378 | Merging into an empty object copies |
| Oneof.StepKeeps | proto/metrics/registry.pb.h:1887-2035 | Every operation keeps the invariant: the case says what the union's bytes are, acquisitions balance releases, deletions and the held object, nothing is deleted twice or held after deletion |
| Oneof.AdoptExactly | proto/metrics/registry.pb.cc:1433-1447 | set_allocated_sum_count with a live object keeps the invariant if and only if it is not the object already held |
| Oneof.RunReports | proto/metrics/registry.pb.h:1887-2035 | After any run of operations the getters report the one value the run asked for last, or nothing, although the union's bytes outlive their case |
| Oneof.OwnedWhenReported | proto/metrics/registry.pb.cc:1554-1576 | A MetricSumCount is owned exactly when the case is kSumCount, and it is the one reported |
| Oneof.ExactlyOnce | proto/metrics/registry.pb.cc:1554-1576 | For every legal run of operations from construction, ended by the destructor: every object created or adopted is released or deleted as often as acquired and deleted at most once; acquired once means exactly one of the two, once |
| Oneof.LivedStep | proto/metrics/registry.pb.h:1887-2035 | What a holder answers for stays what its whole history of legal steps says |
| Oneof.Settled | proto/metrics/registry.pb.cc:1536-1545 | When the oneof is cleared for good nothing acquired is left, and nothing was deleted twice |
| PointState.PutField | proto/metrics/registry.pb.cc:1598-1692 | Storing a field of the object is storing it in the message, the oneof's other alternatives emptied |
| PointState.MergePointsIsMerge | proto/metrics/registry.pb.cc:1848-1889 | The field-by-field merge of the raw state, guarded has-bits and oneof switch included, is the merge of the messages |
| PointState.MergePointsValid | proto/metrics/registry.pb.cc:1848-1889 | Merging keeps the has-bit invariant |
| PointState.IntervalSlots | proto/metrics/registry.pb.h:2067-2120 | Setting and clearing an optional changes its slot alone; a present zero is not absence, and clearing undoes setting |
| PointState.LegalPoint | proto/metrics/registry.pb.cc:1598-1692 | A point with valid strings stands for a legal message |
| PointState.SizeOfPoint | proto/metrics/registry.pb.cc:1779-1840 | The encoded length regrouped in the order of the size pass: map, string, optionals, oneof last |
| Points.MetricPoint.SetScalar | proto/metrics/registry.pb.h:1909-1923 | Switches the oneof as the state machine does, deleting a held object |
| Points.MetricPoint.SetUnsigned | proto/metrics/registry.pb.h:1947-1961 | Switches the oneof as the state machine does, deleting a held object |
| Points.MetricPoint.MutableSumCount | proto/metrics/registry.pb.h:2023-2035 | The held object, or a fresh empty one that replaces what was there |
| Points.MetricPoint.ReleaseSumCount | proto/metrics/registry.pb.h:1981-1994 | Hands over the held object, or null when the oneof holds something else |
| Points.MetricPoint.SetAllocatedSumCount | proto/metrics/registry.pb.cc:1433-1447 | Adopts the object given, or clears the oneof on null |
| Points.MetricPoint.ClearScalar | proto/metrics/registry.pb.h:1897-1902 | Clears the oneof only when it holds the scalar |
| Points.MetricPoint.ClearUnsigned | proto/metrics/registry.pb.h:1935-1940 | Clears the oneof only when it holds the unsigned value |
| Points.MetricPoint.ClearSumCount | proto/metrics/registry.pb.h:1973-1980 | Deletes and clears only when the oneof holds the sum_count |
| Points.MetricPoint.ClearValue | proto/metrics/registry.pb.cc:1554-1576 | Deletes a held object and reports nothing afterwards |
| Points.MetricPoint.InternalParse | proto/metrics/registry.pb.cc:1598-1692 | Agrees with the schema-level parse on every input and limit; on every way out, failures included, the invariant holds, no has-bit is lost, and the oneof's history only grew by setting and creating, so no held object leaks |
| Points.MetricPoint.ParseAttributes | proto/metrics/registry.pb.cc:1639-1651 | The do/while over consecutive map entries gives the message, position and failure of going back to the switch for each entry; the map is the old one with, for each entry sent, its text numbered 1 mapped to its text numbered 2 |
| Points.MetricPoint.ParseSumCount | proto/metrics/registry.pb.cc:1631-1638 | Parses onto the held sub-object, or onto a new one, as the schema says; the history grows by the creation alone |
| Points.MetricPoint.ScalarCases | proto/metrics/registry.pb.cc:1615-1630 | Scalar and unsigned cases; a varint that cannot be read still switches the oneof, to zero, while a double that is cut off leaves it as it was |
| Points.MetricPoint.ByteSizeLong | proto/metrics/registry.pb.cc:1779-1840 | Returns and caches the encoded length, the map visited in any order, and leaves the nested cache right |
| Points.MetricPoint.CachedExactly | proto/metrics/registry.pb.cc:1826-1832 | The caches are right if and only if the sub-object carries its own encoded length |
| Points.MetricPoint.SerializeAttributes | proto/metrics/registry.pb.cc:1729-1757 | Appends for each key, in the order of the stream's mode, 42, the length, and 10, length, key, 18, length, value |
| Points.MetricPoint.InternalSerialize | proto/metrics/registry.pb.cc:1694-1777 | Appends what the print pass emits for the sizes cached at that moment, right or stale, in the map order the stream's mode selects |
| Points.MetricPoint.MergeFrom | proto/metrics/registry.pb.cc:1848-1889 | Leaves the merge, in the state and in the message; the oneof took at most the one step that the other's alternative asks for |
| Points.MetricPoint.Clear | proto/metrics/registry.pb.cc:1579-1596 | The guarded reset leaves the default message: the has-bit invariant makes skipping it harmless; a held object is deleted, and what was acquired, released and deleted before stays on record |
| Points.MetricPoint.CopyFrom | proto/metrics/registry.pb.cc:1891-1896 | Leaves the other's state, every field and presence; the oneof was cleared once and took at most one step more |
| Points.MetricPoint.Copy | proto/metrics/registry.pb.cc:1457-1503 | The copy constructor leaves the same state as CopyFrom, with a sub-object of its own |
| Points.MetricPoint.InternalSwap | proto/metrics/registry.pb.cc:1902-1921 | Exchanges the two states and, with union and case, what each object answers for and its history |
| Points.MetricPoint.Destroy | proto/metrics/registry.pb.cc:1536-1545 | The destructor: everything the oneof ever owned was released or deleted, nothing twice |
| Lives.Perform | proto/metrics/registry.pb.cc:1433-1921 | Whatever is done to one of two points (accessor, parse, merge, copy, clear, swap, handing an object over), both stay valid, share no object, and an object in the user's hands is alive and held by neither |
| Lives.Live | proto/metrics/registry.pb.cc:1433-1921 | Over any sequence of such calls from construction to destruction: every sub-object created or adopted by a point was handed over or deleted, and none was deleted twice, even if it was released by one point and adopted by the other |
| Points.MetricPoint.SetInterval | proto/metrics/registry.pb.h:2085-2120 | Stores the value with its has-bit, as the case of the parser does |
| Points.MetricPoint.ClearInterval | proto/metrics/registry.pb.h:2074-2105 | Zeroes the value and clears its has-bit, keeping the invariant |
| FactState.LayoutInjective | proto/maze/metrics.pb.h:390-408 | Every number has a position of its own and every optional number a bit of its own |
| FactState.PutNumber | proto/maze/metrics.pb.cc:340-415 | Storing a number and its has-bit is storing that field of the message and no other |
| FactState.StoreValid | proto/maze/metrics.pb.h:859-1019 | Storing keeps the has-bit invariant: a clear bit means a stored zero |
| FactState.UnstoreValid | proto/maze/metrics.pb.h:867-1011 | Clearing an optional field empties its slot alone and keeps the invariant |
| FactState.GuardedClearExactly | proto/maze/metrics.pb.cc:313-333 | The guarded memset restores zero everywhere if and only if some has-bit is on or the optional fields already held zero |
| FactState.ClearRestoresZero | proto/maze/metrics.pb.cc:313-333 | Under the has-bit invariant that is always so |
| FactState.MergeStatesIsMerge | proto/maze/metrics.pb.cc:723-783 | The field-by-field merge of the raw state is the merge of the messages |
| FactState.MergeStatesValid | proto/maze/metrics.pb.cc:723-783 | Merging keeps the representation invariant |
| FactState.MergedInOrder | proto/maze/metrics.pb.cc:735-781 | Numbers one by one, then the optional ones only if some bit is on, cover every plain field |
| FactState.MergeOntoEmpty | proto/maze/metrics.pb.cc:785-790 | Merging into a fresh object copies, presence included |
| FactState.SizeOfState | proto/maze/metrics.pb.cc:617-714 | The encoded length regrouped in the order the size pass visits memory |
| FactState.LegalState | proto/maze/metrics.pb.cc:335-497 | A fact with valid strings and legal elements stands for a legal message |
| EpisodeFacts.AgentEpisodeMetricFact.InternalParse | proto/maze/metrics.pb.cc:335-497 | Agrees with the schema-level parse on every input and limit; has-bits gathered in a local word are or-ed in on every way out, so none that was on goes off, and the invariant holds on each |
| EpisodeFacts.AgentEpisodeMetricFact.ParseComponents | proto/maze/metrics.pb.cc:416-428 | The do/while over consecutive elements gives the message, position and failure of going back to the switch for each element |
| EpisodeFacts.AgentEpisodeMetricFact.OptionalCase | proto/maze/metrics.pb.cc:429-474 | The has-bit of the tag's field is marked before the value is read; a failed read leaves the bit marked and zero stored under it |
| EpisodeFacts.AgentEpisodeMetricFact.ByteSizeLong | proto/maze/metrics.pb.cc:617-714 | Returns and caches the encoded length and leaves every nested cache right |
| EpisodeFacts.AgentEpisodeMetricFact.CachedExactly | proto/maze/metrics.pb.cc:567-573 | The caches are right if and only if every element carries its own encoded length |
| EpisodeFacts.AgentEpisodeMetricFact.InternalSerialize | proto/maze/metrics.pb.cc:499-615 | Appends what the print pass emits for the sizes cached at that moment, right or stale |
| EpisodeFacts.AgentEpisodeMetricFact.MergeFrom | proto/maze/metrics.pb.cc:723-783 | Leaves the merge, in the state and in the message, elements copied |
| EpisodeFacts.AgentEpisodeMetricFact.Clear | proto/maze/metrics.pb.cc:313-333 | Leaves the default message |
| EpisodeFacts.AgentEpisodeMetricFact.CopyFrom | proto/maze/metrics.pb.cc:785-790 | Leaves the other's state |
| EpisodeFacts.AgentEpisodeMetricFact.Copy | proto/maze/metrics.pb.cc:215-258 | The copy constructor with its memcpy leaves the same state as CopyFrom |
| EpisodeFacts.AgentEpisodeMetricFact.InternalSwap | proto/maze/metrics.pb.cc:796-817 | Exchanges the two states: the memswap range covers every plain field |
| EpisodeFacts.AgentEpisodeMetricFact.SetOptional | proto/maze/metrics.pb.h:878-1019 | Stores an optional number with its has-bit and nothing else |
| EpisodeFacts.AgentEpisodeMetricFact.ClearOptional | proto/maze/metrics.pb.h:867-1011 | Zeroes an optional number, clears its has-bit, and nothing else |
| Episodes.MergeEpisodesIsMerge | proto/maze/metrics.pb.cc:1061-1077 | Merging agents, strings and unknown records one by one is the merge of the two messages |
| Episodes.SizeOfEpisode | proto/maze/metrics.pb.cc:1022-1052 | The size pass counts agents first, the print pass writes them last: the sum is the encoded length all the same |
| Episodes.EpisodeLegal | proto/maze/metrics.pb.cc:918-978 | What an episode object holds is a legal message as soon as its strings, three levels deep, are valid UTF-8 |
| Episodes.EpisodeMetricFact.InternalParse | proto/maze/metrics.pb.cc:918-978 | Agrees with the schema-level parse on every input and limit, down to agents and their components |
| Episodes.EpisodeMetricFact.ParseAgents | proto/maze/metrics.pb.cc:945-956 | The do/while over consecutive agents gives the message, position and failure of going back to the switch for each agent |
| Episodes.EpisodeMetricFact.ByteSizeLong | proto/maze/metrics.pb.cc:1022-1052 | Returns and caches the encoded length and leaves the caches of every agent and every component right |
| Episodes.EpisodeMetricFact.CachedExactly | proto/maze/metrics.pb.cc:1031-1035 | The caches are right if and only if every agent carries its own encoded length and every component of it carries its own |
| Episodes.EpisodeMetricFact.MeasureAgent | proto/maze/metrics.pb.cc:1032-1035 | Sizing one agent spoils no size cached before, even if agents shared components |
| Episodes.EpisodeMetricFact.InternalSerialize | proto/maze/metrics.pb.cc:980-1020 | Appends what the print pass emits for the sizes cached at that moment, right or stale, at all three levels |
| Episodes.EpisodeMetricFact.MergeFrom | proto/maze/metrics.pb.cc:1061-1077 | Leaves the merge, in the state and in the message, agents copied deeply |
| Episodes.EpisodeMetricFact.Clear | proto/maze/metrics.pb.cc:906-916 | Leaves the default message |
| Episodes.EpisodeMetricFact.CopyFrom | proto/maze/metrics.pb.cc:1079-1084 | Leaves the other's state |
| Episodes.EpisodeMetricFact.Copy | proto/maze/metrics.pb.cc:837-864 | The copy constructor leaves the same state as CopyFrom |
| Episodes.EpisodeMetricFact.InternalSwap | proto/maze/metrics.pb.cc:1090-1104 | Exchanges the two states |
| Episodes.Serialize | proto/maze/metrics.pb.cc:980-1052 | Size pass then print pass on an untouched episode: the encoding, and exactly the cached number of bytes |
| Episodes.Transfer | proto/maze/metrics.pb.cc:906-1052 | What one episode prints another reads back: same strings, same agents, same components |
| Memory.MemSet | proto/maze/metrics.pb.cc:322-330 | Zeroes exactly the fields of the range |
| Memory.MemCopy | proto/maze/metrics.pb.cc:254-256 | Copies exactly the fields of the range |
| Memory.MemSwap | proto/maze/metrics.pb.cc:811-816 | Exchanges exactly the fields of the range |
| Memory.ReproducesExactly | proto/maze/metrics.pb.cc:254-256 | A range reproduces a whole run of fields, whatever they hold, if and only if it spans the run |
| Memory.ExchangeTwice | proto/maze/metrics.pb.cc:811-816 | Exchanging a range twice restores both runs |
| FactState.CopiedRangeExactly | proto/maze/metrics.pb.h:390-408 | Among all ranges of the declared fields only the one from episode_return_ to terminal_frame_id_ reproduces a fact's numbers |
| BatchState.CopiedRangeExactly | proto/metrics/transport.pb.h:811-822 | Among all ranges of the declared fields only the one from batch_sequence_ to source_final_ reproduces a batch's numbers |
| Transport.MetricEvent.InternalParse | proto/metrics/transport.pb.cc:529-593 | Agrees with the schema-level parse; the payload is bytes, the kind an open enum cut to 32 bits |
| Transport.MetricEvent.ByteSizeLong | proto/metrics/transport.pb.cc:634-667 | Returns and caches the encoded length |
| Transport.MetricEvent.InternalSerialize | proto/metrics/transport.pb.cc:595-632 | Appends exactly the encoding |
| Transport.MetricEvent.MergeFrom | proto/metrics/transport.pb.cc:676-697 | Leaves the merge of the two messages |
| Transport.MetricEvent.Clear | proto/metrics/transport.pb.cc:515-527 | Leaves the default message without looking at the has-bit |
| Transport.MetricEvent.CopiedByMerging | proto/metrics/transport.pb.cc:699-704 | Merging into an empty event copies, presence included |
| Transport.MetricEvent.SetObservedAt | proto/metrics/transport.pb.h:1895-1902 | A present zero is not absence |
| Transport.MetricEvent.ClearObservedAt | proto/metrics/transport.pb.h:1884-1887 | The field is absent and its storage zero again |
| Transport.EventPut | proto/metrics/transport.pb.cc:535-573 | What each case stores is exactly its field of the message; casts to int64 and to the enum lose nothing the wire pattern keeps |
| Transport.MetricSequenceGap.InternalParse | proto/metrics/transport.pb.cc:819-880 | Agrees with the schema-level parse on every input and limit |
| Transport.MetricSequenceGap.ByteSizeLong | proto/metrics/transport.pb.cc:924-955 | Returns and caches the encoded length |
| Transport.MetricSequenceGap.InternalSerialize | proto/metrics/transport.pb.cc:882-922 | Appends exactly the encoding |
| Transport.MetricSequenceGap.MergeFrom | proto/metrics/transport.pb.cc:964-985 | Leaves the merge of the two messages |
| Transport.MetricSequenceGap.InternalSwap | proto/metrics/transport.pb.cc:998-1013 | Exchanges the two messages |
| BatchState.PutField | proto/metrics/transport.pb.cc:1138-1250 | Storing a field of the object is storing that field of the message and no other |
| BatchState.MergeBatchesIsMerge | proto/metrics/transport.pb.cc:1404-1443 | The field-by-field merge of the raw state is the merge of the messages |
| BatchState.SizeOfBatch | proto/metrics/transport.pb.cc:1330-1395 | The encoded length regrouped in the order of the size pass, booleans counted as one byte |
| Batches.MetricBatch.MutableGap | proto/metrics/transport.pb.h:2414-2426 | The gap, created empty on first use; everything else unchanged |
| Batches.MetricBatch.ReleaseGap | proto/metrics/transport.pb.h:2392-2406 | The caller takes the gap over and none is reported afterwards |
| Batches.MetricBatch.SetAllocatedGap | proto/metrics/transport.pb.h:2427-2445 | The gap is the object given, absent for null, and the old one was deleted |
| Batches.MetricBatch.ClearGap | proto/metrics/transport.pb.h:2364-2369 | No gap afterwards; the old one was deleted |
| Batches.MetricBatch.InternalParse | proto/metrics/transport.pb.cc:1138-1250 | Agrees with the schema-level parse on every input and limit, for any schema of the source |
| Batches.MetricBatch.ParseEvents | proto/metrics/transport.pb.cc:1184-1196 | The do/while over consecutive events gives the message, position and failure of going back to the switch for each event |
| Batches.MetricBatch.ParseGap | proto/metrics/transport.pb.cc:1221-1228 | Parses onto the gap, created if needed, as the schema says |
| Batches.MetricBatch.ByteSizeLong | proto/metrics/transport.pb.cc:1330-1395 | Returns and caches the encoded length and leaves every nested cache right |
| Batches.MetricBatch.CachedExactly | proto/metrics/transport.pb.cc:1290-1297 | The caches are right if and only if every event, the source and the gap carry their own encoded lengths |
| Batches.MetricBatch.InternalSerialize | proto/metrics/transport.pb.cc:1252-1328 | Appends what the print pass emits for the sizes cached at that moment, right or stale |
| Batches.MetricBatch.MergeFrom | proto/metrics/transport.pb.cc:1404-1443 | Leaves the merge, in the state and in the message, and deletes nothing |
| Batches.MetricBatch.Clear | proto/metrics/transport.pb.cc:1117-1136 | Leaves the default message and owns nothing; source and gap were deleted |
| Batches.MetricBatch.Destroy | proto/metrics/transport.pb.cc:1106-1111 | Deletes what the two pointers own |
| Batches.MetricBatch.CopyFrom | proto/metrics/transport.pb.cc:1445-1450 | Leaves the other's state; the old source and gap were deleted, and nothing on self-copy |
| Batches.MetricBatch.Copy | proto/metrics/transport.pb.cc:1049-1076 | The copy constructor leaves the same state as CopyFrom, with sub-objects of its own |
| Batches.MetricBatch.InternalSwap | proto/metrics/transport.pb.cc:1456-1465 | Exchanges the two states, the objects both pointers own and every plain field, and deletes nothing |
| Ends.Serialize | proto/metrics/registry.pb.cc:1694-1840 | Size pass then print pass on an untouched point: the encoding, and exactly the cached number of bytes |
| Ends.Transfer | proto/metrics/registry.pb.cc:1598-1840 | What one point prints another reads back: same message, in either map order |
| Ends.TransferBoth | proto/metrics/registry.pb.cc:1598-1889 | Two points printed one after the other and parsed together give the merge of the two |
| PointBytes.PrintScalar | proto/metrics/registry.pb.cc:1694-1714 | After set_scalar(n) the print has 17 right behind the metric_id, and byte i behind it carries bits 8i to 8i + 7 of n |
| PointBytes.ParseScalar | proto/metrics/registry.pb.cc:1615-1622 | Parsing 17 and eight bytes leaves the scalar that these octets stand for, whatever the point held |
| BatchEnds.EventLegal | proto/metrics/transport.pb.cc:529-593 | What an event object holds is a legal message without any premise on its payload |
| BatchEnds.BatchLegal | proto/metrics/transport.pb.cc:1138-1250 | What a batch object holds is a legal message as soon as the reason of its gap is valid UTF-8 |
| BatchEnds.Serialize | proto/metrics/transport.pb.cc:1252-1395 | Size pass then print pass on an untouched batch: the encoding, and exactly the cached number of bytes |
| BatchEnds.Transfer | proto/metrics/transport.pb.cc:1117-1395 | What one batch prints another reads back: same source, events, gap and numbers |
| CommandLine.DecimalNumeral | main/main.cpp:189-201 | Leading zeros and the decimal numeral of a number, computed from the number alone, denote that number |
| CommandLine.DigitsAreNumeral | main/main.cpp:189-201 | Digits are zeros, or leading zeros and the numeral of what they denote |
| CommandLine.PortExactly | main/main.cpp:189-201 | A port is accepted exactly when its text is blanks, an optional plus sign, zeros and the decimal numeral of a number from 1 to 65535, which is the result |
| CommandLine.AddressExactly | main/main.cpp:203-218 | An address is accepted exactly when it is a non-empty host, a colon and the text of a port; the split is at the last colon |
| CommandLine.InterpretExactly | main/main.cpp:253-315 | What each flag makes of a value, stated by the texts of both |
| CommandLine.NextValue | main/main.cpp:245-251 | The closure takes the next argument or reports that the flag requires a value |
| CommandLine.ParsedCommandLine.TakeConfig | main/main.cpp:253-261 | The first path given is stored, a second is refused |
| CommandLine.ParsedCommandLine.TakeWorkload | main/main.cpp:262-274 | One valid mode is stored; a duplicate is reported before an unknown mode |
| CommandLine.ParsedCommandLine.TakeListenPort | main/main.cpp:275-283 | Missing value, duplicate and bad port all give the one message |
| CommandLine.ParsedCommandLine.TakeModelDistributor | main/main.cpp:284-295 | Host and port are stored together or not at all |
| CommandLine.ParsedCommandLine.TakeSampleDistributor | main/main.cpp:296-307 | Host and port are stored together or not at all |
| CommandLine.ParsedCommandLine.TakeEvaluationModel | main/main.cpp:308-315 | A missing path is reported as a duplicate, as the code has it |
| CommandLine.ParseCommandLine | main/main.cpp:238-325 | The loop with its index moved inside the closure succeeds exactly when the arguments are pairs of distinct known flags and values that mean something for them; then each flag's field holds what its value's text says, no other override is set, and otherwise the message is that of the first pair that fails |
| CommandLine.ParsedCommandLine.StoredPort | main/main.cpp:275-283 | After --listen-port and the numeral of n, listen_port is n |
| CommandLine.ParsedCommandLine.StoredAddress | main/main.cpp:284-307 | After an address flag and host:numeral, the host and the number are stored |
| CommandLine.ScanExactly | main/main.cpp:238-325 | The loop succeeds exactly on complete pairs of distinct known flags with valid values; it then holds what the pairs say, what was there before, and nothing else |
| CommandLine.OrderIrrelevant | main/main.cpp:238-325 | Permuting the pairs of an accepted command line changes neither the verdict nor the result |

## Left out

- Groups (wire types 3 and 4): an end-group tag stops a loop as in the code, a start-group record is refused, so inputs with groups are outside the results.
- Arenas, reflection, descriptors, default instances and `unsafe_arena_*` accessors: objects own their parts on the heap.
- Buffer chunks and slop bytes of the parse context and the output stream: buffers are flat, and a fixed64 cut off by its limit fails before it is stored.
- InternalParse (of every class): after a failure the invariant is promised, that no has-bit went off and that no held object leaked, but not what each field holds, because callers discard the object.
- Recursion limits of the parse context: nesting is bounded by the schemas.
- RegisteredMetricRecord, MetricDefinition, MetricBatchCursor and GetMetricBatchReq as objects: they are modelled by their field tables, for which all laws hold at every depth, and `Tables` states what each literal tag leaves behind; no fields are updated in place.
- ServiceInstanceIdentity: its generated code is not part of this model; its schema is a parameter, and its object does what the schema says.
- Which order "sorted" is: any enumeration of the keys will do, and the same two orders are used throughout one print.
- Byte offsets inside memory ranges: a range is a run of fields, so padding and field widths do not appear; the two-field interval of MetricPoint and the two pointers at the head of MetricBatch's swapped range are assigned field by field.
- What is nested in a source: it is taken to be sized whenever the source is.
- Has-bits words wider than the declared bits: only declared bits are ever on, which the invariant says.
- Sizes beyond the limit of the library: results that parse what was printed assume the printed size is at most 0x7FFFFFEF.
- `GetMetricBatchRsp`, the acknowledgement messages, catalog and model identity messages: the same patterns with fewer features.
- The gRPC stubs, and the rest of `main.cpp`: files, signals, ONNX inspection, server lifecycle, `ParseNonNegativeInt64`.
