# Proofs about Contiki's protocols and its database

A Dafny model of the parts of Contiki 2.6 and SnowFort with the most intricate behaviour, and proofs of what they keep,
compute and promise. `dafny verify dfyconfig.toml` checks all of it.

What the original does by changing things step by step is modelled by classes and loops that do the same: handlers that
update the fields of a node, a parser that moves code it has already written, a message buffer that is merged in place.
Each such method is proved against a function or a relation on values, and the theorems about runs, round trips and
meaning are about these.

## The components

**Deluge** (`deluge.dfy`, `deluge_network.dfy`, `deluge_three_versions.dfy`, `deluge_objects.dfy`, `deluge_laws.dfy`).
Nodes that spread an object page by page over a lossy broadcast medium. A run is any sequence of timers and receptions,
with any message received any number of times or never. Dissemination is safe if in every reachable state packets,
complete pages and images of the newest version have its bytes. With two versions around it is
(`TwoVersionsDisseminate`). With any number of versions, all runs from a start are safe if and only if every node that
starts in a version between the lowest and the newest has the pages of the newest image, as far as pages can be sent
(`DisseminatesIff`); for objects of at most 128 pages that is to hold the image (`CarriesIffHolds`). The cause: a node
answers requests for the version it runs up to and including its first incomplete page (`apps/deluge/deluge.c:415`),
but tags the packets with the version of the page, so a node on its way to the newest version sends an old page as a
new one, and another node can end in the newest version with wrong bytes (`ThreeVersionsMix`). Pages from 128 on are
never sent at all, because the number of the page to send is an `int8_t` (`apps/deluge/deluge.h:141`). `RunNodes` runs
the handlers on objects: a run of these is a run of the network, so the theorems hold of them (`Deploy`). What single
messages bring about is told by the page tables of sender and receiver (`SummaryHeard`, `ProfileHeard`,
`RequestsAddUp`). The checksum of a packet, written with shifts, is a division of polynomials (`CrcIsDivision`), and a
packet with one wrong byte never passes it (`WrongByteShows`).

**Antelope** (`aql_syntax.dfy`, `aql_parser.dfy`, `aql_where.dfy`, `aql_laws.dfy`, `lvm.dfy`, `lvm_derive.dfy`,
`inline_index.dfy`, `physical_values.dfy`, `relation_select.dfy`, `relation_answers.dfy`, `relation_samples.dfy`,
`aql_query.dfy`, `relation_join.dfy`, `row_fields.dfy`, `storage_cfs.dfy`, `stored_relation.dfy`, `maxheap_index.dfy`,
`maxheap_search.dfy`). A query from its tokens to the rows in a file.

- The code that the parser leaves for a clause is its prefix encoding if and only if no level of an expression has two
  operators (`ClauseCodeIffOneOperator`). With two, the second is inserted only in front of its own argument and the
  clause is misread (`TwoOperatorsMisread`). For the others, running the code tells the truth of the clause
  (`RunClause`), through the whole pipeline (`SelectWhere`). What a clause reports obeys the laws of an order
  (`Trichotomy`, `OppositeReports`, `OrderOfNumbers`) and of truncating division (`DivisionTruncates`).
- A row is the fields of its attributes: INSERT makes it of them (`FillRecord`), a condition is tested on the field of
  the attribute (`ReadsField`), and SELECT and JOIN answer the fields that are named, in that order (`ProjectsFields`,
  `JoinTables`). A number that is stored is read back if and only if the column can have it (`StoredReadIff`): an INT
  column has no negative ones where ints have 32 bits, since its two bytes are read without a sign
  (`apps/antelope/result.c:101`).
- The intervals derived for the variables of a predicate contain all its solutions if each comparison has its variable
  on the left, or is an equality, and both branches of each OR constrain the same variables (`DerivationSound`). When
  they do for one comparison and for an OR of two is stated exactly (`ComparisonSoundIff`, `EitherSoundIff`), as is
  when the intervals of a conjunction are exact (`ConjunctionExactIff`): bounds next to the largest and smallest long
  wrap around.
- A scan through the inline index answers what a scan of all rows does, if its bounds narrow safely and its search does
  not fail (`IndexRefinesScan`). Bounds are stored as C ints. For INT and for LONG columns it is stated exactly which
  intervals lose a row of some column by that (`NarrowedBoundsIff`); with ints of 16 bits a search for 100000 is one
  for -31072, and a query loses its row (`LosesRowWith100000`). A search for a value below the first one leaves the
  column, because the row number wraps around; the source then compares with an uninitialised buffer, and the model has
  an outcome of its own for it. An equality without a match ends in an index error instead of an empty answer. Of
  several usable indexes the last one is taken, since the smallest range is never recorded
  (`apps/antelope/relation.c:656`).
- SELECT and REMOVE with the same condition split the rows, byte for byte and through files written in pieces, if and
  only if the condition divides by zero on no row: REMOVE deletes such rows (`RemoveInto`). Through an index REMOVE
  looks only at the rows that the index reports, and drops the others: it is right exactly if an equality has no match,
  or the search for the two bounds ends at the first and at the last row (`RemoveThroughIndexIff`); removing 2 from 1,
  2 and 3 leaves nothing (`RemoveOfTwoLosesRows`).
- JOIN can be left after each row and entered again in its inner loop; all calls together deliver the nested-loop
  equi-join (`RunJoin`). The inline index serves for it if and only if no value on the left is below all on the right
  (`InlineJoinIff`).
- A torn write changes no stored row but shifts the next one (`TornWrite`). A stored row whose last byte was 0xf6 ends
  in a zero byte, which the exclusive or is there to avoid (`EndsInZeroIff`).
- The max-heap index keeps every pair on the path of its hashed key (`InsertItem`), and enumerates a range of different
  keys exactly (`Collect`), from the insertions to the answer (`LoadAndSearch`). The nodes of its last level never get
  a bucket.

**CoAP** (`coap.dfy`, `coap_roundtrip.dfy`, `coap_buffer.dfy`, `coap_parser.dfy`, `coap_samples.dfy`, `coap_laws.dfy`,
`blockwise.dfy`, `link_format.dfy`, `transactions.dfy`), section 3 of draft-ietf-core-coap-07, section 2.2 of RFC 7959
and section 4.2 of RFC 7252.

- Serializing and parsing gives back header, values and payload if and only if at most 15 options are counted, no
  option is 14 or 15 behind the one before it, and no string loses a separator (`RoundTripIff`). The count has four
  bits, so of more than 15 options some are not read (`CountWraps`). With a gap of 14 or 15 the formula for the count
  (`apps/er-coap-07/er-coap-07.c:450`) is too large by the fence post that is not written (line 119), and payload is
  taken for an option (`SampleParses`). A string comes back if and only if it does not begin with its separator and
  every separator that ends a part is followed by a byte other than a slash (`Clean`): paths lose repeated slashes,
  queries with a doubled `&` are kept.
- A datagram is refused exactly for its version, for Proxy-Uri, or for an unknown option with an odd number
  (`RefusedIff`, `CriticalRefused`); unknown options with even numbers change nothing of the message
  (`ElectiveIgnored`).
- Merging strings in the receive buffer disturbs nothing that is still to be read (`AppendsLayout`, `ParseMessage`).
- A block of the resource list has exactly the bytes asked for, and is the last one if nothing follows, except that a
  list that ends in attributes and exactly fills its last block is said to go on (`Respond`); the client then gets the
  text of an error behind the list (`FetchList`). The list is in link format: a reader of it gets back all listed
  resources (`ListIsRead`).
- A confirmable message is sent at most five times and leaves the list once (`EveryTransaction`), and one that nobody
  answers is sent exactly five times (`Unanswered`). The last transmission is not waited for: the transaction is over
  as soon as it is sent. A check of the timers ends at the first transaction that times out, because removing it cuts
  its link to the next (`Layer.Check`).

**Codeprop** (`codeprop.dfy`, `codeprop_objects.dfy`). What a receiver has stored is a prefix of the sender's image if
and only if the packet it began with has the first bytes of the image (`PrefixSafety`). The source means to begin only
with address 0, but its own request overwrites the address of the packet it is answering
(`apps/codeprop/codeprop.c:270-301`), so a receiver that comes late stores the packet at address 0 (`LateStart`), and
its request is in vain (`LateNackIsVain`); a slice that is missed later is asked for and stored (`NackRecovers`). The
threads run as objects in `Propagate`.

**tunslip** (`slip.dfy`, `internet_checksum.dfy`, `checksum_laws.dfy`). Framing of RFC 1055 with a partial-write buffer
and a decoder that may run out of input anywhere: in any interleaving of sending, flushing and reading, the packets
that have arrived are the first of those that were sent, and all of them once nothing is under way (`Line.Run`). Also
the checksum arithmetic of RFC 1071 and section 3 of RFC 1624: which packets pass (`PassesCheckIff`), and that one
changed word is found, unless it is 0xffff for 0 or the other way round (`HeaderErrorShows`, `PayloadErrorShows`).

`bytes.dfy` and `options.dfy` hold byte sequences and optional values.

## Model

| member | source | states |
|---|---|---|
| `Deluge.DelugeNode.constructor` | apps/deluge/deluge.c:192-224 | a node starts with a complete page table of its file, in its initial version |
| `Deluge.DelugeNode.HighestAvailablePage` | apps/deluge/deluge.c:227-238 | the first page that is not complete, counted in eight bits |
| `Deluge.DelugeNode.RequestTimer` | apps/deluge/deluge.c:241-267 | asks for exactly the packets that the current page misses, or for what lies behind the page table when no page is missing; after the last of a round of requests the node goes back to maintaining |
| `Deluge.DelugeNode.ReceiveSummary` | apps/deluge/deluge.c:292-345 | the new state of the node for every summary: what it tells about itself, whether it asks, what it suppresses |
| `Deluge.DelugeNode.ReceiveRequest` | apps/deluge/deluge.c:399-429 | requests for the running version up to and including the first incomplete page add their packets to those to be sent |
| `Deluge.DelugeNode.TxTimer` | apps/deluge/deluge.c:377-396 | the wanted packets of the page are sent, each with the page's own version, and no more are wanted |
| `Deluge.DelugeNode.SendPage` | apps/deluge/deluge.c:348-374 | one packet for each wanted number below four, in order, with the bytes of the stored page |
| `Deluge.DelugeNode.ReceivePacket` | apps/deluge/deluge.c:432-498 | the new state for every packet, the copy in front of the checksum test included |
| `Deluge.DelugeNode.FinishPage` | apps/deluge/deluge.c:466-494 | a page with all packets is written and marked, and the last page makes the new version the running one |
| `Deluge.DelugeNode.SummaryTimer` | apps/deluge/deluge.c:270-289 | the summary that is sent, unless enough others were heard |
| `Deluge.DelugeNode.RoundTimer` | apps/deluge/deluge.c:663-675 | what a new round of the main loop forgets |
| `Deluge.DelugeNode.ProfileTimer` | apps/deluge/deluge.c:501-522 | the profile that is sent has the version of every page |
| `Deluge.DelugeNode.RetagPages` | apps/deluge/deluge.c:560-566 | exactly the pages with a lower version lose their packets and take the new version |
| `Deluge.DelugeNode.AddPages` | apps/deluge/deluge.c:568-570 | the pages that the table did not have are empty and of version 0 |
| `Deluge.DelugeNode.ReplacePages` | apps/deluge/deluge.c:546-566 | the page table is a fresh copy with as many pages as the profile, updated |
| `Deluge.DelugeNode.ReceiveProfile` | apps/deluge/deluge.c:525-580 | the new state for a profile with as many pages as the object or more, also when there is no memory for a table of the same length |
| `Deluge.WritePage` | apps/deluge/deluge.c:125-135 | a page that is written stands in the file and no other byte changes |
| `DelugeNetwork.InitialNodeInv` | apps/deluge/deluge.c:192-224 | a new node satisfies the invariant of nodes |
| `DelugeNetwork.PacketKeepsNodeInv` | apps/deluge/deluge.c:432-498 | a packet keeps the invariant: pages below the current one are complete, a page is complete iff it has all packets, the versions are ordered, equal versions mean a complete object |
| `DelugeNetwork.ProfileKeepsNodeInv` | apps/deluge/deluge.c:525-580 | a profile keeps the invariant, and update_version never decreases |
| `DelugeNetwork.StepKeepsNodeInv` | apps/deluge/deluge.c:241-580 | every handler keeps the invariant of its node, and neither version number ever decreases |
| `DelugeNetwork.PageFromPackets` | apps/deluge/deluge.c:453-471 | a page put together from four right packets is the right page |
| `DelugeNetwork.TxKeepsSafe` | apps/deluge/deluge.c:348-396 | a careful transmission sends only right bytes under the newest version; pages from 128 on are never sent |
| `DelugeNetwork.StepKeepsSafe` | apps/deluge/deluge.c:241-580 | careful steps keep a node safe and send only safe messages |
| `DelugeNetwork.CarefulRunIsSafe` | apps/deluge/deluge.c:241-580 | with any number of versions, every run of careful transmissions keeps the whole network safe |
| `DelugeNetwork.StepKeepsQuiet` | apps/deluge/deluge.c:399-429 | if all nodes above the lowest version carry the image, nobody is asked for a page of the newest version that it lacks |
| `DelugeNetwork.QuietRunIsSafe` | apps/deluge/deluge.c:241-580 | from such a start every run keeps the network safe |
| `DelugeNetwork.TwoVersionsDisseminate` | apps/deluge/deluge.c:241-580 | one old and one new version, any number of nodes, any loss, duplication and reordering: in every reachable state the packets, the complete pages and the images of the new version have the bytes of its image |
| `DelugeNetwork.CarriesIffHolds` | apps/deluge/deluge.c:399-429 | for objects of at most 128 pages, carrying the image is holding it |
| `DelugeNetwork.CarriedDisseminates` | apps/deluge/deluge.c:241-580 | with any versions, if all nodes but those in the lowest one start with the pages of the image that can be sent, every run disseminates |
| `DelugeNetwork.ManyVersionsDisseminate` | apps/deluge/deluge.c:241-580 | from any start, the runs whose transmissions are careful disseminate |
| `DelugeThreeVersions.Sends` | apps/deluge/deluge.c:399-429 | a node that is asked for a page of the version it runs sends what is in its file, tagged with whatever version the page has |
| `DelugeThreeVersions.ReceivesPage` | apps/deluge/deluge.c:433-500 | a node on the way to a version that gets the four packets of its page has the page, and the version with the last page |
| `DelugeThreeVersions.TransfersAll` | apps/deluge/deluge.c:241-580 | some run moves any number of pages from one node to another |
| `DelugeThreeVersions.ThirdVersionMisleads` | apps/deluge/deluge.c:399-429 | if a node starts between two versions with a wrong page, some run sends its page as one of the newest version |
| `DelugeThreeVersions.ThreeVersionsMix` | apps/deluge/deluge.c:399-429 | and another ends with a node in the newest version that does not hold its image: any number of nodes, any sizes up to 128 pages |
| `DelugeThreeVersions.DisseminatesIff` | apps/deluge/deluge.c:241-580 | all runs from a start disseminate if and only if every node in a version between the lowest and the newest starts with the pages of the image that can be sent |
| `DelugeObjects.Handle` | apps/deluge/deluge.c:587-640 | the handlers on the object do what the step of the network says |
| `DelugeObjects.RunNodes` | apps/deluge/deluge.c:241-580 | a run of the handlers on any number of objects is the run of the network |
| `DelugeObjects.Deploy` | apps/deluge/deluge.c:241-580 | nodes, files and handlers together: under the condition on the files no run spreads wrong bytes |
| `DelugeLaws.Advertises` | apps/deluge/deluge.c:270-289 | a node advertises the version it updates to and the number of its leading complete pages, unless it has heard enough |
| `DelugeLaws.RoundAdvertises` | apps/deluge/deluge.c:663-675 | in a new round it advertises again, and sends the profile that it owes, once |
| `DelugeLaws.SummaryHeard` | apps/deluge/deluge.c:292-345 | told by the page tables of sender and receiver: who asks after a summary, who counts it, who finds an inconsistency, who owes a profile |
| `DelugeLaws.UpdatingAsks` | apps/deluge/deluge.c:313-330 | a node on the way to a version that hears of more pages of it asks for them |
| `DelugeLaws.ProfileHeard` | apps/deluge/deluge.c:506-580 | the receiver of a profile has of each page the newer version, without packets where that is the sender's, and asks from its first incomplete page on; or it changes nothing |
| `DelugeLaws.RequestAsks` | apps/deluge/deluge.c:241-267 | a packet is asked for iff the page has not got it, and every second request ends the asking |
| `DelugeLaws.NotAnswered` | apps/deluge/deluge.c:399-429 | a request for another version, or for a page behind the first incomplete one, is not answered |
| `DelugeLaws.RequestsAddUp` | apps/deluge/deluge.c:348-429 | of two requests for one page the packets of both are sent, each once, and no others |
| `DelugeLaws.CrcIsDivision` | core/lib/crc16.c:48-64 | the shifts and exclusive ors of crc16_add are eight steps of the division by x^16 + x^12 + x^5 + 1 |
| `DelugeLaws.CrcInjective` | core/lib/crc16.c:48-64 | checksums that differ stay different under one more byte, and one checksum differs by different bytes |
| `DelugeLaws.WrongByteShows` | apps/deluge/deluge.c:453-459 | a packet with one wrong byte does not pass the test of its checksum |
| `Lvm.Machine.JumpToOperand` | apps/antelope/lvm.c:315-327 | room for one operator, or an error and no change |
| `Lvm.Machine.ShiftForOperator` | apps/antelope/lvm.c:330-348 | the code from a position on is moved up by one operator and nothing before it changes |
| `Lvm.Machine.SetEnd` | apps/antelope/lvm.c:357-370 | the end is moved and the old one returned, or an error |
| `Lvm.Machine.SetOp` | apps/antelope/lvm.c:407-412 | the code grows by exactly the operator |
| `Lvm.Machine.SetRelation` | apps/antelope/lvm.c:415-420 | the code grows by exactly the relation or connective |
| `Lvm.Machine.SetOperand` | apps/antelope/lvm.c:423-439 | the code grows by exactly the encoding of the operand |
| `Lvm.Machine.Lookup` | apps/antelope/lvm.c:106-117 | the number of the variable, or the size of the table for an unknown name |
| `Lvm.Machine.RegisterVariable` | apps/antelope/lvm.c:442-460 | a name is added unless it is known |
| `Lvm.Machine.SetVariableValue` | apps/antelope/lvm.c:463-473 | exactly the value of the named variable changes |
| `Lvm.Machine.SetVariable` | apps/antelope/lvm.c:476-488 | the code grows by an operand with the number of the variable |
| `Lvm.Machine.GetEnum` | apps/antelope/lvm.c:120-145 | the next type or operator |
| `Lvm.Machine.GetOperand` | apps/antelope/lvm.c:130-134 | reading the encoding of an operand gives the operand back |
| `Lvm.Machine.GetOperandValue` | apps/antelope/lvm.c:130-163 | the value of an operand, variables by their table |
| `Lvm.Machine.NextValue` | apps/antelope/lvm.c:176-193 | an argument is evaluated and exactly its bytes are read |
| `Lvm.Machine.EvalExpr` | apps/antelope/lvm.c:166-219 | the bytes of an expression give its value, or a math error exactly if some divisor is zero |
| `Lvm.Machine.EvalComparison` | apps/antelope/lvm.c:257-297 | the bytes of a comparison give its truth |
| `Lvm.Machine.EvalConnective` | apps/antelope/lvm.c:234-255 | the bytes of a connective give its truth; an error in any argument is the result |
| `Lvm.Machine.EvalLogic` | apps/antelope/lvm.c:222-298 | the bytes of a predicate give its verdict and exactly its bytes are read |
| `Lvm.Machine.Execute` | apps/antelope/lvm.c:380-404 | running a predicate reports its verdict and reads exactly its bytes |
| `AqlSyntax.ExprCodeIffOneOperator` | apps/antelope/aql-parser.c:290-348 | the code of an expression is its prefix encoding if and only if no level has two operators |
| `AqlSyntax.ComparisonCodeIff` | apps/antelope/aql-parser.c:350-400 | the same for a comparison |
| `AqlSyntax.ClauseCodeIffOneOperator` | apps/antelope/aql-parser.c:402-447 | the same for a whole WHERE clause |
| `AqlSyntax.ClauseTreeMeans` | apps/antelope/lvm.c:166-298 | running the prefix encoding of a clause tells what the clause means: left to right in a level, AND and OR to the right |
| `AqlSyntax.TwoOperatorsMisread` | apps/antelope/aql-parser.c:325 | the code that a comparison with two operators on its left side gets is that of another comparison |
| `AqlSyntax.MisreadingMatters` | apps/antelope/aql-parser.c:325 | 1 - 1 - 1 > -5 is true and is found false |
| `AqlParser.Parser.ParseOp` | apps/antelope/aql-parser.c:127-140 | an arithmetic operator or a closing parenthesis is read and reported, anything else is reported as none |
| `AqlParser.Parser.ParseCmp` | apps/antelope/aql-parser.c:111-125 | a comparison operator is read and reported, anything else is reported as none |
| `AqlParser.Parser.ParseOperand` | apps/antelope/aql-parser.c:267-288 | a name or a number leaves exactly its operand; an opening parenthesis is read although the operand fails |
| `AqlParser.Parser.InsertOperator` | apps/antelope/aql-parser.c:325-345 | the operator stands in front of the code from the given position on, which is moved |
| `AqlParser.Parser.ParseArg` | apps/antelope/aql-parser.c:321-323 | the argument of an operator, an operand or a parenthesised expression, leaves exactly its code |
| `AqlParser.Parser.ParseTails` | apps/antelope/aql-parser.c:311-345 | the loop over the operators of a level leaves the code that inserting them one by one gives |
| `AqlParser.Parser.ParseExpr` | apps/antelope/aql-parser.c:290-348 | an expression leaves exactly its code, and what ends it is treated as in the source |
| `AqlParser.Parser.ParseComparison` | apps/antelope/aql-parser.c:350-400 | a comparison leaves its relation, its left and its right side, in this order |
| `AqlParser.Parser.InsertConnective` | apps/antelope/aql-parser.c:424-426 | the connective stands in front of the code from the given position on |
| `AqlParser.Parser.ParseProposition` | apps/antelope/aql-parser.c:428-441 | what a connective joins leaves exactly its code |
| `AqlParser.Parser.ParseLink` | apps/antelope/aql-parser.c:415-442 | one turn of the loop extends the chain by one connective |
| `AqlParser.Parser.ParseWhere` | apps/antelope/aql-parser.c:402-447 | a stream that spells a clause is read exactly to its end and leaves exactly its code; any other stream stays inside the code array |
| `AqlWhere.ClauseCodeSize` | apps/antelope/aql-parser.c:402-447 | what the parser asks of the code array is exactly the size of the code |
| `AqlWhere.Compile` | apps/antelope/aql-parser.c:402-447 | compiling a clause ends without an error in its code and the table of its variables |
| `AqlWhere.SetRow` | apps/antelope/lvm.c:463-473 | every variable of the table has the value of the row |
| `AqlWhere.RunClause` | apps/antelope/lvm.c:380-404 | compilation preserves meaning: the code of a clause with one operator per level reports the truth of the clause, or a math error exactly if a divisor is zero |
| `AqlLaws.Decided` | apps/antelope/lvm.c:257-297 | a comparison is true or false, and an error exactly if one of its divisors is zero |
| `AqlLaws.Trichotomy` | apps/antelope/lvm.c:280-292 | exactly one of <, = and > is true |
| `AqlLaws.OppositeReports` | apps/antelope/lvm.c:280-292 | <>, >= and <= are true where =, < and > are false |
| `AqlLaws.ReversedReports` | apps/antelope/lvm.c:280-292 | exchanging the sides exchanges < with > and <= with >= |
| `AqlLaws.LessIsOrder` | apps/antelope/lvm.c:280-292 | < is transitive, and equal expressions can be exchanged |
| `AqlLaws.OrderOfNumbers` | apps/antelope/lvm.c:257-297 | 1 + x is the next number after x, and adding a number to both sides changes no comparison |
| `AqlLaws.Connectives` | apps/antelope/lvm.c:234-255 | AND and OR of what both sides report; an error on either side is the result |
| `AqlLaws.DivisionTruncates` | apps/antelope/lvm.c:205-209 | dividend = divisor * quotient + remainder, with the remainder smaller than the divisor and of the sign of the dividend |
| `AqlLaws.Ring` | apps/antelope/lvm.c:195-204 | addition, subtraction and multiplication are those of a ring |
| `AqlLaws.Quotients` | apps/antelope/lvm.c:205-209 | 7 / 2, -7 / 2, 7 / -2 and -7 / -2 |
| `LvmDerive.CreateIntersection` | apps/antelope/lvm.c:497-537 | the intervals of a conjunction, variable by variable |
| `LvmDerive.CreateUnion` | apps/antelope/lvm.c:540-580 | the intervals of a disjunction, variable by variable |
| `LvmDerive.DeriveRelation` | apps/antelope/lvm.c:583-687 | deriving reads exactly the bytes of the predicate and ends with its intervals or an error |
| `LvmDerive.DeriveConnective` | apps/antelope/lvm.c:597-621 | both arguments are derived and then combined |
| `LvmDerive.NextOperand` | apps/antelope/lvm.c:623-632 | the side of a comparison, which must be an operand |
| `LvmDerive.DeriveOperands` | apps/antelope/lvm.c:634-686 | the interval of a comparison, whichever side its variable is on |
| `LvmDerive.GetDerivedRange` | apps/antelope/lvm.c:696-712 | the interval of a known variable, if one was derived |
| `LvmDerive.IntervalMeans` | apps/antelope/lvm.c:659-682 | a long satisfies a relation to a number iff it lies in its interval, except that the bounds next to the largest and the smallest long wrap around |
| `LvmDerive.ZipMeet` | apps/antelope/lvm.c:497-537 | a valuation lies in the intersection iff it lies in both |
| `LvmDerive.ZipJoin` | apps/antelope/lvm.c:540-580 | a valuation in one of two lies in the union if both constrain the same variables |
| `LvmDerive.DerivationSound` | apps/antelope/lvm.c:583-687 | a valuation that satisfies an oriented predicate lies in all intervals derived for it |
| `LvmDerive.ConjunctionMeans` | apps/antelope/lvm.c:497-687 | a valuation satisfies a conjunction iff it lies in all intervals and no bound has wrapped |
| `LvmDerive.ConjunctionExactIff` | apps/antelope/lvm.c:497-687 | intervals and conjunction agree on all valuations iff no bound wraps or some interval is empty |
| `LvmDerive.ComparisonSoundIff` | apps/antelope/lvm.c:646-683 | exactly which comparisons have a sound interval, those with the number on the left included |
| `LvmDerive.EitherSoundIff` | apps/antelope/lvm.c:548-552 | exactly when keeping the interval of one branch of an OR is sound |
| `InlineIndex.Bisect` | apps/antelope/index-inline.c:120-140 | the loop stops at the row where bisection ends, or asks for a row outside the column |
| `InlineIndex.BinarySearch` | apps/antelope/index-inline.c:104-151 | the row with the value or one next to its place; an exact search finds it or reports that it is missing |
| `InlineIndex.StopNear` | apps/antelope/index-inline.c:104-151 | bisection stops at the value if it is there and else at a neighbour of its place |
| `InlineIndex.StopsOrdered` | apps/antelope/index-inline.c:154-181 | searches for a lower and a higher value stop in that order |
| `InlineIndex.WindowCovers` | apps/antelope/index-inline.c:154-181 | the window has all rows of the range and at most one row more on each side |
| `InlineIndex.Iterator.constructor` | apps/antelope/index.c:237-295 | an iterator for the interval that has reported nothing |
| `InlineIndex.Iterator.RangeSearch` | apps/antelope/index-inline.c:154-181 | both ends of the window, or the failed search |
| `InlineIndex.Iterator.GetNext` | apps/antelope/index-inline.c:202-227 | the rows of the window one after the other, each once, ascending |
| `InlineIndex.Iterator.IndexGetNext` | apps/antelope/index.c:298-323 | the shortcut for unique values gives the same answers |
| `RelationSelect.AttributeFind` | apps/antelope/relation.c:119-129 | the first attribute with the name |
| `RelationSelect.AttributeOffset` | apps/antelope/relation.c:132-147 | the offset is the sum of the sizes of the attributes before it |
| `RelationSelect.GenerateMap` | apps/antelope/relation.c:593-628 | every attribute of the result is mapped from its place in the row to its place in the result, or one is unknown |
| `RelationSelect.Selection.SetVariable` | apps/antelope/relation.c:791-801 | the variable of an attribute has the value in the row |
| `RelationSelect.Selection.CopyField` | apps/antelope/relation.c:809-813 | the bytes of the attribute follow those of the attributes before it |
| `RelationSelect.Selection.TakeRow` | apps/antelope/relation.c:786-814 | after the loop over the attributes all variables have the values of the row and the result row is its projection |
| `RelationSelect.Selection.SelectIndex` | apps/antelope/relation.c:631-672 | the last indexed attribute with an interval is taken, with its bounds as C ints |
| `RelationSelect.StartsAtLast` | apps/antelope/relation.c:647-671 | of several attributes that could be searched the last one is, with the bounds of its interval; none is iff none could be |
| `RelationSelect.Selection.PlanScan` | apps/antelope/relation.c:675-709 | the index that the derivation calls for, or none |
| `RelationSelect.Selection.Test` | apps/antelope/relation.c:816-823 | the predicate on the row, or true without one |
| `RelationSelect.Selection.NextTuple` | apps/antelope/relation.c:756-775 | the next row of the index or of the counter |
| `RelationSelect.Selection.Process` | apps/antelope/relation.c:735-870 | one call takes one row, reports whether it is accepted and leaves its projection |
| `RelationSelect.Selection.DrainAll` | apps/antelope/relation.c:735-870 | calls without an index answer the projections of the accepted rows in order |
| `RelationSelect.Selection.DrainIndex` | apps/antelope/relation.c:735-870 | calls with an index answer the accepted rows among those it reports, or an index error |
| `RelationAnswers.AcceptedInside` | apps/antelope/lvm.c:583-687 | an accepted row has its value in the interval of every attribute |
| `RelationAnswers.AcceptedInWindow` | apps/antelope/relation.c:631-672 | an accepted row is reported by the index, if its search succeeds |
| `RelationAnswers.IndexRefinesScan` | apps/antelope/relation.c:735-870 | if the bounds narrow safely, a scan through the index answers what a scan of all rows answers; and exactly when the search fails |
| `RelationAnswers.RunQuery` | apps/antelope/relation.c:675-870 | a query from its plan to its end |
| `RelationAnswers.NarrowedBoundsIff` | apps/antelope/relation.c:656-661 | for INT and for LONG columns and either width of int, exactly the intervals for which narrowing the bounds loses no row of any column |
| `RelationAnswers.SelectAndRemove` | apps/antelope/relation.c:816-843 | rows returned, rows kept and rows with a division by zero are all rows |
| `PhysicalValues.ValueToPhy` | apps/antelope/result.c:120-148 | the bytes of the row at the attribute are those of the value, most significant first, and no others change |
| `PhysicalValues.StoredReadIff` | apps/antelope/result.c:85-148 | a stored number is read back iff the column can have it; with ints of 32 bits an INT column has no negative ones |
| `PhysicalValues.ReadStored` | apps/antelope/result.c:85-148 | a number that is read is stored as the same bytes |
| `PhysicalValues.IntIsLong` | apps/antelope/result.c:85-115 | an INT has the value of the LONG with the same number |
| `PhysicalValues.Odometer` | apps/antelope/result.c:85-115 | bytes count like the digits of an odometer from 0, the last one fastest |
| `RelationSamples.NarrowedLosesRow` | apps/antelope/relation.c:656-661 | a query for one long whose index answer loses the row, for every long that changes as an int of 16 bits and a column with both values |
| `RelationSamples.LosesRowWith100000` | apps/antelope/relation.c:656-661 | one such query: WHERE v = 100000 on the values -31072 and 100000 |
| `RelationSamples.RemoveLosesRows` | apps/antelope/relation.c:713-731 | REMOVE of the middle one of three values through the index keeps no row |
| `RelationSamples.RemoveOfTwoLosesRows` | apps/antelope/relation.c:713-731 | one such removal: of 2 from 1, 2 and 3 |
| `RelationSamples.ShortFound` | apps/antelope/relation.c:735-870 | a query on an INT column finds the row with its number, and not the other |
| `RelationSamples.Finds258` | apps/antelope/relation.c:791-801 | WHERE v = 258 finds the bytes 1 and 2, and not 2 and 1 |
| `AqlQuery.ClauseAccepts` | apps/antelope/relation.c:816-823 | a row is accepted iff the clause is true on its values |
| `AqlQuery.CompiledRuns` | apps/antelope/aql-parser.c:402-447 | the code that the parser leaves is the code that the row loop runs |
| `AqlQuery.SelectWhere` | apps/antelope/relation.c:675-870 | a SELECT from its tokens to its answer: the rows on which the clause is true, in order |
| `RelationJoin.Join` | apps/antelope/relation.c:1059-1193 | a join is set up, or the error for a missing attribute or a missing index; each attribute comes from the left relation if that has it |
| `RelationJoin.FindSource` | apps/antelope/relation.c:1078-1094 | where an attribute of the result is found |
| `RelationJoin.EmissionsMatch` | apps/antelope/relation.c:1012-1053 | the rows that the index lists for one row on the left are the matching rows in order |
| `RelationJoin.JoinIsNestedLoop` | apps/antelope/relation.c:963-1056 | through an index that lists exactly the matching rows the join is that of two nested loops, left rows outside |
| `RelationJoin.InlineReports` | apps/antelope/index.c:298-323 | the iterator of the inline index reports exactly the row with the value, if there is one |
| `RelationJoin.InlineJoinIff` | apps/antelope/relation.c:963-1056 | the inline index serves for a join iff no value on the left is below all values on the right |
| `RelationJoin.Joining.constructor` | apps/antelope/relation.c:1118-1123 | a join that has delivered nothing |
| `RelationJoin.Joining.CopySources` | apps/antelope/relation.c:1033-1042 | the joined row has the bytes of its sources one after the other |
| `RelationJoin.Joining.Look` | apps/antelope/relation.c:1023-1051 | a reported row is joined, counted and stored if asked; a number behind the last row is an error |
| `RelationJoin.Joining.NextMatch` | apps/antelope/relation.c:1012-1053 | the next matching row, or the end of the step with its flag |
| `RelationJoin.Joining.Process` | apps/antelope/relation.c:963-1056 | each call delivers the next of the remaining joined rows, wherever the last call left the loops, and the call after the last one says so |
| `RelationJoin.Joining.Drain` | apps/antelope/relation.c:963-1056 | all calls together deliver all rows up to the first failure |
| `RelationJoin.RunJoin` | apps/antelope/relation.c:963-1056 | a whole join through a right index delivers the rows of the nested loops, none lost or repeated |
| `RowFields.FieldAt` | apps/antelope/relation.c:132-147 | in a row made of fields the field of an attribute stands at its offset |
| `RowFields.StringKept` | apps/antelope/result.c:120-148 | a string shorter than its attribute is kept with its zero byte, a longer one is cut |
| `RowFields.FillRecord` | apps/antelope/relation.c:476-548 | the inserted record is the fields of the values in order, or a value has another domain |
| `RowFields.ReadsField` | apps/antelope/relation.c:791-801 | the variable of an attribute gets the value of its field |
| `RowFields.ReadsInserted` | apps/antelope/relation.c:476-548 | the condition is tested on what was inserted, iff the column can have it |
| `RowFields.ProjectsFields` | apps/antelope/relation.c:786-814 | a row of the answer has the fields of the attributes that are named, in the order of the names |
| `RowFields.SourceIsField` | apps/antelope/relation.c:1078-1094 | the source of an attribute of a join is its field, on the left if the left relation has it |
| `RowFields.CombinesFields` | apps/antelope/relation.c:1033-1042 | a joined row has the fields with the names of the result, in their order |
| `RowFields.KeyIsField` | apps/antelope/relation.c:988-1010 | what is joined on is the number in the field with the first name |
| `RowFields.LoopJoinsFields` | apps/antelope/relation.c:963-1056 | the nested loops join the fields of all pairs of rows whose fields with the first name have the same number |
| `RowFields.JoinTables` | apps/antelope/relation.c:967-1193 | a JOIN from the names of its attributes to its rows, told by the fields of the rows |
| `StorageCfs.FlipIsXor` | apps/antelope/storage-cfs.c:69 | the arithmetic form of the exclusive or with 0xf6 |
| `StorageCfs.EndsInZeroIff` | apps/antelope/storage-cfs.c:468-471 | a stored row ends in a zero byte iff the row ends in 0xf6 |
| `StorageCfs.RowAmount` | apps/antelope/storage-cfs.c:493-509 | the size of the file over the length of a row counts its complete rows |
| `StorageCfs.RowAt` | apps/antelope/storage-cfs.c:417-420 | the bytes at a multiple of the row length are those of the row |
| `StorageCfs.RowsAppend` | apps/antelope/storage-cfs.c:452-483 | appending to a file that ends with a complete row changes no row and adds those of the new bytes |
| `StorageCfs.TornWrite` | apps/antelope/storage-cfs.c:473-483 | a torn write changes no row, and shifts the next one that is stored |
| `StorageCfs.TupleFile.GetRowAmount` | apps/antelope/storage-cfs.c:493-509 | the number of rows, none if the length is zero |
| `StorageCfs.TupleFile.GetRow` | apps/antelope/storage-cfs.c:404-438 | the row with the number, the end of the rows, or an error, for everything a read may return |
| `StorageCfs.TupleFile.Write` | apps/antelope/storage-cfs.c:473-483 | whatever the writes return, the file grows by the bytes they took, and the row is complete iff none failed |
| `StorageCfs.TupleFile.PutRow` | apps/antelope/storage-cfs.c:441-490 | the same for a row, whose buffer is as it was afterwards |
| `StoredRelation.ProjectionIsRow` | apps/antelope/aql-exec.c:139-147 | REMOVE stores the row of the relation byte for byte |
| `StoredRelation.SelectAndRemoveSplitIff` | apps/antelope/relation.c:816-843 | the rows that SELECT returns and those that REMOVE keeps are a shuffle of all rows iff the predicate can be evaluated on each |
| `StoredRelation.RemoveThroughIndexIff` | apps/antelope/relation.c:713-731 | REMOVE through an index reads outside the column exactly if a bound is below its first value; otherwise it keeps the right rows exactly if an equality has no match or the search for the bounds ends at the first and the last row |
| `StoredRelation.ReadAll` | apps/antelope/storage-cfs.c:404-438 | reading row after row gives the rows of the file |
| `StoredRelation.StoreRow` | apps/antelope/relation.c:834-839 | the stored row is the next one of the answer |
| `StoredRelation.SelectInto` | apps/antelope/relation.c:735-870 | what is read back from the file of the result is the answer, under any schedule of short writes that succeed |
| `StoredRelation.RemoveInto` | apps/antelope/relation.c:713-731 | the file that takes the place of the relation and a SELECT on the condition split the rows iff no row divides by zero |
| `MaxheapIndex.HalvesPartition` | apps/antelope/index-maxheap.c:416-444 | the two children of a node partition its range |
| `MaxheapIndex.PositionDetermines` | apps/antelope/index-maxheap.c:225-259 | the range of a node depends only on its position |
| `MaxheapIndex.PlaceBelow` | apps/antelope/index-maxheap.c:225-259 | the search for a place for half a range comes to the children of its node |
| `MaxheapIndex.SplitKeepsTree` | apps/antelope/index-maxheap.c:416-444 | splitting a node keeps the tree and changes no node that exists |
| `MaxheapIndex.NodeBelow` | apps/antelope/index-maxheap.c:262-291 | looking below a node finds its child on the path of the key, if it has a bucket |
| `MaxheapIndex.Heap.constructor` | apps/antelope/index-maxheap.c:494-584 | one node for all keys and no pairs |
| `MaxheapIndex.Heap.HeapInsert` | apps/antelope/index-maxheap.c:225-259 | a range is put where the search ends, or there is no place |
| `MaxheapIndex.Heap.HeapFind` | apps/antelope/index-maxheap.c:262-291 | the first node on the way whose range has the hashed key |
| `MaxheapIndex.Heap.BucketAppend` | apps/antelope/index-maxheap.c:394-413 | the pair is added to the bucket and nothing else changes |
| `MaxheapIndex.Heap.BucketSplit` | apps/antelope/index-maxheap.c:416-444 | two children with the halves of the range, or none at the last level |
| `MaxheapIndex.Heap.InsertItem` | apps/antelope/index-maxheap.c:447-491 | the pair is put into the deepest bucket on its path or, if that is full, into a new child; the invariant of the tree is kept |
| `MaxheapSearch.OnPath` | apps/antelope/index-maxheap.c:696-704 | every node with a bucket whose range has the hashed key is on its path |
| `MaxheapSearch.StoredOnPath` | apps/antelope/index-maxheap.c:668-747 | a stored key is in a bucket on the path of its hashed key |
| `MaxheapSearch.InsertStores` | apps/antelope/index-maxheap.c:447-491 | after an insertion exactly the new pair is stored beside the old ones |
| `MaxheapSearch.Search.FindPath` | apps/antelope/index-maxheap.c:690-705 | the levels of the search are the path of the key |
| `MaxheapSearch.Search.ScanBucket` | apps/antelope/index-maxheap.c:722-738 | the first pair with the key from the start on |
| `MaxheapSearch.Search.GetNext` | apps/antelope/index-maxheap.c:668-747 | the value of the next stored key of the range, or the end if none is left |
| `MaxheapSearch.LoadAndSearch` | apps/antelope/index-maxheap.c:447-491 | insertions of different keys into a new index, and then a search: the values of the pairs for which there was room, in the order of the keys |
| `MaxheapSearch.Collect` | apps/antelope/index-maxheap.c:668-747 | with different keys the calls report exactly the stored values of the range, each once in the order of the keys |
| `Coap.IntRoundTrip` | apps/er-coap-07/er-coap-07.c:86-150 | the bytes of an integer without leading zeros give it back |
| `Coap.BlockRoundTrip` | apps/er-coap-07/er-coap-07.c:302-739 | the code of a block option gives back number, flag, size and offset |
| `Coap.PartsMergeIff` | apps/er-coap-07/er-coap-07.c:157-227 | splitting a string into options and merging them gives it back iff it is clean of separators that get lost |
| `CoapRoundTrip.OptReads` | apps/er-coap-07/er-coap-07.c:99-128 | an option with its fence post is read back with its number and value |
| `CoapRoundTrip.ReadsAll` | apps/er-coap-07/er-coap-07.c:558-581 | all options that were written are read back one by one, and reading goes on behind them |
| `CoapRoundTrip.AbsorbsValue` | apps/er-coap-07/er-coap-07.c:584-724 | the options of a value make that value again, strings up to how they are split |
| `CoapRoundTrip.CountedIsEmitted` | apps/er-coap-07/er-coap-07.c:119 | the count in the header exceeds the options written by the number of gaps of 14 or 15 |
| `CoapRoundTrip.KnownValues` | apps/er-coap-07/er-coap-07.c:584-724 | after all options exactly the values of the message are known |
| `CoapRoundTrip.KnownSeen` | apps/er-coap-07/er-coap-07.c:584 | the bitmap has the options of the message and at most the fence post besides |
| `CoapRoundTrip.FewGaps` | apps/er-coap-07/er-coap-07.c:450 | there is at most one gap of 14 or 15 |
| `CoapRoundTrip.CutLoses` | apps/er-coap-07/er-coap-07.c:558-724 | reading fewer options than were written does not give all values |
| `CoapRoundTrip.CountWraps` | apps/er-coap-07/er-coap-07.c:509 | a message with more than 15 options does not come back, since the header counts modulo 16 |
| `CoapRoundTrip.ReturnedIff` | apps/er-coap-07/er-coap-07.c:157-227 | all strings come back iff all are clean |
| `CoapRoundTrip.RoundTripIff` | apps/er-coap-07/er-coap-07.c:302-739 | serializing and parsing gives back header, values and payload iff at most 15 options are counted, none is 14 or 15 behind the one before it, and every string is clean |
| `CoapSamples.SampleParses` | apps/er-coap-07/er-coap-07.c:450 | one message with options 1 and 15: a byte of its payload is read as one more part of the query |
| `CoapLaws.TakenIff` | apps/er-coap-07/er-coap-07.c:584-724 | an option is taken or ignored iff it is known or its number is even; Proxy-Uri has an error of its own |
| `CoapLaws.CriticalRefused` | apps/er-coap-07/er-coap-07.c:714-717 | a datagram is refused with 4.02 if behind options that are taken there is an unknown one with an odd number, and with 5.05 for Proxy-Uri |
| `CoapLaws.RefusedIff` | apps/er-coap-07/er-coap-07.c:535-739 | only for its version or for such an option is a datagram refused |
| `CoapLaws.ElectiveIgnored` | apps/er-coap-07/er-coap-07.c:712-718 | datagrams that differ only in unknown options with even numbers are the same message |
| `CoapLaws.OneMoreOption` | apps/er-coap-07/er-coap-07.c:712-718 | one datagram byte by byte, with any unknown option behind its path |
| `CoapLaws.TwoAccepts` | apps/er-coap-07/er-coap-07.c:584-724 | of the options Accept the first two count |
| `CoapLaws.OpaqueKept` | apps/er-coap-07/er-coap-07.c:584-724 | of an opaque value the first eight bytes are kept |
| `CoapLaws.WrittenInTable` | apps/er-coap-07/er-coap-07.c:302-500 | every option that is written has the length and the form that its number allows |
| `CoapLaws.IntBytesFirst` | apps/er-coap-07/er-coap-07.c:132-150 | numbers are written most significant byte first and without leading zeros |
| `CoapLaws.BlockFields` | apps/er-coap-07/er-coap-07.c:302-500 | a block option is the number, a bit for more blocks, and three bits for the size |
| `CoapBuffer.SetOptionHeader` | apps/er-coap-07/er-coap-07.c:99-112 | the header in its short or its long form |
| `CoapBuffer.InsertFencePosts` | apps/er-coap-07/er-coap-07.c:116-128 | one fence post if the difference is over 15, else none |
| `CoapBuffer.SerializeInt` | apps/er-coap-07/er-coap-07.c:132-150 | the option follows what is there, although its value is written before its header |
| `CoapBuffer.SerializeArray` | apps/er-coap-07/er-coap-07.c:157-203 | the option of a value that is not split follows what is there |
| `CoapBuffer.SerializeParts` | apps/er-coap-07/er-coap-07.c:157-203 | one option for each part of a string, and their number |
| `CoapBuffer.SerializeValue` | apps/er-coap-07/er-coap-07.c:302-500 | the options of one value follow what is there, and are counted |
| `CoapBuffer.SerializeOptions` | apps/er-coap-07/er-coap-07.c:302-500 | the options of all values in the order of their numbers, and their count |
| `CoapBuffer.SerializeMessage` | apps/er-coap-07/er-coap-07.c:302-517 | the whole message, or 0 if its options do not fit |
| `CoapParser.AppendsLayout` | apps/er-coap-07/er-coap-07.c:207-227 | appending a part to a string changes no other value and no byte that has not been read |
| `CoapParser.ParseInt` | apps/er-coap-07/er-coap-07.c:86-96 | the value of the bytes in 32 bits |
| `CoapParser.MoveBehind` | apps/er-coap-07/er-coap-07.c:207-227 | the part stands behind the separator and nothing from its end on changes |
| `CoapParser.Received.TakeText` | apps/er-coap-07/er-coap-07.c:207-227 | a part of a string is merged with what is there |
| `CoapParser.Received.TakeOption` | apps/er-coap-07/er-coap-07.c:584-724 | every option is kept, noted, merged or refused as its kind says |
| `CoapParser.Received.NextOption` | apps/er-coap-07/er-coap-07.c:570-584 | one option is read from bytes that are as they arrived |
| `CoapParser.Received.ParseAll` | apps/er-coap-07/er-coap-07.c:562-724 | after the loop the values are those of the message although strings have been merged in place |
| `CoapParser.Received.ParseMessage` | apps/er-coap-07/er-coap-07.c:535-739 | parsing in the buffer ends with the values of the message as it arrived, or its error |
| `Blockwise.Handler.PutChar` | apps/er-coap-07/er-coap-07-engine.c:329-339 | a character in the window is added, and only then |
| `Blockwise.Handler.Print` | apps/er-coap-07/er-coap-07-engine.c:344-346 | as much of a string as there is room for, and the length of all of it |
| `Blockwise.Handler.PutString` | apps/er-coap-07/er-coap-07-engine.c:341-352 | the part of a string in the window is added; full iff the window ends in it |
| `Blockwise.Handler.PutLink` | apps/er-coap-07/er-coap-07-engine.c:329-395 | one entry is added, and writing stops iff it does not fit or its attributes end the list and fill the window |
| `Blockwise.Handler.PutResources` | apps/er-coap-07/er-coap-07-engine.c:319-396 | the window of the whole list is in the buffer, and writing stops iff more is to come |
| `Blockwise.Handler.Finish` | apps/er-coap-07/er-coap-07-engine.c:398-421 | the payload, the error for an offset behind the list, and the next offset |
| `Blockwise.ApplyBlocks` | apps/er-coap-07/er-coap-07-engine.c:163-196 | a handler that knows nothing of blocks gets its payload cut to the block, one that does gets it clipped |
| `Blockwise.Respond` | apps/er-coap-07/er-coap-07-engine.c:137-196 | the answer has exactly the bytes of the block and says whether it is the last |
| `Blockwise.FetchStep` | apps/er-coap-07/er-coap-07-engine.c:474-519 | one more block extends what the client has |
| `Blockwise.FetchList` | apps/er-coap-07/er-coap-07-engine.c:474-519 | the client loop puts the list together, with an error text behind it iff the list ends in attributes and fills its last block |
| `LinkFormat.ListIsRead` | apps/er-coap-07/er-coap-07-engine.c:319-396 | a reader of link format gets back every listed resource, in order, with its name and its attributes |
| `LinkFormat.FetchEntries` | apps/er-coap-07/er-coap-07-engine.c:474-519 | so does the reader of what the client has put together, if no error text follows it |
| `Transactions.TotalWait` | apps/er-coap-07/er-coap-07-transactions.c:111-120 | the n-th interval is 2^n times the first, all together 2^n - 1 times the first |
| `Transactions.WaitBound` | apps/er-coap-07/er-coap-07-transactions.c:104-148 | a transaction that times out has waited exactly 15 times its first interval, no other one longer |
| `Transactions.DistinctBelow` | apps/er-coap-07/er-coap-07-transactions.c:65 | the list is never longer than the pool |
| `Transactions.AllocatedSound` | apps/er-coap-07/er-coap-07-transactions.c:78-95 | allocating keeps the invariant of pool, list and histories |
| `Transactions.ChangedSound` | apps/er-coap-07/er-coap-07-transactions.c:98-154 | sending again keeps it |
| `Transactions.FreedSound` | apps/er-coap-07/er-coap-07-transactions.c:157-167 | freeing keeps it |
| `Transactions.EveryTransaction` | apps/er-coap-07/er-coap-07-transactions.c:77-199 | every transaction is sent at most five times, waits with doubled intervals, and leaves the list once, when it has ended |
| `Transactions.Layer.New` | apps/er-coap-07/er-coap-07-transactions.c:78-95 | a slot that was free is put at the end of the list, or the pool is full |
| `Transactions.Layer.Clear` | apps/er-coap-07/er-coap-07-transactions.c:157-167 | the slot is free and off the list, and nothing else changes |
| `Transactions.Layer.Arm` | apps/er-coap-07/er-coap-07-transactions.c:106-132 | the interval is random at first and doubled later, and the timer runs |
| `Transactions.Layer.Send` | apps/er-coap-07/er-coap-07-transactions.c:98-154 | a confirmable message waits again or, after the last retransmission, is over; any other is over at once |
| `Transactions.Layer.ByMid` | apps/er-coap-07/er-coap-07-transactions.c:170-183 | a listed transaction with the message number, or none has it |
| `Transactions.Layer.Request` | apps/er-coap-07/er-coap-07-transactions.c:77-154 | a request is sent once and waits, or is refused because the pool is full |
| `Transactions.Layer.Response` | apps/er-coap-07/er-coap-07-engine.c:236-248 | exactly a transaction with the message number ends |
| `Transactions.Layer.Check` | apps/er-coap-07/er-coap-07-transactions.c:186-199 | in the order of the list the expired transactions are sent again, up to the first that times out, where the walk ends |
| `Transactions.CheckedAt` | apps/er-coap-07/er-coap-07-transactions.c:186-199 | transaction by transaction: one whose timer runs stays as it is, one whose timer has gone off is sent again with a doubled interval |
| `Transactions.CheckedTo` | apps/er-coap-07/er-coap-07-transactions.c:186-199 | the first one that times out leaves, and those behind it wait for the next check |
| `Transactions.Unanswered` | apps/er-coap-07/er-coap-07-transactions.c:77-199 | a confirmable message that nobody answers is sent five times, with waits of 1, 2, 4 and 8 times the first one, and then times out |
| `Transactions.Run` | apps/er-coap-07/er-coap-07-transactions.c:77-199 | any run of requests, responses, timers and checks keeps the invariant |
| `Codeprop.Sender.SendSlice` | apps/codeprop/codeprop.c:203-242 | the next slice of at most 32 bytes is sent and the address moves behind it |
| `Codeprop.Sender.GetNack` | apps/codeprop/codeprop.c:248-258 | only a request that points back moves the address |
| `Codeprop.Receiver.ReceiveSlice` | apps/codeprop/codeprop.c:314-334 | a slice at the expected address is stored, a later one is answered with a request, an earlier one is ignored |
| `Codeprop.Receiver.Receive` | apps/codeprop/codeprop.c:278-358 | the receiving thread for one message, the overwritten address of a first packet included |
| `Codeprop.Receiver.Timeout` | apps/codeprop/codeprop.c:336-345 | the expected byte is asked for again |
| `Codeprop.TakeSliceSound` | apps/codeprop/codeprop.c:314-334 | storing a slice keeps what the receiver has in step with the image |
| `Codeprop.StepSound` | apps/codeprop/codeprop.c:202-358 | every event keeps the network sound |
| `Codeprop.RunSound` | apps/codeprop/codeprop.c:202-358 | every run does |
| `Codeprop.PrefixIff` | apps/codeprop/codeprop.c:291-301 | what a receiver has is a prefix of the image iff the packet it began with has the first bytes of the image |
| `Codeprop.PrefixSafety` | apps/codeprop/codeprop.c:202-358 | under any loss, duplication, reordering and going back: the sender stays in the image, and the store is a prefix of the image exactly then, the whole of it when the loop has ended |
| `Codeprop.EmptyImage` | apps/codeprop/codeprop.c:278-312 | an image without bytes is there at once, and hearing of it again changes nothing |
| `Codeprop.NackRecovers` | apps/codeprop/codeprop.c:248-334 | a receiver that hears a slice too late asks for the one it misses, and gets it: the sender goes back, and the slice is stored |
| `Codeprop.LateNackIsVain` | apps/codeprop/codeprop.c:291-301 | a receiver that begins with a later slice makes the sender go back to the start, and does not take what it then sends |
| `Codeprop.LateStart` | apps/codeprop/codeprop.c:270-301 | a receiver that first hears a later packet ends with another image |
| `CodepropObjects.RunThreads` | apps/codeprop/codeprop.c:202-358 | a run of the threads on the objects is the run of the network |
| `CodepropObjects.Propagate` | apps/codeprop/codeprop.c:202-358 | what the receivers have in their memory after any run is a prefix of the image, if they began with its start |
| `Slip.FrameOnLine` | tools/tunslip.c:663-679 | END ends packets and stands nowhere in them, and ESC is followed by one of its two codes |
| `Slip.PlainOnLine` | tools/tunslip.c:663-679 | other bytes are sent as they are |
| `Slip.EscapesOnLine` | tools/tunslip.c:663-679 | the frames of the two bytes that are escaped |
| `Slip.FeedFrames` | tools/tunslip.c:455-585 | decoding the frames of packets of at most 1999 bytes gives exactly the packets |
| `Slip.BurstsDoNotMatter` | tools/tunslip.c:455-585 | how the bytes are split into reads makes no difference, not even between ESC and its successor |
| `Slip.RoundTrip` | tools/tunslip.c:455-681 | whatever part of the stream has arrived in whatever pieces, the packets decoded are the first ones sent, and all of them at its end |
| `Slip.Writer.SlipSend` | tools/tunslip.c:591-597 | the byte is the next of the stream, or the buffer is full |
| `Slip.Writer.FlushBuf` | tools/tunslip.c:606-625 | what the system takes goes out and the stream stays the same |
| `Slip.Writer.SendByte` | tools/tunslip.c:663-677 | the byte is escaped if needed |
| `Slip.Writer.SendPacket` | tools/tunslip.c:663-679 | the stream grows by the frame of the packet, if it fits |
| `Slip.Reader.PutByte` | tools/tunslip.c:472-582 | the byte belongs to the packet, or the packet is too long and starts again |
| `Slip.Line.Run` | tools/tunslip.c:455-681 | both ends in any order of sending, flushing and reading, in pieces of any size: the packets that arrived are the first ones sent, and all of them once nothing is under way |
| `Slip.Reader.SerialToTun` | tools/tunslip.c:455-585 | a burst of bytes is decoded and the packets in it are delivered |
| `InternetChecksum.SumCongruent` | tools/tunslip.c:344-362 | for any length the sum is congruent to start and words modulo 65535, and zero only if they are |
| `InternetChecksum.Ip4Sum` | tools/tunslip.c:344-362 | the loop computes the folded sum, an odd last byte as the high byte of a word |
| `InternetChecksum.PassesIff` | tools/tunslip.c:365-413 | a sum passes iff the total is a multiple of 65535 |
| `InternetChecksum.CheckIp` | tools/tunslip.c:365-413 | the code for the first thing wrong with a packet, or 0 |
| `InternetChecksum.SetIdentification` | tools/tunslip.c:643-650 | the identification is set and the checksum changed, in the order of the host |
| `InternetChecksum.ChangeCancels` | tools/tunslip.c:643-650 | the change of the checksum cancels that of the identification modulo 65535, in either byte order |
| `InternetChecksum.RenumberedPasses` | tools/tunslip.c:643-656 | a valid packet with identification 0 is valid with any other |
| `InternetChecksum.FillChecksums` | tools/tunslip.c:319-328 | the two checksums of a relayed answer, one after the other |
| `InternetChecksum.RelayedPasses` | tools/tunslip.c:302-328 | a relayed answer passes the check, and its UDP checksum is not switched off |
| `ChecksumLaws.PassesCheckIff` | tools/tunslip.c:365-413 | exactly the packets of version 4 pass that are as long as they say and whose header and payload add up; a UDP packet may have no checksum |
| `ChecksumLaws.HeaderErrorShows` | tools/tunslip.c:365-413 | a packet that passes does not pass with another word in its header |
| `ChecksumLaws.PayloadErrorShows` | tools/tunslip.c:365-413 | nor with another word in its payload, and the code names the protocol |
| `ChecksumLaws.LengthErrorShows` | tools/tunslip.c:365-413 | nor in another version, shortened or lengthened, each with its own code |
| `ChecksumLaws.RenumberedReads` | tools/tunslip.c:643-650 | a new identification is read back, and only it and the checksum change |

## Left out

- DelugeThreeVersions.DisseminatesIff: object ids, corrupted payloads and liveness are not modelled; in a run the page count is fixed and at most 255, profiles of another length are ignored, and the length test of the dispatcher (`apps/deluge/deluge.c:607-609`), which multiplies by the first version in the vector, is left out; clocks, random delays and Trickle intervals are inputs.
- Deluge.DelugeNode.ReceiveProfile: a profile with fewer pages than the object is excluded, since the source then copies the old table over the end of the new one; so is one with more pages without memory, after which the table is shorter than the object.
- Deluge.DelugeNode.ReplacePages: the new table is not shorter than the old one, for the same reason.
- AqlParser.Parser.ParseWhere: clauses that may need more than the code array are excluded for the same reason as in Compile; parenthesised groups and leading parentheses are read as the source reads them, but only clauses without them have a meaning stated; strings and floats in a condition leave no code; tokens are given.
- AqlParser.Parser.constructor: the number of different names is bounded by the variable table, which the source does not check while parsing.
- Lvm.Machine.ShiftForOperator: an end of the code with two or three free bytes is excluded, where the test of the source (`apps/antelope/lvm.c:337`) leaves out the node type and the move runs over the end of the array.
- Lvm.Machine.RegisterVariable: the table has seven entries and the test of the source is for eight, so it writes an eighth entry behind the table; the bound is a requirement on the clause instead, and the error for a ninth name is left out.
- AqlWhere.Compile: a clause whose code or variables exceed their arrays is excluded, because of these two tests.
- Lvm.Machine.EvalExpr: arithmetic is unbounded where the source computes in C longs, with truncating division.
- Lvm.Machine.GetOperand: the unused bytes of a variable's operand are taken as zero.
- LvmDerive.EitherSoundIff: states the exact condition for an OR of two comparisons on different variables; for deeper predicates only the sufficient condition is proved.
- InlineIndex.Iterator.GetNext: the static cache of the window belongs to one iterator at a time, and equal keys in a column are not modelled.
- RelationSelect.Selection.Process: aggregation is left out, and names of attributes in a relation differ.
- RowFields.FillRecord: attributes that have been removed, the insertion into an index and the storing of the record are left out; the memory of a string reaches as far as its attribute, since the source copies that much.
- LinkFormat.ListIsRead: names with a '>' and attributes with a comma, which the source writes as they are, are excluded.
- RelationJoin.Join: attributes are added to the result without running out of memory, and storing a joined row does not fail.
- RelationJoin.InlineJoinIff: what a search outside the column compares with is not modelled, so no result is stated for a join in which it happens.
- StorageCfs.TupleFile.PutRow: the integrity feature, which is off by default, is left out; a write of the file system that stores nothing for ever is not modelled.
- StoredRelation.SelectInto: attributes that only the condition needs have room in the stored row, whose content there is left open.
- MaxheapSearch.Search.GetNext: buckets are read from storage and not from the cache, which is not refreshed on append; equal keys are excluded because the start of a scan is not reset between buckets; the hash is any function; loading an index from its file is left out.
- CoapBuffer.SerializeMessage: options that do not fit into the buffer are excluded, since the source writes them before it checks; the unrolled order of the options is a loop over their numbers, and Proxy-Uri is left out.
- CoapParser.Received.ParseAll: options that end outside the datagram are excluded, since the source reads on behind it.
- CoapParser.Received.ParseMessage: the same datagrams are excluded.
- Blockwise.Handler.PutResources: whether a resource passes the filter of the query is given for each resource.
- Blockwise.FetchList: the server is this one and always answers; offsets stay below 2^31 because block numbers have 20 bits.
- Transactions.Layer.Request: a transaction is allocated and sent in one event, as all callers do; callbacks do not open transactions, observers and addresses are left out, and intervals do not overflow.
- Codeprop.Receiver.Receive: a transfer is one image of at most the store's size with one sender; the timeout of a connection, loading and starting the program, and liveness are left out.
- Slip.Reader.SerialToTun: the lines that configure an address or carry debugging output are left out; packets go to the checks that follow.
- InternetChecksum.CheckIp: packets shorter than the fields that are read are excluded, since the source reads behind them.
- InternetChecksum.FillChecksums: the relaying of DHCP options in front of it is left out.
- The near-duplicates of the modelled files (`apps/er-coap-03`, `codeprop-tmp.c`, `tapslip6.c`, `tunslip6.c`), user interfaces, drivers, radio, uIP, the file systems below and the remaining applications would add only easy members.
