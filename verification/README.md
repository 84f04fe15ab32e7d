# Verified models of BIND 9 algorithms

This project models the parts of BIND 9 in which many steps have to agree with
each other, and proves what they promise. Each part follows the code in its own
form: loops are methods with invariants, objects that the program updates are
classes, buffers are arrays, and the threads of the signer are a state machine.
Each method is proved against a specification that does not mention its loop, and
the properties of the specification are theorems for all inputs or all runs.

| files | part of the system |
|---|---|
| `WireName` | decoding of compressed names (section 4.1.4 of RFC 1035) |
| `Names`, `Zone`, `ZoneDb` | canonical order, zone contents and the edits of the signer |
| `Nsec` | the NSEC chain of a signed zone |
| `Empties`, `HashList`, `Nsec3` | the NSEC3 chain: two walks, the list of hashes and the empty non-terminals |
| `Workers`, `Assign` | the signer's threads and the nodes they are given |
| `SignSet` | which signatures of an RRset are kept, dropped or made |
| `Transfer`, `TransferStreams` | when a zone transfer is complete |
| `Search` | the search list of dig and its limit |
| `Serial`, `Replay`, `Digests`, `Cds`, `CdsDelete` | updating DS records from CDS and CDNSKEY |
| `Dns64`, `Synthesis` | DNS64 addresses and their reverse names |

`Base` holds facts about sequences.

## Where the code does something else than it says

- An NSEC3 zone with a DNAME at its apex: `nsec3ify` covers no name below the
  apex, but `assignwork` skips the apex before it looks for a DNAME and signs
  them (`Assign.ApexDname`). `Assign.SignedIsCovered` gives the exact condition,
  with and without opt-out.
- `setup_lookup` leaves the search list for later when a name has enough dots,
  but `next_origin` counts labels and refuses. `Search.SearchExactly` says which
  attempts follow. With an empty list the bare name is tried twice.
- A search list of more than 64 origins is not tried to its end
  (`Search.SearchOrder`).
- An incremental transfer is taken to be complete early if a difference sequence
  starts from the newest serial (`TransferStreams.IxfrCompleteIff`).
- `assignwork` says that NSEC records tell the zone's data from data out of zone.
  `nsecify` leaves nodes before the apex alone, so one that comes with an NSEC
  record is signed (`Assign.NsecSignedExactly`, `Assign.OutsideSigned`).
- `consistent_digests` is there to make sure that every key has the same digest
  types. It lets the last key lack some of the highest (`Digests.UniqueExactly`,
  `Digests.LastKeyMayLack`), and it takes keys that share tag and algorithm for
  one, so that it refuses sets in which all types agree
  (`Digests.ConsistentExactly`, `Digests.SharedTagRefused`).
- The time recorded by dnssec-cds can make the next run refuse what this one
  accepted, if an inception time is zero or times are half a circle apart
  (`Replay.SecondRun`); and the next run can accept a signature that this one
  refused as too old (`Replay.RefusedAgain`).
- `signed_strict` is there to make sure that every algorithm of the new DS set
  signs. It compares with a table in which zero stands for a key that does not, so
  a record of algorithm zero passes when some key does not sign. The request to
  remove the DS records (section 4 of RFC 8078), as a CDNSKEY record, is made into
  such a record and written (`Cds.StrictExactly`, `CdsDelete.DeleteAccepted`), and
  the next run may refuse the set again (`Cds.Rerun`, `CdsDelete.RerunFails`).
- `signset` keeps a signature dated in the future without verifying it and takes
  it for the key's own, so that the key makes none (`SignSet.CoverageExactly`,
  `SignSet.FutureSuppresses`).
- A comment in `dns64_cname` says that 192.0.0.170 and 192.0.0.171 map to
  ipv4only.arpa. The comparison looks at the last four octets whatever the prefix,
  so under prefixes shorter than 96 bits these two have a CNAME when the suffix is
  zero (`Synthesis.WellKnownOnlyFor96`), and under prefixes of at most 56 bits a
  suffix of that form sends every address to ipv4only.arpa (`Synthesis.PtrExactly`).

## Assumptions

- A name is the list of its labels from the root down, in lower case. The
  database iterator gives nodes in canonical order; an RRset is known by its type
  and, for a signature, the type it covers.
- NSEC3 hashing is an arbitrary function with results of one size. Digests,
  signature verification, key files and the reading of names from text are
  arbitrary functions too. Fatal errors of the libraries are outside the model;
  fatal errors of the programs are results.
- `qsort` and `bsearch` are an insertion sort and a binary search.
- That the NSEC3 tree holds one node for each record made, under a name made from
  its hash, is a precondition of `Assign.RecordsSigned`.
- `hashlist_findnext` is called, as in the program, with a key whose flag octet is
  zero.

## Model

| member | source | states |
|---|---|---|
| `WireName.FromWire` | fuzz/old.c:54-223 | For every message, start and target the decoder gives the outcome of the recursive specification `Decode`: the same result code, the same labels in wire form in the target, the offset of every label, and consumption that ends after the first pointer. On an error nothing is consumed and the name stays empty. Nothing outside the min(available, 255) octets after `used` is written, and at most 128 offsets are used |
| `WireName.ReadName` | fuzz/old.c:132-197 | The byte-at-a-time loop terminates on every input by the measure (largest pointer allowed, octets left), reads only below `active`, and ends with the specification's name or error |
| `WireName.StartLabel` | fuzz/old.c:141-153 | A length octet ends in "too long", in a finished name that is the specified one, or in progress towards it, with the offset recorded in bounds |
| `WireName.CopyOctet` | fuzz/old.c:167-176 | A label octet, lowered if asked for, is appended and the decoding still stands for the specified name, whether or not the label is now complete |
| `WireName.FoldIs` | fuzz/old.c:167-170 | Lowering takes each capital to the small letter at its place in the alphabet, leaves all other octets alone and need not be repeated |
| `WireName.StartPointer` | fuzz/old.c:154-165 | An octet from 64 on is the specified error (bad label type, or compression not permitted) or the first half of a pointer |
| `WireName.FollowPointer` | fuzz/old.c:177-188 | A pointer not below every earlier target and the start of the name is the specified error; otherwise the bound strictly falls |
| `WireName.DecodeSound` | fuzz/old.c:110-151 | Every name that is decoded has labels of 1 to 63 octets and fits in the room it was given |
| `WireName.DecodeEnd` | fuzz/old.c:177-204 | A decoded name consumes at least one octet and ends inside the message |
| `WireName.LessRoom` | fuzz/old.c:110-151 | For every message there is a number of octets, `Needed`, such that with less room the outcome is "full" and with at least as much it does not depend on the room, names and errors alike |
| `WireName.NameNeeds` | fuzz/old.c:110-151 | For a name that number is the length of its wire form |
| `WireName.OutgrownExactly` | fuzz/old.c:110-151 | With the room that the target leaves, the outcome is "name too long" if and only if the name needs more than 255 octets and the target has as many left, and "no space" if and only if it has fewer and they do not suffice |
| `WireName.LabelsFirst` | fuzz/old.c:139-176 | Labels that stand in a message are decoded first whatever follows them, or the name is too long exactly when they do not fit |
| `WireName.RoundTrip` | fuzz/old.c:124-205 | Decoding the wire form of a name gives the name back and consumes exactly its wire form, if and only if it fits; otherwise the outcome is "full" |
| `WireName.Compression` | fuzz/old.c:154-188 | Labels followed by a pointer to a name decode to the labels followed by that name and consume the labels and two octets, exactly when the pointer leads below the start and the whole fits; every other case has its own error |
| `Names.LessTotal` | lib/dns/name.c:354-452 | The canonical order of section 6.1 of RFC 4034 is total and irreflexive on names |
| `Names.LessTransitive` | lib/dns/name.c:354-452 | The canonical order is transitive |
| `Names.LexIs` | lib/dns/name.c:354-452 | An octet string comes first exactly when it is a proper prefix of the other or has the smaller octet at the first place where they differ |
| `Names.LessIs` | lib/dns/name.c:354-452 | A name comes first exactly when it is above the other or, at the first label from the root at which they differ, has the label that comes first |
| `Names.BelowIsLater` | lib/dns/name.c:354-452 | A name comes after every name above it |
| `Names.SubtreeContiguous` | lib/dns/name.c:354-452 | Whatever lies between two names of a subtree in canonical order is in the subtree |
| `Zone.CutStep` | bin/dnssec/dnssec-signzone.c:1890-1898 | Because subtrees are contiguous, remembering only the latest delegation or DNAME is enough to know what all earlier ones hide |
| `Zone.CutDecides` | bin/dnssec/dnssec-signzone.c:1913-1915 | At each node of the walk, being strictly below the one remembered cut is equivalent to being strictly below some cut of the zone |
| `Zone.VisibleAlike` | bin/dnssec/dnssec-signzone.c:1884-1939 | Edits that keep activity, NS and DNAME of every node do not change which names the zone is authoritative for |
| `ZoneDb.Db.ActiveNode` | bin/dnssec/dnssec-signzone.c:1256-1378 | Reports whether the node has data other than NSEC, NSEC3 and RRSIG, and leaves exactly the sets that are not stale |
| `ZoneDb.CleanedSameData` | bin/dnssec/dnssec-signzone.c:1256-1378 | Cleaning a node never removes data |
| `ZoneDb.Db.RemoveSigs` | bin/dnssec/dnssec-signzone.c:1769-1807 | Removes the signatures at one node, at a delegation all but those of DS (and of NSEC in an NSEC zone), and changes no other node |
| `ZoneDb.Db.RemoveRecords` | bin/dnssec/dnssec-signzone.c:1722-1761 | Removes a type with its signatures at one node, and refuses exactly when a denial chain would be replaced without -u |
| `ZoneDb.Db.AddDs` | bin/dnssec/dnssec-signzone.c:1684-1716 | Replaces the DS set of a delegation by the one on file, or removes it with its signatures |
| `ZoneDb.Db.AddNsec3Param` | bin/dnssec/dnssec-signzone.c:1945-1998 | Adds an NSEC3PARAM set at the origin and nowhere else |
| `Nsec.FindNext` | bin/dnssec/dnssec-signzone.c:1900-1926 | Stops at the next name the zone is authoritative for, passing over only names it is not. Each node looked at is left with exactly the sets specified, none of those passed over with an NSEC record, and nodes further on are as they were |
| `Nsec.LookAt` | bin/dnssec/dnssec-signzone.c:1903-1925 | One node is taken exactly when the zone is authoritative for it; otherwise it loses its NSEC record and its signatures and no data |
| `Nsec.Visit` | bin/dnssec/dnssec-signzone.c:1884-1898 | Prepares a name: at the apex NSEC3PARAM is removed, at a delegation the signatures other than those of NSEC and DS, and with -g the DS set is the one on file; the sets left are exactly those specified. It remembers the name if it is a cut, and refuses, changing nothing, exactly when NSEC3PARAM would be removed without -u |
| `Nsec.Link` | bin/dnssec/dnssec-signzone.c:1867-1939 | One turn of the walk extends the chain by one record, finishes the node and keeps the walk's invariant |
| `Nsec.Nsecify` | bin/dnssec/dnssec-signzone.c:1813-1942 | For every zone in canonical order with an SOA at its apex: afterwards, from the apex on, exactly the active in-zone names not strictly below a delegation or DNAME have NSEC records, each points to the next such name and the last one to the origin. What each node holds is stated set by set: a delegation has a DS set if and only if, with -g, there is one on file, or otherwise it had one; other names keep theirs; the apex has no NSEC3PARAM; all other data stays and nothing is added; a signature stays if and only if the set it covers was there, at a delegation only those of NSEC and of a DS set that stays; other nodes keep their data alone. Nodes before the apex, which are out of zone, are left alone. It fails, changing nothing, exactly when NSEC3PARAM would be removed without -u |
| `Nsec.FinalMeans` | bin/dnssec/dnssec-signzone.c:1884-1939 | What the edits of the walk, one after the other, leave at each node from the apex on, said set by set without them |
| `Nsec.Ring` | bin/dnssec/dnssec-signzone.c:1867-1939 | The chain is one ring: following it from the origin visits every such name once in canonical order and returns to the origin |
| `Nsec.NewCutPassed` | bin/dnssec/dnssec-signzone.c:1890-1898 | No later name equals the remembered cut, so "subdomain of" and "strictly below" agree in the walk |
| `Empties.ChainIs` | bin/dnssec/dnssec-signzone.c:2396-2415 | The names covered by the spans between successive names are exactly those names and the empty non-terminals above them, for every ascending list that starts with the origin |
| `Empties.ChainDistinct` | bin/dnssec/dnssec-signzone.c:2396-2415 | No name, in particular no empty non-terminal, is covered twice |
| `Empties.LaterIs` | bin/dnssec/dnssec-signzone.c:2396-2415 | What is covered after a name: the ancestors of later names that are not its own ancestors |
| `Empties.InSpan` | bin/dnssec/dnssec-signzone.c:2402-2415 | An ancestor of the next name belongs to a span exactly when the current name is not below it |
| `HashList.List.constructor` | bin/dnssec/dnssec-signzone.c:797-811 | An empty list whose slots have room for a hash and its flag octet |
| `HashList.List.Add` | bin/dnssec/dnssec-signzone.c:825-838 | Appends one entry, padded with zeros, growing the flat buffer when it is full and keeping all earlier entries |
| `HashList.List.AddHash` | bin/dnssec/dnssec-signzone.c:841-861 | Appends a hash with its speculative flag |
| `HashList.List.Sort` | bin/dnssec/dnssec-signzone.c:863-874 | In place, the entries end up in ascending order (of two that differ the earlier one has the smaller octet at the first place where they differ) and are a permutation of what they were |
| `HashList.List.HasDup` | bin/dnssec/dnssec-signzone.c:877-902 | On a sorted list: true if and only if two non-speculative entries anywhere have the same hash |
| `HashList.List.FindNext` | bin/dnssec/dnssec-signzone.c:905-924 | For a hash in the list: the index found is the circular successor among the non-speculative entries, and the search never runs empty |
| `HashList.List.Exists` | bin/dnssec/dnssec-signzone.c:927-934 | Binary search on the sorted buffer finds exactly the non-speculative hashes present |
| `HashList.DuplicateAnyOrder` | bin/dnssec/dnssec-signzone.c:869-902 | Whether a duplicate is found does not depend on the order in which hashes were added |
| `HashList.HashRing` | bin/dnssec/dnssec-signzone.c:905-924 | In a sorted list without duplicates the successors form one ring through all non-speculative hashes, skipping speculative ones; each leads to a hash that agrees with it up to some octet and is greater there, except for the last, which leads to the first |
| `Nsec3.Consider` | bin/dnssec/dnssec-signzone.c:2349-2383 | One look at a node: it is taken exactly when it is covered (visible, and not an insecure delegation under opt-out). The first walk leaves it with exactly the sets stated: data without NSEC, the DS set it is to have, and the signatures that cover data that stays, at a delegation only that of DS; the second walk finds nothing to change |
| `Nsec3.FindNext` | bin/dnssec/dnssec-signzone.c:2343-2384 | Either walk stops at the next covered name and nowhere else |
| `Nsec3.Turn` | bin/dnssec/dnssec-signzone.c:2333-2391 | One turn of either walk moves to the next covered name; only the first walk can fail, exactly when NSEC would be removed without -u |
| `Nsec3.AddName` | bin/dnssec/dnssec-signzone.c:937-968 | Adds the hash of a name and, exactly when the wildcard below it is not in the zone and not too long, that wildcard's hash as speculative |
| `Nsec3.AddSpan` | bin/dnssec/dnssec-signzone.c:2392-2415 | Adds the entries for a name and for exactly the empty non-terminals between it and the next name, in order |
| `Nsec3.Collect` | bin/dnssec/dnssec-signzone.c:2316-2416 | The first walk leaves in the list exactly the entries for the names of the chain in order, and the nodes edited but alike |
| `Nsec3.RealsCollected` | bin/dnssec/dnssec-signzone.c:2392-2415 | The non-speculative entries collected are the hashes of the names of the chain, one for each |
| `Nsec3.SpeculativeIs` | bin/dnssec/dnssec-signzone.c:937-968 | The speculative entries collected are exactly the hashes, with flag octet 1, of the wildcards below names of the chain that are not in the zone and whose wire form has at most 255 octets |
| `Nsec3.CollectName` | bin/dnssec/dnssec-signzone.c:2333-2415 | One turn of the first walk adds the entries for a name and its span and keeps the account of what is still to come |
| `Nsec3.SortAndCheck` | bin/dnssec/dnssec-signzone.c:2419-2430 | A duplicate is reported exactly when two names of the chain have the same hash |
| `Nsec3.ReadyAgain` | bin/dnssec/dnssec-signzone.c:2435-2464 | After the edits of the first walk and the NSEC3PARAM record, a new walk sees the same covered names and the same secure delegations |
| `Nsec3.AddRecord` | bin/dnssec/dnssec-signzone.c:2001-2025 | The look-up of the name's hash succeeds and the record links it to the circular successor |
| `Nsec3.AddRecords` | bin/dnssec/dnssec-signzone.c:2535-2548 | Records are added for a name and exactly the empty non-terminals up to the next name |
| `Nsec3.MakeName` | bin/dnssec/dnssec-signzone.c:2483-2548 | One turn of the second walk makes the records for a name and its span and keeps the account of what is still to come |
| `Nsec3.MakeRecords` | bin/dnssec/dnssec-signzone.c:2466-2549 | The second walk visits the names of the first and makes a record for each name of the chain, every look-up finding its hash |
| `Nsec3.Nsec3ify` | bin/dnssec/dnssec-signzone.c:2288-2551 | Two passes agree: the result is a refusal without -u, which changes nothing, a duplicate hash exactly when two names collide, or sorted entries and records for exactly the covered names and the empty non-terminals above them. A walk over the zone as it is left finds the same chain again. What every node is left with is stated set by set: from the apex on no NSEC, at a delegation the DS set it is to have, signatures only of data that stays, at a delegation only of DS and out of zone none; the apex has an NSEC3PARAM set; nodes before the apex are as they were |
| `Nsec3.SettledFirst` | bin/dnssec/dnssec-signzone.c:2349-2383 | What the edits of the first walk leave at a node, said set by set without them |
| `Nsec3.SettledAgain` | bin/dnssec/dnssec-signzone.c:2483-2534 | The cleaning of the second walk keeps that |
| `Nsec3.CoveredIncluded` | bin/dnssec/dnssec-signzone.c:2316-2391 | The covered names are in canonical order, begin with the origin and lie in the zone, which is what the theorems on empty non-terminals need |
| `Nsec3.RecordRing` | bin/dnssec/dnssec-signzone.c:2466-2549 | The records made form a single ring through all hashes of the chain: the next hash of each record agrees with its own up to some octet and is greater there, except for the last, which leads to the first |
| `Nsec3.RecordOnRing` | bin/dnssec/dnssec-signzone.c:2466-2549 | Every record made is on that ring |
| `Workers.InvStep` | bin/dnssec/dnssec-signzone.c:1564-1678 | Every step of every worker keeps the invariant that ties claims, signatures, the position of the shared iterator, `ended` and the shutdown request together |
| `Workers.Safety` | bin/dnssec/dnssec-signzone.c:1564-1678 | In every run with any interleaving: no node is claimed twice, only eligible nodes are claimed, none is signed without a claim or twice, and shutdown is requested at most once and only when every worker has ended |
| `Workers.Completion` | bin/dnssec/dnssec-signzone.c:1564-1678 | A run that cannot go on has signed every eligible node exactly once, every worker has ended once, and shutdown was requested exactly once |
| `Workers.Termination` | bin/dnssec/dnssec-signzone.c:1564-1678 | No run has more than two steps for each node and one for each worker |
| `Assign.Assigner.Claim` | bin/dnssec/dnssec-signzone.c:1581-1667 | The code under the lock refines the claim step of the state machine: it hands out the next eligible node, or ends the worker |
| `Assign.Assigner.FindNode` | bin/dnssec/dnssec-signzone.c:1594-1657 | The search under the lock finds the first node from the iterator on that is to be signed, or none when there is none |
| `Assign.LookIs` | bin/dnssec/dnssec-signzone.c:1604-1641 | The one remembered cut decides correctly, node by node, whether a node is to be signed |
| `Assign.ChainEligible` | bin/dnssec/dnssec-signzone.c:1598-1619 | Every node with an NSEC3 set (in an NSEC zone, an NSEC set) is to be signed, whatever else there is at it, except the apex, which never is; in an NSEC zone no other node is |
| `Assign.ChainSigned` | bin/dnssec/dnssec-signzone.c:1564-1678 | When the workers are done, in whatever order they ran, each such node has been signed exactly once, and no node more often |
| `Assign.RecordsSigned` | bin/dnssec/dnssec-signzone.c:1564-1678 | From nsec3ify to the signatures: if the NSEC3 tree holds the records made, the record of every name of the chain is signed exactly once when the workers are done, and every node of that tree is such a record |
| `Assign.NsecSigned` | bin/dnssec/dnssec-signzone.c:1612-1619 | In an NSEC zone the nodes besides the apex that workers sign are exactly those that nsecify chained and those before the apex that brought an NSEC record along |
| `Assign.NsecSignedExactly` | bin/dnssec/dnssec-signzone.c:1604-1619 | Signed and authoritative agree on all nodes besides the apex if and only if no node before the apex, out of zone, has an NSEC record |
| `Assign.OutsideSigned` | bin/dnssec/dnssec-signzone.c:1604-1619 | A concrete zone in which a name out of zone is signed |
| `Assign.Nsec3Signed` | bin/dnssec/dnssec-signzone.c:1620-1641 | In an NSEC3 zone whose apex has no DNAME the active nodes that workers sign are exactly those that nsec3ify covers |
| `Assign.ApexDname` | bin/dnssec/dnssec-signzone.c:1598-1641 | In the zone with SOA and DNAME at its apex and an A record below, the name below is signed but not covered, with or without opt-out |
| `Assign.SignedIsCovered` | bin/dnssec/dnssec-signzone.c:1598-1641 | Signed and covered agree on all active names besides the apex if and only if the apex has no DNAME or every other active name of the zone is, under opt-out, an insecure delegation or below one |
| `Assign.SignedAbove` | bin/dnssec/dnssec-signzone.c:1620-1641 | Any other active name is signed, or the topmost cut that hides it is, unless the name is opted out |
| `Assign.OptedOutUnsigned` | bin/dnssec/dnssec-signzone.c:1625-1633 | Insecure delegations and what lies below them are not signed under opt-out |
| `SignSet.KeyList.KeyThatSigned` | bin/dnssec/dnssec-signzone.c:361-434 | Finds the key of a signature in the list or on disk; a key from disk is appended at the next index and neither signs nor is published or removed |
| `SignSet.LookupStable` | bin/dnssec/dnssec-signzone.c:361-434 | Keys appended later never change which key a signature is attributed to |
| `SignSet.Examine` | bin/dnssec/dnssec-signzone.c:554-627 | The branches on one existing signature. What is kept has a valid period and does not expire within the cycle; kept as a signature of a signing or zone key it verifies with the right TTL unless it is dated in the future; what is replaced is a signing key's own and expired or not intact |
| `SignSet.KeepExactly` | bin/dnssec/dnssec-signzone.c:554-627 | Exactly when a signature is kept, and when it is replaced, for a missing key, a signing key, a zone key and any other key, in terms of the flags of the key |
| `SignSet.One` | bin/dnssec/dnssec-signzone.c:545-670 | One existing signature adds its changes to the two diffs and its flag to the table, every index in bounds |
| `SignSet.GoThrough` | bin/dnssec/dnssec-signzone.c:528-673 | Although keys are appended in the loop, every key index stays below the size the tables were given at its start |
| `SignSet.Stable` | bin/dnssec/dnssec-signzone.c:545-673 | What was decided for the signatures gone through does not change when keys are appended |
| `SignSet.KeyTurn` | bin/dnssec/dnssec-signzone.c:691-782 | Whether a signing key without a signature makes one |
| `SignSet.KeyTurns` | bin/dnssec/dnssec-signzone.c:680-783 | The loop over the keys makes exactly the signatures of the keys whose turn says so |
| `SignSet.SignRrset` | bin/dnssec/dnssec-signzone.c:490-787 | The diffs are exactly the deletions and additions specified, for whatever signatures exist, and the key list grows by at most one key for each signature |
| `SignSet.KeptOrDropped` | bin/dnssec/dnssec-signzone.c:629-657 | After the diffs an old signature is there if and only if it is kept, and then with the TTL of the others |
| `SignSet.MadeNew` | bin/dnssec/dnssec-signzone.c:659-783 | After the diffs a new signature by a key is there if and only if the key replaces one of its own or signs in its turn |
| `SignSet.OneTtl` | bin/dnssec/dnssec-signzone.c:490-510 | Every signature has the same TTL afterwards: not above that of the set, nor above end time - start time in 32 bits, and one of the two |
| `SignSet.Coverage` | bin/dnssec/dnssec-signzone.c:721-782 | On an ordinary RRset every signing zone-signing key has a signature, kept or made, or a predecessor linked to it both ways has one; a kept one need not verify, for which see CoverageExactly |
| `SignSet.HollowExactly` | bin/dnssec/dnssec-signzone.c:574-632 | Exactly which signatures are kept as a key's own although they do not verify: those from the future, and those of keys that neither sign nor belong to the zone |
| `SignSet.UsefulExactly` | bin/dnssec/dnssec-signzone.c:629-783 | A key has a new signature or one that verifies afterwards if and only if such a one was kept, one was replaced, or the key signs in its turn |
| `SignSet.SignsExactly` | bin/dnssec/dnssec-signzone.c:680-782 | On an ordinary RRset a zone-signing key makes a signature in its turn if and only if it is a signing key and no old signature is kept or replaced as its own or a linked predecessor's |
| `SignSet.KeySetSignsExactly` | bin/dnssec/dnssec-signzone.c:691-720 | On a DNSKEY, CDS or CDNSKEY set at the apex a key makes a signature in its turn if and only if it is a signing key, no old signature is kept or replaced as its own, and it is a key-signing key, or its algorithm has no key-signing key that is not revoked, or zone-signing keys sign key sets (no -x) |
| `SignSet.CoverageExactly` | bin/dnssec/dnssec-signzone.c:574-783 | On an ordinary RRset a signing zone-signing key or a predecessor linked to it has a new signature or one that verifies, if and only if (1) none of them has a kept signature that does not verify, or (2) one of them has a kept one that verifies or a replaced one, or (3) a predecessor is a signing key and nothing is kept or replaced for it or its own predecessors |
| `SignSet.FutureSuppresses` | bin/dnssec/dnssec-signzone.c:574-577 | A concrete key and signature: dated in the future and not verifying, it is kept, nothing is made, and nothing else is there afterwards |
| `SignSet.KeySetCoverage` | bin/dnssec/dnssec-signzone.c:691-720 | On the key sets at the apex every signing key-signing key has a signature, kept or made, and so has every signing key of an algorithm without key-signing key |
| `SignSet.KeySetCoverageExactly` | bin/dnssec/dnssec-signzone.c:574-720 | For these keys it is a new one or one that verifies if and only if no kept signature that does not verify takes its place |
| `SignSet.OnlySigningKeys` | bin/dnssec/dnssec-signzone.c:680-689 | Only signing keys of the initial list make new signatures |
| `Transfer.Query.CheckForMoreData` | bin/dig/dighost.c:3683-3824 | Nested loops over names, RRsets and records of a message do what running the records one by one does: verdict, carried state and record count |
| `Transfer.Query.CheckRecord` | bin/dig/dighost.c:3727-3813 | One record changes the carried state and decides as the transition `Step` says, and the local axfr flag stays in agreement with the carried state |
| `Transfer.Query.CheckAnswer` | bin/dig/dighost.c:3716-3816 | The answer section as one run over its records |
| `Transfer.BoundariesDoNotMatter` | bin/dig/dighost.c:3689-3824 | For every sequence of non-empty messages: verdict, carried state and completion point are those of the concatenated record stream |
| `Transfer.AnyTwoSplits` | bin/dig/dighost.c:3689-3824 | Any two ways to cut one stream into non-empty messages have the same outcome |
| `Transfer.NotSoaExactly` | bin/dig/dighost.c:3731-3741 | A transfer fails if and only if its first record is no SOA, and at that record |
| `Transfer.EmptyEnds` | bin/dig/dighost.c:3709-3715 | Before a message without records the outcome is that of the records so far; if the transfer was not over, the empty message ends it without completing it, whatever follows |
| `TransferStreams.CompleteExactly` | bin/dig/dighost.c:3716-3816 | For any stream whatever, complete is declared at record i if and only if the record finishes the transfer, in a definition over the stream that keeps no state |
| `TransferStreams.WholeZoneComplete` | bin/dig/dighost.c:3742-3783 | An AXFR, or an AXFR-style answer to an IXFR with a record in between, is complete exactly at the second SOA |
| `TransferStreams.IxfrCompleteAtEnd` | bin/dig/dighost.c:3784-3809 | A well-formed stream of difference sequences, none starting from the newest serial, is complete exactly at the final SOA |
| `TransferStreams.IxfrCompleteEarly` | bin/dig/dighost.c:3784-3809 | A difference sequence that starts from the newest serial makes the transfer complete too early |
| `TransferStreams.IxfrCompleteIff` | bin/dig/dighost.c:3784-3809 | A well-formed incremental transfer newer than the client is complete at its last record if and only if no difference sequence starts from the newest serial |
| `Search.CountDotsLoop` | bin/dig/dighost.c:227-240 | The count is the number of times a dot occurs in the text |
| `Search.Dig.SetupLookup` | bin/dig/dighost.c:2203-2249 | A look-up is given its first origin, or the search is left for later; only a new search resets the counter |
| `Search.Dig.RequeueLookup` | bin/dig/dighost.c:838-857 | Requeuing counts, dies above the limit, and the copy never starts a new search |
| `Search.Dig.TryNextOrigin` | bin/dig/dighost.c:2013-2065 | Queues the look-up with the next origin, or says there is none |
| `Search.AllNxdomain` | bin/dig/dighost.c:4448-4456 | The attempts made when every answer is NXDOMAIN are the specified list, and it ends |
| `Search.SearchOrder` | bin/dig/dighost.c:2013-2065 | A relative name with fewer than ndots dots is tried with each origin once in list order, then by itself, if and only if the list has at most 64 origins; with more the program dies after 65 attempts |
| `Search.EnoughDots` | bin/dig/dighost.c:2033-2050 | A plain name with at least ndots dots is tried by itself only |
| `Search.SearchExactly` | bin/dig/dighost.c:2013-2065 | All attempts of a search that never gets an answer, for every text and configuration: with too few dots the origins, then the bare name; with enough the bare name, then the origins (twice the bare name when the list is empty); one attempt only when the text is a name that is absolute or has more than ndots labels; and in each case where the limit ends it |
| `Search.SearchAfterBare` | bin/dig/dighost.c:2033-2054 | For a text with at least ndots dots, all origins are tried after the bare name if and only if the text is no valid name, or is relative with no more labels than ndots |
| `Search.Dig.Add` | bin/dig/dig.c:3190-3200 | A search that the user asks for is queued as one, the protocol's user step |
| `Search.Dig.StartNext` | bin/dig/dighost.c:2203-2249 | Starting the next queued look-up is the protocol's start step |
| `Search.RequeueBound` | bin/dig/dighost.c:838-857 | In any run of user look-ups, starts and requeues of a started look-up: at most 64 requeues succeed between two new searches, in all at most 64 for each search begun, and as long as the program lives every search that the user asked for is begun or still queued |
| `Serial.FromLimit` | lib/isc/serial.c:21-55 | Serials not before a common limit compare as their distances from it, except at the undefined distance |
| `Serial.GtExactly` | lib/isc/serial.c:21-55 | A serial is greater exactly when it is ahead by less than half a circle, and exactly when the other is less |
| `Replay.ByAge` | bin/dnssec/dnssec-cds.c:619-628 | Among times not before the limit the serial order is the order of their ages, except between the limit and the time half a circle later |
| `Replay.OldestIsFirst` | bin/dnssec/dnssec-cds.c:664-680 | If no inception is zero and no two are at the undefined distance, the recorded time is the true minimum of all accepted ones, and all are accepted again |
| `Replay.ZeroForgotten` | bin/dnssec/dnssec-cds.c:664-680 | An inception of zero that comes first is forgotten and is too old for the next run |
| `Replay.LimitForgotten` | bin/dnssec/dnssec-cds.c:664-680 | Times spanning the half circle can be recorded so that the earliest is too old for the next run |
| `Replay.SecondRun` | bin/dnssec/dnssec-cds.c:619-680 | In whatever order the same signatures come, the next run accepts all times again if and only if zero is not the earliest of several and the times do not span the half circle |
| `Replay.RefusedAgain` | bin/dnssec/dnssec-cds.c:619-680 | A signature refused now is refused in the next run if and only if it is less than half a circle before the recorded time |
| `Replay.AllRefusedAgain` | bin/dnssec/dnssec-cds.c:619-680 | Whatever is refused now stays refused if and only if the limit does not move |
| `Replay.RefusedThenAccepted` | bin/dnssec/dnssec-cds.c:619-680 | A concrete time that is refused with the limit 1000 and accepted with the time recorded then |
| `Digests.ConsistentDigests` | bin/dnssec/dnssec-cds.c:880-954 | The sort and the scan with moving indexes compute the specified scan of the sorted records |
| `Digests.ScanExactly` | bin/dnssec/dnssec-cds.c:929-945 | For any records and from any key on: the scan accepts if and only if for every key record m of its run has the type of record m modulo d of the set, and a run that does not end the set has a multiple of d records |
| `Digests.PeriodicExactly` | bin/dnssec/dnssec-cds.c:906-945 | In sorted records a run repeats like that if and only if its types are those of the first key, or it ends the set and has the lowest of them, or both consist of one type only and the run has, unless it ends the set, a multiple of d records |
| `Digests.ConsistentExactly` | bin/dnssec/dnssec-cds.c:899-945 | For any records, keys that share tag and algorithm included: true if and only if the types of every run of the sorted records fit those of the first in that sense |
| `Digests.UniqueExactly` | bin/dnssec/dnssec-cds.c:899-945 | So with no two records of the same tag, algorithm and digest type: true if and only if every key has the digest types of the least key, except that the greatest key may lack some of the highest |
| `Digests.ConsistentWhenWhole` | bin/dnssec/dnssec-cds.c:899-945 | For any records whose number is a multiple of the first key's: true if and only if all runs fit and none breaks off |
| `Digests.UniqueWhenWhole` | bin/dnssec/dnssec-cds.c:899-945 | So with no two records of the same tag, algorithm and digest type, and a number that is a multiple of the least key's: true if and only if all keys have the same digest types |
| `Digests.SharedTagRefused` | bin/dnssec/dnssec-cds.c:918-945 | A concrete set in which two keys share tag and algorithm and all keys have the same digest types, and which is refused |
| `Digests.LastKeyMayLack` | bin/dnssec/dnssec-cds.c:899-945 | A concrete set in which the last key lacks a digest type and which is accepted |
| `Cds.MatchKeyDsset` | bin/dnssec/dnssec-cds.c:470-525 | A key is matched if and only if a DS record has its tag, algorithm and digest, and when tight no earlier comparable record differs |
| `Cds.IdentifiedIs` | bin/dnssec/dnssec-cds.c:470-525 | Loosely a key is identified by any record with its tag, algorithm and digest; tightly if and only if every record before it has another tag or algorithm or an unsupported digest type |
| `Cds.MatchKeysetDsset` | bin/dnssec/dnssec-cds.c:531-579 | The key table marks exactly the usable keys that the DS set identifies |
| `Cds.Run.MatchingSigs` | bin/dnssec/dnssec-cds.c:608-685 | The table of algorithms has a key's algorithm exactly when a good signature by it exists, and the recorded time is the oldest over all good signatures met, across calls |
| `Cds.SignedLoose` | bin/dnssec/dnssec-cds.c:691-702 | Some key signs |
| `Cds.SignedStrict` | bin/dnssec/dnssec-cds.c:710-744 | Every algorithm of the DS set signs |
| `Cds.MakeCandidate` | bin/dnssec/dnssec-cds.c:1291-1315 | The records made are exactly those chosen: with -D, or when no CDS record has a permitted digest type, the digests of the CDNSKEY records of permitted types; otherwise the CDS records of permitted types. It fails exactly when such a digest cannot be made |
| `Cds.CandidateIs` | bin/dnssec/dnssec-cds.c:1291-1315 | The candidate, type by type in the order of preference, holds exactly those records, or there is none because a digest cannot be made |
| `Cds.FromCdsIs` | bin/dnssec/dnssec-cds.c:751-768 | A CDS record becomes a DS record exactly when its digest type is permitted |
| `Cds.FromCdnskeyIs` | bin/dnssec/dnssec-cds.c:770-789 | The DS records made from CDNSKEY records are exactly the digests of each of them with each permitted type |
| `Cds.CheckChild` | bin/dnssec/dnssec-cds.c:1210-1270 | No failure if and only if each RRset present is signed by a child key that the parent's DS records identify; all times met are accepted ones and none is missed |
| `Cds.Decide` | bin/dnssec/dnssec-cds.c:1205-1352 | A new DS set is written if and only if the child's RRsets are authentic, the candidate is not empty, has consistent digests and passes the strict check; it then holds exactly the records chosen from CDS or CDNSKEY. The old set is written if and only if they are authentic and there is neither CDS nor CDNSKEY; no inception time is missed |
| `Cds.StrictExactly` | bin/dnssec/dnssec-cds.c:704-744 | Each algorithm of a DS set has a child key that the set identifies and that signs, if and only if the set passes the strict check and has no record of algorithm zero or a key of algorithm zero signs |
| `Cds.ChainOfTrust` | bin/dnssec/dnssec-cds.c:1205-1341 | A new DS set is written only if the DNSKEY, CDNSKEY and CDS sets present each have a verifying, not too old signature by a child key that the old DS set identifies by tag, algorithm and digest. Each new record has a child key of its algorithm, identified by a new record, with such a signature over the DNSKEY RRset, if and only if no record has algorithm zero or a key of algorithm zero signs |
| `Cds.VouchedFor` | bin/dnssec/dnssec-cds.c:1226-1264 | A key that vouches for an RRset is identified by a DS record and has a verifying, not too old signature over it |
| `Cds.Repeatable` | bin/dnssec/dnssec-cds.c:619-680 | A signature good in this run is good in the next, outside the two odd cases |
| `Cds.Rerun` | bin/dnssec/dnssec-cds.c:1205-1352 | Outside the two odd cases, with the recorded time as limit the next run on the same records writes the same DS set if and only if the set has no record of algorithm zero or some key does not sign again |
| `Cds.RerunRefused` | bin/dnssec/dnssec-cds.c:1205-1352 | It does so in particular when no signature refused as too old is accepted again |
| `CdsDelete.DeleteAccepted` | bin/dnssec/dnssec-cds.c:1280-1335 | A concrete child with a CDNSKEY delete request: a DS record of algorithm zero is made and written, which no key matches |
| `CdsDelete.RerunFails` | bin/dnssec/dnssec-cds.c:1280-1335 | A concrete child whose new DS set with a record of algorithm zero is written by one run and refused by the next |
| `Dns64.Dns64Cname` | bin/named/builtin.c:285-458 | For every zone length and non-empty name the answer is the specified one: no such name, an empty node, a CNAME to the embedded address, or a PTR; every index is in bounds |
| `Dns64.Unpack` | bin/named/builtin.c:316-333 | The loop accepts exactly series of nibbles and leaves them packed, shifted by half an octet when their number is odd |
| `Dns64.DigitIs` | bin/named/builtin.c:233-250 | A label is taken exactly when it is one hexadecimal digit, in either case, and stands for its value |
| `Dns64.CaseDoesNotMatter` | bin/named/builtin.c:285-458 | Names that differ only in case have the same answer |
| `Dns64.CheckReserved` | bin/named/builtin.c:342-436 | For odd and even numbers of nibbles the octet compared is zero if and only if the known part of bits 64 to 71 is |
| `Dns64.Rdata` | bin/named/builtin.c:255-283 | Writes the wire form of d.c.b.a.in-addr.arpa in at most 30 octets, reading around the reserved octet |
| `Dns64.PutDecimal` | bin/named/builtin.c:264-279 | Writes an octet in decimal as a label |
| `Dns64.DecimalReads` | bin/named/builtin.c:264-279 | The digits written read back as the number and have no leading zero |
| `Dns64.NodeExists` | bin/named/builtin.c:335-443 | A name exists if and only if it is, or is an ancestor of, a name of full length with a record |
| `Synthesis.AaaaFromA` | lib/dns/dns64.c:176-193 | The address keeps prefix and suffix, holds the IPv4 address at its places and has bits 64 to 71 zero |
| `Synthesis.AnyAddress` | bin/named/builtin.c:285-458 | What the reverse name of any IPv6 address under any of the six prefix lengths leads to |
| `Synthesis.ThereAndBack` | bin/named/builtin.c:285-458 | The reverse name of an address made from an IPv4 address leads back to exactly that IPv4 address, for all addresses, prefix lengths, prefixes and suffixes, unless its last four octets are a well-known address |
| `Synthesis.PtrExactly` | bin/named/builtin.c:446-457 | For all addresses, prefixes and suffixes the answer is the PTR to ipv4only.arpa if and only if, for 96 bits, the address is 192.0.0.170 or 192.0.0.171; for 64 bits, its last octet with the suffix is; for at most 56 bits, the last four octets of the suffix are, whatever the address |
| `Synthesis.WellKnownOnlyFor96` | bin/named/builtin.c:446-457 | With a zero suffix the answer is the PTR to ipv4only.arpa if and only if the prefix has 96 bits and the address is 192.0.0.170 or 192.0.0.171 |

## Left out

- nsec3clean and the removal of NSEC3 records of other chains, TTLs and type bit
  maps of NSEC and NSEC3 records.
- signname around signset: which RRsets of a node are signed. The contents of new
  signatures, with their jitter and expiry, are not modelled either.
- Concurrent calls of signset, which append to the key list without holding its
  lock, and the double-checked locking of keythatsigned: `SignSet` is about
  sequential calls.
- Abort by the user in assignwork, and the order of the dumped output.
- old_name_fromwire with the name's own buffer as its target (a null target): it
  only clears the buffer and proceeds as modelled.
- isc_buffer growth in make_new_ds_set: the loop that doubles the buffer starts
  over with the same records.
- ds_from_cds, ds_from_cdnskey: rdata are values, so packing is not modelled.
- dns_dns64_aaaafroma before it builds the address: access lists and flags.
- The SOA and NS records at the origin of a DNS64 zone, and the other built-in
  zones.
- dig's network life cycle, tracing and retries, and the printing of answers.
- Command lines, file formats, key generation and configuration of all programs.
