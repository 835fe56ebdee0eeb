# A model of the agent's local bookkeeping

The agent keeps, on each node, small records it must never get wrong: which address of a network is reserved for
which resource, which backup runs a retention keeps, which files an install line put on a head, whether an object is
frozen. This project models that code in Dafny and proves what it is for.

| files | what they model |
|---|---|
| `BigEndian`, `Address`, `Pools`, `PoolLists` | the bytes of addresses, masks, networks, pools and subnets, how pools are written and read, lists of pools and the walk over them |
| `Allocator` | the allocator of a network, its calls one after the other, with every single step of the store recorded |
| `Reservation` | the calls of the allocator interleaved step by step |
| `PeerRecords` | the addresses the other nodes reported |
| `Runs`, `Retention`, `RetentionText` | the runs of a backup store, what a retention drops, and how a retention is written |
| `Stats`, `StatsMerged` (with `Names`, `Folds`) | the figures of the runs, counted, merged, summed |
| `Exclude`, `Glob`, `GlobMeaning` | exclude patterns, on a model of Go's `path.Match`, and what its patterns mean |
| `InstallRecord` | the record of the files installed, and their removal |
| `Flag` | the flag file protocol, interleaved step by step |
| `InstanceData`, `Naming` | the holder of the instance data, object paths and their text |
| `Text`, `Maps` | the text functions used (numbers, words, cuts), and keys taken out of maps |

Code that changes state is modelled by classes and loops (`Allocator`, `PeerRecords.PeerDir`, `InstallRecord.Recorder`,
`InstanceData.Data`, and the loops of `Retention`, `Stats`, `PoolLists`, `Exclude`), each proved against a function or a
predicate; the theorems are about those. The two concurrent protocols are transition systems in which any process may
stop at any step.

What is a parameter of the model: the calendar a retention reads periods in, the hash a draw starts from, the order Go
ranges over a map in (any order), the text of an address (only that an address shown is read back, with no slash and no
dash in it), the failures of the file system for the install record, and what the peers hold for a draw.

## What turned out not to hold

Where the code does not do what its comments say on every input, the model follows the code, and a lemma says exactly
when it does.

- A pool is not read back from its text when it is one of sixteen subnets, `::/80` to `::fffe:0:0/95`, that end at
  the last ipv4-mapped address (`Pools.RoundTrip`, `Pools.MixedSubnets`, `Pools.MixedExample`). The network and the pool
  of such a subnet do not hold the same addresses (`Pools.NetIsItsPoolExactly`).
- The overlap check of a list of pools misses overlaps when the families are interleaved by first address
  (`PoolLists.RightExactlyWhenTogether`, `PoolLists.MixedFamiliesHideAnOverlap`).
- The walk passes over addresses no pool holds, and spends probes on them, exactly when an ipv6 pool goes over the mapped
  addresses and the pools do not hold every ipv4 address (`PoolLists.WalkStaysExactly`). None of them is handed out
  (`Allocator.DrawIsUsable`).
- A removal by `Reap` may take a reservation of another key. It takes the file it read exactly when no step removed the
  file of the address since, which, with no other `Reap`, means no release of the key it read
  (`Reservation.ReapFindsItsFileExactly`, `Reservation.ReapTakesItsOwnExactly`, `Reservation.ReapMayLoseAReservation`).
- Two calls of one key at once may leave it with no address: exactly when neither of the sets of addresses they never
  release is within the other (`Reservation.SafeExactlyWhenNested`, `Reservation.KeyIsNeverLeftWithout`). So do a `Keep`
  of an address out of the ranges and a `DropStale` or `DropReplaced` of them (`Reservation.KeepOutOfRangesIsNotSafe`).
- An adoption gives a key a second address exactly when it records a claim for a key that has one, in the store or by an
  earlier claim (`Allocator.AdoptionKeepsAtMostOne`).
- A completed run with no creation time makes the first time of an object forget the runs before it
  (`Stats.PartsFirstExactly`, `Stats.NeverSkipsExactly`).
- Merging stats may tell the stored bytes when the parts apart do not (`Stats.ToldOnceMerged`, `Stats.MergingMayTell`).
- A svc and a ccfg of the root namespace with one name share one entry of the instance data
  (`InstanceData.HolderIsOneMapExactly`, `InstanceData.TwinsShareOneValue`), and their paths are not always read back from
  their text (`Naming.PathRoundTrip`). On the other hand node names may hold an `@`.
- The records of an object on a node are the pairs reported exactly when the addresses are in the form they are written
  in, the keys name the object and do not end with a space, and the object has no record in a file named in another form
  (`PeerRecords.ReportedExactly`; of one address, `PeerRecords.RecordIsRightExactly`: two files of it make a report lose
  its record). When a second report does nothing is `PeerRecords.SecondReportIsQuiet`.
- A pattern with a class between two stars that can stand for a slash may leave out a path it means: the matcher takes
  the first place the class fits and never comes back (`GlobMeaning.ClassHidesASlash`). It never excludes one it does not
  mean (`GlobMeaning.MatchIsMeant`), and every other pattern excludes all it means (`GlobMeaning.MatchMeans`).
- A literal pattern excludes its path, and nothing else, exactly when the path is not empty and has no slash at its
  ends (`Exclude.LiteralIsLiteral`).

## Model

| member | source | states |
|---|---|---|
| `Retention.Drop` | core/backup/retention.go:98-129 | with no rule nothing is dropped; with a number of runs or a period, what is dropped is the runs the rules do not keep, oldest first; dropped and surviving runs partition the input |
| `Retention.Keep` | core/backup/retention.go:104-121 | the positions marked kept are exactly those among the `last` newest, or newest of their period for a rule whose `count` newest periods include it |
| `Retention.KeepByPeriod` | core/backup/retention.go:108-120 | one rule keeps a run exactly when it is the newest of its period and its period is one of the `count` newest holding a run |
| `Retention.RuleKeepsExactly` | core/backup/retention.go:108-120 | a rule keeps as many runs as it counts, or as there are periods holding one: the newest run of each of the newest periods |
| `Retention.NewestFirstIsStableSort` | core/backup/retention.go:102-103 | the order used is sorted, a permutation, and keeps runs created at one time in the order given |
| `Retention.StableSortIsUnique` | core/backup/retention.go:103 | any stable sort gives that order |
| `Retention.SurvivorsMeaning` | core/backup/retention.go:98-129 | the selection read one run at a time, newest first, keeps exactly the runs the rules mean |
| `Retention.NoRuleKeepsAll` | core/backup/retention.go:74-76 | a retention of no number and no period keeps every run |
| `Retention.DropPartitions` | core/backup/retention.go:122-128 | dropped runs and survivors make up the input, each run once, and the dropped ones are oldest first |
| `Retention.ParsedKeeps` | core/backup/retention.go:98-129 | a parsed retention with a number of runs or a period keeps at most `last` plus the sum of the counts, and always the newest run |
| `Retention.Idempotent` | core/backup/retention.go:98-129 | what survived survives again |
| `Retention.DropAgainDropsNothing` | core/backup/retention.go:98-129 | a drop on what a drop left drops nothing |
| `Retention.PathIndependence` | core/backup/retention.go:98-129 | for all histories, whatever their times, dropping before more runs come leaves what one drop after them leaves |
| `Retention.IncrementalIsOneShot` | core/backup/retention.go:98-129 | pruning after every batch of runs leaves what one drop on the whole history leaves |
| `Retention.ListingOrderIsIrrelevant` | core/backup/retention.go:98-129 | runs created at different times are kept the same in whatever order a store lists them |
| `RetentionText.ParseRetention` | core/backup/retention.go:44-71 | the loop returns the retention of the text, or none |
| `RetentionText.Meaning` | core/backup/retention.go:44-71 | a text is refused for a bad word and nothing else; accepted, it is positive counts, one rule a unit, each the largest the words say, and nothing the words do not say |
| `RetentionText.WordExactly` | core/backup/retention.go:44-71 | a word asks for runs exactly when it is a number of at least one that an int holds, and for hours, days, weeks, months or years exactly when such a number comes before h, d, w, m or y |
| `RetentionText.OneWord` | core/backup/retention.go:44-71 | what a keep of one such word is |
| `RetentionText.PrintRetention` | core/backup/retention.go:79-88 | the loop writes the text of the retention |
| `RetentionText.RoundTrip` | core/backup/retention.go:44-88 | a retention is given back by its text exactly when it has positive counts that fit an int, and distinct units |
| `RetentionText.ParsePrintParse` | core/backup/retention.go:44-88 | parsing, printing and parsing again is parsing once, on every text accepted |
| `BigEndian.BytesOfInt` | core/ipam/ipam.go:623-642 | the bytes of the integer of some bytes are those bytes |
| `BigEndian.AboveIsGreater` | core/ipam/pool.go:41-43 | comparing bytes first to last compares the integers they stand for |
| `BigEndian.MaskedInt` | core/ipam/pool.go:58-65 | masking bytes with a prefix mask clears the low bits of the integer |
| `BigEndian.FilledInt` | core/ipam/pool.go:58-65 | setting the bits out of the mask byte by byte gives the end of the block, first + 2^h - 1 |
| `Address.EqualMeansSameAddr` | core/ipam/ipam.go:623-642 | two byte forms are equal addresses exactly when they stand for one family and integer |
| `Address.IntToIP` | core/ipam/ipam.go:630-642 | the bytes made of an integer stand for the address of that family and integer |
| `Pools.OverlapsMeansShared` | core/ipam/pool.go:90-101 | for all pools read, Overlaps holds exactly when the two have an address in common, or one has ends of two families in one of three ways |
| `Pools.PoolOf` | core/ipam/pool.go:58-65 | the byte loop over the mask gives the first and last addresses of the block of the subnet |
| `Pools.NetContainsItsSubnet` | core/ipam/ipam.go:172-182 | a network contains exactly the addresses of its subnet, whatever the byte lengths of the network and the address |
| `Pools.NetIsItsPoolExactly` | core/ipam/ipam.go:172-182 | a network contains what its pool does exactly when the ends of the pool are of one family |
| `Pools.EveryPrefixIsANet` | core/ipam/pool.go:21-65 | every address with a prefix of 0 to 32 bits, or to 128, makes a network the former hold of |
| `Pools.SubnetChosenExactly` | core/ipam/pool.go:116-137 | the subnet form is chosen exactly when the pool is all the addresses of some subnet |
| `Pools.SubnetOnesIsThePool` | core/ipam/pool.go:125-137 | the subnet printed is a subnet, and it is the pool |
| `Pools.ParseOfPrint` | core/ipam/pool.go:21-65 | every valid pool is read back as it was written, as a subnet or as a span |
| `Pools.MixedSubnets` | core/ipam/pool.go:21-65 | the subnets whose ends are not of one family are exactly those of 33 to 48 host bits ending with the mapped addresses |
| `Pools.RoundTrip` | core/ipam/pool.go:21-65 | a pool read is read back as it is written exactly when its addresses are of one family |
| `Pools.ParsePoolExactly` | core/ipam/pool.go:21-45 | a text is read as a pool exactly when it is a subnet, or two addresses of one family, the second not before the first, around a dash, and then as those addresses |
| `Pools.MixedExample` | core/ipam/pool.go:21-65 | `::/80` is read as a pool of 2^32 addresses and written `::/96` |
| `PoolLists.ParsePools` | core/ipam/pool.go:70-87 | accepted, a list is the pools its texts are, one for each and in order; it is refused exactly when a text is no pool, or when the pools sorted by first address, a permutation of them, have two neighbours that overlap |
| `PoolLists.AcceptsExactlyDisjoint` | core/ipam/pool.go:79-85 | with pools of one family, or families not interleaved, the check accepts exactly the pairwise disjoint lists, whatever order the sort leaves ties in |
| `PoolLists.RightExactlyWhenTogether` | core/ipam/pool.go:79-85 | for an order of families, the check is right on every list of that order exactly when no family is interleaved with the other |
| `PoolLists.DisjointIsAdjacentApart` | core/ipam/pool.go:79-85 | a disjoint list is never refused, whatever its families |
| `PoolLists.MixedFamiliesHideAnOverlap` | core/ipam/pool.go:79-85 | three concrete pools, two of them overlapping, that the check accepts |
| `PoolLists.SizeOf` | core/ipam/ipam.go:185-191 | the loop sums the sizes of the pools |
| `PoolLists.AddrAt` | core/ipam/ipam.go:195-205 | for all pools read, the loop returns the address at the offset in the pools one after the other, or none past the end |
| `PoolLists.WalkMeetsEveryAddress` | core/ipam/ipam.go:185-205 | every address some pool holds has an offset below the size, and the walk is at it there |
| `PoolLists.WalkStaysInThePools` | core/ipam/ipam.go:185-205 | on disjoint pools the walk stays in the pools and meets each address once: with the former, a bijection |
| `PoolLists.WalkStaysExactly` | core/ipam/ipam.go:185-205 | over pools of any families, overlapping or not, the walk stays in them exactly when none goes over the mapped addresses, or they hold every ipv4 address |
| `Allocator.DrawIsFirst` | core/ipam/ipam.go:131-148 | a draw returns the first usable candidate of the circular walk, or there is none among the probes |
| `Allocator.DrawForExactly` | core/ipam/ipam.go:119-148 | what a key draws: the first address, among 4096 at most from its hash on and round the pools, that is in the ranges, not the gateway nor an end of the range, and free here and by the peers |
| `Allocator.CompleteWalk` | core/ipam/ipam.go:119-149 | when at most 4096 probes go round the pools, a draw fails exactly when every address in the ranges that is not the gateway, the first of the range or, for ipv4, its last is taken |
| `Allocator.StableDraw` | core/ipam/ipam.go:119-148 | an address drawn is drawn again while it is free and the pool addresses taken then still are, whatever else is taken |
| `Allocator.Allocator.Reserve` | core/ipam/ipam.go:403-418 | the address goes to the key, unless it is reserved |
| `Allocator.Allocator.FreeAddr` | core/ipam/ipam.go:280-296 | the address is released exactly when the key holds it |
| `Allocator.Allocator.Allocated` | core/ipam/ipam.go:242-268 | an address the key holds, one in the ranges when it holds one, none when it holds none |
| `Allocator.Allocator.FreeHeld` | core/ipam/ipam.go:382-399 | the key gives up the addresses selected and no other, and no step loses more than the end |
| `Allocator.Allocator.Free` | core/ipam/ipam.go:302-304 | the key gives up all its addresses, the others keep theirs |
| `Allocator.Allocator.DropStale` | core/ipam/ipam.go:308-313 | the addresses out of the ranges are given up when one in them is held; at every step a key that held an address holds one |
| `Allocator.Allocator.Keep` | core/ipam/ipam.go:319-332 | refused for an address of another key, or of a file with no key; else the key holds it and no other; no key is left without at any step |
| `Allocator.Allocator.Allocate` | core/ipam/ipam.go:105-150 | the address held in the ranges, or one drawn: in the range and in a pool, or the subnet when there are none, not the gateway, not the first of the range nor, for ipv4, its last, not reserved here nor by the peers; it is reserved for the key, which then holds no address out of the ranges; a failure changes nothing; no key is left without at any step |
| `Allocator.Allocator.Walk` | core/ipam/ipam.go:131-148 | the loop with its wrapping offset reserves the first usable candidate, passing over those reserved since they were looked at; what it leaves when there is none |
| `Allocator.Allocator.Adopt` | core/ipam/ipam.go:221-239 | the claims are recorded one by one where the address is free, and counted; no reservation is lost at any step |
| `Allocator.Allocator.DropReplaced` | core/ipam/ipam.go:338-379 | exactly the addresses out of the ranges whose key holds one in them are released and counted; no key is left without at any step |
| `Allocator.Allocator.Reap` | core/ipam/ipam.go:497-522 | exactly the reservations of keys that are gone are removed and counted |
| `Allocator.RunKeepsAtMostOne` | core/ipam/ipam.go:105-150 | over every run of Allocate, Free, Keep, DropStale, DropReplaced and Reap from an empty store, the ranges changing freely, each key holds at most one address |
| `Allocator.AdoptionAdds` | core/ipam/ipam.go:221-239 | what an adoption adds is the first claim of each free address it looks at, with its key |
| `Allocator.RecordedIs` | core/ipam/ipam.go:221-239 | a claim is recorded exactly when it has a key and a free address, in the ranges of a network with a range, and no claim before it has a key and that address |
| `Allocator.AdoptionKeepsAtMostOne` | core/ipam/ipam.go:221-239 | an adoption keeps each key at one address exactly when no claim it records is for a key holding one, or recorded for an earlier claim |
| `Allocator.AdoptionRunTwice` | core/ipam/ipam.go:216-219 | run again, an adoption changes nothing, whatever was reserved since |
| `Allocator.AllocateFailsExactly` | core/ipam/ipam.go:119-149 | an allocation that has to draw finds nothing exactly when every address in the ranges that is not the gateway, the first of the range or, for ipv4, its last is taken here or by the peers |
| `Allocator.StableAddress` | core/ipam/ipam.go:119-148 | a key that drew an address and released it is given it again under the condition of StableDraw |
| `Reservation.StepKeepsBase` | core/ipam/ipam.go:280-522 | every step of every call, Reap among them, keeps the store well formed |
| `Reservation.FileStaysExactly` | core/ipam/ipam.go:280-522 | over any interleaving of all the calls, an address has the file it had, and its key, exactly when no step removed the file of the address |
| `Reservation.StepKeepsInv` | core/ipam/ipam.go:280-296 | every step but the removal by Reap keeps the invariant of the protocol: a file being written or removed is the one created or read |
| `Reservation.MayEnd` | core/ipam/ipam.go:280-522 | a call may end at any step, which gives its lock back and changes nothing of the store nor of the other calls |
| `Reservation.FreeRuns` | core/ipam/ipam.go:280-304 | a Free with nothing in its way removes the file of an address of the key, and nothing else |
| `Reservation.KeepRuns` | core/ipam/ipam.go:319-332 | a Keep of a free address, with nothing in its way, makes its file with the key in it |
| `Reservation.DrawRuns` | core/ipam/ipam.go:131-150 | so does an Allocate of the address it draws, which goes on to release the ones out of the ranges |
| `Reservation.ReapKeepsInvExactly` | core/ipam/ipam.go:516 | the removal by Reap keeps it exactly when no reservation is being written or released at that address |
| `Reservation.CreationIsNeverLost` | core/ipam/ipam.go:403-418 | over any interleaving without that removal, a file created for a key stays and takes no other key, unless a release of that key removed it |
| `Reservation.ReservationStaysExactly` | core/ipam/ipam.go:280-296 | over any such interleaving, a reservation stays, same file and key, exactly when no release of its own key removed it |
| `Reservation.NoAddressHasTwoHolders` | core/ipam/ipam.go:403-429 | from an empty store, an address changes key only through a release of the first |
| `Reservation.NoAddressIsDrawnTwice` | core/ipam/ipam.go:131-148 | two draws reserve one address only with a release by the first in between |
| `Reservation.ReapFindsItsFileExactly` | core/ipam/ipam.go:497-522 | whatever runs between its two steps, Reap finds the file it read exactly when nothing removed the file of the address |
| `Reservation.ReapTakesItsOwnExactly` | core/ipam/ipam.go:497-522 | with no other Reap, exactly when no release of the key it read removed it |
| `Reservation.ReapMayLoseAReservation` | core/ipam/ipam.go:497-522 | from any store with the reservation, a run in which Reap removes the reservation of another key |
| `Reservation.KeyIsNeverLeftWithout` | core/ipam/ipam.go:105-150 | over any interleaving of all the calls, a key that holds an address holds one at every later step, while of its calls at once, none a Free, one spares what the other does, and Reap removes no reservation of it |
| `Reservation.OnceHeldAlwaysHeld` | core/ipam/ipam.go:308-379 | the same from an empty store, DropReplaced being a DropStale of each key |
| `Reservation.TwoCallsLeaveNone` | core/ipam/ipam.go:308-332 | a run of any Keep or DropStale with another that leaves a key with no address, when it holds one only the first spares and one only the second does |
| `Reservation.AllocateLeavesNone` | core/ipam/ipam.go:105-150 | the same of an Allocate with one of them, on a key holding one address only the second spares |
| `Reservation.SafeExactlyWhenNested` | core/ipam/ipam.go:105-379 | two calls of a key, none a Free and not both an Allocate, never leave it without an address, over any interleaving, exactly when what one spares the other does |
| `Reservation.KeepOutOfRangesIsNotSafe` | core/ipam/ipam.go:308-379 | a Keep of an address out of the ranges with a DropStale or DropReplaced of them is not safe |
| `PeerRecords.PeerDir.ReadPeerRecords` | core/ipam/peers.go:35-68 | every file named after an address, in any form, with a node and a key is listed once |
| `PeerRecords.PeerDir.SetPeerRecords` | core/ipam/peers.go:74-111 | in any directory: which records are removed, in whatever order they are listed, which pairs are written, both counted, and what is left in the map of the caller |
| `PeerRecords.PeerDir.DropPeerRecords` | core/ipam/peers.go:132-148 | the records refused are counted, and the files in the written form of their addresses removed |
| `PeerRecords.LineRoundTrip` | core/ipam/peers.go:58-68 | a record is read as the node and the key written exactly when neither is cut or trimmed |
| `PeerRecords.KeyNamesItsObject` | core/ipam/ipam.go:525-535 | the key of a resource names its object, for every path but the ccfg `namespace` of the root namespace |
| `PeerRecords.FileOfOthersIsSame` | core/ipam/peers.go:74-111 | a file of no address reported, and of no address recorded for the object on the node, is the same |
| `PeerRecords.ReportedExactly` | core/ipam/peers.go:74-111 | the records of the object on the node are exactly the pairs reported, if and only if every text is an address in the written form, every key names the object and fits a record, and the object had no record in a file named otherwise: for every report where names are in the written form, and for reports in the written form in every directory |
| `PeerRecords.RecordIsRightExactly` | core/ipam/peers.go:80-109 | in any directory, exactly when the record of one address is the one reported: kept in its own file with no other record of the object for the address, or written and fitting |
| `PeerRecords.SecondReportIsQuiet` | core/ipam/peers.go:74-111 | in any directory and whatever is reported, exactly when the same report again writes and removes nothing |
| `PeerRecords.RunTells` | core/ipam/peers.go:74-148 | after any run of reports and drops, the records are what each object last reported on each node, less what later reports took over and drops removed |
| `Stats.NewObjectStats` | core/backup/stats.go:125-157 | the loop counts the runs, with the nodes that wrote a completed one, sorted, once each |
| `Stats.CountMeansSums` | core/backup/stats.go:125-157 | the figures are the numbers of completed, incomplete and protected runs and the sums of their bytes |
| `Stats.CountMeansLast` | core/backup/stats.go:148-150 | the last time is the latest of the completed runs |
| `Stats.CountMeansFirst` | core/backup/stats.go:145-147 | the first time is the earliest of the completed runs, when they are dated |
| `Stats.FirstJoinsExactly` | core/backup/stats.go:258-299 | the first time of the whole is the joined one exactly under a condition on the two parts |
| `Stats.NeverSkipsExactly` | core/backup/main.go:335-371 | MayHold on the times of an object never skips a completed run Match selects, exactly when the completed runs are dated or the last of them is not |
| `Runs.AskedForAlone` | core/backup/main.go:335-355 | a filter selects a run exactly when each thing it asks for, asked for alone, does |
| `Runs.AskedFor` | core/backup/main.go:335-355 | what the object, the cluster by id or by name, the start of the id, completion, and the ends of the period each select |
| `Runs.SplitsAt` | core/backup/main.go:335-355 | an instant within the period of a filter splits what it selects in two, and no run is on both sides |
| `Stats.MergeObjectStats` | core/backup/stats.go:258-299 | the loops merge the stats of the lists, taken in order, each object once |
| `Stats.KeyIsTheObject` | core/backup/stats.go:263 | the joined key tells objects apart, cluster ids holding no slash |
| `StatsMerged.MergedExactly` | core/backup/stats.go:258-299 | each object recorded has one merged record, and no other has: the ids and the name of its first record, the sums of all of them, the path of the one with the latest run, the latest update, and their nodes, sorted; whatever the records of other objects between them |
| `StatsMerged.MergedInOrder` | core/backup/stats.go:258-299 | the merged records are in the order their objects are first met |
| `StatsMerged.TakenInOrder` | core/backup/stats.go:261-262 | the lists are taken one after the other, each in order, and no record is left |
| `Stats.PartsCountTheWhole` | core/backup/stats.go:258-299 | merging the stats of any split of the runs of an object gives the counts, bytes, last time and node list of all of them counted at once, and the earliest first time of the parts |
| `Stats.PartsFirstExactly` | core/backup/stats.go:258-299 | that first time is the one of the whole exactly when no part before the last one with an undated completed run has an earlier one |
| `Stats.SumStats` | core/backup/stats.go:162-213 | the totals are the sums over the objects holding a run; the breakdown has each cluster of such an object once, and no other, with its own sums and the first name told; the stored bytes are told when all are known |
| `Stats.TotalsAre` | core/backup/stats.go:162-186 | what is summed is the objects with a run, completed or not, and nothing else; the times are the earliest first one and the latest last one of them |
| `Stats.LineIs` | core/backup/stats.go:187-205 | so it is of the line of a cluster, over its own objects, with how many of them have a run |
| `Stats.LineIsNamed` | core/backup/stats.go:192-194 | a line has the first name its objects with a run tell |
| `Stats.BreakdownSumsUp` | core/backup/stats.go:162-213 | the breakdown by cluster sums to the totals |
| `Stats.MergingKeepsTotals` | core/backup/stats.go:162-299 | merging changes no total, in the store or in a cluster |
| `Stats.MergingCountedKeepsTotals` | core/backup/stats.go:125-299 | so it is of the stats NewObjectStats counts |
| `Stats.ToldOnceMerged` | core/backup/stats.go:175-179 | merged, the stored bytes are told exactly when every object with a completed run has a part telling them |
| `Stats.MergingMayTell` | core/backup/stats.go:175-179 | merging never hides the stored bytes, and reveals them for an object with a part telling and a part not |
| `Exclude.Excluded` | core/backup/exclude.go:13-28 | a path is excluded exactly when one of the patterns excludes it |
| `Exclude.NameAtAnyDepth` | core/backup/exclude.go:8-12 | a pattern with no slash excludes a name at any depth, or at none |
| `Exclude.NameMeans` | core/backup/exclude.go:13-28 | a pattern with no slash, but for some at its end, excludes exactly the names it means, at any depth or at none |
| `Exclude.PathMeans` | core/backup/exclude.go:13-57 | a pattern starting with a slash, or holding one, excludes no path but those it means, and exactly those when no class between two stars can stand for a slash or the path has none |
| `Exclude.SlashesExcludeNothing` | core/backup/exclude.go:16-18 | a pattern of slashes alone excludes nothing |
| `Exclude.EndingExcludes` | core/backup/exclude.go:13-28 | a star and an ending, as `*.log`, excludes exactly the names with that ending, at any depth or at none |
| `GlobMeaning.ChunkMeans` | core/backup/exclude.go:23 | a pattern means a name exactly when its first part, up to a star, takes the start of it and the rest means the rest |
| `GlobMeaning.MatchIsMeant` | core/backup/exclude.go:23 | what the matcher matches is what the pattern means, character by character, classes read by their ranges and stars standing for any characters but slashes |
| `GlobMeaning.MatchMeans` | core/backup/exclude.go:23 | it matches all of it when no class between two stars can stand for a slash, or the name has none |
| `GlobMeaning.ClassHidesASlash` | core/backup/exclude.go:23 | a class between two stars that can stand for a slash: a family of patterns and names the matcher misses |
| `Exclude.LiteralPattern` | core/backup/exclude.go:61-72 | the loop writes a slash and the path with its wildcards escaped |
| `Exclude.EscapeMatchesItself` | core/backup/exclude.go:61-72 | an escaped path matches that path and no other, through the matcher |
| `Exclude.LiteralExcludesExactly` | core/backup/exclude.go:13-72 | for every path, its literal pattern excludes exactly the path without its outer slashes, if anything is left |
| `Exclude.LiteralIsLiteral` | core/backup/exclude.go:59-72 | it excludes the path and no other exactly when the path is not empty and has no slash at its ends |
| `InstallRecord.Recorder.RemoveInstalled` | core/datarecv/install_files.go:272-311 | of the paths given, those removed are the ones in sight, as installed and not stuck; those failed the ones out of sight, or in sight, as installed and stuck |
| `InstallRecord.Recorder.StampHeld` | core/datarecv/install_files.go:80-96 | the files held and looked at are stamped, nothing else |
| `InstallRecord.Recorder.PruneInstallLine` | core/datarecv/install_files.go:163-204 | the files listed as removed are those the line held, holds no more and no other line holds, in sight, as installed and not stuck; the tree, the stamps and the record after |
| `InstallRecord.Recorder.PruneInstallLines` | core/datarecv/install_files.go:221-265 | the lines visited in any order, as one visit after the other |
| `InstallRecord.PruneLinesTree` | core/datarecv/install_files.go:208-265 | for every visiting order and any failures, the files removed are those held by a line gone, by no line configured, there, and unchanged since stamped |
| `InstallRecord.PruneLinesStamps` | core/datarecv/install_files.go:208-265 | the stamps dropped are those of the same files, removed or left, and not the failed ones |
| `InstallRecord.PruneLinesRecord` | core/datarecv/install_files.go:208-265 | configured lines are untouched; a file stays recorded by one line gone exactly when its removal failed |
| `InstallRecord.PruneLinesRemovesOnce` | core/datarecv/install_files.go:221-265 | each file removed is listed by one line, and nothing else is listed |
| `InstallRecord.OrderDoesNotMatter` | core/datarecv/install_files.go:208-265 | two visiting orders leave the same tree, stamps, and files removed and recorded |
| `InstallRecord.RunKeepsNoOrphan` | core/datarecv/install_files.go:163-265 | over every run of both prunings, the tree changing freely, every stamped path is recorded by some line |
| `InstallRecord.StampWasTaken` | core/datarecv/install_files.go:80-96 | over every run, a stamp is what the file was at the run of a line holding it |
| `InstallRecord.LineRemovesItsOwn` | core/datarecv/install_files.go:163-204 | a file removed was held by this line and no other and matched its stamp; a failed removal stays recorded with its stamp |
| `InstallRecord.LinesRemoveTheirOwn` | core/datarecv/install_files.go:221-265 | the same of a pruning of the lines gone |
| `InstallRecord.LineDoesExactly` | core/datarecv/install_files.go:163-204 | of a file the line held, holds no more and no other line holds: as installed and not stuck, it is gone from the tree, the stamps and the record; stuck, or out of sight, it stays in all three; missing or changed, or with no head, it is left in the tree and forgotten |
| `InstallRecord.LineHoldsExactly` | core/datarecv/install_files.go:80-96 | a file the line holds is recorded by it and left in the tree, with its stamp taken again when it is a file in sight, and only then |
| `InstallRecord.LineLeavesTheRest` | core/datarecv/install_files.go:163-204 | every other file keeps its place and its stamp, and every other line its files |
| `InstallRecord.LinesDoExactly` | core/datarecv/install_files.go:208-265 | the same of a file held by a line gone and by no line configured, in whatever order the lines are visited, and it is listed as removed exactly when it is gone |
| `InstallRecord.LinesLeaveTheRest` | core/datarecv/install_files.go:208-265 | a file held by no line gone, or by a line configured, keeps its place and its stamp and is not listed; the lines configured keep their files |
| `Flag.StepKeepsInv` | core/flagfile/main.go:54-186 | every step of every interleaving keeps the invariant of the protocol |
| `Flag.CreateNeverTruncates` | core/flagfile/main.go:54-80 | the truncating create never runs on a flag raised |
| `Flag.SameInodeIsSameFile` | core/flagfile/main.go:120-145 | while a raise holds its file open, the file at the path has its inode exactly when it is that very file |
| `Flag.LowerRemovesItsOwn` | core/flagfile/main.go:124-145 | Lower removes the file its own Raise created |
| `Flag.FlagStaysExactly` | core/flagfile/main.go:54-186 | over any interleaving a flag raised is the same file with the same content exactly when no Unset, and no Lower of its own, removed it |
| `Flag.Reachable` | core/flagfile/main.go:54-186 | every reachable state has the invariant the former rest on |
| `Flag.SetRaises` | core/flagfile/main.go:54-80 | from any state with no flag and the lock free, SetWith alone raises a flag with its content |
| `Flag.LowerLowers` | core/flagfile/main.go:120-145 | while the flag of a Raise is there and the lock is free, its Lower alone takes it away |
| `Flag.LowerLeavesOthers` | core/flagfile/main.go:120-145 | a Lower alone leaves the flag as it is when it is not the one of its Raise |
| `Flag.UnsetLowers` | core/flagfile/main.go:159-186 | from any state with a flag and the lock free, Unset alone takes the flag away and frees the lock |
| `Flag.RaiseRaises` | core/flagfile/main.go:97-119 | from any state with no flag and the lock free, Raise alone raises an empty flag, and holds it by its own inode |
| `Flag.RaiseLeavesRaised` | core/flagfile/main.go:97-119 | with a flag raised, Raise alone leaves it as it is and holds none |
| `Flag.SetLeavesRaised` | core/flagfile/main.go:54-80 | with a flag raised, SetWith leaves it as it is, whether it finds it before it locks or after |
| `Flag.UnsetAndKeepLeave` | core/flagfile/main.go:97-186 | with no flag, Unset does nothing; Keep leaves the flag of its Raise raised |
| `Flag.MayStop` | core/flagfile/main.go:54-186 | a process may stop at any step, which gives its lock back, closes its files and changes nothing of the others |
| `Flag.SomeSpare` | core/flagfile/main.go:84-86 | a create always has an inode to take |
| `Flag.RemovedIsSpare` | core/flagfile/main.go:84-86 | once Unset removed the flag its inode may be taken again exactly when no process holds the file open |
| `InstanceData.Data.Set` | core/instance/data.go:50-62 | the instance is held, by both indexes, and its value set at its joined text |
| `InstanceData.Data.Unset` | core/instance/data.go:65-77 | the instance is held no more, by either index, and the entry at its joined text dropped |
| `InstanceData.Data.DropNode` | core/instance/data.go:80-88 | the instances of the node and their entries are dropped, the others untouched; a path left with no node keeps its row |
| `InstanceData.Data.GetByPathAndNode` | core/instance/data.go:91-95 | what the one map the holder agrees with holds of the instance, nil when it holds nothing of it |
| `InstanceData.Data.GetPathsByNode` | core/instance/data.go:109-117 | the paths held on the node, once each |
| `InstanceData.Data.GetByNode` | core/instance/data.go:98-106 | the paths held on the node with their values |
| `InstanceData.Data.GetByPath` | core/instance/data.go:120-128 | the nodes holding the path with its values, as the other index says |
| `InstanceData.Data.GetAll` | core/instance/data.go:131-145 | every instance held, once, with its value |
| `InstanceData.RunAgrees` | core/instance/data.go:50-145 | after any calls on instances the joined text tells apart, the indexes, the flat map and the getters agree with one map from path and node to value |
| `InstanceData.AgreesExactly` | core/instance/data.go:50-196 | that holds of every run exactly when the joined text tells the instances apart |
| `InstanceData.JoinedTells` | core/instance/data.go:194-196 | the joined text tells two instances apart, whatever the node names, but for a svc and a ccfg of the root namespace with one name on one node |
| `InstanceData.HolderIsOneMapExactly` | core/instance/data.go:50-196 | for a set of objects, every run agrees with one map exactly when no two of them are such a pair |
| `InstanceData.TwinsShareOneValue` | core/instance/data.go:50-96 | such a pair reads the last value set for either, and none once either is unset |
| `Naming.NewPathExactly` | core/naming/path.go:77-127 | which elements make a path, and which: what is left out is svc and root; a known kind, a namespace that is a host name, a name that is a host name after a slice number or none, no capital, no reserved name |
| `Naming.StrTells` | core/naming/path.go:157-176 | the text of a path tells it from every other but its twin |
| `Naming.PathRoundTrip` | core/naming/path.go:157-274 | a path is read back from its text but for the svc `cluster` and the ccfgs not named `cluster` of the root namespace |
| `Naming.ParsedRoundTrip` | core/naming/path.go:77-274 | so is a path read from any text |
| `Naming.TextRoundTrip` | core/naming/path.go:157-274 | the text of a path is that of the path it is read as, but for the ccfg `namespace` of the root namespace |

## Left out

- HeadExcludes, DrainPeers, Reservations, Gateway, PoolsString, StoreStats and ComputeStats: they add no property over what is modelled.
- File-system errors other than the failed looks and removals of the install record, JSON, fsync, temporary files and renames: directories are maps.
- Times before the zero time, the overflow of 64-bit sums, and invalid UTF-8 in paths and patterns.
- The order of two lines of a breakdown with one last time, and of two pools with one first address: the sorts are not stable, and nothing proved depends on it.
- GlobMeaning.MatchMeans: of a pattern with a class between two stars that can stand for a slash, on a name with a slash, only that what is matched is meant is proved, and that some names meant are missed; which ones depends on the parts around the class.
- Naming: upper-case letters are the ASCII ones; a non-ASCII name is refused by the host name rule in any case, but for the name given to a nscfg, which is replaced.
- Pools.ParseOfPrint: the text of single addresses is that of the net package, assumed to be read back and to hold no slash and no dash.
- Allocator.Allocator.Allocate: the sizes of the pools do not sum to zero, which the source divides by; only the subnets with ends of two families have a size that is not positive.
- Allocator.Allocator.FreeAddr: keys have no space at their ends, which the reading of a holder trims.
- Allocator.CompleteWalk: no pool is empty, which only the subnets with ends of two families are.
- Allocator.AllocateFailsExactly: no pool is empty, as for Allocator.CompleteWalk.
- PoolLists.WalkMeetsEveryAddress: no pool is empty, as for Allocator.CompleteWalk.
- Reservation.SafeExactlyWhenNested: of two Allocate, that nested ranges are safe is proved (KeyIsNeverLeftWithout), and not that others are unsafe: an Allocate that finds an address in its ranges releases nothing.
- Reservation.KeyIsNeverLeftWithout: keys are not empty, as every key made of a path and a resource id; a call may look at and release the files it is to in any order.
- Stats.MergingKeepsTotals: the number of objects changes with merging, and whether the stored bytes are told is ToldOnceMerged.
- PoolLists.RightExactlyWhenTogether: for orders of at most 2^32 pools.
- PeerRecords.ReportedExactly: not for a report with an address in another form in a directory with a file named in another form, where which of two pairs of one address is written last decides.
- PeerRecords.RunTells: for reports with no address in another form, and keys that name the object and fit a record.
- InstallRecord.Recorder.PruneInstallLines: the record lists are sets, the head is one tree in which two recorded paths are two files, and reading and writing the record go through.
- InstanceData.Data: values are copied in the source and are values here; the read-write lock makes the calls one after the other.
