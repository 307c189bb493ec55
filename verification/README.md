# Verified models of the data distribution policies

The repository implements policies that decide which disks hold the copies of an extent. This project
models seven of them in Dafny and proves the properties they are built for. All hash values are inputs:
every theorem holds for every hash.

- **Random Slicing** (`SegmentTree`, `Blocks`, `FreeSpace`, `Collect`, `Reuse`, `Quotas`, `Redistribution`,
  `Handover`, `RandSlice`, `RandSliceRuns`). The address space [0, V) is cut into intervals owned by disks. The policy is a
  class whose methods update the interval table and the partition sizes. The leaf list of the segment tree is
  kept next to a ghost list that names the owner of every single block, and all statements are about that list.
  `Consistent` says that the intervals tile the space among known disks, that stored sizes are the owned block
  counts, and how far rounding can go; `Grows` says what one addition of disks does, and leaves one outcome only: the
  disks and the strategy decide the owner of every block.
- **Redundant Share** (`Capacities`, `Rationals`, `RedundantShare`, `Probabilities`, `ExactWalk`, `TakenWalk`).
  k copies are placed by one walk over the disks in descending order of clipped capacity. `Remaining` is the scan
  that says by which disk each copy is placed; the walk is bounded by it, and finds a disk for every copy exactly
  when the scan ends without copies. The exact probabilities of the walk give the functions P and r, and tell when the walk is fair
  without its corrected values; the walk with the stored 64-bit thresholds is then fair up to one hash value per disk.
- **Fast Redundant Share** (`ShareWeights`, `FastRedundantShare`). One weighted table per copy and disk of the
  copy before; look-ups never miss, and a table carries the probabilities of the slow walk exactly when its
  weights, kept as the fractions that the products leave, are read as truncated numbers.
- **RUSH_R** (`WichmannHill`, `Shuffle`, `Clusters`, `RushR`). A generator with a logarithmic jump ahead, a
  partial shuffle that is undone in place, and the allotment of replicas to clusters. A run whose draws are not all
  places says so, and the condition for that is exact.
- **CRUSH map building** (`TreeBucket`, `CrushMap`, `CrushBuild`, `CrushChunks`, `CrushParents`, `CrushPolicy`).
  Tree buckets stored by in-order node numbers, bucket slots in a growing array, and a layered hierarchy with
  parents, whose lowest buckets spread the disks evenly over the failure domains.
- **The ring index** (`RingIndex`) and **RUSH_T** (`Coprime`, `RushT`). A sliced search that agrees with the plain
  ring search; a weighted tree over clusters, and a prime stride within a cluster.

`Arithmetic`, `Powers`, `Sums`, `Sequences` and `Disks` hold what several models share.

Arithmetic is exact. Random Slicing's `floor(c * 1.0 / C * V)` on doubles is the integer `c * V / C`; the arbitrary
precision rationals of Redundant Share are pairs of a numerator and a denominator, never reduced but for what a
product cancels crosswise, or their real values; doubles elsewhere are reals.
C's truncating division and remainder are written out where operands can be negative, and 32- and 64-bit
truncation where a result depends on it (`AlignedStep`, `Add32`, `Low32`, `Int32`, `KeyOf`, `Unsigned`, `Signed64`,
`NumNodesFits`).

## Where the code does not do what it is meant to

These are theorems of the project, each with the exact condition for the code being right.

- `Capacities.AlignedFitsExactly`, `Capacities.AlignedTruncates`: the clipping of capacities compares a 32-bit
  truncation of the capacity. The clipped capacities fit k copies exactly when no comparison lets a too large
  capacity slip through, as none does below 2^32; capacities 2^32 and 1 do not fit two copies.
- `RedundantShare.WalkStaysExactly`, `RedundantShare.WalkRunsOff`: the walk finds a disk for every copy, for all
  hashes, exactly when the scan ends without copies. After a slip it may not: with capacities 2^33 - 1, 2^32 and 1
  and three copies it runs past the last disk, and the fast form never sets the last disk of the third copy.
- `ExactWalk.DocumentedPAgrees`, `ExactWalk.DocumentedPDiffers`: the header documents P as max(0, product); the
  code returns 0 as soon as one factor is negative, that is the product of the factors each cut off at 0. The two
  agree exactly when some disk is asked for just one copy, or when none or an odd number of disks is asked for
  more. The model follows the code.
- `ShareWeights.TableAsRead`, `FastRedundantShare.EveryTableAsRead`, `FastRedundantShare.FirstTableAsRead`:
  `read_int64_t` reads the decimal digits of a printed rational up to the fraction bar, so it returns the low 64
  bits of the stored numerator, which is not reduced, and not the truncated value. Every table carries the landing
  probabilities exactly when those bits are the truncated weight for every disk before the last, and no less than
  the rest for the last. `ShareWeights.NumeratorStarvesSecondDisk`: two disks of capacity 1 get everything and
  nothing. `ShareWeights.NumeratorTurnsNegative`: capacities 2 and 2 and two copies store 2 * MAX / 2 for the first
  disk, which is read as -2. For 63-bit numerators a weight is read right exactly if its denominator is one or it is
  nothing (`ShareWeights.NumeratorIsTruncation`).
- `Clusters.ClustersAreCapacities`, `Clusters.LargeCapacitiesMerge`, `Clusters.LargeCapacitiesUngrouped`: both RUSH
  policies look clusters up by the low 32 bits of the capacity. Clusters are the disks of one capacity exactly when
  no two different capacities agree in those bits, as none below 2^32 do (`Clusters.SmallToldApart`); disks of 2^32
  and 2^33 make one cluster with the weight of the first.
- `RushR.PlacesMatchClusters`, `RushT.PlacesMatchClusters`: servers are drawn per cluster but looked up by their
  place in the list of disks; the disk found is of the right cluster exactly when the list is grouped by cluster.
- `RushR.InsideExactly`, `RushR.NegativeKeyDrawsBelow`: with a negative key a draw can lie before the scratch area.
  The run stays inside exactly when the draws that it makes are places, as they are for keys from zero on
  (`RushR.SeedDrawable`). Key -60540 leaves it from a first cluster of two servers, and not from one of one.
- `WichmannHill.SeedInRange`, `WichmannHill.NegativeSeedSticks`: negative keys can leave the range of the generator.
- `RushT.PlaceInCluster`, `RushT.NegativeKeyLeavesCluster`: they can leave the cluster.
- `RushT.AlwaysFindsCluster`, `RushT.ThreeClustersMiss`: hashes can be exactly one. The descent finds a cluster for
  all of them exactly when the number of clusters is a power of two; otherwise hashes of one run into a missing child.
- `TreeBucket.NumNodesFits`: the 8-bit node count is right exactly up to 64 items.
- `CrushBuild.StoredWeightExact`, `CrushBuild.LargeCapacityForgotten`, `CrushBuild.UniformForgetsWeight`: weights are
  summed in 32 bits, and a uniform bucket stores its number of items times the weight of the first. A bucket stores
  the capacity below it exactly if that is below 2^32 and, for a uniform one, equals that product; a disk of capacity
  2^32 is stored as 0. The default domains are uniform.
- `CrushBuild.RootReachesAll`: the root covers all disks exactly when the last layer makes a single bucket.

## Model

| member | source | states |
|---|---|---|
| `SegmentTree.RepresentsUnique` | dadisi/flat_segment_tree.hpp:600-620 | a leaf list determines the owner of every block: two readings of it agree |
| `SegmentTree.FlatSegmentTree.constructor` | dadisi/flat_segment_tree.hpp:600-620 | one segment over the whole space, owned by the initial value; no search tree yet |
| `SegmentTree.FlatSegmentTree.InsertionPos` | dadisi/flat_segment_tree.hpp:1117-1134 | the first leaf from a position on whose key is not below the given one |
| `SegmentTree.FlatSegmentTree.InsertFront` | dadisi/flat_segment_tree.hpp:663-801 | exactly the blocks of the (clamped) range change owner, to the given value; the leaves keep tiling the space; an empty range changes nothing |
| `SegmentTree.FlatSegmentTree.BuildTree` | dadisi/flat_segment_tree.hpp:1075-1083 | only makes the search tree current |
| `SegmentTree.FlatSegmentTree.SearchTree` | dadisi/flat_segment_tree.hpp:953-1072 | finds the owner of a block exactly when the tree is current and the key lies in the half-open space; otherwise the value stays 0 |
| `Blocks.CountPartition` | dadisi/DistRandSlice.cpp:949-990 | every block is owned by one of the counted disks or by a disk outside them, so sizes and outsiders add up to the space |
| `FreeSpace.AssignEffect` | dadisi/DistRandSlice.cpp:724-799 | handing distinct blocks to a list of receivers gives each disk its count, takes exactly its listed blocks from it, and touches no other block |
| `FreeSpace.FlattenPermutation` | dadisi/DistRandSlice.cpp:801-868 | sorting intervals or requests does not change which blocks, or how many per receiver, they stand for |
| `FreeSpace.ReceiversCount` | dadisi/DistRandSlice.cpp:724-799 | with different ids each partition receives exactly what it asked for |
| `Collect.CollectFreeSpace` | dadisi/DistRandSlice.cpp:566-628 | ascending, disjoint intervals that take from each partition its first blocks, exactly its quota as far as it has as many |
| `Collect.CollectFreeSpaceEvenOdd` | dadisi/DistRandSlice.cpp:630-722 | the same amounts; within each segment the head or the tail is taken as the even-odd rule says |
| `Collect.TailAfterOddCuts` | dadisi/DistRandSlice.cpp:662-710 | a segment is due to be cut at its tail exactly after an odd number of partial cuts, counted anew whenever two segments in a row went completely |
| `Reuse.ReuseFreeSpace` | dadisi/DistRandSlice.cpp:724-799 | the free blocks in list order go to the receivers in request order, none twice, however intervals are split; the search tree is rebuilt |
| `Reuse.ReuseFreeSpaceSort` | dadisi/DistRandSlice.cpp:801-868 | the same after sorting both lists by decreasing size |
| `Reuse.SortDescendingSorts` | dadisi/DistRandSlice.cpp:801-830 | the sort used before reuse yields a descending permutation |
| `Reuse.SortDescendingStable` | dadisi/DistRandSlice.cpp:801-830 | elements of equal size keep their order |
| `Quotas.QuotaShrinks` | dadisi/DistRandSlice.cpp:423-440 | a larger system never enlarges an old disk's share, so the subtraction of the new size does not wrap |
| `Quotas.QuotaLoss` | dadisi/DistRandSlice.cpp:340-365 | rounding all shares down loses less than one block per disk |
| `Redistribution.Effect` | dadisi/DistRandSlice.cpp:535-564 | for any order of intervals and requests: old disks lose exactly their quotas, new ones get exactly their requests, and only collected blocks change owner, always to a new disk |
| `Redistribution.MovementIsQuota` | dadisi/DistRandSlice.cpp:535-564 | the number of moved blocks is the sum of the quotas |
| `Redistribution.MovementIsMinimal` | dadisi/DistRandSlice.cpp:535-564 | no assignment with the same amounts on the old disks moves fewer blocks |
| `Handover.RunOfInterval` | dadisi/DistRandSlice.cpp:566-628 | the collected intervals are the unbroken runs of blocks that change owner |
| `Handover.HandedInTurn` | dadisi/DistRandSlice.cpp:724-868 | blocks handed out first go to partitions served first: by address and place in the list, or with sorted reuse by the size of the run and of the request before that |
| `Handover.TakenInTurn` | dadisi/DistRandSlice.cpp:535-564 | so do the owners before and after one redistribution, for either strategy |
| `Handover.HandoverDetermined` | dadisi/DistRandSlice.cpp:724-868 | the moved blocks, the sizes and this order leave one new owner for every block |
| `RandSlice.DistRandSlice.SetDisks` | dadisi/DistRandSlice.cpp:125-146 | the first list cuts the space into one interval per disk in list order, every further one is a step of growth with the configured strategies |
| `RandSlice.DistRandSlice.CreatePartitions` | dadisi/DistRandSlice.cpp:291-379 | establishes the invariant for the given disks, with one interval per disk in list order |
| `RandSlice.DistRandSlice.SlicePartitions` | dadisi/DistRandSlice.cpp:338-366 | block x is owned by disk k exactly if it lies from the sum of the rounded shares of the disks before it up to that including its own, or up to the end for the last disk |
| `RandSlice.DistRandSlice.AddPartitions` | dadisi/DistRandSlice.cpp:380-534 | one step of growth: new sizes, capacity, disks and owners are those of `Grows` for the configured strategies, and the invariant is kept |
| `RandSlice.DistRandSlice.ShrinkPartitions` | dadisi/DistRandSlice.cpp:418-452 | each old partition's size becomes its new share, and the difference is what it gives up, for any order of visits |
| `RandSlice.DistRandSlice.PlanMove` | dadisi/DistRandSlice.cpp:418-498 | losses, requests, and the rounding difference on the last new partition |
| `RandSlice.DistRandSlice.Redistribute` | dadisi/DistRandSlice.cpp:535-564 | with either collection and either reuse strategy the owners change as `Redistributed` says, the blocks that move are those the collection picks, and they are handed out in the order of the reuse |
| `RandSlice.DistRandSlice.PlaceExtent` | dadisi/DistRandSlice.cpp:167-225 | a result is the list of different owners met by successive keys, all known disks; if all keys are blocks it exists exactly when the first 200 keys meet enough disks, or every further key meets a new one until there are enough |
| `RandSlice.LossesCover` | dadisi/DistRandSlice.cpp:423-498 | what the old partitions lose covers the shares of the new ones, so no subtraction wraps, with less than one block per disk to spare |
| `RandSlice.PartitionsFillSpace` | dadisi/DistRandSlice.cpp:291-564 | the partition sizes of a consistent table add up to the space |
| `RandSlice.GrowthKeepsConsistent` | dadisi/DistRandSlice.cpp:380-534 | every step of growth keeps the tiling, the stored sizes, and the rounding bound |
| `RandSliceRuns.RunStaysConsistent` | dadisi/DistRandSlice.cpp:291-564 | in every state of every run the intervals tile the space, owners are known, and stored sizes are the owned blocks |
| `RandSliceRuns.GrowthMovesMinimum` | dadisi/DistRandSlice.cpp:380-564 | blocks move from old disks to new ones only, as many as the old shares shrink in all, and no redistribution to the same sizes moves fewer |
| `RandSliceRuns.RunMovesOnlyToLaterDisks` | dadisi/DistRandSlice.cpp:380-564 | over a whole run a block's owner only changes to a disk that joined later |
| `RandSliceRuns.GrowthIsDetermined` | dadisi/DistRandSlice.cpp:380-564 | a growth step has one outcome: the new disks and the strategies decide the size of every partition and the owner of every block |
| `RandSliceRuns.RunIsDetermined` | dadisi/DistRandSlice.cpp:380-564 | with plain collection the lists of disks and the first table decide the owner of every block in every state of a run |
| `Capacities.AlignedStepIsMinimum` | dadisi/DistRedundantShare.cpp:396-400 | one clipping step is the intended minimum exactly when the 32-bit comparison does not let a too large capacity pass |
| `Capacities.AlignedFitsExactly` | dadisi/DistRedundantShare.cpp:391-407 | for all positive capacities in descending order: the clipped ones fit k copies exactly when no comparison slips |
| `Capacities.SmallNeverSlips` | dadisi/DistRedundantShare.cpp:396 | capacities below 2^32 never slip |
| `Capacities.AlignedBounds` | dadisi/DistRedundantShare.cpp:391-407 | slip or not, clipping enlarges no disk and leaves each something |
| `Capacities.AlignedFits` | dadisi/DistRedundantShare.cpp:391-407 | without slips clipped capacities stay descending, and (m - q) * c[q] is at most the suffix sum for every q < m |
| `Capacities.AlignedIsGreatestFit` | dadisi/DistRedundantShare.cpp:391-407 | the clipped capacities are above every choice below the given ones that fits k copies, and fit themselves exactly when no comparison slips |
| `Capacities.AlignedUnchanged` | dadisi/DistRedundantShare.cpp:391-407 | the given capacities fit exactly when aligning changes nothing and does not slip |
| `Capacities.AlignedTruncates` | dadisi/DistRedundantShare.cpp:396 | a capacity of 2^32 passes the truncated comparison, and two copies no longer fit |
| `Capacities.ScanLosesCopy` | dadisi/DistRedundantShare.cpp:391-460 | capacities 2^33 - 1, 2^32 and 1: the second slips, and the scan for three copies ends with one left |
| `Capacities.FitsIffFitsFrom` | dadisi/DistRedundantShare.cpp:391-407 | k * c[i] at most the total for all disks is the same as fitting from every position |
| `Capacities.RemainingBound` | dadisi/DistRedundantShare.cpp:440-460 | the scan never has more copies left than disks, so it ends with none |
| `Capacities.OneFewerFits` | dadisi/DistRedundantShare.cpp:440-460 | one copy fewer than the scan has left never overfills a disk |
| `RedundantShare.FullShareSaturates` | dadisi/DistRedundantShare.cpp:620-630 | a threshold is the largest hash value exactly where l copies fill the disk |
| `RedundantShare.LandedInTime` | dadisi/DistRedundantShare.cpp:515-550 | for all hashes and corrected values every copy lands no later than the disk where the scan gave it up, on strictly ascending positions |
| `RedundantShare.LandsExactly` | dadisi/DistRedundantShare.cpp:524-543 | a copy lands on the first disk whose hash is not above its threshold; only the first disk tried may use a corrected threshold, the one for this number of copies left |
| `RedundantShare.WalkStaysExactly` | dadisi/DistRedundantShare.cpp:515-550 | every copy finds a disk for all hashes exactly when the scan ends without copies, whatever the corrected values are |
| `RedundantShare.WalkRunsOff` | dadisi/DistRedundantShare.cpp:515-550 | three copies on capacities 2^33 - 1, 2^32 and 1 with the largest hashes pass the last disk |
| `RedundantShare.TablesSound` | dadisi/DistRedundantShare.cpp:440-460 | the stored thresholds saturate exactly where the scan drops a copy, whatever the corrected values are |
| `RedundantShare.InsertDiskOrders` | dadisi/DistRedundantShare.cpp:866-892 | insertion keeps the disks ordered by capacity and id and loses none |
| `RedundantShare.OrderedDisksSound` | dadisi/DistRedundantShare.cpp:427-433 | inserting all disks one by one yields them all, by descending capacity and then by ascending id, or descending when reverted |
| `RedundantShare.AlignDisks` | dadisi/DistRedundantShare.cpp:391-407 | the loop stores clipped capacities, suffix sums and quotients, and returns the total |
| `RedundantShare.ScanErrors` | dadisi/DistRedundantShare.cpp:440-460 | marks exactly the disks that the copies left would overfill, and drops a copy where a disk must take one |
| `Rationals.ComparedWithOne` | dadisi/DistRedundantShare.cpp:440-460 | the stored product of a quotient and a number of copies compares with one by value as the integer scan does |
| `RedundantShare.InitValueCaches` | dadisi/DistRedundantShare.cpp:604-633 | each threshold h of a disk with a among s for l copies is the largest hash where l * a is at least s, and otherwise h * s is at most l * a of the hash range, and (h + 1) * s is more |
| `RedundantShare.PreparedFits` | dadisi/DistRedundantShare.cpp:409-460 | disks as set have capacities that fit k copies exactly when clipping them never slipped, and then the scan ends |
| `RedundantShare.DistRedundantShare.SetDisks` | dadisi/DistRedundantShare.cpp:409-460 | too short lists are ignored; otherwise all disks are kept in order, clipped, and the tables belong to them; every copy will find a disk exactly when the scan ends |
| `RedundantShare.DistRedundantShare.PlaceExtent` | dadisi/DistRedundantShare.cpp:515-550 | never leaves the disks, and returns exactly k disks with different ids, at the positions where the walk lands |
| `RedundantShare.PlaceCopies` | dadisi/DistRedundantShare.cpp:515-550 | the same for any sound tables |
| `RedundantShare.WalkFrom` | dadisi/DistRedundantShare.cpp:526-543 | one copy's walk stops at the first disk that does not reject it |
| `Probabilities.LandingsSumToOne` | dadisi/DistRedundantShare.cpp:266-284 | a copy lands on exactly one of the disks up to one with a full share |
| `Probabilities.FairIffNeverOverfull` | dadisi/DistRedundantShare.h:286-291 | without corrected values, expected loads are proportional to shares for all disks exactly when no disk is asked for more than a whole copy |
| `ExactWalk.ScheduleIsScan` | dadisi/DistFastRedundantShare.cpp:228-233 | the integer scan and the scan over quotients are the same |
| `ExactWalk.ShareIsRatio` | dadisi/DistRedundantShare.cpp:402-403 | the quotients of the disks before make up each disk's part of the suffix capacity |
| `ExactWalk.FairExactlyWithoutErrors` | dadisi/DistRedundantShare.cpp:440-460 | without corrected values, every disk is expected to hold k times its part of the capacity exactly when the scan marks no disk |
| `TakenWalk.ThresholdIsAccept` | dadisi/DistRedundantShare.cpp:604-633 | every stored threshold is the exact probability to accept, times the largest hash, up to less than one |
| `TakenWalk.AcceptedCount` | dadisi/DistRedundantShare.cpp:535 | a disk with threshold h accepts h + 1 of the 2^64 hashes |
| `TakenWalk.LoadsAgree` | dadisi/DistRedundantShare.cpp:515-550 | the expected loads with such thresholds are the exact ones up to one hash value per disk |
| `TakenWalk.TakenWalkIsFair` | dadisi/DistRedundantShare.cpp:515-550 | if the scan marks no disk, the walk with the stored thresholds gives every disk k times its part of the capacity, up to one hash value of 2^64 per disk |
| `TakenWalk.NoCorrection` | dadisi/DistRedundantShare.cpp:526-530 | then no copy meets a corrected threshold |
| `ExactWalk.P` | dadisi/DistRedundantShare.cpp:218-264 | returns the probability that a range of disks all miss, for all arguments |
| `ExactWalk.DocumentedPAgrees` | dadisi/DistRedundantShare.h:293-301 | the documented product is what the code computes exactly when some load is one, or no load or an odd number of loads is above one |
| `ExactWalk.DocumentedPDiffers` | dadisi/DistRedundantShare.h:293-301 | three copies on capacities 6, 6, 4, 3, 3, 1, which fit them: documented 5/4301 for the first three disks, computed 0 |
| `ExactWalk.RInner` | dadisi/DistRedundantShare.cpp:266-284 | for o = m returns the probability that the walk of this copy ends at the disk |
| `ShareWeights.CreateShare` | dadisi/DistFastRedundantShare.cpp:251-286 | the weights are the stored products as read, and the last disk gets the rest unless that is too much |
| `Rationals.MultipliedValue` | dadisi/DistFastRedundantShare.cpp:259-266 | cancelling crosswise keeps the value of a product, whatever the stored fractions are |
| `ShareWeights.WeightValue` | dadisi/DistFastRedundantShare.cpp:259-266 | the stored fraction of every weight, reduced or not, has the exact weight as its value |
| `ShareWeights.RestIsLanding` | dadisi/DistFastRedundantShare.cpp:251-286 | what the disks before the last leave is the landing probability of the last |
| `ShareWeights.FactorIsMissed` | dadisi/DistFastRedundantShare.cpp:259-266 | the running factor is the probability that the disks so far miss, so it never is negative |
| `ShareWeights.ExactIsLanding` | dadisi/DistFastRedundantShare.cpp:251-286 | before truncation the weights are the landing probabilities r(k, k, first, i), scaled |
| `ShareWeights.ExactWeightsSum` | dadisi/DistFastRedundantShare.cpp:251-286 | before truncation they sum to the whole range |
| `ShareWeights.WalkTableExactly` | dadisi/DistFastRedundantShare.cpp:251-286 | for any way of reading a stored fraction: the table carries the landing probabilities exactly when every weight before the last is truncated and the last is not read as less than the rest |
| `ShareWeights.WeightsAreLandings` | dadisi/DistFastRedundantShare.cpp:251-286 | a reader that truncated, as is intended, would always give such a table |
| `ShareWeights.TableAsRead` | dadisi/helper.cpp:162-164 | with the reader as it is: exactly when the 64 bits read of each stored numerator before the last are the truncated weight, and those of the last are no less than the rest |
| `ShareWeights.NumeratorIsTruncation` | dadisi/helper.cpp:162-164 | the bits of a stored 63-bit numerator are the truncated weight exactly if the stored denominator is one or the weight is nothing |
| `ShareWeights.NumeratorStarvesSecondDisk` | dadisi/helper.cpp:162-164 | capacities 1 and 1, one copy: everything and nothing instead of half each |
| `ShareWeights.NumeratorTurnsNegative` | dadisi/helper.cpp:162-187 | capacities 2 and 2, two copies: the first weight is stored as 2 * MAX / 2 and read as -2, so the table is not that of the walk |
| `FastRedundantShare.LastDisksAscend` | dadisi/DistFastRedundantShare.cpp:228-233 | later copies have later last disks |
| `FastRedundantShare.StillLeft` | dadisi/DistFastRedundantShare.cpp:228-233 | the slow walk and the tables have the same upper position for every copy |
| `FastRedundantShare.TableEnds` | dadisi/DistFastRedundantShare.cpp:228-246 | no table asks a disk before its last for more than a copy, and the last for at least one |
| `FastRedundantShare.TableIsWalk` | dadisi/DistFastRedundantShare.cpp:228-286 | a table over capacities that fit carries the landing probabilities of the slow walk exactly when its stored weights are read well, for any reader |
| `FastRedundantShare.EveryTableIsWalk` | dadisi/DistFastRedundantShare.cpp:228-331 | so does the table found for any copy and any disk the copy before may be on, for all capacities that do not slip |
| `FastRedundantShare.FirstTableIsWalk` | dadisi/DistFastRedundantShare.cpp:235-238 | so does the table of the first copy |
| `FastRedundantShare.EveryTableAsRead` | dadisi/DistFastRedundantShare.cpp:228-331 | with the reader as it is, and no bound on the numerators, that table is the walk exactly when the bits read of its stored numerators are the weights |
| `FastRedundantShare.FirstTableAsRead` | dadisi/DistFastRedundantShare.cpp:235-238 | the same for the table of the first copy |
| `FastRedundantShare.TablesAreClosed` | dadisi/DistFastRedundantShare.cpp:235-246 | wherever the copy before may be, the look-up for the next copy finds a table over the right disks |
| `FastRedundantShare.ChosenInBounds` | dadisi/DistFastRedundantShare.cpp:315-331 | for all picks the positions strictly increase and stay within the last disk of each copy |
| `FastRedundantShare.ChosenAsPicked` | dadisi/DistFastRedundantShare.cpp:315-342 | every copy goes to the disk of the picked entry of its table: that of the first copy, or the one behind the disk of the copy before |
| `FastRedundantShare.FindLastDisks` | dadisi/DistFastRedundantShare.cpp:228-233 | records for every copy the disk where the scan gives it up |
| `FastRedundantShare.InitShareStructures` | dadisi/DistFastRedundantShare.cpp:209-249 | builds exactly the specified tables, level by level |
| `FastRedundantShare.DistFastRedundantShare.SetDisks` | dadisi/DistFastRedundantShare.cpp:197-207 | whenever the scan ends, the tables belong to the disks as Redundant Share orders and clips them |
| `FastRedundantShare.DistFastRedundantShare.PlaceExtent` | dadisi/DistFastRedundantShare.cpp:315-342 | no look-up misses; k disks with different ids, as the tables pick them, on ascending positions within the slow walk's bounds |
| `WichmannHill.StepInvertible` | dadisi/DistRUSHr.h:115-118 | a step with an invertible factor stays in 1..modulus-1 and can be undone |
| `WichmannHill.NextInRange` | dadisi/DistRUSHr.h:115-118 | all three components stay in range, and a step loses nothing |
| `WichmannHill.StepsInRange` | dadisi/DistRUSHr.h:115-121 | they do for any number of steps |
| `WichmannHill.UniformInUnit` | dadisi/DistRUSHr.h:119-120 | the number drawn lies in [0, 1) |
| `WichmannHill.ExpMod` | dadisi/DistRUSHr.h:129-150 | computes a^b mod n, and 1 for b <= 0 |
| `WichmannHill.JumpIsSteps` | dadisi/DistRUSHr.h:123-127 | a jump by j is j steps; for j = 0 exactly if the components are reduced |
| `WichmannHill.SeedInRange` | dadisi/DistRUSHr.h:104-113 | a seed gives usable components exactly if it is not negative or its remainders vanish |
| `WichmannHill.SeedDigits` | dadisi/DistRUSHr.h:104-113 | the components are the digits of the seed, so seeds up to the product of the bases are told apart |
| `WichmannHill.NegativeSeedSticks` | dadisi/DistRUSHr.h:104-118 | seed -1 gives a component that stays zero |
| `WichmannHill.NegativeSeedDrawsBelow` | dadisi/DistRUSHr.h:104-127 | seed -60540 gives a number below -1/2 after a jump by 14 |
| `WichmannHill.Generator.constructor` | dadisi/DistRUSHr.h:104-113 | the seeded state |
| `WichmannHill.Generator.Random` | dadisi/DistRUSHr.h:115-121 | advances the state by one step and returns its number |
| `WichmannHill.Generator.JumpAhead` | dadisi/DistRUSHr.h:123-127 | the state after the jump |
| `Shuffle.DrawnDistinct` | dadisi/DistRUSHr.cpp:121-133 | the results are different numbers below n whenever the draws made are places |
| `Shuffle.ResultsTellDraws` | dadisi/DistRUSHr.cpp:121-133 | two ways of drawing with the same results drew the same places: no two ways give the same results |
| `Shuffle.ChoiceExactly` | dadisi/DistRUSHr.cpp:124-125 | of m places the j-th is drawn exactly for numbers from j / m up to (j + 1) / m |
| `Shuffle.ShuffledRecoverable` | dadisi/DistRUSHr.cpp:124-129 | then a place in front that lost its number finds it among the drawn places |
| `Shuffle.UndoRestores` | dadisi/DistRUSHr.cpp:135-141 | then undoing the drawn places alone restores the identity |
| `Shuffle.DrawKOfN` | dadisi/DistRUSHr.cpp:121-142 | stays inside exactly when the k draws made are places; then it writes the drawn numbers, advances the generator by k steps, and leaves the scratch array as it was |
| `RushR.ISample` | dadisi/DistRUSHr.cpp:144-170 | counts the positive rounds, at most r, and advances the generator |
| `RushR.BelowExactly` | dadisi/DistRUSHr.cpp:160-166 | a number is below the quotient n / d exactly if its product with d is below n, for negative d above it, and for d = 0 if n is positive |
| `RushR.CountExactly` | dadisi/DistRUSHr.cpp:401-431 | a cluster gets what it must, and one more in every round whose number, times the weight that all clusters up to it still have, is less than the weight that it still has |
| `RushR.StateAtSteps` | dadisi/DistRUSHr.cpp:401-410 | for keys from zero on the generator of cluster c is the seeded one after 7 * (c + 2) steps |
| `RushR.SeedDrawable` | dadisi/DistRUSHr.cpp:401-410 | the draws of a run are places for keys from zero on, and all others with usable seeds |
| `RushR.NegativeKeyDrawsBelow` | dadisi/DistRUSHr.cpp:124-129 | key -60540 draws place -1 from a first cluster of two servers, and stays inside with one of one |
| `RushR.BlockIsSound` | dadisi/DistRUSHr.cpp:391-441 | a cluster whose draws are places gives different servers of its own block, and at least what the clusters before it cannot hold |
| `RushR.AssignedIsSound` | dadisi/DistRUSHr.cpp:391-451 | for all blocks of this kind exactly the remaining replicas are placed, on different servers below the cumulative count, unless a draw lies outside |
| `RushR.InsideExactly` | dadisi/DistRUSHr.cpp:391-451 | a run stays inside the scratch area exactly when the draws that it makes are places |
| `RushR.ServeCluster` | dadisi/DistRUSHr.cpp:401-447 | stops exactly if a draw of the cluster lies outside; otherwise writes the cluster's servers behind those already written and restores the scratch array |
| `RushR.DistRUSHr.RUSHr` | dadisi/DistRUSHr.cpp:391-451 | for every key: stays inside exactly when the draws made are places; then fills exactly the given number of slots with different servers below the number of disks, and the scratch array is the identity again |
| `RushR.DistRUSHr.SetDisks` | dadisi/DistRUSHr.cpp:172-298 | groups disks by the low 32 bits of their capacity, weighted by the first, with cumulative counts over all disks; every weighted cumulative sum times the average is the capacity of the clusters up to there, and the last is the number of disks; fails exactly if such a cluster is smaller than the number of copies |
| `RushR.GroupsAreWeighed` | dadisi/DistRUSHr.cpp:276-294 | weights, weighted servers and weighted cumulative sums, each times the average: the capacity of a server, of the cluster, and of all clusters up to it |
| `RushR.WeightedTotalIsServers` | dadisi/DistRUSHr.cpp:274-294 | in units of the average all clusters weigh as much as there are servers |
| `RushR.DistRUSHr.PlaceExtent` | dadisi/DistRUSHr.cpp:355-371 | one disk per copy, on different places of the list, for exactly the positions whose draws are places |
| `RushR.GroupsCoverDisks` | dadisi/DistRUSHr.cpp:262-298 | the cumulative count of the last group is the number of disks |
| `RushR.PlacesMatchClusters` | dadisi/DistRUSHr.cpp:355-371 | server numbers lead to disks of the right cluster exactly when the list is grouped by cluster |
| `Clusters.BlocksMatchIffGrouped` | dadisi/DistRUSHr.cpp:172-292 | numbering through cluster by cluster agrees with list places exactly for grouped lists |
| `Clusters.NumberKinds` | dadisi/DistRUSHr.cpp:195-212 | the low 32 bits of the capacities are numbered by first occurrence, each with its first capacity as weight |
| `Clusters.EarlierKindsFirst` | dadisi/DistRUSHr.cpp:195-212 | a disk of an earlier cluster stands before every disk of a later one |
| `Clusters.FillClusters` | dadisi/DistRUSHr.cpp:224-234 | every cluster's list has as many disks as have its low 32 bits |
| `Clusters.ClustersAreCapacities` | dadisi/DistRUSHr.cpp:195-212 | every disk is in a cluster of its own capacity exactly when no two different capacities agree in their low 32 bits |
| `Clusters.LargeCapacitiesMerge` | dadisi/DistRUSHr.cpp:195-212 | disks of 2^32 and 2^33 are one cluster, weighted 2^32 |
| `Clusters.LargeCapacitiesUngrouped` | dadisi/DistRUSHt.cpp:175-190 | with a disk of 5 between them the list is not grouped, although all three capacities differ |
| `TreeBucket.ComputeHeight` | dadisi/Builder.cpp:210-217 | the number of trailing zero bits |
| `TreeBucket.ParentIsAbove` | dadisi/Builder.cpp:218-228 | the parent of node (2a+1) * 2^h is node (2(a/2)+1) * 2^(h+1) |
| `TreeBucket.NodeIsOddMultiple` | dadisi/Builder.cpp:210-228 | node a of height h is (2a+1) * 2^h |
| `TreeBucket.NodeHoldsRange` | dadisi/Builder.cpp:263-274 | that node's sum is over the items from a * 2^h up to (a+1) * 2^h |
| `TreeBucket.NodeIsSumOfChildren` | dadisi/Builder.cpp:263-274 | an inner node is the sum of its two children, of which it is the parent |
| `TreeBucket.RootHoldsTotal` | dadisi/Builder.cpp:275 | the node in the middle holds the weight of all items |
| `TreeBucket.NumNodesFits` | dadisi/Builder.cpp:250-257 | the 8-bit node count is right exactly for up to 64 items |
| `TreeBucket.AddItem` | dadisi/Builder.cpp:263-274 | adds an item's weight to its leaf and every ancestor, once each, within the array |
| `TreeBucket.CrushBucketTree.constructor` | dadisi/Builder.cpp:230-279 | every node holds the 32-bit sum of the weights below it, and the middle node equals the bucket's weight |
| `CrushMap.AddedHolds` | dadisi/Builder.cpp:98-138 | the next free id follows the buckets in order, and adding there appends |
| `CrushMap.Map.GetNextBucketId` | dadisi/Builder.cpp:98-105 | -1 - the first free slot |
| `CrushMap.Map.AddBucket` | dadisi/Builder.cpp:108-138 | doubles the slots from 8 as needed, keeps what they hold, and puts the bucket with its id into slot -1 - id |
| `CrushBuild.PackedConserves` | dadisi/DistCRUSH.cpp:217-263 | a layer puts every item into exactly one bucket, in order, and conserves the total weight as far as 32 bits go |
| `CrushBuild.PackedSingle` | dadisi/DistCRUSH.cpp:237-245 | one bucket takes all items exactly for size 0 or at least their number |
| `CrushChunks.PackedInChunks` | dadisi/DistCRUSH.cpp:229-252 | bucket i of a layer of size n holds the items from i * n up to (i + 1) * n, the last one those that are left, with the layer's type and kind |
| `CrushChunks.BuiltInChunks` | dadisi/DistCRUSH.cpp:185-263 | that holds for every layer of the finished hierarchy over the items of the layer below |
| `CrushBuild.BuiltIsSound` | dadisi/DistCRUSH.cpp:185-263 | after any number of layers each disk is below the current items on exactly one path, the exact weights below add up to the capacity of the disks, and each handed-on weight is the exact one cut to 32 bits |
| `CrushBuild.BuiltListsOnce` | dadisi/DistCRUSH.cpp:185-263 | the bucket lists hold all disks and lower buckets once each, in order, and bucket ids are -1 - slot |
| `CrushBuild.RootReachesAll` | dadisi/DistCRUSH.cpp:185-263 | the last bucket has every disk below it on exactly one path exactly when the last layer made one bucket; it then has the total capacity below it, and stores it exactly if that is below 2^32 and, for a uniform root, the first item weighs the average |
| `CrushBuild.StoredWeightExact` | dadisi/Builder.cpp:146-157 | the weight stored in any bucket is the capacity below it exactly if that is below 2^32 and, for a uniform bucket, equals its number of items times the first weight |
| `CrushBuild.LargeCapacityForgotten` | dadisi/DistCRUSH.cpp:197-263 | one disk of capacity 2^32: its bucket stores and hands on 0 |
| `CrushBuild.UniformForgetsWeight` | dadisi/Builder.cpp:385-398 | capacities 1 and 3 in one uniform bucket: 4 is handed on and 2 stored |
| `CrushParents.ParentsAgree` | dadisi/crush.cpp:53-71 | every listed item's parent is the one bucket that lists it, and the top items have none |
| `CrushParents.CalcParents` | dadisi/crush.cpp:53-71 | the stored parent is the last bucket that lists the item |
| `CrushParents.Finalize` | dadisi/Builder.cpp:24-44 | the device count is one more than the largest listed device, and the parent arrays are computed from the buckets |
| `CrushPolicy.BuildLayer` | dadisi/DistCRUSH.cpp:217-263 | adds exactly the packed buckets behind those in the map and hands on their ids and weights |
| `CrushPolicy.BuildCrushMap` | dadisi/DistCRUSH.cpp:185-276 | fails exactly without layers or disks; otherwise the map holds the specified hierarchy, finalized, and the root is the bucket added last |
| `CrushPolicy.DefaultMapIsTree` | dadisi/DistCRUSH.cpp:301-315 | the default layers spread the disks over at most the asked number of domains, each but the last with the least number that is enough, and put a root above all disks that stores their capacity exactly if that is below 2^32; a domain stores what its disks hold exactly if 32 bits hold that and it is their number times the first capacity |
| `CrushPolicy.PerDomainIsLeast` | dadisi/DistCRUSH.cpp:301-319 | the disks per domain are the least number that is enough |
| `CrushPolicy.DisksAreSpread` | dadisi/DistCRUSH.cpp:301-319 | whatever layers are given, the lowest buckets hold exactly that many disks each, the last one the remaining ones, and there are not more of them than asked for |
| `CrushChunks.LowestLayerSpreads` | dadisi/DistCRUSH.cpp:185-263 | the same of the hierarchy for any layers whose lowest has the least sufficient size |
| `CrushChunks.DomainIsFull` | dadisi/DistCRUSH.cpp:229-252 | in such a hierarchy every domain but the last is full, and none is empty |
| `CrushPolicy.DistCRUSH.SetDisks` | dadisi/DistCRUSH.cpp:287-323 | ten domains unless given, default layers or a resized lowest one with all others kept, and the map built from them, in which the disks are spread evenly over the domains |
| `RingIndex.PredecessorIsClosest` | dadisi/ImprovedMap.h:17-22 | the plain ring search finds the largest key not above, or the largest of all if there is none |
| `RingIndex.SliceFinds` | dadisi/ImprovedMap.cpp:111-128 | a slice returns the ring predecessor for every key in its range, with zero standing for the end of the ring |
| `RingIndex.KeyInSlice` | dadisi/ImprovedMap.cpp:112-113 | shifting a key leads to the slice that contains it |
| `RingIndex.FillSlice` | dadisi/ImprovedMap.cpp:72-97 | one slice holds its keys behind the key before it, unless a key is on its border |
| `RingIndex.ImprovedMap.constructor` | dadisi/ImprovedMap.cpp:21-99 | every slice holds its keys and predecessor, for every non-empty key set and every slice count |
| `RingIndex.ImprovedMap.FindClosest` | dadisi/ImprovedMap.cpp:111-128 | equals the plain ring search |
| `Coprime.StridesDiffer` | dadisi/DistRUSHt.cpp:399-405 | fewer steps than m of a prime larger than m give different remainders, from any start, negative ones included |
| `Coprime.PrimeMultiple` | dadisi/DistRUSHt.cpp:399-405 | a multiple of a prime is divisible by a smaller number only if the factor is |
| `RushT.ConstructTree` | dadisi/DistRUSHt.cpp:121-154 | builds the specified tree row by row |
| `RushT.TreeIsSound` | dadisi/DistRUSHt.cpp:94-154 | the leaves are the clusters in order, and every weight is the sum of the leaves below |
| `RushT.NodesNumbered` | dadisi/DistRUSHt.cpp:121-154 | no two nodes hash with the same number: leaves have those of their clusters, inner nodes later ones, each once |
| `RushT.DescendFindsLeaf` | dadisi/DistRUSHt.cpp:368-380 | where the descent ends it ends at a leaf; for hashes below one it does |
| `RushT.TurnsByWeight` | dadisi/DistRUSHt.cpp:368-380 | at every inner node the descent turns left exactly for hashes below the left part of the weight |
| `RushT.AlwaysFindsCluster` | dadisi/DistRUSHt.cpp:121-154 | the descent finds a cluster for all hashes up to one exactly when the number of clusters is a power of two |
| `RushT.ThreeClustersMiss` | dadisi/DistRUSHt.cpp:368-380 | among three clusters hashes of one find none |
| `RushT.ClusterShare` | dadisi/DistRUSHt.cpp:94-119 | for uniform independent hashes a cluster is reached with the probability of its share of the weight |
| `RushT.GetSubCluster` | dadisi/DistRUSHt.cpp:368-380 | ends where the descent ends |
| `RushT.CumulativeServerCounts` | dadisi/DistRUSHt.cpp:287-299 | the servers of the clusters before each one |
| `RushT.LowestPrimeIndex` | dadisi/DistRUSHt.cpp:303-317 | the first prime of the table that is larger than every cluster |
| `RushT.ReplicasDiffer` | dadisi/DistRUSHt.cpp:382-407 | replicas are on different places, for all hashes and keys, as long as the cluster has enough servers |
| `RushT.PlaceInCluster` | dadisi/DistRUSHt.cpp:399-405 | a place lies within the cluster exactly when the sum is not negative or a multiple of its size |
| `RushT.PlaceExactly` | dadisi/DistRUSHt.cpp:391-405 | the place is the remainder, over the number of servers, of the key, the whole part of 40031 times the first hash, and the replica times the prime nearest to the second hash's part of the primes in question |
| `RushT.NegativeKeyLeavesCluster` | dadisi/DistRUSHt.cpp:399-405 | key -1 can give place -1 |
| `RushT.Rusht` | dadisi/DistRUSHt.cpp:382-407 | the block of the cluster that the tree leads to, plus the place of the replica |
| `RushT.PlaceReplicas` | dadisi/DistRUSHt.cpp:351-366 | for all keys, whenever the descent finds a cluster: different servers, all within its block exactly when the sums before the remainder stay inside, as they do for keys from zero on |
| `RushT.PlacesMatchClusters` | dadisi/DistRUSHt.cpp:351-366 | server numbers lead to disks of the right cluster exactly when the list is grouped by cluster |
| `RushT.NonNegativeInList` | dadisi/DistRUSHt.cpp:351-366 | positions from zero on lead to places in the list of disks |
| `RushT.DistRUSHt.SetDisks` | dadisi/DistRUSHt.cpp:156-268 | tree, counts and prime index belong to the clusters of the disks, grouped by the low 32 bits of the capacity; fails exactly if a cluster is smaller than the number of copies |
| `RushT.DistRUSHt.PlaceExtent` | dadisi/DistRUSHt.cpp:351-366 | one disk per copy, on different places of the list, all in the block of the cluster that the tree leads to exactly when the sums stay inside |

## Left out

- XML, SQLite, command lines, printing, debug checks and memory management: plumbing.
- SHA-1, gcrypt, the hash functions of the policies: hashes are inputs of the models.
- Disks of capacity zero: their quotients can have a zero divisor, which the source does not guard.
- Exact IEEE rounding: doubles are exact integers or reals here. A product `u * n` with u < 1 is taken to stay below n.
- Overflow of 64-bit sums of capacities and block counts: sums are unbounded except where a theorem is about the truncation.
- The rational library: a product is taken to cancel each numerator against the other's denominator and nothing else, and a difference from one to cancel nothing; comparisons of rationals with whole numbers are taken by value. A library version that compares the stored numerator and denominator with the number and 1 would not take 2/2 for 1.
- `RandSlice.DistRandSlice.SetDisks`: assumes fresh distinct ids, positive total capacity at most V in the first list, as the source asserts; the block key equal to the largest 64-bit value lies outside the half-open space, so the search fails for it and leaves id 0.
- `SegmentTree.FlatSegmentTree.SearchTree`: the descent through inner nodes is replaced by the scan over leaves; removal, shifting and iterators of the segment tree are not modelled.
- `RandSliceRuns.RunIsDetermined`: speaks of plain collection; with even-odd collection the choice depends on where stored segments begin, which the model leaves open between neighbours of one owner, so only single steps from the same segments are determined.
- `TakenWalk.TakenWalkIsFair`: speaks of disks that the scan does not mark, and of uniform and independent hashes.
- The free list is a sequence of values, not a linked list edited in place; `std::list::sort` is a stable insertion sort.
- `RedundantShare.DistRedundantShare.SetDisks`: corrected values are an arbitrary input; their computation (cStar, ki, r2 and r for o != m) and the caches are left out.
- `Probabilities.FairIffNeverOverfull`: speaks of the walk without the corrected values; that these make it fair is not proved, as their formulas are left out.
- `ExactWalk.FairExactlyWithoutErrors`: the same.
- `ExactWalk.RInner`: models the case o = m only, the one the fast form depends on.
- `FastRedundantShare.DistFastRedundantShare.PlaceExtent`: the table's own placement (`DistShare`) is an arbitrary choice of one of its disks; `DistShare` threading and stretching are not modelled. Fewer disks than copies, and disks among which the scan does not end, leave memory uninitialized in the source and are excluded.
- `RushR.DistRUSHr.RUSHr`: a draw before the scratch area ends the run here, and nothing is said about what the source does after reading it; the hypergeometric distribution of the samples is not stated, only what holds for every outcome. RUSH_P is left out.
- `RushR.DistRUSHr.SetDisks`: needs a non-empty list with positive capacities, as the source divides by the average.
- `CrushPolicy.BuildCrushMap`: bucket types other than the four known ones make the source dereference null and are excluded. Straw lengths, permutation caches, rules, type and item names are left out. Layer sizes are not negative, and disk ids are below 2^31, as they are cut to `int`. A tree bucket of more than 64 items is taken to have its whole node array.
- `TreeBucket.CrushBucketTree.constructor`: the node count is a mathematical integer; `NumNodesFits` says when the stored byte equals it.
- `CrushMap.Map.AddBucket`: an id whose slot is taken is excluded, as the source asserts.
- `crush_do_rule`, uniform and list bucket details, `crush_get_bucket_item_weight`: easy or not shown to matter for the hierarchy.
- `RingIndex.ImprovedMap.constructor`: an empty key set dereferences the end iterator and is excluded; slice counts above 2^63 would shift by 64.
- `RushT.DistRUSHt.SetDisks`: the literal prime table is any ascending table of primes with an entry above the number of disks.
- `RushT.DistRUSHt.PlaceExtent`: hashes that find no cluster dereference null, and places before the list are not disks; both are excluded.
- `RushT.ClusterShare`: treats the hashes of different nodes as independent; the hash function itself is not modelled.
- DistNearestNeighbour, DistRoundRobin and the extent mapper: easy or mostly library calls.
