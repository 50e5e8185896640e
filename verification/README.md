# llvmta: cache, persistence, fixpoint and bus analyses

llvmta bounds worst-case execution times. Its results rest on abstract domains for LRU
caches, on a context-sensitive fixpoint iteration over the program, and on the timing of a
shared bus. This project models these parts and proves that their results are right about
every concrete execution.

The concrete side is a cache set as a duplicate-free sequence of tags whose positions are
ages (`LruSet`), extended by the set of dirty lines for write-back caches (`Dirtiness`).
A *history* is a tree of accesses and joins, as an analysis meets them; theorems over
histories quantify over all paths through them, all things an imprecise access may have
touched, and all initial contents. Each domain has three layers:

- specification functions on finite maps, and lemmas that prove them sound, exact or least;
- the source's algorithms, in place on arrays, lists, maps and objects, with the
  specification function as contract;
- whole runs, by induction over histories.

The modules:

- `LruSet`, `AgeList`, `Classifications`, `Arith`, `Options`: concrete sets, age-sorted lists, basics.
- `MustCache`, `MayCache`: upper and lower age bounds of one set; `Dirtiness` on top of both.
  `MustExact`, `MayExact`: that the bounds, classifications and orders are the best possible ones.
- `ProductCache`, `CacheGeometry`, `WholeCache`, `CacheSelections`: the reduced product, and all
  sets of a cache under accesses known only as address intervals. `WritebackCaches`: all sets of
  a write-back cache, with joined reports.
- `ArrayMust`, `ArrayAccesses`, `ArrayRuns`, `ArrayMustCache`: must bounds under accesses to "some
  element of an array". `ArrayPrecision`: the intersecting join as a least upper bound, and what is
  computed without joins. `ArrayHits`: hits assumed for tags that are not listed. `ArrayUnion`: the
  uniting join.
- `ArrayLayouts`, `ArrayCaches`, `ArrayCachesExact`, `ArrayAddresses`: how many lines of an array
  share a set, all sets of a cache, and for which real caches the analysis is right.
- `Persistence`, `Scopes`: counting persistence, set-wise and element-wise, in nested scopes.
- `AnalysisDriver`, `DriverSoundness`: the interprocedural worklist iteration, and what its
  result says about runs of the program. `ContextTokens`, `ContextTree`, `TreeTables`: the trees
  that store its tables, and that adding and looking up in them is what the iteration does.
- `BlockingMemory`, `ArrivalCurve`: the shared bus, cycle by cycle and per interval.

Integers are mathematical; there is one core, and the associativity is any number from 1 on.

## Findings

Where the code does not do what is asked of it, the project states exactly when it does:

- `LruMaxAgeArrayAwareCache::update` accepts an assumed hit for a tag that is not listed, and
  `JJYSeparateCachesMemoryTopology` passes one on for an unknown access
  (include/Memory/JJYSeparateCachesMemoryTopology.h:858-866, 1173). Even when the hit is true, a
  listed tag may then be gone (`ArrayHits.UnlistedHitsUnsound`): after a tag has used an array up,
  that is, counted it as often as it has lines, hits make it the oldest block without ageing it
  away, and a further line of the array evicts it. From a state that was reached with hits for
  listed tags only, hits and then array accesses alone cannot do this exactly if no listed tag has
  used an array up (`ArrayHits.BurstsSoundExactly`). No run of one set can do it exactly if each
  array has no lines there or at least as many as there are ways (`ArrayHits.AllRunsSoundExactly`).
  All runs of a real cache are right exactly if each array that fits and whose first and last
  word lie in different lines has at least as many lines in a set as there are ways
  (`ArrayAddresses.HitSoundExactly`); an array within one line is accessed precisely.
- `MustAgeConflictSetUnion::join` is unsound (`ArrayUnion.UnionUnsound`): in a three-way set
  with one array of one line in that set, and others elsewhere, join the paths "0, 1, 2" and
  "1, some element, 0", then access 0 and some element; tag 1 is classified a hit and has been
  evicted on the first path. Runs of one set with this join that assume hits for listed tags have
  no wrong hit exactly if each array has no lines in the set or at least one less than there are
  ways (`ArrayUnion.UnionSoundForAllExactly`). All such runs of a real cache are right exactly if
  each array that fits and whose first and last word lie in different lines has at least one line
  less in a set than there are ways (`ArrayAddresses.UnionSoundExactly`). The invariant that makes
  the intersecting join right in every run is kept by a uniting join exactly if the conflict sets
  are equal or the tag is given up (`ArrayUnion.UnionKeepsBoundsExactly`).
- The branch `assert(0 && "UNREACHABLE")` of the dirtiness analysis is reachable exactly when
  the cache is assumed empty but not clean (`Dirtiness.MarkedBranchReachable`). That takes a
  caller that assumes an empty cache: `JJYSeparateCachesMemoryTopology` does not
  (include/Memory/JJYSeparateCachesMemoryTopology.h:514-516).
- `getCacheSetInterval` misses sets exactly for intervals that span one line more than there
  are sets without meeting its guard (`WholeCache.CoversExactly`), such as 12 to 516 with 32 sets
  of 16 bytes per line (`WholeCache.MisfitExample`); the same intervals, and only these, trip the
  assertion in `update`. There are such intervals exactly where there are several sets and lines
  of six bytes or more (`WholeCache.SomeMisfitExactly`).
- The concurrent-access counter stays at zero when an access takes one bus cycle
  (`BlockingMemory.CounterExactly`), and a second fast-forward right after the first trips an
  assertion (`BlockingMemory.OnlyOnce`).
- `findAnalysisInfoEarly` asserts exactly for contexts without information that other contexts
  extend (`ContextTree.FindEarlyExactly`).

## Model

| member | source | states |
|---|---|---|
| MustCache.MustUpdateSound | include/Memory/LruMaxAgeAbstractCache.h:194-269 | an update keeps every age bound true of every concrete LRU set it was true of: a hit, a miss, or an assumed hit that really hits |
| MustCache.MustAgeAllSound | include/Memory/LruMaxAgeAbstractCache.h:165-190 | ageing everything covers the access to any tag, and no access at all |
| MustCache.MustUpdateValid | include/Memory/LruMaxAgeAbstractCache.h:199-268 | at most k + 1 tags stay bounded by age k, so that the i-th entry has at least age i and the size stays within the associativity |
| MustCache.MustAgeAllValid | include/Memory/LruMaxAgeAbstractCache.h:176-188 | ageing and evicting keeps that invariant |
| MustCache.MustClassifySound | include/Memory/LruMaxAgeAbstractCache.h:149-158 | both a hit and the miss concluded from a full set are right, for every represented set |
| MustCache.MustCanAssumeRealHit | include/Memory/LruMaxAgeAbstractCache.h:220-225 | the assertion on an assumed hit cannot fail if some represented set really contains the tag |
| MustCache.MustSize | include/Memory/LruMaxAgeAbstractCache.h:266-267 | no more tags than ways are listed |
| MustCache.AgesAtLeastIndex | include/Memory/LruMaxAgeAbstractCache.h:62-68 | in the sorted list the i-th age is at least i |
| MustCache.MustJoinValid | include/Memory/LruMaxAgeAbstractCache.h:271-322 | joining keeps the invariant |
| MustCache.MustLeqIsJoin | include/Memory/LruMaxAgeAbstractCache.h:324-337 | deciding the order by joining a copy and comparing decides the order of the bounds |
| MustCache.MustJoinIsLub | include/Memory/LruMaxAgeAbstractCache.h:271-337 | the order is partial, the join its least upper bound, and going up keeps every represented concrete set |
| MustCache.ConcreteSubStack | include/Memory/LruMaxAgeAbstractCache.h:437-455 | where entry n - 1 has age n - 1, the first n positions of every represented set hold exactly the first n listed tags |
| MustCache.LruMaxAgeCache.Classify | include/Memory/LruMaxAgeAbstractCache.h:149-158 | the array search computes the classification the soundness lemma is about |
| MustCache.LruMaxAgeCache.GetMaxAge | include/Memory/LruMaxAgeAbstractCache.h:404-410 | the bound of a listed tag, the associativity for all others |
| MustCache.LruMaxAgeCache.Update | include/Memory/LruMaxAgeAbstractCache.h:194-269 | shifting, merging and inserting in the arrays yields the updated bounds, sorted again, and reports exactly the tags dropped; they are right after every access of which the assumption is true: a hit, or on the second level one there |
| MustCache.LruMaxAgeCache.PotentialUpdate | include/Memory/LruMaxAgeAbstractCache.h:165-190 | the backward loops age all bounds, and report exactly the tags dropped |
| MustCache.LruMaxAgeCache.Join | include/Memory/LruMaxAgeAbstractCache.h:271-322 | the descending merge yields exactly the common tags with their maximal ages, sorted |
| MustCache.LruMaxAgeCache.LessEqual | include/Memory/LruMaxAgeAbstractCache.h:324-329 | the comparison decides the order of the bounds |
| MustCache.LruMaxAgeCache.GetMaxConcreteSubStackSize | include/Memory/LruMaxAgeAbstractCache.h:442-455 | the largest n not above the limit whose entry n - 1 has age n - 1, or 0 when there is none |
| MustCache.SiftRight | include/Memory/LruMaxAgeAbstractCache.h:249-258 | moving one entry right among those of its age inserts it in order, on the array |
| MustCache.MergeDown | include/Memory/LruMaxAgeAbstractCache.h:279-313 | the merge loop over both arrays collects exactly the common tags |
| MustExact.MustUpdateExactly | include/Memory/LruMaxAgeAbstractCache.h:194-269 | the updated bounds are the best possible: a number bounds the age of a tag after all accesses of which the assumption is true, in all represented sets, exactly from the new bound on |
| MustExact.MustAgeAllExactly | include/Memory/LruMaxAgeAbstractCache.h:165-190 | the aged bounds are the best possible for an access to any tag or none |
| MustExact.MustClassifyExactly | include/Memory/LruMaxAgeAbstractCache.h:149-158 | a hit exactly if all represented sets hold the tag, a miss exactly if none does |
| MustExact.MustLeqExactly | include/Memory/LruMaxAgeAbstractCache.h:324-337 | the order of the bounds is inclusion of the represented sets |
| MustExact.MustJoinExactly | include/Memory/LruMaxAgeAbstractCache.h:271-322 | the join stands for no more than any bounds that stand for both sides |
| MayCache.MayUpdateSound | include/Memory/LruMinAgeAbstractCache.h:189-291 | an update keeps every lower age bound true, and the representation valid |
| MayCache.MayUpdateValid | include/Memory/LruMinAgeAbstractCache.h:189-291 | explicit ages stay below the age of the unlisted tags |
| MayCache.MayPotentialSound | include/Memory/LruMinAgeAbstractCache.h:293-358 | a potential update covers the access to any tag of the interval, and none |
| MayCache.MayPotentialValid | include/Memory/LruMinAgeAbstractCache.h:293-358 | it keeps the representation valid, whether the tags are listed or the implicit age is reset |
| MayCache.MayJoinExact | include/Memory/LruMinAgeAbstractCache.h:360-432 | the join is valid and bounds every tag, explicit or implicit on either side, by exactly the lesser of its two bounds |
| MayCache.MayJoinIsLub | include/Memory/LruMinAgeAbstractCache.h:360-446 | the order is partial, the join its least upper bound, and going up keeps every represented concrete set |
| MayCache.MayLeqIsJoin | include/Memory/LruMinAgeAbstractCache.h:434-439 | deciding the order by joining a copy and comparing decides the order of the bounds |
| MayCache.MayClassifySound | include/Memory/LruMinAgeAbstractCache.h:165-176 | a miss means that the tag is in no represented set |
| MayCache.LruMinAgeCache.Update | include/Memory/LruMinAgeAbstractCache.h:189-291 | the index loops yield the updated bounds, sorted, and report exactly the evicted tags and whether the unlisted ones have just left |
| MayCache.LruMinAgeCache.PotentialUpdate | include/Memory/LruMinAgeAbstractCache.h:293-358 | rebuilding the list inserts the tags of the interval at age 0 in order and drops their old entries |
| MayCache.LruMinAgeCache.Join | include/Memory/LruMinAgeAbstractCache.h:360-432 | the ascending merge with its backward search, cut by the redundancy check, computes the join |
| MayCache.LruMinAgeCache.LessEqual | include/Memory/LruMinAgeAbstractCache.h:434-446 | the comparison decides the order of the bounds |
| MayCache.LruMinAgeCache.Classify | include/Memory/LruMinAgeAbstractCache.h:165-176 | the search computes the classification the soundness lemma is about |
| MayCache.LruMinAgeCache.GetMinAge | include/Memory/LruMinAgeAbstractCache.h:508-514 | the lower bound of a tag, listed or not |
| MayCache.RemoveRedundantTags | include/Memory/LruMinAgeAbstractCache.h:179-185 | cuts the list to exactly the entries younger than the unlisted tags |
| MayExact.MayUpdateExactly | include/Memory/LruMinAgeAbstractCache.h:189-291 | the updated bounds are the best possible: a number is at most the age of a tag after the access, in all represented sets, exactly up to the new bound |
| MayExact.MayPotentialExactly | include/Memory/LruMinAgeAbstractCache.h:293-358 | the same for an access to any of up to four tags, or none; for more tags all bounds are zero |
| MayExact.MayClassifyExactly | include/Memory/LruMinAgeAbstractCache.h:165-176 | a miss exactly if no represented set holds the tag |
| MayExact.MayLeqExactly | include/Memory/LruMinAgeAbstractCache.h:434-446 | the order of the bounds is inclusion of the represented sets |
| MayExact.MayJoinExactly | include/Memory/LruMinAgeAbstractCache.h:360-432 | the join stands for no more than any bounds that stand for both sides |
| MayExact.UpdateDense | include/Memory/LruMinAgeAbstractCache.h:189-291 | what these results rest on is kept by an update: in front of a tag that may be cached there are tags enough to fill the positions |
| MayExact.JoinDense | include/Memory/LruMinAgeAbstractCache.h:360-432 | and by a join |
| Dirtiness.UpdateSound | include/Memory/DirtinessAnalysis.h:226-266 | an access keeps every concrete write-back set represented; a dirty block that is not tracked is at least as old as the unlisted tags |
| Dirtiness.UpdateReportSound | include/Memory/DirtinessAnalysis.h:243-265 | without a possible write-back in the report no dirty line is evicted, and without a dirtifying store the line was dirty already |
| Dirtiness.PotentialUpdateSound | include/Memory/DirtinessAnalysis.h:268-329 | the same representation for an access to an unknown tag of an interval, or to another set |
| Dirtiness.PotentialReportSound | include/Memory/DirtinessAnalysis.h:282-327 | the same two guarantees of the report for such an access |
| Dirtiness.JoinSound | include/Memory/DirtinessAnalysis.h:331-366 | the join represents what either side does |
| Dirtiness.RunSound | include/Memory/DirtinessAnalysis.h:226-366 | over every run of updates, potential updates and joins the reached write-back sets stay represented |
| Dirtiness.ReportsSound | include/Memory/DirtinessAnalysis.h:226-329 | at every point of every run both guarantees of the report hold |
| Dirtiness.EvalValid | include/Memory/DirtinessAnalysis.h:226-366 | every run keeps the must and may invariants, and dirty blocks in the must state |
| Dirtiness.UpdateConsistent | include/Memory/DirtinessAnalysis.h:102-123 | an update of a consistent state stays consistent (what is not clean may be cached, an implicit dirty block needs unlisted tags) and never takes the branch marked unreachable |
| Dirtiness.RunConsistent | include/Memory/DirtinessAnalysis.h:102-123 | the invariants the code checks in debug builds hold over every run from consistent starts |
| Dirtiness.MarkedBranchReachable | include/Memory/DirtinessAnalysis.h:215-223 | some run takes the branch marked unreachable exactly if its caller assumes an empty cache at the start but not a clean one |
| Dirtiness.DirtyVictimExactly | include/Memory/DirtinessAnalysis.h:155-176 | a victim is found exactly if some block that is not clean is missing in some set that meets the must bounds |
| Dirtiness.UpdateReportExactly | include/Memory/DirtinessAnalysis.h:226-266 | a write-back is reported exactly if some block that is not clean need not be in the set after the access, and a dirtifying store exactly if a store need not find its block dirty |
| Dirtiness.PotentialReportExactly | include/Memory/DirtinessAnalysis.h:268-329 | for an interval: exactly if such a block need not be in the set after some access, and exactly if the interval has more than four tags or a tag of it need not stay dirty |
| Dirtiness.UpdatedExactly | include/Memory/DirtinessAnalysis.h:178-266 | after an update a block is certainly dirty exactly if it was or was stored to and is still guaranteed to be cached, and possibly dirty exactly if it was or was stored to and may still be cached, an untracked one judged by the age of the unlisted tags |
| Dirtiness.PotentiallyUpdatedExactly | include/Memory/DirtinessAnalysis.h:268-329 | the same for an access somewhere in an interval, where a store may dirty the tags of the interval, or all tags if these are more than four |
| Dirtiness.JoinedExactly | include/Memory/DirtinessAnalysis.h:331-366 | joined blocks are certainly dirty exactly if they are on both sides and possibly dirty exactly if they are on either |
| Dirtiness.StartExactly | include/Memory/DirtinessAnalysis.h:139-143 | a start state stands for exactly the write-back sets possible there: any, empty ones, clean ones |
| WritebackCaches.RunSound | include/Memory/AbstractCache.h:320-432 | every run of fitting interval accesses and joins of a whole write-back cache keeps the reached caches represented, set by set |
| WritebackCaches.ReportsSound | include/Memory/AbstractCache.h:360-412 | at every point of every such run: if the report joined over the sets of the interval excludes a write-back, the next access evicts no dirty line in any set, whichever address it goes to; if it excludes a dirtifying store, a store finds its line dirty |
| WritebackCaches.CycleReportExactly | include/Memory/UpdateReports.h:121-132 | the joined report says what some set on the way from the first to the last one says, wraparound included, and nothing more |
| WritebackCaches.UpdatedAllExactly | include/Memory/AbstractCache.h:320-412 | an access updates exactly the sets in which some address of its interval lies: one precisely, several as one of their tags |
| WritebackCaches.ReportExactly | include/Memory/AbstractCache.h:360-412 | the joined report is that of exactly these sets |
| WritebackCaches.JoinAllExactly | include/Memory/AbstractCache.h:418-432 | after a join each set knows of each block what both sides know, no less |
| WritebackCaches.WritebackCacheImpl.Update | include/Memory/AbstractCache.h:320-386 | one set is updated precisely, or the sets of the interval, in place, with the report of exactly these sets |
| WritebackCaches.WritebackCacheImpl.UpdateUnknownSets | include/Memory/AbstractCache.h:388-412 | the loop updates the sets of the range and joins their reports |
| WritebackCaches.WritebackCacheImpl.Join | include/Memory/AbstractCache.h:418-432 | joins set by set |
| Dirtiness.DirtinessAnalysis.constructor | include/Memory/DirtinessAnalysis.h:139-143 | the initial state, and that it is consistent unless the cache is assumed empty but not clean |
| Dirtiness.DirtinessAnalysis.ExistsVictim | include/Memory/DirtinessAnalysis.h:155-176 | true exactly if for some block that is not clean there is an LRU set that meets the must bounds and lacks it |
| Dirtiness.DirtinessAnalysis.IncorporateMustMayUpdates | include/Memory/DirtinessAnalysis.h:178-224 | the erasing loops compute the table that the soundness lemmas are about, and tell whether the marked branch was taken |
| Dirtiness.DirtinessAnalysis.Update | include/Memory/DirtinessAnalysis.h:226-266 | updates must, may, flag and table in place; right after every access of which the assumption is true; a write-back is reported exactly if some block that is not clean need not be in the set afterwards, a dirtifying store exactly if the block need not be dirty; consistent states stay consistent and do not take the marked branch |
| Dirtiness.DirtinessAnalysis.PotentialUpdate | include/Memory/DirtinessAnalysis.h:268-329 | the same for an access to a tag of an interval, with the limit of four worthwhile tags; a write-back is reported exactly if some block that is not clean can be missing after some access |
| Dirtiness.DirtinessAnalysis.Join | include/Memory/DirtinessAnalysis.h:331-366 | the one-pass merge joins the tables, with the implicit entry of either side for missing tags; consistent states join to a consistent one |
| ProductCache.ClassifySound | include/Memory/CompositionalAbstractCache.h:116-124 | the product's hits and misses are right for every represented set |
| ProductCache.UpdateSound | include/Memory/CompositionalAbstractCache.h:146-167 | feeding its own classification into both parts is sound, and the must assertion cannot fail when an outside assumption of a hit is true |
| ProductCache.OwnAssumptionIsSafe | include/Memory/CompositionalAbstractCache.h:154-167 | without an outside assumption the must assertion can never fail |
| ProductCache.PotentialUpdateSound | include/Memory/CompositionalAbstractCache.h:188-194 | an access to an unknown tag of the interval, or none, is covered by both parts |
| ProductCache.JoinIsLub | include/Memory/CompositionalAbstractCache.h:215-225 | the componentwise join is the least upper bound of a partial order that respects representation |
| ProductCache.ClassifyExactly | include/Memory/CompositionalAbstractCache.h:116-124 | a hit exactly if all sets of the must part hold the tag, and nothing is left unknown that either part knows |
| ProductCache.UpdateExactly | include/Memory/CompositionalAbstractCache.h:146-167 | both parts of the update are the best possible for what is assumed from outside |
| ProductCache.RunCounts | include/Memory/CompositionalAbstractCache.h:146-167 | without joins both bounds on a tag are the number of distinct tags accessed since its own last access, up to the associativity |
| ProductCache.RunClassifiesExactly | include/Memory/CompositionalAbstractCache.h:116-167 | so without joins a tag is a hit exactly if it was accessed and fewer others than ways since, and a miss exactly if as many others were, or if it was not accessed and the cache started empty |
| ProductCache.CompositionalCache.Update | include/Memory/CompositionalAbstractCache.h:146-167 | updates both analyses in place with the chosen assumption |
| Classifications.JoinExactly | lib/Memory/Classification.cpp:37-40 | joined classifications leave open exactly the outcomes that either side does |
| WholeCache.CoversExactly | include/Memory/AbstractCache.h:569-581 | the computed set interval contains the set of every address exactly if the wide-interval guard holds, fewer lines than sets are spanned, or there is one set |
| WholeCache.SomeMisfitExactly | include/Memory/AbstractCache.h:569-581 | intervals for which it does not exist exactly in caches with two sets or more and lines of six bytes or more |
| WholeCache.MisfitExample | include/Memory/AbstractCache.h:569-581 | with 32 sets and 16 bytes per line the addresses 12 to 516 are one, and only set 0 is taken to be touched |
| WholeCache.AssertionExactly | include/Memory/AbstractCache.h:350-352 | the assertion before an imprecise update holds under exactly the same condition |
| WholeCache.UpdatedSound | include/Memory/AbstractCache.h:320-386 | an update for an interval covers the access to any address in it, wraparound included, under that condition |
| WholeCache.UpdatedSoundExactly | include/Memory/AbstractCache.h:320-386 | it is sound for all states exactly under that condition |
| WholeCache.TouchedExactly | include/Memory/AbstractCache.h:569-581 | for such intervals the computed sets are exactly those in which some address lies |
| WholeCache.UpdatedExactly | include/Memory/AbstractCache.h:320-412 | an update leaves all other sets as they are, and updates these once, precisely if there is one line |
| WholeCache.ClassifyLinesExactly | include/Memory/AbstractCache.h:249-270 | an interval is classified a hit, or a miss, exactly if all its lines are |
| WholeCache.StartExactly | include/Memory/AbstractCache.h:320-432 | a start state stands for exactly the caches possible there |
| WholeCache.JoinAllIsLub | include/Memory/AbstractCache.h:418-432 | joining set by set is the least upper bound |
| WholeCache.EvalDense | include/Memory/AbstractCache.h:320-432 | in every run all sets are in states for which the updates and classifications are exact |
| WholeCache.ClassifySoundForAll | include/Memory/AbstractCache.h:249-270 | a hit or a miss for an interval holds for every address in it |
| WholeCache.RunSound | include/Memory/AbstractCache.h:320-432 | every run of fitting interval accesses and joins, with or without outside assumptions, keeps all caches represented that it reaches while the assumed hits are true: all sets and both parts |
| WholeCache.RunCanUpdate | include/Memory/AbstractCache.h:320-345 | at every point of such a run an assumption that is true of a reached cache meets the assertion of the must update |
| WholeCache.RunClassifies | include/Memory/AbstractCache.h:249-270 | at every point of every such run definite classifications are right |
| WholeCache.AbstractCacheImpl.Classify | include/Memory/AbstractCache.h:249-270 | the loop over lines, stopping at the top classification, joins the classifications of all lines |
| WholeCache.AbstractCacheImpl.Update | include/Memory/AbstractCache.h:320-386 | one set is updated precisely, or the sets of the interval, in place; the assertion holds |
| WholeCache.AbstractCacheImpl.UpdateUnknownSets | include/Memory/AbstractCache.h:388-412 | exactly the sets of the range are potentially updated |
| WholeCache.AbstractCacheImpl.Join | include/Memory/AbstractCache.h:418-432 | joins set by set; skipping equal sets changes nothing |
| ArrayMust.Reroute | include/Memory/ArrayAwareMustAges.h:109-115 | when an array was accessed more often than lines of it were touched, one access can be sent to any other line of it without untouching anything |
| ArrayMust.UsedUpSound | include/Memory/ArrayAwareMustAges.h:109-115 | once an array is used up, a further access to it leaves the bound true for all resolutions of all array accesses |
| ArrayMust.OlderSound | include/Memory/LruMaxAgeArrayAwareCache.h:194-200 | a tag whose bound is not below that of the accessed tag need not be aged |
| ArrayMust.UpdateSound | include/Memory/LruMaxAgeArrayAwareCache.h:171-222 | a precise access keeps the meaning of the bounds: a miss, a listed tag, or a true hit assumed for a tag that is not listed while no listed tag has used an array up; for a listed tag all bounds stay true for all resolutions at once |
| ArrayAccesses.PotentialUpdateSound | include/Memory/LruMaxAgeArrayAwareCache.h:132-167 | an access to some line of an array, or to anything, keeps that meaning, whichever line it touches |
| ArrayRuns.JoinSound | include/Memory/ArrayAwareMustAges.h:163-233 | what holds on either side holds after the intersecting join, and after a uniting one that merges equal conflict sets or gives the tag up |
| ArrayRuns.RunSound | include/Memory/LruMaxAgeArrayAwareCache.h:118-251 | over every run of these accesses and joins, every path, every resolution and every initial content in which the assumed hits are true: listed tags are cached with at most their bound as age, no more than the associativity are listed, hits and misses are right |
| ArrayRuns.SizeBounded | include/Memory/LruMaxAgeArrayAwareCache.h:122-123 | the assertion on the number of entries holds, and a full list names all cached tags |
| ArrayPrecision.IntersectJoinIsLub | include/Memory/ArrayAwareMustAges.h:163-177 | ordered by listing, age and counted accesses, the intersecting join is the least upper bound of a partial order, and going up keeps what the bounds mean |
| ArrayPrecision.AgesLeqIsJoin | include/Memory/LruMaxAgeArrayAwareCache.h:254-259 | deciding the order by joining a copy and comparing decides this order |
| ArrayPrecision.RunCounts | include/Memory/LruMaxAgeArrayAwareCache.h:132-222 | without joins the bound on a tag is the number of tags accessed precisely since, of array accesses, each array as often as it has lines, and of accesses to anything |
| ArrayPrecision.BoundExactly | include/Memory/LruMaxAgeArrayAwareCache.h:132-222 | so where arrays have as many lines as computed and share none, a tag is listed with a bound of at most n exactly if no resolution of the accesses touches more than n other tags |
| ArrayHits.ListedHitsAreTrue | include/Memory/CompositionalAbstractCache.h:151-155 | hits that are only assumed for listed tags, as the product does on its own, are true in every execution |
| ArrayHits.UnlistedHitsUnsound | include/Memory/LruMaxAgeArrayAwareCache.h:187-188 | three ways, an array with the one line 10, contents 5, 12, 7: read 0, an array access elsewhere, true hits on 5 and 12, line 10; 0 is gone and stays listed |
| ArrayHits.UsedUpUnsound | include/Memory/ArrayAwareMustAges.h:109-115 | once a listed tag has used an array up, every execution in a full set goes on, with true hits and an array access, to a wrong hit for that tag |
| ArrayHits.BurstsSoundExactly | include/Memory/LruMaxAgeArrayAwareCache.h:184-203 | from a state reached with hits for listed tags, no true hits followed by array accesses lead to a wrong hit, exactly if no listed tag has used an array up |
| ArrayHits.AllRunsSoundExactly | include/Memory/LruMaxAgeArrayAwareCache.h:184-203 | where hits may be assumed for any cached tag, as the data cache does for unknown accesses, all runs with either join are free of wrong hits exactly if no array has from one line to one less than the ways in the set |
| ArrayUnion.RunOrdered | include/Memory/ArrayAwareMustAges.h:191-233 | over runs with the uniting join, if using an array up takes the whole age: a tag aged by one array alone is younger than all other listed tags |
| ArrayUnion.WideRunSound | include/Memory/ArrayAwareMustAges.h:191-233 | then all runs with the uniting join are right, whatever conflict sets they unite |
| ArrayUnion.UnionUnsound | include/Memory/ArrayAwareMustAges.h:191-233 | for every array that has from one line to two less than the ways in the set, a run with the uniting join, and a path of it, on which a tag is listed after it was evicted |
| ArrayUnion.UnionSoundExactly | include/Memory/ArrayAwareMustAges.h:191-233 | where the computed sizes are reached, runs with the uniting join that assume hits for listed tags are free of wrong hits exactly if there is no such array |
| ArrayUnion.UnionSoundForAllExactly | include/Memory/ArrayAwareMustAges.h:191-233 | the same for all placements of the arrays' lines that agree with the sizes |
| ArrayUnion.UnionKeepsBoundsExactly | include/Memory/ArrayAwareMustAges.h:191-233 | one uniting join keeps the invariant of the intersecting runs, age and counted accesses together, exactly if the conflict sets are equal or the tag is given up |
| ArrayUnion.UnionWithEqualConflicts | include/Memory/ArrayAwareMustAges.h:191-233 | runs that only join equal conflict sets compute the same states with either join |
| ArrayLayouts.PerSetSizeBounds | include/Memory/util/CacheUtils.h:78-99 | no cache set holds more lines of an array than the computed size |
| ArrayLayouts.PerSetSizeIsReached | include/Memory/util/CacheUtils.h:78-99 | the set of the array's first line holds exactly that many |
| ArrayCaches.EvalAt | include/Memory/AbstractCache.h:320-412 | every set of the cache goes through a history of its own: precise accesses to its lines, and array accesses and unknown ones whose interval includes it; only the sizes of arrays that do not lie in one line matter |
| ArrayCaches.ExecutionAt | include/Memory/AbstractCache.h:320-412 | every execution of the whole cache, line by line, is an execution of each set that the set's own history describes |
| ArrayCaches.RunSound | include/Memory/AbstractCache.h:249-412 | so the guarded runs classify every line of the cache rightly, as a hit and as a miss, after every run from every cache |
| ArrayCaches.UnionRunSound | include/Memory/ArrayAwareMustAges.h:191-233 | both classifications of the whole cache are right with the uniting join where every array that does not lie in one line has at least one line less in a set than there are ways |
| ArrayCaches.HitRunSound | include/Memory/LruMaxAgeArrayAwareCache.h:184-203 | both are right with either join and with true hits on unlisted tags where every such array has at least as many lines as ways |
| ArrayCachesExact.UnionUnsound | include/Memory/ArrayAwareMustAges.h:191-233 | for every other array all of whose lines in a set can be accessed, a run of the whole cache with the uniting join and hits for listed tags only, and an execution of it, that end with a wrong classification |
| ArrayCachesExact.HitUnsound | include/Memory/LruMaxAgeArrayAwareCache.h:184-203 | for every array with two lines and fewer lines in a set than ways, a run of the whole cache with true hits that ends with a wrong classification, for either join |
| ArrayAddresses.DescribedIsSane | include/Memory/AbstractCache.h:569-581 | real addresses meet the assumptions of these theorems: what an access selects covers the lines it reaches, and the computed sizes bound the lines of each array in each set |
| ArrayAddresses.CrossesExactly | include/Memory/AbstractCache.h:329-331 | the arrays accessed as such are exactly those that fit and whose first and last word lie in different lines |
| ArrayAddresses.SeenExactly | include/Memory/AbstractCache.h:320-412 | an access reaches the analysis of exactly those sets in which some address of its interval or array lies |
| ArrayAddresses.RunSound | include/Memory/AbstractCache.h:249-412 | so after guarded runs of a real cache every address is classified rightly |
| ArrayAddresses.UnionSoundExactly | include/Memory/ArrayAwareMustAges.h:191-233 | all runs of a real cache with the uniting join that assume hits for listed tags are right, from every cache and for every execution, exactly if every such array has at least one line less in a set than there are ways |
| ArrayAddresses.HitSoundExactly | include/Memory/LruMaxAgeArrayAwareCache.h:184-203 | all runs of a real cache in which the assumed hits are true are right, with either join, exactly if every such array has at least as many lines in a set as there are ways |
| ArrayMustCache.MustAgeConflictSet.AgeByVariable | include/Memory/ArrayAwareMustAges.h:109-115 | ages by one and counts the access, unless the array is used up |
| ArrayMustCache.MustAgeConflictSet.AgeByAmount | include/Memory/ArrayAwareMustAges.h:116-125 | ages, or gives up and clears the conflict set at the associativity |
| ArrayMustCache.MustAgeConflictSet.JoinUnion | include/Memory/ArrayAwareMustAges.h:191-233 | the merge of both conflict sets, with its early exit, computes the uniting join |
| ArrayMustCache.LruMaxAgeArrayAwareCache.Update | include/Memory/LruMaxAgeArrayAwareCache.h:171-222 | ages younger entries, erases the old ones and resets the accessed one, in place |
| ArrayMustCache.LruMaxAgeArrayAwareCache.PotentialUpdate | include/Memory/LruMaxAgeArrayAwareCache.h:132-167 | ages every entry and erases those that reach the associativity |
| ArrayMustCache.LruMaxAgeArrayAwareCache.Join | include/Memory/LruMaxAgeArrayAwareCache.h:224-251 | keeps the common entries with joined bounds, and erases those given up, in place; for the intersecting join that is the least upper bound (ArrayPrecision.IntersectJoinIsLub) |
| ArrayMustCache.LruMaxAgeArrayAwareCache.Search | include/Memory/LruMaxAgeArrayAwareCache.h:118-130 | a hit for listed tags, a miss for others when as many tags as ways are listed |
| AnalysisDriver.AnalysisDriverInstr.constructor | include/AnalysisFramework/AnalysisDriver.h:256-287 | all is bottom but the start function's entry; its first block waits in the context of the call |
| AnalysisDriver.AnalysisDriverInstr.RunAnalysis | include/AnalysisFramework/AnalysisDriver.h:217-254 | the worklist loop terminates, and the tables then include everything that flows out of them: fallthrough, branches, calls, returns; if joins are least upper bounds and transfers monotone, they are the least such tables |
| AnalysisDriver.AnalysisDriverInstr.AnalyseBlock | include/AnalysisFramework/AnalysisDriver.h:289-350 | afterwards everything that is not waiting is accounted for, and the tables rose or nothing changed |
| AnalysisDriver.AnalysisDriverInstr.AnalyseInstruction | include/AnalysisFramework/AnalysisDriver.h:352-438 | the call information is in the callee's entry, and the value is that after the instruction under the current tables unless the block waits again |
| AnalysisDriver.AnalysisDriverInstr.HandleBranchInstruction | include/AnalysisFramework/AnalysisDriver.h:440-585 | all targets and the function exit include what goes to them, and nothing that monotone transfers do not send there in every solution |
| AnalysisDriver.AnalysisDriverInstr.PropagateToExit | include/AnalysisFramework/AnalysisDriver.h:527-585 | when a function exit changes, every caller that reads it waits again |
| AnalysisDriver.AnalysisDriverInstr.RequeueCallers | include/AnalysisFramework/AnalysisDriver.h:550-584 | exactly the known contexts of the callsites that call the function in the changed context are queued |
| AnalysisDriver.PotentialFalls | include/AnalysisFramework/AnalysisDriver.h:219-254 | each change of the tables lowers the sum of what they can still rise, the measure of termination |
| AnalysisDriver.StepKeepsAccounts | include/AnalysisFramework/AnalysisDriver.h:338-342 | what is accounted for stays so when all readers of a change are queued |
| AnalysisDriver.ReturnPropagated | include/AnalysisFramework/AnalysisDriver.h:550-584 | queueing the callsites in the affected contexts queues all readers of a function exit |
| DriverSoundness.TargetsExactly | include/AnalysisFramework/AnalysisDriver.h:440-530 | a branch hands its information to exactly the blocks it can go to |
| DriverSoundness.ToTargetExactly | include/AnalysisFramework/AnalysisDriver.h:440-530 | if each transfer is exact, a target of a branch is handed exactly the states that jump there, and all states of an unconditional one |
| DriverSoundness.AfterExitExactly | include/AnalysisFramework/AnalysisDriver.h:440-530 | exactly the states that pass the exit go on to the next instruction: none after an unconditional branch, a jump table or a return that is not predicated |
| DriverSoundness.AfterOpExactly | include/AnalysisFramework/AnalysisDriver.h:352-438 | the value after an instruction, a call included, covers exactly the states it can end in |
| DriverSoundness.RunCovered | include/AnalysisFramework/AnalysisDriver.h:217-254 | with locally sound transfer functions every activation of a function, with all calls it has finished, is covered at each place it gets to |
| DriverSoundness.ProgramCovered | include/AnalysisFramework/AnalysisDriver.h:217-254 | every state of every run of the program, in any number of pending calls, is covered by the tables of a finished analysis |
| ArrivalCurve.CurveBounds | include/LLVMPasses/DispatchPathAnalysis.h:1255-1289 | for every schedule with runs at least a period apart and at most u access cycles per run, no interval holds more access cycles than the least of the three bounds |
| ArrivalCurve.CurveIsExact | include/LLVMPasses/DispatchPathAnalysis.h:1255-1289 | a number bounds the access cycles of all intervals of all such schedules exactly from the curve's value upwards |
| ArrivalCurve.AccessCyclesBounded | include/LLVMPasses/DispatchPathAnalysis.h:1243-1290 | the complete function, with the cases of no time, no bound and no period, bounds the access cycles and never exceeds the interval |
| ArrivalCurve.CompleteIsExact | include/LLVMPasses/DispatchPathAnalysis.h:1243-1290 | and it is exact, in these special cases as well: the least number that bounds the access cycles over all schedules the inputs allow |
| ArrivalCurve.CurveIsMonotone | include/LLVMPasses/DispatchPathAnalysis.h:1243-1290 | longer intervals never have a smaller bound |
| Persistence.CountsExactly | include/Memory/SetWiseCountingPersistence.h:208-303 | top is reached exactly if some access was unknown or more blocks than ways are accessed, and below top the stored blocks are exactly those accessed |
| Persistence.SetWiseExactly | include/Memory/SetWiseCountingPersistence.h:208-303 | not top exactly if there are blocks, no more than ways, such that on all paths only these are accessed |
| Persistence.LeqExactly | include/Memory/SetWiseCountingPersistence.h:305-310 | the order decided by joining a copy is that of the stored sets, below top |
| Persistence.SetWisePersistent | include/Memory/SetWiseCountingPersistence.h:312-350 | while not top, each block missed at most once on every path, whatever was cached at the start |
| Persistence.ElementWisePersistent | include/Memory/ElementWiseCountingPersistence.h:172-184 | an access to a persistent block is the first known one on its path, or a concrete hit |
| Persistence.ElementWiseExactly | include/Memory/ElementWiseCountingPersistence.h:117-184 | a block is persistent exactly if some path accesses it, and on all paths that do, only known blocks, no more than ways with itself, follow its last access |
| Persistence.ElementsExactly | include/Memory/ElementWiseCountingPersistence.h:117-159 | each entry is for a block accessed on some path, and holds exactly the blocks accessed after it on some path, or top if these are unknown or too many |
| Persistence.ElementsEvalCovers | include/Memory/ElementWiseCountingPersistence.h:117-159 | over every run and join each entry that is not top holds all blocks touched since the last access to its tag |
| Persistence.JoinIsLub | include/Memory/SetWiseCountingPersistence.h:265-310 | the join is the least upper bound of the partial order it defines |
| Persistence.SetWiseCountingPersistence.Update | include/Memory/SetWiseCountingPersistence.h:238-263 | top afterwards exactly if it was before or the blocks with the new one are more than the associativity; below top exactly these are stored |
| Persistence.SetWiseCountingPersistence.Join | include/Memory/SetWiseCountingPersistence.h:265-303 | top afterwards exactly if either side was or the united blocks are more than the associativity; below top exactly these are stored |
| Persistence.ElementWiseCountingPersistence.Update | include/Memory/ElementWiseCountingPersistence.h:130-142 | resets the accessed tag's entry and updates every entry |
| Persistence.ElementWiseCountingPersistence.Join | include/Memory/ElementWiseCountingPersistence.h:144-159 | joins common entries, then takes over those only the other side has |
| Scopes.EvalRun | include/Memory/MultiScopePersistence.h:160-253 | every open scope, entered as often as its counter says, holds what its analysis computes for the accesses since the scope was last entered from outside |
| Scopes.MergedTracks | include/Memory/MultiScopePersistence.h:175-196 | the assertions of the join hold between balanced runs, and the join is that of each scope's accesses |
| Scopes.NestedSetWise | include/Memory/MultiScopePersistence.h:160-265 | in nested scopes, an open scope whose info is not top has missed each block at most once since its outermost unmatched entry, on every path |
| Scopes.NestedElementWise | include/Memory/MultiScopePersistence.h:160-265 | in nested scopes, a block persistent in a scope is accessed for the first time there or hits |
| Scopes.MultiScopePersistence.EnterScope | include/Memory/MultiScopePersistence.h:225-238 | opens a scope with fresh information, or counts one more entry |
| Scopes.MultiScopePersistence.LeaveScope | include/Memory/MultiScopePersistence.h:240-253 | counts one entry less, or closes the scope |
| Scopes.MultiScopePersistence.Join | include/Memory/MultiScopePersistence.h:174-196 | joins the information of each scope |
| Scopes.MultiScopePersistence.GetPersistentScopes | include/Memory/MultiScopePersistence.h:255-265 | exactly the open scopes that call the block persistent |
| BlockingMemory.AnnouncedCompletionTimes | include/Memory/BlockingCyclingMemory.h:239-395 | an announced access can be over after n cycles exactly for n between the latency, with its share for each word, and that plus the blocking bound |
| BlockingMemory.CompletionTimes | include/Memory/BlockingCyclingMemory.h:239-395 | from any point of an access the possible remaining times are exactly one interval |
| BlockingMemory.FastForwardExact | include/Memory/BlockingCyclingMemory.h:397-441 | fast-forwarding at any point keeps exactly the completion times, once the recorded access cycles and blocking are added back |
| BlockingMemory.MixedIsExact | include/Memory/BlockingCyclingMemory.h:397-441 | however cycling and fast-forwarding are mixed, no time comes out that cycling alone could not take |
| BlockingMemory.OnlyOnce | include/Memory/BlockingCyclingMemory.h:413-416 | fast-forwarding again at once trips the assertion exactly if there can be blocking at all |
| BlockingMemory.CounterExactly | include/Memory/ConcAccessCounterWrapper.h:227-234 | the increments for b blocked cycles are the ceiling of b over the access latency exactly if the latency is above one or b is zero |
| BlockingMemory.ConcurrentAccesses | include/Memory/ConcAccessCounterWrapper.h:227-234 | so is the counter at the end of every access, under exactly that condition |
| ContextTree.AddRootLookup | include/AnalysisFramework/PartitioningDomain.h:567-645 | adding joins at exactly the given context and leaves all others alone, also when a leaf is pushed under a NONE label |
| ContextTree.AddReportsChange | include/AnalysisFramework/PartitioningDomain.h:567-645 | the result is true exactly if the map from contexts to information has changed |
| ContextTree.FindEarlyExactly | include/AnalysisFramework/PartitioningDomain.h:699-743 | the stored information, bottom where there is none, and a failing assertion exactly for contexts without information that others extend |
| ContextTree.TransferBelow | include/AnalysisFramework/PartitioningDomain.h:470-538 | the transfer works on the subtree at every path outside of the loop on its own |
| ContextTree.PeeledCanShift | include/AnalysisFramework/PartitioningDomain.h:470-538 | the assertions of the transfer hold in every tree in which, wherever the loop is entered, its first iterations are kept apart and the rest together |
| ContextTree.BackedgeKeepsJoin | include/AnalysisFramework/PartitioningDomain.h:470-538 | on a backedge, below every such path, each peel leaf gets the information of the one before, and the join over all leaves of the loop is unchanged |
| ContextTree.OtherLeavesKept | include/AnalysisFramework/PartitioningDomain.h:470-538 | leaves outside the loop keep their information |
| ContextTree.ContextsAreLookups | include/AnalysisFramework/PartitioningDomain.h:540-565 | the enumerated contexts are those with information |
| ContextTree.PartitioningDomain.AddContext | include/AnalysisFramework/PartitioningDomain.h:567-645 | the descending loop computes the specified tree and flag |
| ContextTree.PartitioningDomain.FindAnalysisInfoEarly | include/AnalysisFramework/PartitioningDomain.h:699-743 | the descending loop computes the specified outcome |
| ContextTree.PartitioningDomain.Join | include/AnalysisFramework/PartitioningDomain.h:314-340 | adding all contexts of the other tree joins the maps pointwise |
| TreeTables.AddedIsAddContext | include/AnalysisFramework/AnalysisDriver.h:249 | adding to the tree of a block, function entry or function exit changes the table as the iteration's step does, and reports the same |
| TreeTables.LookIsFindEarly | include/AnalysisFramework/AnalysisDriver.h:399-401 | the early lookup in the tree gives what the iteration reads, or asserts exactly where nothing is known but for longer contexts |

## Left out

- Multi-core counting (the CNN branches of classification and persistence): one core only.
- LLVM passes, option parsing, printing, hashing, shared storage and cloning, ILP solving.
- `ConditionalMustPersistence`, `MustAgeConflictPowerset`, the array branch of set-wise
  `potentialUpdate`, array `getPersistentScopes`, `GraphIterator`, and the memory topologies.
- The age getters `getAge` and `getCSS`; the operators `<` that only order states for storage.
- Fixed widths of addresses, tags and ages, and compositional bus blocking beyond its effect on
  the blocking bound.
- Reports are always produced; the must update report and the may update report appear as the
  sets and flags that the dirtiness analysis reads.
- The order in which the entries of a map or set are visited is left open, where the source uses
  the order of its keys: no result depends on it.
- Dirtiness.DirtinessAnalysis.Update: the assertion in the marked branch does not stop the update, as in
  a build without assertions; the result `marked` tells whether it was met.
- WholeCache.AbstractCacheImpl.Update: callable for intervals that fit, because the others trip the
  assertion; sets are updated with the product of must and may analysis.
- MayCache.LruMinAgeCache.Update: the explicit tags are a sequence that is reassigned, as the
  source's vector is resized; the must cache's fixed arrays are arrays.
- ArrayRuns.RunSound: a hit for a tag that is not listed only while no listed tag has used an array up, and
  uniting joins only of equal conflict sets or where the tag is given up; ArrayHits and ArrayUnion say exactly
  when the other runs are right.
- ArrayUnion.UnionSoundExactly: each array reaches its computed size in the set; without that the condition is
  sufficient, and necessary for all placements together.
- ArrayAddresses.UnionSoundExactly: lines and arrays consist of whole words and arrays start at one, because the
  interval of an array ends with its last word; that the condition suffices needs none of this.
- ArrayCaches.RunSound: the intervals of all accesses fit, those of the arrays included, since selecting sets goes
  wrong for others.
- WritebackCaches.WritebackCacheImpl.Update: callable for intervals that fit and where the assertion of the must
  update holds, as the source asserts.
- Persistence.ElementWiseCountingPersistence.Update: entries are values of the map, as the source stores
  them, and updated by the set-wise function; a block is its tag, since its arrays follow from it.
- AnalysisDriver.AnalysisDriverInstr.AnalyseInstruction: at most one callee per call, which is what the call
  graph registers (lib/AnalysisFramework/CallGraph.cpp:88-135). The only directives inside a block are the pair
  around a call (lib/PartitionUtil/DirectiveHeuristics.cpp:122-148); it cancels, so the context after the call is
  the one before it, and what the callee and the transfer see of it is part of the parameters `calleeContext`,
  `toCallee` and `afterCall`.
- AnalysisDriver.AnalysisDriverInstr.RunAnalysis: the abstract domain is any partial
  order of finite height with upper bounds, contexts and program points are finitely many. Directives
  before and after a call cancel; those on edges, calls and returns are part of the context functions.
  The tables of blocks, function entries and function exits are one map with three kinds of keys.
- MayExact.MayUpdateExactly: for states whose bounds leave no gap in front of a tag, which are all that runs reach
  (WholeCache.EvalDense, Dirtiness.EvalDense).
- MayExact.MayPotentialExactly: for more than four tags the source gives all bounds up, which is not the best possible.
- Dirtiness.UpdateReportExactly: whether a block may be gone is judged by the must bounds, as the source does, so
  that a write-back may be reported that the may bounds exclude.
- WholeCache.TouchedExactly: lines of at least one word, where the interval is taken to span all sets.
- ArrayPrecision.BoundExactly: paths without joins, hits for listed tags, and arrays as large as computed that share
  no line with each other or with precise accesses; the bounds reckon with nothing else.
- DriverSoundness.ProgramCovered: local soundness of the transfer functions, and that returning restores
  the context of the call, are assumptions about the parameters.
- ContextTree.PartitioningDomain.AddContext: the tree is a value, so that writing into it rebuilds the path
  to the position; aliasing between trees is not captured.
- ContextTree.BackedgeKeepsJoin: for loops peeled as the heuristics create them, some first iterations
  and one label for the rest.
- BlockingMemory.ConcurrentAccesses: interval counters that are only ever one number are numbers.
