# count_attachment_kernel in Dafny

This project models the two programs of count_attachment_kernel. Both
estimate the attachment kernel A(k) of a growing network from a stream of
time-stamped records. Each record lists the node ids that gain one edge at
that time step.

Both programs keep the same shared state across steps:

- `t`, the number of steps;
- `E`, the number of edges;
- `N`, the number of nodes that have entered the network;
- `k`, the degree class of every node id;
- `n`, the population of every class;
- `A`, the kernel accumulator.

A step does four things, in order:

1. It tallies the listed nodes per class (`m`).
2. It credits every listed node of class `c > 0` with `m[c] * N / n[c]`, using the `N` and `n` of the start of the step.
3. It commits the new `N` and moves every listed node up one class, growing the class-indexed vectors to class + 2 when needed.
4. It migrates the populations, in the map's arbitrary order.

The programs differ in how they compute the normalisation factor `w[c]`:

- The naive program (`count_attachment_kernel.cpp`) adds the step's edge count to `w[c]` for every class populated before the migration.
- The fast program (`count_attachment_kernel_fast.cpp`) records, per class, the times at which the class becomes empty or populated, and the edge count of every step (`m_history`). After the stream it rebuilds `w[c]` by summing `m_history` over the active periods.

The modules follow that structure:

- `Counting` holds the vocabulary: occurrences, degrees, class members and the tally.
- `Phases` holds the shared per-step update: one method per loop of the source, the step function `Next`, its fold `Replay` over a history of records, and the invariant `Tracks` that gives the counters their meaning. It also defines the reference normalisation factor `Exposure`.
- `Naive` and `Fast` hold each program's step and main loop. `Fast` also holds the recording migration and the post pass.
- `Switches` holds the arithmetic of switch lists over the edge-count history.
- `Report` holds the printed table.
- `Equivalence` runs both programs on the same records.

Both `main` functions work on local variables. The model keeps that form: a `Step` method takes the variables and returns their new values, and `Run` is the main loop over a sequence of records. Each loop of the source is a method with its invariants, proved against a specification function. The headline result is `Equivalence.Agree`. It covers every stream whose records are non-empty and list each id at most once. On such a stream both programs end with equal `t`, `E`, `N`, `A` and `w`, and `w[c]` is the number of edges added at steps that began with class `c` populated. On records with repeated ids the two programs can end with different `w` (see "## Left out").

Three behaviours of the code that the model follows:

- The naive `w` update runs before the migration (count_attachment_kernel.cpp:93-95, before 98-101). So `w[c]` gains a step's edges when class `c` was populated at the start of that step.
- A node listed several times in one record advances once per listing (count_attachment_kernel.cpp:81, count_attachment_kernel_fast.cpp:82). So a node's class is the number of times it has been listed.
- When class 1 was never weighted, the report divides by zero (count_attachment_kernel_fast.cpp:146). The model states the report's requirement as a precondition.

## Model

| member | source | states |
|---|---|---|
| Counting.OccDistinct | count_attachment_kernel_fast.cpp:80-82 | in a record without repeated ids, each listed node advances by exactly one class |
| Counting.SeenListed | count_attachment_kernel_fast.cpp:80-82 | a node listed by any record has degree at least one |
| Counting.SeenAbsent | count_attachment_kernel_fast.cpp:59 | a node id that no record lists stays in class 0 |
| Counting.MembersUpdate | count_attachment_kernel_fast.cpp:95-102 | moving one node between classes changes the two class populations by one each and leaves every other class alone |
| Counting.MembersZeroExtends | count_attachment_kernel_fast.cpp:59 | growing the per-node vector with zeros adds only class-0 nodes and no entered node |
| Counting.EnteredSplit | count_attachment_kernel_fast.cpp:69-71 | every node id is either still in class 0 or has entered the network |
| Counting.Census | count_attachment_kernel_fast.cpp:70-77 | the populations of classes 1 and above add up to the number of nodes that entered |
| Counting.Tally | count_attachment_kernel_fast.cpp:61-62 | the tally `m` of a record: for each listed occurrence, one increment at the listed node's current class |
| Counting.TallyPositive | count_attachment_kernel_fast.cpp:61-62 | every key of the tally `m` has a positive count |
| Counting.TallyBound | count_attachment_kernel_fast.cpp:97 | with distinct ids, no class is selected more often than it has members, so `n[k] -= mk` never goes below zero |
| Counting.VolumeSum | count_attachment_kernel_fast.cpp:48-49 | the edge count E equals the sum of the per-step edge counts |
| Counting.VolumeBound | count_attachment_kernel_fast.cpp:44-49 | when every record lists at least one id, E is at least t |
| Phases.PadTo | count_attachment_kernel_fast.cpp:59 | a resized vector keeps its old entries and fills the new ones with the given value |
| Phases.Cover | count_attachment_kernel_fast.cpp:53-63 | the resized per-node vector extends the old one with class 0 and indexes every listed id |
| Phases.Capacity | count_attachment_kernel_fast.cpp:84-90 | the grown class-vector size is never smaller than before and exceeds every class a listed node reaches |
| Phases.Advanced | count_attachment_kernel_fast.cpp:80-82 | the class vector after the advance loop: each node's class plus the number of times the record lists it |
| Phases.Credited | count_attachment_kernel_fast.cpp:66-75 | the kernel after the credit loop: the listed nodes credited in order, one share `m[c]*N/n[c]` per node of class c > 0 |
| Phases.CreditedCount | count_attachment_kernel_fast.cpp:66-75 | crediting the record adds one share `m[c]*N/n[c]` to `A[c]` per listed node of class c > 0 and leaves class 0 and unselected classes alone |
| Phases.SquareShare | count_attachment_kernel_fast.cpp:73 | `m[c]` credits of `m[c]*N/n[c]` add up to `m[c]*m[c]*N/n[c]` |
| Phases.CreditSquare | count_attachment_kernel_fast.cpp:66-75 | over one record, a selected class c > 0 gains exactly `m[c]*m[c]*N/n[c]` with the pre-step N and n; no other class changes |
| Phases.Shifted | count_attachment_kernel_fast.cpp:95-102 | the populations after the migration loop (also count_attachment_kernel.cpp:98-101): class c >= 1 loses `m[c]` and gains `m[c-1]`, and class 0 is left alone |
| Phases.MigratingStep | count_attachment_kernel_fast.cpp:96-101 | one visit of the migration loop keeps the partial populations equal to those with the visited classes moved |
| Phases.MigratingDone | count_attachment_kernel_fast.cpp:95-102 | once every class is visited, in any order, the populations are the shifted ones, so the result does not depend on the map's order |
| Phases.Preprocess | count_attachment_kernel_fast.cpp:53-63 | the preprocessing loop leaves the resized class vector and the tally of the listed nodes' classes |
| Phases.PreprocessStep | count_attachment_kernel_fast.cpp:59-62 | one preprocessing iteration resizes when the id is new and counts its class once |
| Phases.CreditKernel | count_attachment_kernel_fast.cpp:65-77 | the kernel loop adds `m[c]*m[c]*N/n[c]` to every selected class c > 0, leaves the rest of A unchanged, and adds the number of entering nodes to N |
| Phases.AdvanceClasses | count_attachment_kernel_fast.cpp:79-91 | the advance loop raises each node's class by its number of listings and computes the size the class vectors grow to |
| Phases.AdvanceStep | count_attachment_kernel_fast.cpp:82-90 | one advance iteration raises one node by one class and grows the size to class + 2 when that class reaches it |
| Phases.Shift | count_attachment_kernel_fast.cpp:95-102 | with distinct ids, advancing the listed nodes takes `m[c]` nodes out of class c and puts `m[c-1]` into it |
| Phases.AdvancedLast | count_attachment_kernel_fast.cpp:82 | the last listed occurrence advances its node by one more class |
| Phases.Prepared | count_attachment_kernel_fast.cpp:73 | before a step: every divisor `n[k]` at line 73 is positive, every `n[k+1]` at lines 100-101 is in range, and no class loses more nodes than it holds |
| Phases.Tracks | count_attachment_kernel_fast.cpp:22-29 | what the shared variables mean after a history: every listed id indexes `k`, `k[x]` is x's number of listings, every positive class indexes `n`, `n[0]` is 0, `n[c]` (c >= 1) is the number of nodes in class c, and N is the number of nodes that have entered |
| Phases.PreservedDegrees | count_attachment_kernel_fast.cpp:54-63 | after a step every node's class is still its number of listings and every listed id indexes `k` |
| Phases.PreservedPopulations | count_attachment_kernel_fast.cpp:95-102 | after a step `n[c]` (c >= 1) is still the number of nodes in class c, `n[0]` is still 0 and every class in use indexes `n` |
| Phases.PaddedPopulation | count_attachment_kernel_fast.cpp:87 | the population vector grown with zeros still counts every class c >= 1 |
| Phases.ClassAfter | count_attachment_kernel_fast.cpp:95-102 | migration leaves class c >= 1 with exactly the nodes the advance put there |
| Phases.PreservedEntered | count_attachment_kernel_fast.cpp:70-77 | N grown by the class-0 tally is the number of nodes that have entered after the step |
| Phases.Preserved | count_attachment_kernel_fast.cpp:46-102 | one step keeps the counters' meaning: degrees, populations and N |
| Phases.Next | count_attachment_kernel_fast.cpp:46-102 | one step keeps `A` and `n` the same length and never shrinks them |
| Phases.Replay | count_attachment_kernel_fast.cpp:22-103 | the counters after any sequence of distinct-id records mean what `Tracks` says: degrees, populations, `n[0] == 0` and N |
| Phases.NextTracks | count_attachment_kernel_fast.cpp:46-102 | from tracking counters a step is defined (no zero divisor) and yields tracking counters |
| Phases.ReplayNext | count_attachment_kernel_fast.cpp:31-103 | replaying one more record applies one more step |
| Phases.Grows | count_attachment_kernel_fast.cpp:77-91 | counters only grow: each node's class rises by its listings in the record, vectors never shrink and N never decreases |
| Phases.NextGrows | count_attachment_kernel_fast.cpp:77-91 | the step function raises each node's class by its listings in the record, never shrinks the vectors and never lowers N |
| Phases.SelectsAll | count_attachment_kernel_fast.cpp:73 | every listed node's class is a key of `m`, so `m[ki]` at line 73 reads a tallied count |
| Phases.Update | count_attachment_kernel_fast.cpp:46-91 | the first three loops produce exactly the class vector, N and kernel of the step function |
| Phases.Exposure | count_attachment_kernel.cpp:93-95 | the normalisation factor of class c after a history: the edge counts of the steps at whose start class c held a node; both programs' `w` are proved equal to it |
| Phases.ExposureZero | count_attachment_kernel.cpp:93-95 | class 0 is never populated, so `w[0]` stays 0 |
| Phases.ExposureMonotone | count_attachment_kernel.cpp:93-95 | a normalisation factor never decreases as records come in |
| Phases.ExposureNext | count_attachment_kernel.cpp:93-95 | a step adds its edge count to the factor of exactly the classes populated at its start |
| Phases.PopulatedIff | count_attachment_kernel.cpp:94 | class c >= 1 is populated exactly when it indexes `n` and `n[c] > 0` |
| Phases.Conservation | count_attachment_kernel_fast.cpp:70-102 | N equals the sum of `n[c]` over the classes c >= 1 |
| Naive.Exposed | count_attachment_kernel.cpp:93-95 | the `w` vector after the loop: each entry grows by `mt` where its class is populated; an entry never shrinks, never grows by more than `mt`, and changes only where `n[c] > 0` |
| Naive.WeighsStep | count_attachment_kernel.cpp:92-95 | exposing the pre-migration populations keeps `w[c]` equal to every class's normalisation factor |
| Naive.Expose | count_attachment_kernel.cpp:93-95 | `w[c]` gains the step's edge count exactly for the classes with `n[c] > 0` and no other entry changes |
| Naive.Migrate | count_attachment_kernel.cpp:98-101 | the migration loop, in arbitrary key order, yields the shifted populations |
| Naive.Step | count_attachment_kernel.cpp:35-101 | one step keeps the program's variables consistent with the longer history: counters, t + 1, E + edge count, normalisation factors |
| Naive.Run | count_attachment_kernel.cpp:22-102 | after the stream the counters are the replayed ones, t and E count steps and edges, `w` has the size of `A` and holds every class's normalisation factor |
| Switches.SumRange | count_attachment_kernel_fast.cpp:114-116 | `m_history[lo] + ... + m_history[hi-1]`, the edges of one period; no summed entry exceeds it |
| Switches.Paired | count_attachment_kernel_fast.cpp:111-121 | the closed active periods `[s[i-1], s[i])` for odd i, summed over `m_history` |
| Switches.Reconstruct | count_attachment_kernel_fast.cpp:110-131 | the weight the post pass rebuilds from one switch list: the closed active periods, plus the open period from the last switch to t when the list has odd length |
| Switches.ReconstructExtend | count_attachment_kernel_fast.cpp:123-128 | one more step of history adds its edge count to a class whose switch list has odd length, and nothing otherwise |
| Switches.ReconstructPush | count_attachment_kernel_fast.cpp:98-100 | a switch recorded at the current time does not change the rebuilt weight |
| Switches.ReconstructPushes | count_attachment_kernel_fast.cpp:95-102 | any number of switches at the current time leave the rebuilt weight unchanged |
| Fast.Visit | count_attachment_kernel_fast.cpp:96-101 | one migration visit moves the nodes and appends time t to a class that becomes empty or stops being empty, keeping each list's parity equal to its class being populated |
| Fast.MigrateRecording | count_attachment_kernel_fast.cpp:95-102 | in any key order: populations are shifted, `s[0]` is untouched, every other list gains at most two entries equal to t, parity tells whether the class is populated, and untouched classes keep their list |
| Fast.LoggedStep | count_attachment_kernel_fast.cpp:95-102 | a switch list extended at the new time keeps rebuilding the class's normalisation factor once the step's edge count is in the history |
| Fast.LogStep | count_attachment_kernel_fast.cpp:95-102 | after a step every switch list, new classes included, is ordered, within [1, t], has the right parity and rebuilds the factor |
| Fast.PaddedLogged | count_attachment_kernel_fast.cpp:89 | a list added by growing `s` is empty and its class was never populated |
| Fast.EdgeHistory | count_attachment_kernel_fast.cpp:36-49 | t is the length of `m_history` and E is its sum |
| Fast.Step | count_attachment_kernel_fast.cpp:36-102 | one step keeps the variables consistent with the longer history: counters, t + 1, E + edge count, `m_history` extended, switch lists logged; the switch lists only grow, each old list gaining at most two entries equal to the new t |
| Fast.Record | count_attachment_kernel_fast.cpp:87-102 | after growing to the new size and migrating: populations shifted, `s[0]` still empty, every list the step started with only appended to (at most two entries, each equal to t), and parity tells whether each class is populated |
| Fast.StepLogged | count_attachment_kernel_fast.cpp:36-102 | the values a step's loops compute form a state consistent with the longer history |
| Fast.HistoryStep | count_attachment_kernel_fast.cpp:48 | `m_history` keeps holding every step's edge count |
| Fast.Recordable | count_attachment_kernel_fast.cpp:87-89 | the grown vectors meet the recording migration's requirements |
| Fast.AddRange | count_attachment_kernel_fast.cpp:114-116 | the inner loop adds `m_history[lo] + ... + m_history[hi-1]` to `w[c]` and nothing else |
| Fast.Rebuild | count_attachment_kernel_fast.cpp:110-131 | the per-class pass adds the edges of every active period of the list, the still-open one included |
| Fast.PostPass | count_attachment_kernel_fast.cpp:105-132 | `w` has one entry per class, `w[0]` is 0 and `w[c]` is rebuilt from `s[c]` |
| Fast.Rebuilt | count_attachment_kernel_fast.cpp:105-132 | the rebuilt factors are the normalisation factors of the naive definition |
| Fast.Run | count_attachment_kernel_fast.cpp:22-132 | after the stream the counters are the replayed ones, t and E count steps and edges, `w` has the size of `A` and holds every class's normalisation factor |
| Report.Table | count_attachment_kernel_fast.cpp:146-155 | rows in increasing class order, exactly one per class k >= 1 with `w[k] > 0`, each the class's per-unit kernel relative to class 1 and its raw kernel relative to `A[1]`; class 1 comes first and reads 1 in both columns |
| Report.Line | count_attachment_kernel_fast.cpp:150-153 | the printed line of class k is its row; for class 1 it is 1 and 1 |
| Report.Corrected | count_attachment_kernel_fast.cpp:146-151 | `A[k] / (A1 * w[k])` with `A1 = A[1]/w[1]` is the per-unit kernel of class k over that of class 1 |
| Report.UnitRow | count_attachment_kernel.cpp:114-120 | class 1 reads 1 in both columns |
| Equivalence.Agree | count_attachment_kernel_fast.cpp:105-132 | with the naive loop of count_attachment_kernel.cpp:93-95, both programs on the same records end with equal t, E, N, A and w; `w[c]` is the edges added at steps that began with class c populated; E >= t; after two records class 1 exists with `w[1] > 0` |
| Equivalence.ClassOneWeighed | count_attachment_kernel_fast.cpp:146 | after two records class 1 exists and its normalisation factor is positive, so `A1` divides by a positive `w[1]` |

## Left out

- Reading standard input, trimming, skipping blank and `#` lines, tab splitting and `stoull` on fields and arguments are not modelled. Each record is given as a `seq<nat>` of node ids, and the step's edge count is its length.
- The usage message and exit on a missing argument, progress output to the error stream, and output formatting and precision are not modelled.
- The `column < tok.size()` assertion becomes the requirement that every record lists at least one id.
- Floating point: the counters the source holds in `double` (`N`, `E`, `n`, `w`, `m_history`) only ever hold integers and are `int`/`nat` here. `A` and the report ratios are exact `real`, not IEEE doubles, so rounding is not modelled.
- Naive.Run, Fast.Run, Naive.Step, Fast.Step: require every record to list distinct ids. With a repeated id, the source advances the node once per listing but migrates populations by one class. Populations then stop counting class members and a later credit can divide by zero, which the model does not follow.
- Equivalence.Agree: requires every record to list distinct ids. On repeated ids the two programs really differ. Take the records `[1]`, `[1, 1]`, `[2]`. At step 2 the naive program takes `n[1]` from 1 to -1 (count_attachment_kernel.cpp:99), so at step 3 class 1 is not weighted (line 94), and it ends with `w[1] = 2`. The fast program moves `n[1]` from 1 to -1 without it ever equalling 0, so no switch is recorded at line 98. `s[1] == [1]` stays odd, and lines 126-128 give `w[1] = m_history[1] + m_history[2] = 3`. The two print different tables.
- Report.Table: requires `|A| >= 2`, `w[1] > 0` and `A[1] != 0`. Otherwise the source reads out of range or divides by zero and prints infinities or NaN, which the model does not represent.
- The unordered map's iteration order in the migration loops is an arbitrary choice (`:|`). The model does not pin one order down. The populations (Phases.MigratingDone), the parity of every switch list and the rebuilt `w` are proved the same for every order. The switch lists themselves are not: visiting class c before c - 1 can append `[t, t]` to `s[c]` where the other order appends nothing. Those are zero-length periods that do not change `w` (Switches.ReconstructPushes).
- The vectors the advance loop grows are padded once, after that loop, to the final size it computed. Nothing reads them inside that loop, so the result is the same.
- Fast.PostPass: takes the final time as `|m_history|`, which equals `t` after the main loop (Fast.EdgeHistory).
- The kernel state is passed between `Step` calls as local values, as in the source's `main`. No estimator object exists in either program, and none is introduced here.
