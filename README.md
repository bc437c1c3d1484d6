# Tortoise and hare: a verified model

The repository animates Floyd's cycle-detection algorithm on a small successor
table `number_vector`. Node `i` has one successor, `number_vector[i]`. The
nodes are drawn as circles on a disk, with one arrow per node along the walk
from node 0. A hare sprite and a tortoise sprite walk the graph. Pressing
Space starts a "run": the tortoise takes one edge and the hare takes two.
Over many runs this replays phase 1 of `find_duplicates`, which finds the
entry node of the cycle that the walk from node 0 falls into.

The model covers:

- `find_duplicates`: both loops, with ghost tail length μ and cycle length λ.
- `fill_with_random`: the random fill, as a nondeterministic choice in `[min, max]`.
- `hsv`: the integer hue normalisation at its start.
- The zero-vector guards of `change_size_to` and of both versions of
  `get_triangle_for_arrow`. Vectors are abstracted to zero / non-zero.
- The three constructors.
- `move()`: a class whose fields are `move()`'s function-local statics and
  the remaining distance of each sprite, counted in ticks.
- The Space/`moving` logic of one frame of `start_loop`.
- The index walk of both `draw_arrows` versions.
- The integer part of `main`.

How the files map to the modules:

- `walks.dfy` (module `Walks`): iteration f^k, the rho (tail `Tail`, cycle
  `Period`, entry `CycleEntry`), and the facts about it.
- `helpers.dfy` (module `Helpers`): the free functions of `include/helpers.hpp`.
- `motion.dfy` (module `Motion`): `move()` as a pure step function `Step` on
  a `MoveState`, and the run-level lemmas.
- `tortoise_and_hare.dfy` (module `Animation`): class `TortoiseAndHare`, its
  constructors, its imperative `Move` proved equal to `Step`, `Frame`, both
  `draw_arrows`, and `main`'s start-up computation.

`src/main.cpp` is a second, standalone copy of the program. Its
`find_duplicates` (src/main.cpp:9-29), `hsv` hue normalisation
(src/main.cpp:34-35) and `move()` (src/main.cpp:228-282) have the same text as
the header versions. They are modelled once, by the members listed for the
header. The two `move()` versions differ only in speeds (0.6/0.3 against
0.8/0.4), and the speeds are part of the `Geometry` parameter. The copy has
no vector constructor and no `fill_with_random`. Two modelled behaviours
differ from the header:

- its constructor fills the table from `RandomGen(1, nc - 1)`;
- its `draw_arrows` and `get_triangle_for_arrow` have no self-loop handling.

These differences are modelled separately.

Each stage of `move()` appears twice in `Animation`/`Motion`: as a small
method of the class that updates the fields (`StartHops`, `AdvanceSprites`,
`HareArrive`, `TortoiseArrive`, `EndRunIfStopped`) and as the function on
`MoveState` it is proved equal to (`SyncStart`, `Advance`, `HareArrival`,
`TortoiseArrival`, `EndCheck`). The functions compose into `Step`, about
which the run-level lemmas are proved; the methods compose into `Move`.

## Model

| member | source | states |
|---|---|---|
| Walks.Iter | include/helpers.hpp:39-40 | on a well-formed table every node reached by following successors is a valid index, so every `v[...]` of the two loops is in range |
| Walks.Rho | include/helpers.hpp:35-51 | every table has a rho reached from node 0: a tail of μ distinct nodes and then a cycle of λ ≥ 1 distinct nodes, with μ + λ ≤ \|v\| |
| Walks.RhoUnique | include/helpers.hpp:35-51 | the rho is unique: any (μ, λ) with that shape is `(Tail(v), Period(v))` |
| Walks.IterAdd | include/helpers.hpp:39-40 | walking a edges after b edges is walking a + b edges |
| Walks.CycleStep | include/helpers.hpp:46-50 | from any position at or after the tail, λ more edges return to the same node |
| Walks.MeetingBound | include/helpers.hpp:37-41 | some round k ≥ 1 with k ≥ μ has f^k(0) == f^2k(0), so phase 1 terminates |
| Walks.RevisitAfterTail | include/helpers.hpp:46-50 | a node met at two positions i < j of the walk from 0 has i ≥ μ, so phase 2 cannot stop before μ steps |
| Walks.CycleEntryOnCycle | include/helpers.hpp:43-51 | the returned node lies on a cycle: λ ≥ 1 edges from it return to it |
| Walks.CycleEntryFirstRevisited | include/helpers.hpp:43-51 | the cycle entry is revisited after λ more edges, and no node is revisited from an earlier position: it is the first node the walk visits twice |
| Walks.ExampleSelfLoop | include/helpers.hpp:32-52 | on the table `[0]` the cycle entry is 0 |
| Walks.ExampleRho | include/helpers.hpp:32-52 | on `[1,2,3,4,2]`: tail 2, period 3, cycle entry 2 |
| Walks.CycleEntryIsDuplicate | include/helpers.hpp:32-52 | if \|v\| ≥ 2 and every value lies in [1, \|v\|-1], the cycle entry is not 0 and occurs at two distinct indices of v |
| Walks.ReachableWithin | include/TortoiseAndHare.hpp:186-226 | every node reachable from 0 is one of the first \|v\| walk positions, so the `n_circles` arrows cover all of them |
| Walks.SelfLoopIffUnitPeriod | src/main.cpp:305-325 | the first \|v\| walk positions include a self-loop exactly when the cycle reached from 0 has length 1 |
| Helpers.FindDuplicates | include/helpers.hpp:32-52 | returns the cycle entry f^μ(0); phase 1 stops at the first round k ≥ 1 where f^k(0) == f^2k(0); the table (passed by const reference) is a value and is unchanged |
| Helpers.HareRound | include/helpers.hpp:40 | one `hare = v[v[hare]]` moves the hare from f^2k(0) to f^(2k+2)(0) |
| Helpers.MeetingIsOnCycle | include/helpers.hpp:41-50 | at the phase-1 meeting round k, μ ≤ k and f^(μ+k)(0) is the cycle entry, so the two phase-2 pointers meet there after exactly μ steps |
| Helpers.FillWithRandom | include/helpers.hpp:25-30 | every element of the (fixed-length) vector ends in [min, max] |
| Helpers.TriangleForArrow | include/helpers.hpp:107-127 | never throws; the empty shape exactly when the two points coincide |
| Helpers.TriangleForArrowUnguarded | src/main.cpp:80-96 | throws exactly when the two points coincide, since it lacks the zero guard |
| Helpers.CppRemainder360 | include/helpers.hpp:57 | `hue %= 360` truncates: the remainder has the sign of `hue`, its magnitude is below 360, and it is congruent to `hue` modulo 360 |
| Helpers.NormaliseHue | include/helpers.hpp:57-58 | the hue ends in [0, 360) and congruent to the input modulo 360 |
| Helpers.HueSector | include/helpers.hpp:66-76 | on a normalised hue `hue/60` is in 0..5 and its sector contains the hue, so `case 6` is never the branch taken |
| Motion.Displacement | include/TortoiseAndHare.hpp:178-182 | with node i at angle i·2π/n, two nodes of the layout have the same position (angles a whole number of turns apart) exactly when they are the same node |
| Motion.GetSpeed | include/TortoiseAndHare.hpp:101-106 | throws exactly on two equal indices; otherwise yields a non-null movement |
| Motion.Step | include/TortoiseAndHare.hpp:107-161 | one `move()`: at the sync tick both indices take one edge, and a walker moves afterwards exactly when it left a non-self-loop and its hop lasts past that tick; the tortoise changes node only at sync, the hare otherwise only by its one extra hop, which needs the flag and a non-self-loop and clears the flag; both vectors null sets the flag and clears `moving`; `get_speed` never receives equal indices |
| Motion.SelfLoopsEndRunAtOnce | include/TortoiseAndHare.hpp:117-160 | when both walkers sit on self-loops, one call leaves both indices unchanged and ends the run |
| Motion.FirstTick | include/TortoiseAndHare.hpp:117-160 | the tick that starts a run either ends it, with both walkers stopped, or puts the tortoise at f(t) and the hare on its way to f(h) |
| Motion.LaterTick | include/TortoiseAndHare.hpp:134-160 | every later tick keeps the run in its phases with strictly less left to do, or ends it with the tortoise at f(t) and the hare at f(f(h)) |
| Motion.RunFrom | include/TortoiseAndHare.hpp:90-93 | calling `move()` while `moving` stays set ends the run with the tortoise at f(t) and the hare at f(f(h)) |
| Motion.CompleteRun | include/TortoiseAndHare.hpp:109-160 | a run from a press of Space moves the tortoise one edge and the hare two, except in a one-tick run, where the hare moves one |
| Motion.AfterRuns | include/TortoiseAndHare.hpp:75-93 | after k ≥ 1 runs started by Space, the animation is stopped and ready for the next one |
| Motion.RunsMirrorFloyd | include/TortoiseAndHare.hpp:109-160 | when every hare hop lasts at least two ticks, after k runs the tortoise is at f^k(0) and the hare at f^2k(0), which is phase 1 of `find_duplicates` |
| Animation.ZerosCycle | include/TortoiseAndHare.hpp:12 | in the zero-filled table all nodes map to 0, node 0 is a self-loop (period 1), and it is the cycle entry |
| Animation.StandaloneSelfLoopExample | src/main.cpp:137-157 | `[1,1,1,1,1,1]` is a table the six-circle constructor can draw, and its walk from 0 reaches the self-loop at node 1 (period 1) |
| Animation.TortoiseAndHare.Sized | include/TortoiseAndHare.hpp:8-33 | `n_circles == nc`, `nc` zero successors, statics at their initial values, not moving; `RandomGen(1, nc-1)` needs nc ≥ 2 |
| Animation.TortoiseAndHare.FromVector | include/TortoiseAndHare.hpp:35-39 | the table is `v` and `n_circles == \|v\|` |
| Animation.TortoiseAndHare.Random | src/main.cpp:134-158 | `nc` successors, each in [1, nc-1], so no node has successor 0 |
| Animation.TortoiseAndHare.Move | include/TortoiseAndHare.hpp:107-161 | the new statics and `moving` are one `Step` of the old ones; the table is untouched |
| Animation.TortoiseAndHare.StartHops | include/TortoiseAndHare.hpp:117-133 | the sync block, as `SyncStart` |
| Animation.TortoiseAndHare.AdvanceSprites | include/TortoiseAndHare.hpp:134-135 | each moving sprite covers one tick of its hop |
| Animation.TortoiseAndHare.HareArrive | include/TortoiseAndHare.hpp:136-150 | the hare's arrival test and extra hop, using the successor read at the start of the call |
| Animation.TortoiseAndHare.TortoiseArrive | include/TortoiseAndHare.hpp:151-154 | an arrived tortoise stops |
| Animation.TortoiseAndHare.EndRunIfStopped | include/TortoiseAndHare.hpp:156-160 | both stopped: the flag is set again and `moving` is cleared |
| Animation.TortoiseAndHare.Frame | include/TortoiseAndHare.hpp:75-93 | Space sets `moving`; `move()` runs exactly when `moving` is set, and nothing changes otherwise |
| Animation.TortoiseAndHare.DrawArrows | include/TortoiseAndHare.hpp:184-227 | arrow i is drawn for f^i(0), i = 0..n_circles-1: straight to its successor, or curled for a self-loop; the straight branch rescales only the vector between two distinct nodes, the curled branch rescales the node's offset from the disk centre (non-null for `disk_radius` > 0), and both triangle calls go to the guarded helper, so it never throws |
| Animation.TortoiseAndHare.DrawArrowsStandalone | src/main.cpp:305-325 | raises `invalid_argument` exactly when the walk from 0 reaches a self-loop, that is, exactly when the cycle has length 1; otherwise it draws the n straight arrows f^i(0) to f^(i+1)(0) |
| Animation.StartupReport | src/main.cpp:357-379 | for the six-circle random table, `find_duplicates` returns its cycle entry, which is not 0 and is the successor of two distinct nodes |

## Left out

- Helpers.ChangeSizeTo: with vectors reduced to zero / non-zero, "throws exactly on the null vector, otherwise a non-null result" is its definition; the rescaling itself is floating point.
- Animation.ArrowAt: "straight exactly when the node is not a self-loop" is its definition; the arrow's float geometry is not modelled.
- Motion.Displacement: assumes `disk_radius` > 0, as in the only call (`TortoiseAndHare tah(window, 200, 6)`, src/main.cpp:365); with radius 0 every node would have the same position.
- Animation.TortoiseAndHare.DrawArrows: assumes `disk_radius` > 0 for the self-loop branch's `change_size_to(pos1 - centre)`. Its two `get_triangle_for_arrow` calls go to the guarded helper, which cannot throw on any input; the arrowhead shapes are not modelled.
- Float geometry is abstracted: `get_circle_pos` (cos/sin), `vector_mod` and `distance`, the scaling in `change_size_to`, `turn_vector`, and the triangle vertices. A vector is only zero or non-zero. A sprite's distance to its target is a natural number of ticks. Hop lengths are uninterpreted functions of (from, to), `Geometry`, which absorb disk radius, node count and speeds.
- Motion.Step: after the extra hop starts, the hare is within one tick of f(h) rather than exactly on it. The remaining distance is taken as the full hop length from f(h) to f(f(h)).
- Motion.RunsMirrorFloyd: assumes every hare hop between distinct nodes lasts at least two ticks. Otherwise a run can end after one tick with the hare having moved only one edge; Motion.CompleteRun states that case.
- Animation.TortoiseAndHare.DrawArrowsStandalone: assumes the distance between two distinct nodes is never exactly `circle_radius + 2`. At that distance the shortened arrow would be null too.
- The statics of `move()` are shared by every object of the program. Here they are fields, one set per object. The program builds one object, so this does not show.
- The SFML window, event polling, `window.draw`, `draw_circles`, `set_sprites`, fonts, textures and sprite positions are I/O and presentation. `Frame` models one loop iteration's effect on `moving` and on the state of `move()`. The Close event is left out.
- `std::mt19937` and `std::random_device` are not modelled. Each draw is a nondeterministic choice in [min, max]. The header's constructors build an unused `RandomGen(1, nc - 1)`, and that generator is what requires nc ≥ 2.
- `hsv`: the clamping of saturation and value, the float RGB arithmetic, and the float-to-int conversion of the hue argument `(360.f/n_circles)*i` are floating point and are not modelled.
- `main`'s printing to stdout: `StartupReport` returns the table and the printed value instead of printing them.
- Integer widths: indices (`size_t` and `int`) are unbounded integers. Every value in a well-formed table is a valid index, so no conversion in the source wraps.
- `find_duplicates` on a table with an out-of-range successor is undefined behaviour in the source. The model requires a well-formed table.

## Findings

| source | as written | input that shows it | evidently intended | confidence | as-written member | corrected member |
|---|---|---|---|---|---|---|
| src/main.cpp:305-325 | for a self-loop `v` stays null, `pos2 == pos1`, and `draw_arrow` reaches the unguarded `get_triangle_for_arrow` (src/main.cpp:80-83), whose `change_size_to` throws `invalid_argument` on the first frame | the table `[1,1,1,1,1,1]`, which the six-circle constructor can draw (walk 0 → 1 → 1, shown by Animation.StandaloneSelfLoopExample); every two-circle table is `[1,1]` | draw a curled arrow for a self-loop and never throw, as the header's `draw_arrows` (include/TortoiseAndHare.hpp:194-223) and guarded `get_triangle_for_arrow` (include/helpers.hpp:110-113) do | not executed; high | Animation.TortoiseAndHare.DrawArrowsStandalone | Animation.TortoiseAndHare.DrawArrows |
