# Verified models of the LEMON heaps, the LEMON graph adaptors and two reversible circuits

OpenQL ships the LEMON graph library and a set of example kernels. This project models
four parts of that code in Dafny 4.11 and proves what they are for.
`dafny verify dfyconfig.toml` checks the whole project. `HeapSpec` says what a heap does, as
steps on a map from items to priorities; both heaps are proved against it.

**1. The binomial heap** (`deps/lemon/lemon/binomial_heap.h`), modules `BinomialForest`,
`BinomialMerge`, `BinomialCarry`, `BinomialItems`, `BinomialPop`, `BinomialHeap`,
`BinomialTrees`, `BinomialRuns`. The heap keeps a forest of binomial trees as integer links
inside one array of records. The class `BinomialHeap.Heap` has the fields of the source
class and a ghost root list; its methods do the source's assignments in the source's order.
The forest is described slot by slot (`NodeOk`, `OrderOk`, `Chain`), and `BinomialTrees`
proves that these local conditions mean binomial trees in the usual recursive sense.
`Shape` says: heap-ordered forest, strictly increasing root degrees, names and cross
references mutually inverse (also for popped items, whose slots are reused), and the sum of
2^degree over the roots equal to the item count. `Valid` adds that the cached minimum holds
an item of least priority. `View` is the abstract content, a map from items to priorities.

*Where code and documentation disagree.* The documentation promises a priority queue for all
priorities. The code does not keep that promise when a priority ties with the minimum:
`merge` may lace the old minimum under the pushed record while `_min` still names it. No
operation excludes this. `Valid` is kept by all operations and for all priorities, so
`top` and `prio` are always right, and every operation but `pop` does what it should. A `pop`
does so if and only if the cached minimum is a root (`MinRoot`); otherwise it loses the only
root from the root list, or the search in `unlace` runs off the list (`Pop` returns
`ok == false` where the source reads outside the array). What every operation does to
`MinRoot` is told exactly. After a push (`Survives`) it holds if and only if the new value is
smaller than the minimum, or the cached minimum was a root and lies outside the carry chain
(the roots of degrees 0, 1, 2, ... that the pushed tree absorbs, as in adding one to a binary
number), or it was the leftmost least root and the value is larger. A caller can check
whether the new priority differs from `prio()`: the cached minimum stays the *leftmost* least
root (`MinFirst`, what `findMin` computes) under a push if and only if there is no such tie. Lowering a
priority and removing items never do harm, and removing repairs a buried minimum.
`TieUnderRoot` and `TieLosesItem` give a concrete run that loses an item, `TieLeavesArray` one
that reads outside the array. `Run` shows
that all runs refine runs on a map in which no inserted or raised priority ties with the least
of the other items, and, after a priority was lowered to a tie, nothing but a new minimum is
inserted before the next removal (raising an item removes it first).

**2. The graph adaptors** (`deps/lemon/lemon/adaptors.h`), modules `Cursors`, `Digraphs`,
`Undirector`, `SubDigraph`, `Residual`, `Orienter`, `SplitNodes`, `SplitWalks`, `Flows`. The
base digraph is abstract: finite node and arc sets with fixed duplicate-free orders of all
nodes, all arcs, and the out-arcs and in-arcs of each node; ids are non-negative and INVALID
is -1. Each view is a cursor machine, and each is proved to step through a list that holds
exactly the arcs it should, each once, loops and parallel arcs included. `Residual` really is
the filtered undirected view, as in the source. `Flows` proves what the residual digraph is
for: augmenting keeps a flow a flow, a flow is maximum exactly if the sink is not reachable,
and augmenting ends at a flow that equals a cut. `SplitNodes.MaxArcIdBounds` records a second
defect: `maxArcId` is too small for bind arcs, exactly if the largest node id exceeds the
largest arc id.

**3. The binary heap** (`deps/lemon/lemon/bin_heap.h`), modules `BinHeapModel`, `BinHeap`. The
array with its moving hole, and the cross-reference map that has to stay exact. The entry
that is written only at the end of `bubbleUp` and `bubbleDown` is treated in the proofs as
if it sat in the hole. `(i-1)/2` truncates towards zero in the source, so `Parent(0)` is 0.

**4. Two circuits of the square-root example** (`examples/scaffCC/square_root.cc`), modules
`Circuits`, `Gf2`, `SquareRoot`, `Diffusion`. The kernels are built gate by gate as in the
source, for any n >= 2 in place of the macro value 6. A basis state is a bit per qubit with a
sign. `Sqr` is proved to square in GF(2)[x] modulo x^n + x + 1, where the product is the
convolution of coefficients and the remainder is unique; the part of `diffuse` between its
Hadamard layers is proved to flip the sign of the all-zeros state and do nothing else.

Conventions. Priorities, capacities, flows and costs are unbounded integers compared with `<`;
the tolerance test `positive` is `> 0`. The cross-reference map of the heaps is a map in which
an absent item stands for PRE_HEAP. A container that grows is a `seq` field. `maxNodeId` and
`maxArcId` of the base digraph are the largest ids in use, or -1.

## Model

| member | source | states |
|---|---|---|
| BinomialForest.FusedForest | deps/lemon/lemon/binomial_heap.h:406-412 | Lacing a root under a root of the same degree and no larger priority gives a heap-ordered binomial forest with one root less; no item moves and only one degree changes |
| BinomialMerge.SpliceLeft | deps/lemon/lemon/binomial_heap.h:388-393 | One round of `interleave` that takes from the root list keeps the splicing invariant: placed part linked from the dummy, rests still chained, nothing lost |
| BinomialMerge.SpliceRight | deps/lemon/lemon/binomial_heap.h:394-398 | The same for a round that takes from the other list |
| BinomialMerge.SpliceEnd | deps/lemon/lemon/binomial_heap.h:401-402 | At the end the links from the dummy lead through the whole interleaving, and without the dummy no link leads to it |
| BinomialMerge.InterleavingElements | deps/lemon/lemon/binomial_heap.h:383-403 | The interleaving has exactly the entries of both lists |
| BinomialMerge.InterleavingSorted | deps/lemon/lemon/binomial_heap.h:383-403 | Two strictly increasing lists interleave to a non-decreasing one with at most two entries of each degree |
| BinomialMerge.InterleavingWeight | deps/lemon/lemon/binomial_heap.h:383-403 | No node is lost: the sums of 2^degree add up |
| BinomialMerge.SplicedForest | deps/lemon/lemon/binomial_heap.h:343-351 | Two root lists spliced into one are the root list of the whole forest, ready for consolidation |
| BinomialMerge.ConsolidateSkip | deps/lemon/lemon/binomial_heap.h:357-361 | Moving on (different degrees, or three equal ones) keeps the loop invariant: increasing so far, at most three roots of one degree at the cursor, order, items and node count kept |
| BinomialMerge.ConsolidateThis | deps/lemon/lemon/binomial_heap.h:363-371 | Lacing the current root under the next one keeps the loop invariant, the leftmost least root included |
| BinomialMerge.ConsolidateNext | deps/lemon/lemon/binomial_heap.h:372-375 | Lacing the next root under the current one keeps the loop invariant, the leftmost least root included |
| BinomialMerge.ConsolidateEnd | deps/lemon/lemon/binomial_heap.h:356-379 | At the last root, what the cursor knows makes all degrees strictly increasing, and one root in front of an increasing list has absorbed exactly the carry chain |
| BinomialCarry.CarryFuse | deps/lemon/lemon/binomial_heap.h:362-377 | With one root in front of an increasing list, a fuse at the front absorbs the next root of the carry chain and leaves the better of the two |
| BinomialCarry.CarryDegrees | deps/lemon/lemon/binomial_heap.h:356-379 | A root belongs to the carry chain exactly if its degree equals its position |
| BinomialCarry.PushedRoot | deps/lemon/lemon/binomial_heap.h:173-178 | Whether the cached minimum is a root after a push: if and only if the new priority is smaller, or the old minimum was a root outside the carry chain, or it was the leftmost least root and the new priority is larger |
| BinomialItems.SwapNames | deps/lemon/lemon/binomial_heap.h:263-267 | Exchanging the names of two slots and one reference keeps names and references inverse and changes no item's priority or state |
| BinomialItems.SwapOrder | deps/lemon/lemon/binomial_heap.h:262-270 | The only possible violation of heap order moves up to the parent |
| BinomialItems.DecreaseStep | deps/lemon/lemon/binomial_heap.h:262-270 | A round of the climb keeps its invariant (slots no larger than the new priority included), stays in the same tree and goes to a slot of larger degree, so it ends |
| BinomialItems.PushedMin | deps/lemon/lemon/binomial_heap.h:173-178 | After merging, the cached minimum holds a least item; exact conditions for its being a root and the leftmost least root |
| BinomialItems.DecreaseEnd | deps/lemon/lemon/binomial_heap.h:257-272 | When the climb ends, the forest is intact, exactly one entry of the contents has changed, and the cached minimum holds a least item, with exact conditions for its being a root and the leftmost least root |
| BinomialItems.ClimbedForest | deps/lemon/lemon/binomial_heap.h:257-272 | After the climb the forest is heap-ordered again with the same root list and node count |
| BinomialItems.ClimbedLeast | deps/lemon/lemon/binomial_heap.h:271-272 | The cached minimum holds a least item after the climb; it is a root if and only if it was one or the lowered item is the new minimum, which has climbed to a root |
| BinomialItems.ClimbedLeads | deps/lemon/lemon/binomial_heap.h:271-272 | The cached minimum stays the leftmost least root unless the item ties with it in a tree further left |
| BinomialItems.LeastRootLeast | deps/lemon/lemon/binomial_heap.h:327-340 | A root of least priority among the roots is least in the whole heap |
| BinomialItems.EnteredNames | deps/lemon/lemon/binomial_heap.h:155-171 | A pushed item, new or re-entering at its old slot whose name is not rewritten, is the only item whose contents or state change |
| BinomialPop.ReverseStep | deps/lemon/lemon/binomial_heap.h:213-218 | A round of the child reversal keeps its invariant: the children done so far are detached roots in increasing order of degree |
| BinomialPop.ReverseEnd | deps/lemon/lemon/binomial_heap.h:208-219 | All children of the popped root are roots of degrees 0, 1, 2, ...; the remaining links and the order are intact and one node is gone |
| BinomialPop.RemovedNames | deps/lemon/lemon/binomial_heap.h:208 | Marking a slot as out removes exactly its item from the contents and makes its state POST_HEAP |
| BinomialHeap.Heap.constructor | deps/lemon/lemon/binomial_heap.h:97-98 | A heap over a map of PRE_HEAP values is valid and empty |
| BinomialHeap.Heap.Interleave | deps/lemon/lemon/binomial_heap.h:383-403 | The root list becomes the interleaving of both lists, only right links of its slots change, and the dummy record is gone |
| BinomialHeap.Heap.Consolidate | deps/lemon/lemon/binomial_heap.h:352-380 | From a non-decreasing list with at most two roots per degree: terminates with strictly increasing degrees, the same items, the same node count and the leftmost least root kept; a single root in front absorbs exactly the carry chain |
| BinomialHeap.Heap.Merge | deps/lemon/lemon/binomial_heap.h:343-380 | Two disjoint increasing root lists become one increasing root list of a heap-ordered forest with all items; nothing happens if one is empty |
| BinomialHeap.Heap.Push | deps/lemon/lemon/binomial_heap.h:154-180 | Adds exactly the new entry and keeps the heap valid for every priority; exact conditions for the cached minimum to be a root, and to be the leftmost least root |
| BinomialHeap.Heap.FindMin | deps/lemon/lemon/binomial_heap.h:327-340 | The leftmost root of least priority, or -1 for no roots |
| BinomialHeap.Heap.Unlace | deps/lemon/lemon/binomial_heap.h:415-422 | Takes a root that is not the first out of the root list by changing one link; the search leaves the array if and only if the slot is no root |
| BinomialHeap.Heap.DetachChildren | deps/lemon/lemon/binomial_heap.h:210-220 | The children of the slot just taken out, root or not, reversed, form a root list |
| BinomialHeap.Heap.RemoveRoot | deps/lemon/lemon/binomial_heap.h:207-232 | Removing a root gives an increasing forest with one node less and without exactly that item; for a cached minimum that is no root, the only root is lost or the search fails |
| BinomialHeap.Heap.Pop | deps/lemon/lemon/binomial_heap.h:207-235 | Ends in a valid heap without exactly an item of least priority if and only if the cached minimum is a root, which it then is again; otherwise the only root is missing from the list, or the source reads outside the array |
| BinomialHeap.Heap.Decrease | deps/lemon/lemon/binomial_heap.h:257-273 | Sets one priority, changes no link, degree or state; exact conditions for the cached minimum to be a root, and to be the leftmost least root |
| BinomialHeap.Heap.Erase | deps/lemon/lemon/binomial_heap.h:243-249 | Removes exactly the item in every valid state, by making it the unique minimum at a root; an item that is not stored changes nothing |
| BinomialHeap.Heap.Increase | deps/lemon/lemon/binomial_heap.h:281-284 | Sets one priority; exact conditions for the cached minimum to be the leftmost least root, and to be a root |
| BinomialHeap.Heap.Set | deps/lemon/lemon/binomial_heap.h:139-145 | Sets or inserts exactly one entry; lowering changes no link, so `increase` does not run after `decrease` although the slot is read again; exact conditions for the cached minimum in every branch |
| BinomialHeap.Heap.Top | deps/lemon/lemon/binomial_heap.h:186 | An item of least priority, the one that `pop` removes |
| BinomialHeap.Heap.Prio | deps/lemon/lemon/binomial_heap.h:192 | The least priority |
| BinomialHeap.Heap.Get | deps/lemon/lemon/binomial_heap.h:199-201 | The priority of a stored item |
| BinomialHeap.Heap.Size | deps/lemon/lemon/binomial_heap.h:113 | The number of stored items |
| BinomialHeap.Heap.State | deps/lemon/lemon/binomial_heap.h:294-301 | IN_HEAP exactly for the stored items, otherwise the recorded state |
| BinomialHeap.Heap.SetState | deps/lemon/lemon/binomial_heap.h:310-322 | Takes the item out if it is stored, records the state, touches no other item; IN_HEAP does nothing |
| BinomialTrees.BinomialSize | deps/lemon/lemon/binomial_heap.h:406-412 | A binomial tree of degree k has 2^k nodes |
| BinomialTrees.OrderedTreeLeast | deps/lemon/lemon/binomial_heap.h:327-340 | In a heap-ordered tree no node is smaller than the root |
| BinomialTrees.ForestOfBinomialTrees | deps/lemon/lemon/binomial_heap.h:343-439 | The linked trees at the roots are heap-ordered binomial trees of the recorded degrees, and every live slot lies in exactly one of them |
| BinomialTrees.RootDegreesAreBits | deps/lemon/lemon/binomial_heap.h:343-412 | The root degrees are the binary digits of the number of nodes, and 2^degree is at most that number for every node |
| BinomialRuns.HeapIsBinomialForest | deps/lemon/lemon/binomial_heap.h:85-439 | In every state of the heap: heap-ordered binomial trees at the roots, every live slot in exactly one of them, and root degrees that are the binary digits of the size |
| BinomialRuns.Perform | deps/lemon/lemon/binomial_heap.h:139-322 | Every operation but `pop` refines its step on the map in every valid state, `pop` if and only if the cached minimum is a root; operations that are safe on the map keep it one |
| BinomialRuns.Run | deps/lemon/lemon/binomial_heap.h:139-322 | Every finite run that is safe on the map refines a run on the map, and the heap stays valid; tying decreases are included |
| BinomialRuns.TielessIsSafe | deps/lemon/lemon/binomial_heap.h:139-322 | A legal run in which no priority ties with the least of the items it joins is safe |
| BinomialRuns.Drain | deps/lemon/test/heap_test.cc:92-107 | Popping a valid heap with its minimum at a root until it is empty yields all its items, once each, in order of priority |
| BinomialRuns.TieUnderRoot | deps/lemon/lemon/binomial_heap.h:173-178 | Two equal priorities pushed into an empty heap leave the cached minimum at a slot that is no root |
| BinomialRuns.TieLosesItem | deps/lemon/lemon/binomial_heap.h:207-235 | The next pop leaves a heap that still counts and stores one item but has no root and no minimum |
| BinomialRuns.TieLeavesArray | deps/lemon/lemon/binomial_heap.h:415-422 | With a third, larger item pushed after the tie, the next pop's search leaves the array |
| BinHeapModel.SwapUp | deps/lemon/lemon/bin_heap.h:134-138 | Moving a larger parent into the hole moves the only possible violation up to the parent's slot |
| BinHeapModel.SwapDown | deps/lemon/lemon/bin_heap.h:145-154 | Moving a smaller least child into the hole moves the only possible violation down to the child's slot |
| BinHeapModel.StopDown | deps/lemon/lemon/bin_heap.h:149-150 | The array is in order if no child is smaller than what is put into the hole |
| BinHeapModel.MoveStep | deps/lemon/lemon/bin_heap.h:165-168 | A move keeps references exact and the contents unchanged, with the pending entry thought of in the hole |
| BinHeapModel.RootLeast | deps/lemon/lemon/bin_heap.h:197-207 | The first entry of an ordered array is least |
| BinHeapModel.RemoveEntry | deps/lemon/lemon/bin_heap.h:228-238 | Filling a gap with the last entry removes exactly one item and keeps references exact |
| BinHeap.Heap.constructor | deps/lemon/lemon/bin_heap.h:90 | A heap over a map of PRE_HEAP values is valid and empty |
| BinHeap.Heap.BubbleUp | deps/lemon/lemon/bin_heap.h:132-141 | Rearranges the entries with exact references and puts the array in order, if the hole moves or its children fit; when the hole stays nothing else changes |
| BinHeap.Heap.BubbleDown | deps/lemon/lemon/bin_heap.h:143-163 | Rearranges the entries with exact references and puts the array in order |
| BinHeap.Heap.Push | deps/lemon/lemon/bin_heap.h:178-182 | Adds exactly the new entry |
| BinHeap.Heap.Top | deps/lemon/lemon/bin_heap.h:197-199 | An item of least priority, the one that `pop` removes |
| BinHeap.Heap.Prio | deps/lemon/lemon/bin_heap.h:205-207 | The least priority |
| BinHeap.Heap.Pop | deps/lemon/lemon/bin_heap.h:213-220 | Removes exactly an item of least priority and makes its state POST_HEAP |
| BinHeap.Heap.Erase | deps/lemon/lemon/bin_heap.h:228-238 | Removes exactly the given item, wherever the last entry has to move |
| BinHeap.Heap.Set | deps/lemon/lemon/bin_heap.h:258-269 | Sets or inserts exactly one entry |
| BinHeap.Heap.Decrease | deps/lemon/lemon/bin_heap.h:277-280 | Sets one priority and changes no state |
| BinHeap.Heap.Increase | deps/lemon/lemon/bin_heap.h:288-291 | Sets one priority and changes no state |
| BinHeap.Heap.Get | deps/lemon/lemon/bin_heap.h:245-248 | The priority of a stored item |
| BinHeap.Heap.Size | deps/lemon/lemon/bin_heap.h:106 | The number of stored items |
| BinHeap.Heap.State | deps/lemon/lemon/bin_heap.h:301-306 | IN_HEAP exactly for the stored items, otherwise the recorded state |
| BinHeap.Heap.SetState | deps/lemon/lemon/bin_heap.h:315-327 | Takes the item out if it is stored, records the state, touches no other item; IN_HEAP does nothing |
| BinHeap.Heap.Replace | deps/lemon/lemon/bin_heap.h:336-341 | The new item takes over the place and priority of the old one, which takes over the new one's state |
| BinHeap.Perform | deps/lemon/lemon/bin_heap.h:178-341 | Every operation, `replace` included, refines its step on the map, given its documented precondition |
| BinHeap.Run | deps/lemon/lemon/bin_heap.h:178-341 | So does every finite run, and the heap stays valid throughout |
| BinHeap.Drain | deps/lemon/test/heap_test.cc:92-107 | Popping until the heap is empty yields all its items, once each, in order of priority |
| Gf2.SquareCoef | examples/scaffCC/square_root.cc:132 | In a square over GF(2) the mixed terms cancel: coefficient k is that of k/2 for even k, else 0 |
| Gf2.SquareModIsSquareMod | examples/scaffCC/square_root.cc:19-34 | The computed coefficients are a remainder of the square modulo x^n + x + 1 |
| Gf2.SquareModUnique | examples/scaffCC/square_root.cc:19-34 | There is only one such remainder of degree below n |
| SquareRoot.Sqr | examples/scaffCC/square_root.cc:19-34 | The two loops append the gate list that the lemmas below are about |
| SquareRoot.SqrEffect | examples/scaffCC/square_root.cc:19-34 | What the gates do to every single qubit, inside and outside register b |
| SquareRoot.SqrSquares | examples/scaffCC/square_root.cc:132 | The gates xor the remainder of a(x)^2 into register b and change no other qubit and no sign, for every n >= 2 and every state |
| SquareRoot.SqrTwice | examples/scaffCC/square_root.cc:134 | The gates are their own inverse |
| Diffusion.Diffuse | examples/scaffCC/square_root.cc:77-110 | The loops append a Hadamard layer, the gate list that the lemmas below are about, and a Hadamard layer |
| Diffusion.HadamardOnce | examples/scaffCC/square_root.cc:82 | A Hadamard layer has one gate on each qubit of register a and no other |
| Diffusion.UpEffect | examples/scaffCC/square_root.cc:88-94 | Climbing the ladder leaves in scratch bit j the conjunction of the first j + 2 bits of a |
| Diffusion.DownUndoesUp | examples/scaffCC/square_root.cc:99-103 | Descending undoes climbing, whatever happened to the sign in between |
| Diffusion.OracleFlipsZero | examples/scaffCC/square_root.cc:84-106 | Every basis state keeps a, b and all qubits beyond, gets scratch bits 0, and changes sign exactly if a is all zero |
| Digraphs.FindArcLoop | deps/lemon/lemon/core.h:1614-1624 | The search loop returns the next arc to the target node after the given one |
| Digraphs.ParallelArcs | deps/lemon/lemon/core.h:1640-1667 | The arcs stepped through are exactly those from u to v, once each |
| Digraphs.ReverseValid | deps/lemon/lemon/adaptors.h:321-339 | The reversed view is a digraph, and reversing twice is the identity |
| Digraphs.ReverseParallel | deps/lemon/lemon/adaptors.h:338-347 | The arcs from v to u of the digraph are, once each, those from u to v of the reversed view |
| Digraphs.FindReversedArc | deps/lemon/lemon/adaptors.h:344-347 | Steps through them in the order of the digraph's own search |
| Undirector.ArcsOnce | deps/lemon/lemon/adaptors.h:1891-1903 | The arc list has every edge exactly once in each direction |
| Undirector.ArcCursor | deps/lemon/lemon/adaptors.h:1891-1903 | Whole-graph iteration steps through that list and ends at INVALID |
| Undirector.ArcIds | deps/lemon/lemon/adaptors.h:2002-2014 | `id` and `arcFromId` are inverse, the low bit tells the direction, and `maxArcId` is the largest id in use |
| Undirector.OutListArcs | deps/lemon/lemon/adaptors.h:1913-1934 | The out-list of a node has exactly the arcs that leave it, a loop in both directions |
| Undirector.OutCursor | deps/lemon/lemon/adaptors.h:1913-1934 | `firstOut` and `nextOut` step through the out-list and end at INVALID |
| Undirector.InListArcs | deps/lemon/lemon/adaptors.h:1936-1957 | The in-list of a node has exactly the arcs that enter it |
| Undirector.InCursor | deps/lemon/lemon/adaptors.h:1936-1957 | `firstIn` and `nextIn` step through the in-list and end at INVALID |
| Undirector.FindArc | deps/lemon/lemon/adaptors.h:2037-2053 | Returns the arc after the given one in the list of arcs from s to t |
| Undirector.BetweenArcsOnce | deps/lemon/lemon/adaptors.h:2037-2053 | That list has exactly the arcs from s to t, once each, a loop in both directions |
| Undirector.BetweenArcsOrder | deps/lemon/lemon/adaptors.h:2037-2053 | Its order: all arcs taken forwards, then all taken backwards |
| Undirector.FindEdge | deps/lemon/lemon/adaptors.h:2056-2076 | Returns the edge after the given one in the list of edges between s and t |
| Undirector.BetweenEdgesOnce | deps/lemon/lemon/adaptors.h:2056-2076 | That list has exactly the edges between s and t, once each, loops once |
| Undirector.EveryArc | deps/lemon/lemon/core.h:1650-1655 | The documented loop over `findArc` meets all arcs from s to t and stops |
| Undirector.EveryEdge | deps/lemon/lemon/adaptors.h:2056-2076 | The same loop over `findEdge` meets all edges between s and t and stops |
| SubDigraph.FirstOut | deps/lemon/lemon/adaptors.h:452-457 | The first out-arc that is shown and leads to a shown node, or INVALID |
| SubDigraph.NextOut | deps/lemon/lemon/adaptors.h:479-484 | The next such arc, or INVALID |
| SubDigraph.FirstIn | deps/lemon/lemon/adaptors.h:445-450 | The first in-arc that is shown and comes from a shown node, or INVALID |
| SubDigraph.NextIn | deps/lemon/lemon/adaptors.h:472-477 | The next such arc, or INVALID |
| SubDigraph.ListedOnce | deps/lemon/lemon/adaptors.h:445-484 | What is stepped through is exactly the shown arcs at the node, once each |
| Residual.ResidualDigraph.ResidualArcs | deps/lemon/lemon/adaptors.h:2685-2697 | The residual arcs at a node are those of positive residual capacity, forwards and backwards, once each |
| Residual.ResidualDigraph.FirstOut | deps/lemon/lemon/adaptors.h:2731-2795 | The first residual arc out of a node, through both composed cursors |
| Residual.ResidualDigraph.NextOut | deps/lemon/lemon/adaptors.h:2731-2795 | The next residual arc out of a node, or INVALID |
| Residual.ResidualDigraph.FirstIn | deps/lemon/lemon/adaptors.h:2731-2795 | The first residual arc into a node |
| Residual.ResidualDigraph.NextIn | deps/lemon/lemon/adaptors.h:2731-2795 | The next residual arc into a node, or INVALID |
| Residual.ResidualDigraph.OutArcs | deps/lemon/lemon/adaptors.h:2731-2795 | Iterating meets exactly the residual arcs out of the node, each once, and stops |
| Residual.ResidualDigraph.InArcs | deps/lemon/lemon/adaptors.h:2731-2795 | Iterating meets exactly the residual arcs into the node, each once, and stops |
| Residual.ResidualDigraph.ResidualCapacity | deps/lemon/lemon/adaptors.h:2802-2808 | The largest amount by which the arc can be augmented within the capacities; positive exactly for the arcs of the residual digraph |
| Residual.ResidualDigraph.Augment | deps/lemon/lemon/adaptors.h:2815-2821 | Changes the flow on one arc only, up or down by the direction |
| Residual.ResidualDigraph.AugmentAlong | deps/lemon/test/adaptors_test.cc:718-720 | Augmenting arc by arc along an arc-distinct residual walk keeps a feasible flow and raises its value by d |
| Residual.ResidualDigraph.Bottleneck | deps/lemon/test/adaptors_test.cc:713-716 | The least residual capacity on the path; the largest 32-bit `int` only if every capacity is larger |
| Residual.ResidualDigraph.MaximumFlow | deps/lemon/test/adaptors_test.cc:701-722 | Augmenting by the bottleneck of whatever path a search finds ends; the flow is then maximum and equal to the cut of the reachable set, and the counted value is what it gained |
| Flows.ResCapLargest | deps/lemon/lemon/adaptors.h:2802-2821 | An amount can be pushed over an arc within the capacities if and only if it is at most the residual capacity |
| Flows.AugmentSaturates | deps/lemon/test/adaptors_test.cc:680-685 | Augmenting by the whole residual capacity takes the arc out of the residual digraph and leaves the whole capacity to its opposite |
| Flows.AugmentKeepsFlow | deps/lemon/lemon/adaptors.h:2802-2821 | If every arc of the walk has residual capacity at least d, capacities and conservation are kept and the value grows by d |
| Flows.AugmentUndone | deps/lemon/lemon/adaptors.h:2839-2853 | Augmenting the opposite arcs by d undoes an augmentation |
| Flows.NetOfSet | deps/lemon/lemon/adaptors.h:2685-2697 | The net flow out of every node set around s without t is the flow value |
| Flows.WeakDuality | deps/lemon/lemon/adaptors.h:2685-2697 | No flow exceeds the capacity of a cut |
| Flows.ReachSetSaturated | deps/lemon/lemon/adaptors.h:2649-2675 | Arcs out of the reachable set are full, arcs into it are empty |
| Flows.UnreachableIsMinCut | deps/lemon/lemon/adaptors.h:2731-2795 | If t is not reachable, the reachable set is a cut as large as the flow, and no flow is larger |
| Flows.DistinctWalk | deps/lemon/lemon/adaptors.h:2731-2795 | Every residual walk can be shortened to an arc-distinct one |
| Flows.MaximumIffUnreachable | deps/lemon/lemon/adaptors.h:2731-2821 | A flow is maximum exactly if t is not reachable in the residual digraph |
| Flows.AugmentProgress | deps/lemon/test/adaptors_test.cc:713-721 | Augmenting along an arc-distinct residual walk by any positive amount up to its bottleneck brings the value nearer to the capacity of a cut and never beyond, so augmenting ends |
| Flows.MaxFlowMinCut | deps/lemon/lemon/adaptors.h:2685-2697 | Above every flow there is one whose value is the capacity of a cut |
| Orienter.IncCursor | deps/lemon/lemon/adaptors.h:1959-1977 | `firstInc` and `nextInc` step through out-arcs and then in-arcs, a loop twice |
| Orienter.OrientedOnce | deps/lemon/lemon/adaptors.h:2400-2429 | For every direction map, each edge is listed once at its oriented source and once at its oriented target, loops included |
| Orienter.UniformOrientation | deps/lemon/lemon/adaptors.h:2400-2429 | The all-true map gives back the digraph, the all-false map the reversed one: same sequences, same ends |
| Orienter.BetweenOnce | deps/lemon/lemon/adaptors.h:2438-2445 | The edges found from u to v are exactly those oriented that way, once each |
| Orienter.OrientedDigraph.FirstOut | deps/lemon/lemon/adaptors.h:2405-2409 | The first edge oriented away from the node, or INVALID |
| Orienter.OrientedDigraph.FirstIn | deps/lemon/lemon/adaptors.h:2400-2404 | The first edge oriented towards the node, or INVALID |
| Orienter.OrientedDigraph.NextOut | deps/lemon/lemon/adaptors.h:2418-2422 | The next edge oriented away, although the cursor's direction is read back from the map |
| Orienter.OrientedDigraph.NextIn | deps/lemon/lemon/adaptors.h:2413-2417 | The next edge oriented towards the node |
| Orienter.OrientedDigraph.FindArc | deps/lemon/lemon/adaptors.h:2438-2445 | The next edge oriented from u to v, or INVALID |
| Orienter.OrientedDigraph.ReverseArc | deps/lemon/lemon/adaptors.h:2394-2396 | Exchanges source and target of one arc |
| SplitNodes.NodesOnce | deps/lemon/lemon/adaptors.h:3149-3151 | The node list has every in-node and out-node once, 2 per node |
| SplitNodes.NodeCursor | deps/lemon/lemon/adaptors.h:3002-3014 | Node iteration steps through that list and ends at INVALID |
| SplitNodes.ArcsOnce | deps/lemon/lemon/adaptors.h:3153-3156 | The arc list has every bind arc and every original arc once |
| SplitNodes.ArcCursor | deps/lemon/lemon/adaptors.h:3016-3035 | Arc iteration steps through that list and ends at INVALID |
| SplitNodes.OutOnce | deps/lemon/lemon/adaptors.h:3037-3052 | The out-cursor meets exactly the arcs whose source is the node, once each |
| SplitNodes.InOnce | deps/lemon/lemon/adaptors.h:3054-3069 | The in-cursor meets exactly the arcs whose target is the node, once each |
| SplitNodes.BetweenOnce | deps/lemon/lemon/adaptors.h:3158-3171 | The arcs found from x to y are exactly those with these ends, once each |
| SplitNodes.FindArc | deps/lemon/lemon/adaptors.h:3159-3171 | Returns the arc after the given one in that list |
| SplitNodes.IdsRoundTrip | deps/lemon/lemon/adaptors.h:3087-3110 | `id` and `nodeFromId`, `arcFromId` are inverse; the low bit tells in-nodes from out-nodes and original from bind arcs |
| SplitNodes.MaxNodeIdLargest | deps/lemon/lemon/adaptors.h:3093-3095 | `maxNodeId` is the largest node id in use |
| SplitNodes.MaxArcIdBounds | deps/lemon/lemon/adaptors.h:3111-3114 | `maxArcId` bounds all arc ids if and only if the largest node id is at most the largest arc id |
| SplitNodes.MaxArcIdDistance | deps/lemon/lemon/adaptors.h:3111-3114 | How far `maxArcId` is from the largest arc id in use: equal, one more or one less, by how the largest node and arc ids compare |
| SplitNodes.MaxArcIdTooSmall | deps/lemon/lemon/adaptors.h:3111-3114 | One node and no arc: an arc has id 1 and `maxArcId` is 0 |
| SplitWalks.ExpandIsWalk | deps/lemon/lemon/adaptors.h:3037-3085 | A non-empty walk with bind arcs put in at its inner nodes is a walk of the split digraph, and contracting gives it back |
| SplitWalks.ContractIsWalk | deps/lemon/lemon/adaptors.h:3037-3085 | Every walk from out(u) to in(v) is the expansion of its original arcs |
| SplitWalks.SplitWalksAreWalks | deps/lemon/lemon/adaptors.h:3037-3085 | So the two kinds of walks correspond one to one |
| SplitWalks.ExpandAlternates | deps/lemon/lemon/adaptors.h:3071-3085 | Original and bind arcs alternate, and which bind arc stands where |
| SplitWalks.ExpandCost | deps/lemon/lemon/adaptors.h:3541-3592 | The combined cost of a split walk is the sum of its arc costs plus that of its inner nodes, both taken from the given maps |

## Left out

- Heap `clear`, which does not reset the cross-reference map, and writing through the references that `operator[]` of the binomial heap hands out.
- Comparators other than `<`, non-integer priorities, 32-bit overflow and the reallocation of vectors.
- Heap runs that violate a documented precondition, except for erasing an item that is not stored in the binomial heap; and what the source does after reading outside the array in `unlace`.
- The pairing, Fibonacci, radix, bucket and d-ary heaps of LEMON.
- `EQxMark`, whose forward Toffoli gates name their qubits in another order than its undo gates.
- Hadamard layers, measurement, amplitudes and the success probability of the search: basis states with a sign do not express them.
- SubDigraph.ListedOnce: whole-graph iteration, `findArc` and changing the filters of `SubDigraphBase` are not modelled; the view is modelled over the undirected view, as the residual digraph uses it.
- Digraphs.FindArcLoop: an underlying graph with its own `findArc` is represented by the generic search loop.
- `addNode`, `addArc`, `erase` and `clear` of the adaptors, node and arc maps other than the combined cost map, notifiers and extenders.
- The adaptors `SubGraph`, `FilterNodes`, `FilterArcs` and `FilterEdges`, which repeat the cursors of `SubDigraph`.
- Tolerances for inexact capacities; breadth-first search, for which any search that finds an arc-distinct residual walk when there is one is a parameter of `MaximumFlow`.
- The compiler passes, argument parsing, Python bindings, build files, documentation and trace viewer of the repository.
