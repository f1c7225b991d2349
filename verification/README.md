# Half-edge meshes: construction, traversal, simplification

This project is a Dafny model of the half-edge mesh core shared by four
JavaScript mesh-processing programs. Each program has its own `HalfedgeMesh`:

- the simplifier (`projects/krasnor`), which reads triangles and quads;
- the smoothing homework (`torantie/3-smooth`);
- the parameterisation homework (`nico778/4-param`);
- the remeshing homework (`changkun/5-remesh`).

All four build a mesh from the 0-based corner list of an OBJ file in four passes:

1. The vertex loop creates one vertex per position.
2. The face pass allocates each face and its half-edges, links them in a
   `next`/`prev` cycle, and pairs twins by the sorted key of their two
   vertices. Two of the builders throw on a key met a third time.
3. The boundary pass closes every half-edge without a twin. A walk creates
   boundary half-edges on a virtual face, one loop per hole.
4. The index pass numbers every element by its place in its array.

The variants differ as follows:

- what they list in `boundaries`;
- whether they check manifoldness;
- how they keep a copy of the vertices (`vertsOrig`);
- the simplifier's quad padding.

The model also covers:

- the face and vertex iterators;
- the simplifier's quadric-error edge collapse loop, with its tombstones (`idx = -1`) and its final compaction;
- the remesher's quadric layer (face, vertex and edge quadrics; the error vᵀQv; the 17-sample merge-point search; the memoised edge error);
- the curvature dispatch of the parameterisation mesh.

The object graph is a record store (module `Store`). Every half-edge, edge,
face and vertex is a record in a sequence. A pointer is an index into that
sequence, and -1 stands for null. The class `Mesh.HalfedgeMesh` holds the
stores and the mesh arrays (`vertices`, `edges`, `faces`, `halfedges`,
`boundaries`, `vertsOrig`) as fields, and its methods update them in place
as the constructors and `simplify` do. Each method is proved against a
value-level function or predicate over a snapshot `MeshFields`. The modules
are:

| Module | What it holds |
|---|---|
| `Connectivity` | Corner list layout and keys |
| `Pairing` | The twin-pairing fold |
| `Store` | What the face pass leaves |
| `Holes` | The boundary walk |
| `Construction` | State predicates of the builders |
| `Traversal` and `Walks` | The iterators |
| `Decimation`, `Collapsing` and `Compaction` | `simplify` |
| `Quadric` | The quadric layer |
| `Curvature` | The curvature dispatch |

Where a source loop would run forever (a boundary rotation or walk on
non-manifold input, an iterator whose walk never returns), the model stops
after a bound of |store| + 1 steps and reports `Diverges`.

## Model

| member | source | states |
|---|---|---|
| Connectivity.ToZeroBased | homeworks/solutions/torantie/3-smooth/src/halfedge.js:327-332 | every corner of the list is the OBJ index minus one, nothing added or dropped |
| Connectivity.FlattenFaces | projects/krasnor/src/halfedge.js:305-312 | the quad-aware reader's list has n entries per face line, n = 4 when the mesh contains a quad and 3 otherwise |
| Connectivity.FlattenFacesCorner | projects/krasnor/src/halfedge.js:305-312 | entry j of face k is the line's j-th index minus one, or the -1 pad after a triangle's three corners |
| Connectivity.StridedIffDivisible | projects/krasnor/src/halfedge.js:348 | the corner list splits into whole faces exactly when its length is divisible by the stride (otherwise `new Array(length / n)` is a RangeError) |
| Connectivity.Arity | projects/krasnor/src/halfedge.js:372-373 | a face has 3 or 4 corners, and 4 exactly when the list has stride 4 and the fourth entry is not the -1 pad |
| Connectivity.NextCorner | projects/krasnor/src/halfedge.js:389 | the offset of the corner after j lies within the face; CornersModular shows it is (j+1)%a |
| Connectivity.PrevCorner | projects/krasnor/src/halfedge.js:390 | the offset of the corner before j lies within the face; CornersModular shows it is (j+a-1)%a |
| Connectivity.CornersModular | projects/krasnor/src/halfedge.js:389-390 | the next and previous corner offsets are the source's (j+1)%a and (j+a-1)%a |
| Connectivity.NextPrevInverse | projects/krasnor/src/halfedge.js:389-390 | within a face, stepping to the next corner and back to the previous one (or the reverse) returns to the start |
| Connectivity.NextCycleOrder | projects/krasnor/src/halfedge.js:382-390 | following `next` around a face of a corners returns to the start after exactly a steps and not before |
| Connectivity.AsWrittenFailingFace | projects/krasnor/src/halfedge.js:376-390 | the face pass as written stores half-edges at i+j but reads them at trueIndex+j; the result is the first face whose read hits an unstored slot |
| Connectivity.MixedArityReadsUnstoredSlot | projects/krasnor/src/halfedge.js:376-390 | a triangle followed by a quad makes the quad read slot 3, where nothing was stored |
| Connectivity.UniformArityReadsStoredSlots | projects/krasnor/src/halfedge.js:376-440 | when every face has the same number of corners, every read of the as-written pass hits a stored slot |
| Connectivity.ContiguousSlotsDisjoint | projects/krasnor/src/halfedge.js:388-440 | with trueIndex used for storing as well, corner slots of different faces never coincide and all lie below the half-edge count |
| Connectivity.SlotOwner | projects/krasnor/src/halfedge.js:388-440 | every half-edge slot of the face pass belongs to one corner of one face |
| Connectivity.EdgeKey | projects/krasnor/src/halfedge.js:403-409 | the key of a side is its two vertices with the smaller one first |
| Connectivity.EdgeKeyIdentifiesEndpoints | projects/krasnor/src/halfedge.js:403-409 | two sides have the same key exactly when they join the same two vertices, in either direction |
| Connectivity.DiscoverEdges | projects/krasnor/src/halfedge.js:326-344 | the keys the discovery loop collects from the sides of faces 0..k-1; DiscoverEdgesExactly states which they are |
| Connectivity.DiscoverEdgesExactly | projects/krasnor/src/halfedge.js:326-344 | the edge-discovery map holds exactly the sorted keys of the sides of all faces |
| Connectivity.AsWrittenConstDiscoverEdges | homeworks/solutions/changkun/5-remesh/src/halfedge.js:308-320 | the discovery loop as written assigns to a `const` corner whenever a side is descending, a TypeError; otherwise it collects the keys |
| Connectivity.ThrowsByTriangle | homeworks/solutions/changkun/5-remesh/src/halfedge.js:308-320 | a scan that starts at or before a triangle with three different corners throws: at an earlier descending side, or at one of that triangle's own |
| Connectivity.DistinctTriangleThrows | homeworks/solutions/nico778/4-param/src/halfedge.js:300-312 | any triangle with three different corners has a descending side, so the as-written discovery throws |
| Construction.StrideOf | projects/krasnor/src/halfedge.js:320-324 | faces are read 4 corners at a time only by the simplifier's builder on a mesh containing a quad, otherwise 3 |
| Pairing.Pairs | projects/krasnor/src/halfedge.js:404-437 | the pairing loop's bookkeeping after the keys so far, one Step per half-edge in order; one twin, edge and flag entry per half-edge |
| Pairing.Step | projects/krasnor/src/halfedge.js:410-432 | pairing one more half-edge: a new key gets a new edge and count 1, a known key raises its count and keeps the edges |
| Pairing.OccurrencesAreMultiplicity | projects/krasnor/src/halfedge.js:420-431 | the counter kept for a key is the number of sides with that key |
| Pairing.PairsCount | projects/krasnor/src/halfedge.js:431-435 | the count the non-manifold check reads after a side is the number of sides so far with its key |
| Pairing.StepKeeps | projects/krasnor/src/halfedge.js:410-432 | one pairing step keeps the fold's invariant: edges shared by exactly the half-edges of one key, twins within the key |
| Pairing.PairsEdges | projects/krasnor/src/halfedge.js:416-428 | after pairing, two half-edges share an edge exactly when their keys are equal |
| Pairing.PairsEdgeCount | projects/krasnor/src/halfedge.js:421-425 | one edge record is created per distinct key |
| Pairing.PairsTwins | projects/krasnor/src/halfedge.js:410-419 | a half-edge gets a twin exactly when its key is met twice or more; with exactly two sides the twins are mutual |
| Pairing.PairsTwinAt | homeworks/solutions/torantie/3-smooth/src/halfedge.js:406-434 | the twin of a half-edge has the same key and the same edge; mutual when the key occurs twice (a third side re-twins the first, as the unchecked builders do) |
| Store.AllKeysAt | projects/krasnor/src/halfedge.js:382-409 | the key met at slot Base(k)+j is the key of corner j of face k |
| Store.ManifoldUpToPrefix | projects/krasnor/src/halfedge.js:434-437 | a mesh without a key met three times has none among its first k faces either |
| Store.NotManifoldUpTo | projects/krasnor/src/halfedge.js:434-437 | a key met three times among the first faces makes the whole corner list non-manifold |
| Store.ThirdSide | projects/krasnor/src/halfedge.js:434-437 | a key whose count passes 2 within face k breaks the manifold property of faces 0..k |
| Store.CornerLinks | projects/krasnor/src/halfedge.js:387-401 | a linked half-edge leaves its corner, lies on its face, is not on a boundary and has neither twin nor edge yet |
| Store.VerticesAfter | projects/krasnor/src/halfedge.js:394-397 | the vertex loop's records with each corner vertex pointing at the last half-edge leaving it |
| Store.FacesDone | projects/krasnor/src/halfedge.js:399-441 | one face per finished face, each pointing at its last corner's half-edge |
| Store.DoneFace | projects/krasnor/src/halfedge.js:399-441 | a finished face points at the half-edge of its last corner and has no index yet |
| Store.NewVertices | projects/krasnor/src/halfedge.js:352-358 | one vertex per position, with no half-edge and no index |
| Store.Passed | projects/krasnor/src/halfedge.js:367-442 | the half-edge store after the face pass has one record per corner of every face |
| Store.PassedLinks | projects/krasnor/src/halfedge.js:382-401 | after the face pass, half-edge Base(k)+j leaves corner j of face k, lies on face k, and its next and prev are the face's next and previous corners |
| Store.PassedNextBack | projects/krasnor/src/halfedge.js:389-390 | the `next` of a half-edge leads back to it by `prev`, on the same face, from the vertex it runs to |
| Store.PassedPrevBack | projects/krasnor/src/halfedge.js:389-390 | the `prev` of a half-edge leads back to it by `next`, on the same face |
| Store.PassedTwin | projects/krasnor/src/halfedge.js:410-432 | after the face pass a half-edge has a twin exactly when another side has its key; the twin shares key and edge, and is mutual when exactly two sides share the key |
| Store.PassedEdges | projects/krasnor/src/halfedge.js:416-428 | two half-edges share an edge exactly when their sides join the same two vertices |
| Store.PassedTwinsMutual | projects/krasnor/src/halfedge.js:414-415 | on manifold input every twin the face pass sets is mutual |
| Holes.CyclicNeighbours | projects/krasnor/src/halfedge.js:491-493 | the loop positions Succ and Pred are the source's (j+1)%n and (j+n-1)%n |
| Holes.SuccPred | projects/krasnor/src/halfedge.js:491-493 | Succ and Pred undo each other, so a loop's next and prev are inverse |
| Holes.Rotation | projects/krasnor/src/halfedge.js:467-470 | the s-th candidate of the search for the next free half-edge: `next` of the current one, then `twin.next` while the candidate has a twin; always a real half-edge |
| Holes.RotationStep | projects/krasnor/src/halfedge.js:468-469 | a candidate that already has a twin is replaced by its twin's next |
| Holes.RepeatNeverFree | projects/krasnor/src/halfedge.js:467-470 | a rotation that meets a candidate twice, all with twins until then, never stops |
| Holes.Walked | projects/krasnor/src/halfedge.js:457-486 | the store during a walk: the real half-edges visited so far get their boundary twins, and one boundary half-edge is appended per visit |
| Holes.WalkStep | projects/krasnor/src/halfedge.js:460-485 | one walk step appends a boundary half-edge that leaves the next free half-edge's vertex, shares the current half-edge's edge, lies on the virtual face, and becomes the current half-edge's twin |
| Holes.WalkAdvances | projects/krasnor/src/halfedge.js:467-486 | when the rotation stops at a new half-edge other than the start, the walk goes on from it |
| Holes.WalkCloses | projects/krasnor/src/halfedge.js:486 | when the rotation leads back to the start, the walk is a closed hole walk |
| Holes.WalkRevisits | projects/krasnor/src/halfedge.js:459-486 | when the rotation leads to a half-edge already visited after the start, the do-while walk never returns |
| Holes.WalkSpins | projects/krasnor/src/halfedge.js:468-470 | when the rotation never stops, neither does the walk |
| Holes.LoopRecord | projects/krasnor/src/halfedge.js:472-496 | boundary half-edge j of a loop is the twin of the j-th half-edge visited, is on the boundary and the virtual face, and its next and prev are the loop's previous and following half-edges |
| Holes.LoopLinks | projects/krasnor/src/halfedge.js:490-496 | in a linked loop, the next's prev and the prev's next of every boundary half-edge are itself |
| Holes.LinkedWalkAt | projects/krasnor/src/halfedge.js:482-483 | the j-th real half-edge of the walk gets boundary half-edge j as its twin, and nothing else changes in it |
| Holes.CloseNewBoundaryAt | projects/krasnor/src/halfedge.js:472-496 | each new boundary half-edge is the mutual twin of the real half-edge it closes and shares its edge |
| Holes.CloseHole | projects/krasnor/src/halfedge.js:450-497 | closing the hole at i keeps every fact of the half-edges closed so far and adds those of the new loop |
| Holes.LoopsStep | projects/krasnor/src/halfedge.js:454-486 | closing a hole adds one loop of boundary half-edges after the earlier ones, on one new virtual face that points at its last half-edge |
| Holes.Entry | projects/krasnor/src/halfedge.js:487 | the simplifier lists a loop's half-edges, the parameterisation and remeshing builders list its virtual face |
| Holes.BoundaryEntries | homeworks/solutions/nico778/4-param/src/halfedge.js:422-425 | one `boundaries` entry per hole, in order; the smoothing builder lists nothing |
| Holes.EntriesAt | projects/krasnor/src/halfedge.js:487 | entry q of `boundaries` is the loop of hole q, on virtual face nf+q |
| Holes.VirtualEntries | homeworks/solutions/changkun/5-remesh/src/halfedge.js:418-421 | the remeshing builder's `boundaries` are the virtual faces nf, nf+1, ..., one per hole |
| Holes.Pushed | projects/krasnor/src/halfedge.js:487 | listing a closed hole appends one entry and keeps the earlier ones |
| Holes.HoleStep | projects/krasnor/src/halfedge.js:450-497 | closing a hole adds one loop, one virtual face and, except in the smoothing builder, one `boundaries` entry |
| Holes.Closed | projects/krasnor/src/halfedge.js:445-498 | once the scan has passed every real half-edge, every half-edge has a twin on its edge, next and prev are inverse on one face, exactly the new ones are on the boundary, and twins are mutual wherever the face pass made them so |
| Holes.PassedReady | projects/krasnor/src/halfedge.js:367-442 | what the face pass leaves is what the boundary pass needs: face cycles linked both ways and twin flags exactly on paired half-edges |
| Mesh.HalfedgeMesh.constructor | projects/krasnor/src/halfedge.js:261-275 | a new mesh has empty stores and arrays and is not a quad mesh |
| Mesh.HalfedgeMesh.CreateVertices | projects/krasnor/src/halfedge.js:352-358 | the vertex loop creates one vertex per position, in order; the parameterisation builder keeps a second vertex per position in vertsOrig |
| Mesh.HalfedgeMesh.PairCorner | projects/krasnor/src/halfedge.js:410-432 | pairing a half-edge moves the stores, edges and flags on by one step of the pairing fold |
| Mesh.HalfedgeMesh.AttachCorner | projects/krasnor/src/halfedge.js:387-401 | linking a corner fails with a TypeError exactly when it names no vertex; otherwise one more half-edge is linked in its face, its vertex and face point at it |
| Mesh.HalfedgeMesh.LinkCorner | projects/krasnor/src/halfedge.js:382-437 | one corner: TypeError exactly on a missing vertex, the non-manifold throw exactly when checking and the key's count passes 2, otherwise the pass moves on by one corner |
| Mesh.HalfedgeMesh.AllocateFace | projects/krasnor/src/halfedge.js:369-379 | a new face and its fresh half-edges join the stores and arrays, nothing linked yet |
| Mesh.HalfedgeMesh.FinishFace | projects/krasnor/src/halfedge.js:440-441 | after its last corner a face is done and records whether it is a quad |
| Mesh.HalfedgeMesh.FaceCorner | projects/krasnor/src/halfedge.js:382-437 | failures are a corner out of range or a non-manifold key; on success the keys and stores move on by one corner |
| Mesh.HalfedgeMesh.LinkFace | projects/krasnor/src/halfedge.js:382-438 | all corners of a face in order: on success the face's corners are in range, and the stores equal those of the fold over all keys so far |
| Mesh.HalfedgeMesh.BuildFace | projects/krasnor/src/halfedge.js:367-442 | one face of the pass, with the slot layout as corrected under Findings; fails only on a corner out of range, or on non-manifold input when checking |
| Mesh.HalfedgeMesh.FacePass | projects/krasnor/src/halfedge.js:367-442 | the face pass, with the slot layout and the sorted key as corrected under Findings: it stops only at a TypeError for an out-of-range corner or at the non-manifold throw, and otherwise leaves every face linked and paired |
| Mesh.HalfedgeMesh.NextFree | projects/krasnor/src/halfedge.js:467-470 | the rotation returns the first candidate without a twin, or Diverges exactly when it would never stop |
| Mesh.HalfedgeMesh.AddBoundaryHalfedge | projects/krasnor/src/halfedge.js:460-485 | one walk step appends the boundary half-edge that twins the current one and makes it the virtual face's half-edge |
| Mesh.HalfedgeMesh.WalkHole | projects/krasnor/src/halfedge.js:457-486 | the do-while walk visits the hole's half-edges until it is back at the start, appending their boundary twins; Diverges where it would never return |
| Mesh.HalfedgeMesh.LinkLoop | projects/krasnor/src/halfedge.js:490-496 | the loop's half-edges get their next and prev, and they and the half-edges they close are flagged as having a twin |
| Mesh.HalfedgeMesh.CloseHoleAt | projects/krasnor/src/halfedge.js:451-497 | closing the hole at i keeps the between-holes invariant and adds one loop |
| Mesh.HalfedgeMesh.FinishHole | projects/krasnor/src/halfedge.js:487-496 | after the walk the simplifier lists the loop, then the loop is linked |
| Mesh.HalfedgeMesh.VisitHalfedge | projects/krasnor/src/halfedge.js:446-498 | a half-edge with a twin is passed over, one without starts a hole that is closed |
| Mesh.HalfedgeMesh.BoundaryPass | projects/krasnor/src/halfedge.js:445-498 | afterwards every half-edge has a twin, next and prev are inverse, the loops lie on new virtual faces and `boundaries` lists them as the variant does; or Diverges at a half-edge whose walk never returns |
| Mesh.HalfedgeMesh.IndexVertices | projects/krasnor/src/halfedge.js:500-503 | each listed vertex gets its place in `vertices` as idx, and nothing else changes |
| Mesh.HalfedgeMesh.IndexEdges | projects/krasnor/src/halfedge.js:504-507 | each listed edge gets its place in `edges` as idx, and nothing else changes |
| Mesh.HalfedgeMesh.IndexFaces | projects/krasnor/src/halfedge.js:508-511 | each listed face gets its place in `faces` as idx; virtual faces keep theirs |
| Mesh.HalfedgeMesh.IndexHalfedges | projects/krasnor/src/halfedge.js:512-515 | each listed half-edge gets its place in `halfedges` as idx, and nothing else changes |
| Mesh.HalfedgeMesh.IndexBoundaries | homeworks/solutions/changkun/5-remesh/src/halfedge.js:472-473 | each virtual face listed in `boundaries` gets its place in that list as idx |
| Mesh.HalfedgeMesh.IndexVertsOrig | homeworks/solutions/nico778/4-param/src/halfedge.js:475-477 | each kept vertex copy gets its place in vertsOrig as idx |
| Mesh.HalfedgeMesh.CopyVertices | homeworks/solutions/torantie/3-smooth/src/halfedge.js:499-506 | one copy per vertex is appended, with the same idx, half-edge and coordinates |
| Mesh.HalfedgeMesh.ResetPositions | homeworks/solutions/torantie/3-smooth/src/halfedge.js:583-588 | vertex i takes back the coordinates of vertsOrig[i] and nothing else changes; a copy longer than the vertex array is a TypeError |
| Mesh.HalfedgeMesh.NumberVertices | projects/krasnor/src/halfedge.js:500-503 | the vertex loop sets each vertex's idx to its place in `vertices` and changes nothing else in it |
| Mesh.HalfedgeMesh.NumberEdges | projects/krasnor/src/halfedge.js:504-507 | the edge loop sets each edge's idx to its place in `edges` and changes nothing else in it |
| Mesh.HalfedgeMesh.NumberFaces | projects/krasnor/src/halfedge.js:508-511 | the face loop sets each real face's idx to its place in `faces`; the remeshing builder gives each virtual face its place in `boundaries`, and the other builders leave virtual faces as they are |
| Mesh.HalfedgeMesh.NumberHalfedges | projects/krasnor/src/halfedge.js:512-515 | the half-edge loop sets each half-edge's idx to its place in `halfedges` and changes nothing else in it |
| Mesh.HalfedgeMesh.KeepCopies | homeworks/solutions/torantie/3-smooth/src/halfedge.js:499-506 | after numbering, the smoothing builder's `vertsOrig` holds one copy of each vertex record, in order |
| Mesh.HalfedgeMesh.NumberAll | projects/krasnor/src/halfedge.js:499-515 | the index pass numbers each element by its place in its array, the remesher's virtual faces by their place in `boundaries`, and makes the smoothing copy |
| Mesh.HalfedgeMesh.ClosePass | projects/krasnor/src/halfedge.js:444-498 | the boundary pass after a successful face pass leaves the closed, listed mesh, or Diverges |
| Mesh.HalfedgeMesh.PassedStores | projects/krasnor/src/halfedge.js:367-442 | a face pass that succeeded leaves exactly the linked, paired half-edges, the edges of the distinct keys and the finished faces |
| Mesh.HalfedgeMesh.CloseAndNumber | projects/krasnor/src/halfedge.js:444-515 | after the face pass, the boundary and index passes give the built mesh, or Diverges |
| Mesh.HalfedgeMesh.Build | projects/krasnor/src/halfedge.js:261-515 | construction, with the slot layout and the sorted key as corrected under Findings: it fails with RangeError exactly when the corner list does not split into whole faces, with TypeError only on a corner naming no vertex, with the non-manifold message only on non-manifold input in the checking builders, and otherwise yields the built mesh |
| Mesh.HalfedgeMesh.BuildStrided | projects/krasnor/src/halfedge.js:346-515 | once the face array can be sized, the four passes (as corrected under Findings) give the built mesh or one of the listed failures |
| Mesh.HalfedgeMesh.Redirect | projects/krasnor/src/halfedge.js:662-673 | every half-edge of a ring runs from the new vertex, and the others are unchanged |
| Mesh.HalfedgeMesh.RedirectRing | projects/krasnor/src/halfedge.js:662-667 | the ring Vertex.halfedges visits is redirected, and the iterator's failures are passed on |
| Mesh.HalfedgeMesh.Relink | projects/krasnor/src/halfedge.js:694-705 | the splice's first writes, as Decimation.Relinked |
| Mesh.HalfedgeMesh.Reedge | projects/krasnor/src/halfedge.js:706-709 | the splice's edge writes, as Decimation.Reedged |
| Mesh.HalfedgeMesh.Retire | projects/krasnor/src/halfedge.js:712-718 | the splice's tombstones, as Decimation.Retired |
| Mesh.HalfedgeMesh.SpliceFace | projects/krasnor/src/halfedge.js:679-720 | splicing out one face, as Decimation.Splice |
| Mesh.HalfedgeMesh.Tombstone | projects/krasnor/src/halfedge.js:726-733 | the collapse's last writes, as Decimation.Tombstoned |
| Mesh.HalfedgeMesh.MergeSide | projects/krasnor/src/halfedge.js:677-721 | one side of the collapse, reporting 1 when its face is not null |
| Mesh.HalfedgeMesh.OpenEdge | projects/krasnor/src/halfedge.js:646-673 | the reads, the new vertex and the redirected rings, as Decimation.Opened |
| Mesh.HalfedgeMesh.MergeSides | projects/krasnor/src/halfedge.js:676-722 | both sides of the collapse, as Decimation.Sides |
| Mesh.HalfedgeMesh.SewEdge | projects/krasnor/src/halfedge.js:676-734 | both sides then the tombstones, as Decimation.Sewn |
| Mesh.HalfedgeMesh.CollapseEdge | projects/krasnor/src/halfedge.js:646-734 | one collapse updates the mesh as Decimation.Collapse and returns the number of faces counted as removed |
| Mesh.HalfedgeMesh.DecimateStep | projects/krasnor/src/halfedge.js:628-748 | one pass of the loop on a live popped edge: the rest of the loop continues from the new mesh with the count lowered by the faces removed, or stops on the error |
| Mesh.HalfedgeMesh.Filter | projects/krasnor/src/halfedge.js:774-785 | the four filters, as Decimation.Filtered |
| Mesh.HalfedgeMesh.Reindex | projects/krasnor/src/halfedge.js:788-799 | the four renumbering loops, as Decimation.Reindexed |
| Mesh.HalfedgeMesh.Compact | projects/krasnor/src/halfedge.js:774-799 | the cleanup, as Decimation.Compacted |
| Mesh.HalfedgeMesh.Simplify | projects/krasnor/src/halfedge.js:593-799 | simplify updates the mesh as Decimation.Simplified, whose properties the Decimation, Collapsing and Compaction lemmas state |
| Decimation.Round | projects/krasnor/src/halfedge.js:593 | Math.round gives the integer within one half below and strictly less than one half above |
| Decimation.Goal | projects/krasnor/src/halfedge.js:593 | ratio 0 keeps every face, ratio 1 removes all, and ratios in between give a goal between 0 and the face count |
| Decimation.Redirected | projects/krasnor/src/halfedge.js:662-673 | exactly the ring's half-edges get the new vertex; every other half-edge is unchanged |
| Decimation.EndsOf | projects/krasnor/src/halfedge.js:646-649 | the edge's half-edge, its twin and their vertices; a TypeError exactly when one of the half-edges is null |
| Decimation.NewVertexOf | projects/krasnor/src/halfedge.js:652-659 | the new vertex has the merge point, the next vertex number and the twin of the collapsed half-edge's prev; TypeError exactly on a null read |
| Decimation.Ring | projects/krasnor/src/halfedge.js:662-673 | the half-edges the vertex iterator visits around the endpoint |
| Decimation.Rerouted | projects/krasnor/src/halfedge.js:662-673 | both endpoint rings redirected in turn: the store keeps its size, or the iterator's error is passed on; OpenedEffects and OpenedRings state the writes |
| Decimation.WingOf | projects/krasnor/src/halfedge.js:687-693 | the face, prev l, next r, their edges and twins; a TypeError exactly when prev or next is null |
| Decimation.Relinked | projects/krasnor/src/halfedge.js:694-705 | one new edge, the half-edge and face stores keep their sizes, the arrays are unchanged |
| Decimation.Reedged | projects/krasnor/src/halfedge.js:706-709 | the edge writes leave the stores' sizes and the arrays unchanged; ReedgedEffects states which fields change |
| Decimation.Retired | projects/krasnor/src/halfedge.js:712-718 | only tombstones are written, and the new edge joins `edges` |
| Decimation.Splice | projects/krasnor/src/halfedge.js:687-718 | one new edge is appended and listed; the vertex, face and half-edge arrays are unchanged |
| Decimation.Tombstoned | projects/krasnor/src/halfedge.js:725-733 | only idx fields are written, and the new vertex is appended to `vertices`; TombstonedEffects states which records become -1 |
| Decimation.Side | projects/krasnor/src/halfedge.js:678-720 | a side reports 1 exactly when its half-edge has a face (a virtual face included) and then grows the edge store by one |
| Decimation.Opened | projects/krasnor/src/halfedge.js:646-673 | one vertex appended, arrays unchanged, and the reads name live half-edges and vertices of the edge |
| Decimation.Sides | projects/krasnor/src/halfedge.js:676-722 | at most two faces are removed, one new edge per face |
| Decimation.Sewn | projects/krasnor/src/halfedge.js:676-734 | at most two faces are counted as removed, and the edge store grows by exactly that number |
| Decimation.Collapse | projects/krasnor/src/halfedge.js:646-734 | one collapse: the first half, then the second; CollapseEffects and CollapseCounts state what it does |
| Decimation.DecimateFrom | projects/krasnor/src/halfedge.js:626-769 | when the loop ends normally the face count has not grown and is at or below the goal, or 0 |
| Decimation.DecimatePop | projects/krasnor/src/halfedge.js:628-629 | the pop: an exhausted queue or a pair outside the edge store is a TypeError; a normal end leaves the count at or below the goal (or 0) and not above the start |
| Decimation.DecimatePair | projects/krasnor/src/halfedge.js:631-632 | a tombstoned edge goes on to the next pop unchanged, a live one is collapsed; the same end condition |
| Decimation.DecimateEdge | projects/krasnor/src/halfedge.js:646-748 | the collapse of the popped live edge followed by the rest of the loop; the same end condition |
| Decimation.DecimateAfter | projects/krasnor/src/halfedge.js:734-748 | after a collapse: its error, the break at count 0, or the next pop with the count lowered by the faces removed; the count never rises |
| Decimation.DecimateSkips | projects/krasnor/src/halfedge.js:631-632 | a popped tombstoned edge is passed over without any change |
| Decimation.DecimateLive | projects/krasnor/src/halfedge.js:628-748 | a popped live edge is collapsed |
| Decimation.DecimateStepped | projects/krasnor/src/halfedge.js:734-748 | after a collapse the loop goes on from the new mesh with the count lowered by the faces removed, or stops on the error |
| Decimation.Kept | projects/krasnor/src/halfedge.js:774-785 | the filter succeeds exactly when every reference is in the store, keeps only records with idx >= 0, and fails with TypeError otherwise |
| Decimation.KeepLive | projects/krasnor/src/halfedge.js:774-776 | the filter loop computes Kept |
| Decimation.KeptPastError | projects/krasnor/src/halfedge.js:774-785 | a filter that fails on a prefix fails on the whole array |
| Decimation.Renumber | projects/krasnor/src/halfedge.js:788-790 | the renumbering loop computes Renumbered |
| Decimation.Filtered | projects/krasnor/src/halfedge.js:774-785 | the four filters succeed exactly when every array refers into its store, and then the result does too |
| Decimation.Reindexed | projects/krasnor/src/halfedge.js:788-799 | the renumbering writes only idx fields: the arrays and the stores' sizes stay, and every reference stays in its store |
| Decimation.Compacted | projects/krasnor/src/halfedge.js:774-799 | the cleanup succeeds exactly when every array refers into its store; then only idx fields change, each array is no longer than before, and every reference stays in its store |
| Decimation.Simplified | projects/krasnor/src/halfedge.js:593-799 | a `simplify` that returns leaves every array referring into its store; SimplifiedIndexed gives the numbering |
| Collapsing.RelinkedEffects | projects/krasnor/src/halfedge.js:694-705 | the new edge is on l's twin, l's and r's twins become mutual twins, and the corner l leaves points at r's twin |
| Collapsing.ReedgedEffects | projects/krasnor/src/halfedge.js:706-709 | both twins move to the new edge; no twin and no edge record's half-edge changes |
| Collapsing.RetiredEffects | projects/krasnor/src/halfedge.js:712-718 | only idx fields change: l, r, their edges and the face become -1, and the new edge joins `edges` |
| Collapsing.SpliceEffects | projects/krasnor/src/halfedge.js:687-718 | splicing a face joins the twins of l and r as mutual twins on the new edge, points the corner at r's twin, and tombstones l, r, their edges and the face |
| Collapsing.SideEffects | projects/krasnor/src/halfedge.js:678-720 | a side with a face (a virtual one too) tombstones it, adds one edge and reports 1; otherwise it changes nothing and reports 0 |
| Collapsing.SidesEffects | projects/krasnor/src/halfedge.js:676-722 | both sides: each face that is not null is tombstoned and counted, with one new edge each |
| Collapsing.OpenedEffects | projects/krasnor/src/halfedge.js:652-673 | the new vertex is appended at the merge point with the next number and the chosen half-edge; only half-edge `vertex` fields change, and only to the new vertex |
| Collapsing.OpenedRings | projects/krasnor/src/halfedge.js:662-673 | every half-edge of both endpoints' rings runs from the new vertex after the redirect |
| Collapsing.OrbitFromSameLinks | projects/krasnor/src/halfedge.js:211-218 | the iterators read only next and twin, so redirecting vertices does not change the rings being walked |
| Collapsing.TombstonedEffects | projects/krasnor/src/halfedge.js:726-733 | the edge, both endpoints and the collapsed half-edge become -1, the new vertex joins `vertices`, and the other vertices keep their idx |
| Collapsing.CollapseEffects | projects/krasnor/src/halfedge.js:646-734 | a collapse appends the new vertex at the merge point and lists it, tombstones the edge, its endpoints and half-edge, and keeps every other vertex position and the face and half-edge arrays |
| Collapsing.CollapseCounts | projects/krasnor/src/halfedge.js:676-734 | the count a collapse reports is the number of non-null faces on its two sides, virtual faces included; each is tombstoned and adds one edge |
| Compaction.KeptMembers | projects/krasnor/src/halfedge.js:774-785 | the filter keeps a reference exactly when the array lists it and its record has idx >= 0 |
| Compaction.KeptAppend | projects/krasnor/src/halfedge.js:774-785 | the filter keeps the survivors' relative order |
| Compaction.KeptDistinct | projects/krasnor/src/halfedge.js:774-785 | the filter adds no repeats |
| Compaction.RenumberedAt | projects/krasnor/src/halfedge.js:788-799 | after renumbering, the record at position i has idx i and unlisted records are unchanged |
| Compaction.CompactedIndexed | projects/krasnor/src/halfedge.js:774-799 | after the cleanup every survivor's idx is its place in its array, without repeats |
| Compaction.CollapseKeepsDistinct | projects/krasnor/src/halfedge.js:646-734 | a collapse keeps every array referring into its store and free of repeats: the records it lists are the ones it appends |
| Compaction.LiveCollapse | projects/krasnor/src/halfedge.js:628-748 | a loop pass on a popped live edge continues from a collapse that keeps the arrays sound |
| Compaction.DecimateKeepsDistinct | projects/krasnor/src/halfedge.js:626-769 | the decimation loop keeps every array referring into its store and free of repeats, whatever the pops |
| Compaction.SimplifiedIndexed | projects/krasnor/src/halfedge.js:261-799 | on a mesh a builder produced, a `simplify` that returns leaves every surviving element's idx equal to its place in its array, without repeats |
| Compaction.CompactedLive | projects/krasnor/src/halfedge.js:774-785 | after the cleanup each array holds exactly the records it listed with idx >= 0 |
| Compaction.CompactedIndexedSame | projects/krasnor/src/halfedge.js:774-799 | the cleanup of a mesh already numbered by place changes nothing |
| Compaction.SimplifyRatioZero | projects/krasnor/src/halfedge.js:593-626 | simplify(0) on a mesh numbered by place collapses nothing and changes nothing |
| Compaction.BuiltIndexed | projects/krasnor/src/halfedge.js:499-515 | after construction every element's idx is its place in its array, without repeats |
| Traversal.Advance | projects/krasnor/src/halfedge.js:211-218 | one step of an iterator fails exactly when it reads `next` through a null twin |
| Traversal.Orbit | projects/krasnor/src/halfedge.js:111-119 | the iterator loop `start \|\| h != h0`; OrbitIsCycle states what it visits |
| Traversal.OrbitWalkIsCycle | projects/krasnor/src/halfedge.js:111-119 | what an iterator visits is a closed walk from its start |
| Traversal.OrbitIsCycle | projects/krasnor/src/halfedge.js:111-119 | an iterator visits w exactly when w is the closed walk from its start, of at most |store|+1 steps |
| Traversal.Walk | projects/krasnor/src/halfedge.js:111-119 | the `start \|\| h != h0` loop visits the iterator's walk |
| Traversal.FaceHalfedges | projects/krasnor/src/halfedge.js:111-119 | Face.halfedges visits the closed `next` walk from the face's half-edge |
| Traversal.VertexHalfedges | projects/krasnor/src/halfedge.js:211-218 | Vertex.halfedges visits the closed `twin.next` walk from the vertex's half-edge |
| Traversal.FaceVertices | projects/krasnor/src/halfedge.js:100-109 | Face.vertices visits the vertex of each half-edge of the face walk, in order |
| Traversal.VertexFaces | projects/krasnor/src/halfedge.js:199-210 | Vertex.faces: the loop that skips boundary half-edges with `continue` |
| Traversal.RingFaces | projects/krasnor/src/halfedge.js:199-210 | Vertex.faces with the boundary `continue`; RingFacesOfOrbit and RingFacesSpin state what it visits and when it never stops |
| Traversal.RingFacesOfOrbit | projects/krasnor/src/halfedge.js:199-210 | Vertex.faces visits the faces of the ring's half-edges off the boundary; if every one is on the boundary the loop never ends |
| Traversal.RingFacesSpin | projects/krasnor/src/halfedge.js:199-210 | around a vertex whose half-edges are all on the boundary, `continue` skips the `start = false`, so the loop never stops |
| Traversal.FaceVerticesByIdx | homeworks/solutions/torantie/3-smooth/src/halfedge.js:112-129 | the smoothing mesh's Face.vertices as the loop with the idx stop and the try/catch |
| Traversal.VerticesByIdx | homeworks/solutions/torantie/3-smooth/src/halfedge.js:112-129 | the smoothing Face.vertices; VerticesByIdxOfOrbit states what it visits |
| Traversal.VerticesByIdxOfOrbit | homeworks/solutions/torantie/3-smooth/src/halfedge.js:112-129 | on a closed face walk, Face.vertices passes the vertices up to the first later one with the first's idx, and returns normally |
| Traversal.VerticesByIdxWhole | homeworks/solutions/torantie/3-smooth/src/halfedge.js:112-129 | when no later vertex has the first's idx, every vertex of the face is passed |
| Traversal.ForEachHalfEdge | homeworks/solutions/torantie/3-smooth/src/halfedge.js:215-226 | forEachHalfEdge visits `h`, `h.twin.next`, ... and returns early on a null half-edge |
| Traversal.EachFrom | homeworks/solutions/torantie/3-smooth/src/halfedge.js:215-226 | forEachHalfEdge's walk; EachAgreesWithOrbit relates it to Vertex.halfedges |
| Traversal.EachAgreesWithOrbit | homeworks/solutions/torantie/3-smooth/src/halfedge.js:215-226 | forEachHalfEdge visits what Vertex.halfedges visits when that succeeds, and both diverge together; at a null twin both throw a TypeError; where Vertex.halfedges throws at a twin whose `next` is null, forEachHalfEdge returns normally after visiting that half-edge |
| Walks.KeptFaceOrbit | projects/krasnor/src/halfedge.js:382-401 | in a store that keeps the face pass links, the walk along `next` from a face's last corner visits its half-edges and corners |
| Walks.BuiltFaceOrbit | projects/krasnor/src/halfedge.js:111-119 | in a built mesh, Face.halfedges of face k visits the face's half-edges, and Face.vertices visits its corners, the last one first |
| Walks.BuiltCornersNumbered | projects/krasnor/src/halfedge.js:500-503 | the corners of every built face name vertices numbered by their place |
| Walks.BuiltFaceVerticesByIdx | homeworks/solutions/torantie/3-smooth/src/halfedge.js:112-129 | in a built mesh, the smoothing Face.vertices passes the corners up to the first repeat of the first corner; all of them when it does not repeat |
| Quadric.PlaneQuadric | homeworks/solutions/changkun/5-remesh/src/halfedge.js:183-199 | the fundamental error quadric of a plane is symmetric |
| Quadric.FaceQuadric | homeworks/solutions/changkun/5-remesh/src/halfedge.js:183-199 | the face quadric is symmetric, and zero on a boundary face |
| Quadric.BoundaryFaceIsNeutral | homeworks/solutions/nico778/4-param/src/halfedge.js:110-127 | a boundary face has area 0, a zero normal and a quadric of zero error everywhere; a real face keeps its normal and area |
| Quadric.VertexQuadric | homeworks/solutions/changkun/5-remesh/src/halfedge.js:259-265 | the sum of the face quadrics around a vertex, skipping boundary half-edges, is symmetric |
| Quadric.EdgeQuadric | homeworks/solutions/changkun/5-remesh/src/halfedge.js:105-109 | the sum of two symmetric vertex quadrics is symmetric |
| Quadric.QuadricError | homeworks/solutions/changkun/5-remesh/src/halfedge.js:116-123 | quadricError's sixteen terms; PlaneQuadricError, ErrorAdditive and ErrorFormulasAgree state its properties |
| Quadric.CalcErrorV2 | projects/krasnor/src/halfedge.js:823-834 | the simplifier's v·(Qv) error equals the remesher's vᵀQv |
| Quadric.ErrorFormulasAgree | projects/krasnor/src/halfedge.js:823-834 | the simplifier's v·(Qv) error equals the remesher's sixteen-term vᵀQv |
| Quadric.PlaneQuadricError | homeworks/solutions/changkun/5-remesh/src/halfedge.js:116-123 | the error of a plane quadric at v is the squared plane equation (n·v - n·p)², never negative |
| Quadric.ErrorAdditive | homeworks/solutions/changkun/5-remesh/src/halfedge.js:116-123 | the error is additive in the quadric |
| Quadric.VertexQuadricNonNegative | homeworks/solutions/changkun/5-remesh/src/halfedge.js:259-265 | a vertex quadric's error is never negative |
| Quadric.SkippingBoundaryFacesIsHarmless | homeworks/solutions/changkun/5-remesh/src/halfedge.js:259-265 | skipping boundary half-edges gives the same sum as adding their zero quadrics |
| Quadric.EdgeQuadricError | homeworks/solutions/changkun/5-remesh/src/halfedge.js:105-123 | an edge's error is the sum of its endpoints' errors, never negative |
| Quadric.FaceQuadricVanishesAtCorners | homeworks/solutions/changkun/5-remesh/src/halfedge.js:183-199 | with a normal along the cross product of two sides, the face quadric's error is zero at all three corners |
| Quadric.KeptSample | homeworks/solutions/changkun/5-remesh/src/halfedge.js:83-99 | the sample kept after i samples is one of them |
| Quadric.KeptSampleIsFirstMinimum | homeworks/solutions/changkun/5-remesh/src/halfedge.js:83-99 | with non-negative errors the kept sample has least error, and every earlier sample has strictly more |
| Quadric.SampleEdge | homeworks/solutions/changkun/5-remesh/src/halfedge.js:83-99 | the 17-sample loop returns the kept sample and its error |
| Quadric.BestVertex | homeworks/solutions/changkun/5-remesh/src/halfedge.js:67-99 | the given solution when the quadric is invertible, otherwise one of the 17 samples a + (i/16)(b - a) |
| Quadric.BestVertexMinimal | homeworks/solutions/changkun/5-remesh/src/halfedge.js:67-99 | without an invertible solution, bestVertex has least error among the 17 samples a + (i/16)(b - a) |
| Quadric.ComputeEdgeError | projects/krasnor/src/halfedge.js:852-921 | the pair, the merge point (the given solution or the best sample), and its error under Qbar = q1 + q2, except that an invertible Qbar first has its last row overwritten with (0, 0, 0, 1); the sampled error is never negative when both quadrics are non-negative, and the error at an exact solution is always 1 |
| Quadric.MutatedErrorAtSolution | projects/krasnor/src/halfedge.js:861-916 | at a point where Qbar·(v, 1) has zero upper rows, the error under the overwritten Qbar is exactly 1, whatever Qbar was |
| Quadric.MutatedErrorCounterexample | projects/krasnor/src/halfedge.js:858-916 | for the quadric of the planes x = 0, y = 0, z = 0 and x = 1 (determinant 1), the solution (0.5, 0, 0) gets error 1 as written where its error under Qbar is 0.5 |
| Quadric.CorrectedEdgeError | homeworks/solutions/changkun/5-remesh/src/halfedge.js:53-76 | the edge error with the quadric left unchanged: the same merge point, its error under q1 + q2, never negative when both quadrics are non-negative, and at a solution the last row of Qbar applied to (v, 1) |
| Quadric.EdgeError.constructor | homeworks/solutions/changkun/5-remesh/src/halfedge.js:43-52 | a new edge has no cached error |
| Quadric.EdgeError.Error | homeworks/solutions/changkun/5-remesh/src/halfedge.js:53-61 | the first call computes the error at the best vertex and caches it; later calls return the cached value unchanged |
| Curvature.PrincipalCurvature | homeworks/solutions/nico778/4-param/src/halfedge.js:216-226 | k1 <= k2 and k1 + k2 = 2H; equal to H when H² - K is not positive, otherwise 2·root apart |
| Curvature.CurvatureByName | homeworks/solutions/nico778/4-param/src/halfedge.js:202-214 | 'Mean' gives H, 'Kmin' is at most H and 'Kmax' at least H, and any other name gives 0 |
| Curvature.VertexCurvature | homeworks/solutions/nico778/4-param/src/halfedge.js:201-214 | a call without a name is the 'Mean' call; with a name, the name's curvature |
| Curvature.MeanIsH | homeworks/solutions/nico778/4-param/src/halfedge.js:201-214 | 'Mean' returns H, whatever the angle defect |
| Curvature.KminAtMostKmax | homeworks/solutions/nico778/4-param/src/halfedge.js:201-214 | 'Kmin' never exceeds 'Kmax' |
| Curvature.GaussianRecoversDefect | homeworks/solutions/nico778/4-param/src/halfedge.js:201-226 | 'Gaussian' returns K when H² > K (with an exact root), and the clamped H² <= K otherwise |
| Curvature.OtherNamesGiveZero | homeworks/solutions/nico778/4-param/src/halfedge.js:201-214 | any other name gives 0 |

## Left out

- OBJ lexing (splitting lines, `parseFloat`, `parseInt`) is not modelled. The model starts from the list of face lines (`FlattenFaces`) or from the 0-based corner list, and from the positions.
- Floating-point vector and matrix numerics are not modelled: `unit`, `norm`, `cross` as floats, `det`, `inv`, `acos`, `sqrt`, cotangents, angles and areas. Face normals, triangle areas, the solution of an invertible quadric and the square root in `principalCurvature` are inputs. Arithmetic is exact over `real`, so rounding and NaN are not modelled.
- The invertible branch of `computeEdgeError` and `bestVertex` is the given `solution`. The `1e-3` determinant threshold that chooses it is left to the caller. The NaN test after the inverse never rejects a solution, so a given solution is always used.
- `Matrix.mulpos` (mat.js) is not part of this model. It is taken to apply the upper three rows to (x, y, z, 1).
- `new Matrix()` (mat.js) is taken to be the zero matrix (`Quadric.ZeroMat`, where `Quadric.VertexQuadric` starts its sum).
- The priority queue (pq.js) is not part of this model. The pairs it yields are an input sequence of pops, so its min-by-error order and tie order are not modelled. An exhausted sequence is the unguarded `heap.pop()` returning undefined: a TypeError.
- `simplify`'s first phase (per-vertex quadrics, valid pairs, the initial heap) and the recomputation after each collapse (projects/krasnor/src/halfedge.js:750-767) are not modelled; the pops are an input. Both call `computeQi` on every live vertex, and `computeQi` walks `Vertex.faces`. That throws a TypeError on a vertex whose half-edge is null (an OBJ position no face uses). It never returns around a vertex whose half-edges are all on the boundary (`Traversal.RingFacesSpin`). The modelled `simplify` neither fails nor diverges at such vertices.
- `simplify`'s debug statistics and `console.log` calls are left out, as is the bookkeeping `c.old_id`, which is never read.
- The redirect writes `hf.vertex` while the iterator walks the ring. The model walks the ring first and then writes (`RedirectRing`). `Collapsing.OrbitFromSameLinks` shows that the walk reads only `next` and `twin`, which the redirect does not touch.
- The state after a failure (TypeError, RangeError, the non-manifold throw) is unspecified. The methods state only the error.
- Loops that the source never leaves (boundary rotation and walk on non-manifold input, `Vertex.faces` around an all-boundary vertex, iterators whose walk never returns) stop after |store| + 1 steps with `Diverges`.
- The pre-sized arrays (`new Array(edges.size*2)`, `new Array(positions.length)`) are not modelled. Every slot the builders read is written before it is read, apart from the quad-layout finding below. Only the RangeError of `new Array(indices.length / n)` is kept.
- The parameterisation builder assigns `he.vertsOrig = this.vertsOrig` to every half-edge. This is pointer aliasing to the mesh's own array and is not modelled.
- The Laplacian, mass matrices, `smooth` beyond its position reset, and `flatten` are not modelled. They are sparse linear solves through a foreign library.
- Rendering, DOM code, the simplifier's incomplete subdivision, its OBJ export, its statistics panel, and the remesher's empty `simplify` stub are not modelled.
- `Vertex.normal`, `Vertex.vertices`, `Halfedge.vector/cotan/angle`, Voronoi areas and the angle defect are floating-point geometry and are not modelled.
- `Decimation.DecimateFrom`: its contract states only that a normal end leaves the count at or below the goal (or 0) and not above the start. The per-collapse effects are stated by `Collapsing.CollapseEffects` and `Collapsing.CollapseCounts`.
- `Mesh.HalfedgeMesh.Build`, `Mesh.HalfedgeMesh.BuildStrided`, `Mesh.HalfedgeMesh.FacePass` and `Mesh.HalfedgeMesh.BuildFace` model the builders as corrected under Findings: half-edges stored and read at `trueIndex + j`, and the key swap on `let` variables. As written, the simplifier's builder throws a TypeError on a triangle followed by a quad (`Connectivity.AsWrittenFailingFace`, `Connectivity.MixedArityReadsUnstoredSlot`). The parameterisation and remeshing builders throw a TypeError on any triangle with three different corners (`Connectivity.AsWrittenConstDiscoverEdges`, `Connectivity.DistinctTriangleThrows`). On those inputs these members return the built mesh instead.
- `Mesh.HalfedgeMesh.BuildStrided`: as for `Build` above.
- `Mesh.HalfedgeMesh.FacePass`: as for `Build` above.
- `Mesh.HalfedgeMesh.BuildFace`: as for `Build` above.
- `Mesh.HalfedgeMesh.Simplify`: its contract ties the result to `Decimation.Simplified`. The properties of that function are the `Decimation`, `Collapsing` and `Compaction` lemmas, so no single lemma restates the whole of `simplify`.

## Findings

| source | as written | input that shows it | evidently intended | confidence | as-written member | corrected member |
|---|---|---|---|---|---|---|
| projects/krasnor/src/halfedge.js:376-390 | a face's half-edges are stored at `i + j` (i the face's offset in the padded list) but read back at `trueIndex + j` (the corners of earlier faces) | a triangle followed by a quad, padded list `[0,1,2,-1, 0,2,3,4]`: the quad reads slot 3, never stored, and reads a property of `undefined` | store and read at `trueIndex + j`, so each face's slots follow the earlier faces' without overlap | not executed | Connectivity.MixedArityReadsUnstoredSlot | Connectivity.ContiguousSlotsDisjoint |
| homeworks/solutions/changkun/5-remesh/src/halfedge.js:310-316 | the edge-discovery loop declares the corner pair `const a`/`const b` and then swaps them when `a > b`, a TypeError (assignment to a constant); the parameterisation builder does the same (nico778 302-308, again in its pairing loop at 356-379) | any triangle with three different corners, e.g. `[0,1,2]`: its side (2,0) is descending | `let a`/`let b`, so the swap gives the sorted key | not executed | Connectivity.DistinctTriangleThrows | Connectivity.DiscoverEdgesExactly |
| projects/krasnor/src/halfedge.js:858-916 | when Qbar is invertible, its last row is overwritten with (0, 0, 0, 1) to solve for vbar, and the error is then taken under that overwritten Qbar; at the solution the error is always exactly 1 | the quadric of the planes x = 0, y = 0, z = 0 and x = 1 (determinant 1): the solution (0.5, 0, 0) gets error 1, where its error under q1 + q2 is 0.5 | solve with a separate matrix, as the remesher's `bestVertex` does with `qq`, and take the error under the unchanged q1 + q2 | not executed | Quadric.MutatedErrorCounterexample | Quadric.CorrectedEdgeError |
