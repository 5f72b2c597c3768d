# Mesh simplification, subdivision, curves, surfaces and skinning, in Dafny

This project models the computational core of three graphics programs and
proves properties of the model.

- **Quadric-error mesh simplification** (`zero/`).
  - The OBJ reader (`Mesh::read`, `split`).
  - The Garland–Heckbert engine: per-vertex quadrics, candidate edges kept in a `std::set` ordered by error and then by the ordered endpoint pair, and `simplifyStep`, which pops stale candidates and contracts the first live one.
  - Faces and vertices are never erased. They are marked invalid (tombstoned).
- **Loop subdivision and swept surfaces** (`one/`).
  - The subdivision mesh with explicit vertex, face and edge records.
  - Its OBJ reader (`Mesh::read`, `_split`).
  - `closure`, which rebuilds edges and incidence from the faces and checks consistency.
  - `consistent`, `loopSubdivide` with the even and odd rules and `_orient`, and `linearCombination`.
  - Bézier and B-spline curve evaluation, with the change of basis in `bsp2bez`, and `evalCircle`.
  - Surfaces of revolution and generalised cylinders, with `makeFaces`, and the OBJ writer.
- **Skeletal subspace deformation** (`two/`).
  - The skeleton loader and its joint tree.
  - The recursive transform passes that fill the bind-pose and current-pose matrices.
  - The matrix-stack drawing traversals, `setJointTransform`, the skinned mesh loader with its attachment weights, and `updateMesh`.

How the model represents the programs:

- **Data.** Geometry is on `real`: the programs' `float` rounding is not modelled. Containers are sequences, sets and maps. Pointers to joints become indices.
- **Results and errors.** Every operation is a pure function or a method with real results. Where the C++ indexes out of range, dereferences an empty vector, lets `std::stoi` throw or calls `exit`, the model returns an error value instead (`Result`, `Option`).
- **Numerical routines as parameters.** The square root inside `normalized()`, `Matrix4f::inverse`, the determinant test, matrix products in the skeleton code, `sin`/`cos` and the Bernstein evaluation of a curve point are function parameters. Each has a named contract where a proof needs one, for example `Normalizes(unit)` and `KeepsSamples(rectify)`.
- **Text input.** The readers work on pre-tokenised lines (`ObjLine`, `JointLine`, `MeshLine`). The text of an `f` line is kept as characters, because the word loop over it is where the reader's behaviour depends on white space.
- **Integer width.** Unsigned and 32-bit conversions are written out: `(unsigned) stoi`, `num--` on an `unsigned`, and `unsigned` to `int`.

## Model

| member | source | states |
|---|---|---|
| Text.Find | zero/read.cpp:15 | `s.find(d)` is `None` exactly when `d` does not occur, and otherwise no occurrence starts earlier |
| Text.FindLeftmost | zero/read.cpp:15 | `find` fails exactly when the delimiter is absent; otherwise the position it returns holds the delimiter and no earlier position does |
| Text.Split | zero/read.cpp:10-22 | the segments the find-and-erase loop of `split` cuts a string into |
| Text.SplitSegmentsFree | zero/read.cpp:15-17 | no segment contains the delimiter |
| Text.JoinSplit | zero/read.cpp:15-20 | rejoining the segments with the delimiter gives the original string back |
| Text.SplitCountChar | zero/read.cpp:15-20 | with a one-character delimiter there is one segment more than delimiter occurrences |
| Text.SplitJoinChar | zero/read.cpp:15-20 | splitting inverts joining: any non-empty list of delimiter-free segments comes back unchanged |
| Text.SplitAt | zero/read.cpp:15-17 | where `find` succeeds, the first segment is the text before it and splitting carries on after the delimiter |
| Text.Stoi | zero/read.cpp:18-20 | `std::stoi`: whatever it reads is within `int` range (`StoiReads` states what it accepts and the value) |
| Text.StoiReads | zero/read.cpp:18-20 | `stoi` skips leading white space and reads an optional sign and the digits after it. It succeeds exactly when a digit follows and the signed value is within `int` range, and then returns that value; every magnitude up to `INT_MAX` is read |
| Text.StoiShow | one/surf.cpp:209-210 | `stoi` reads back every decimal numeral `operator<<` writes for a value within `int` range |
| Text.ShowNatValue | one/surf.cpp:209-210 | the numeral written for n reads back as n |
| Text.ToUnsigned | zero/read.cpp:18 | `(unsigned) x` reduces modulo 2^32 into [0, 2^32) |
| Text.DecUnsigned | zero/read.cpp:57 | `num--` on an `unsigned` subtracts one and wraps 0 to 2^32 - 1 |
| Text.ToSigned | zero/read.cpp:58-60 | an `unsigned` read as `int` keeps values up to `INT_MAX` and wraps larger ones to negatives |
| Text.StoiAll | zero/read.cpp:15-20 | the `(unsigned) stoi` of every segment, each below 2^32, or None as soon as one throws |
| ObjLines.Words | zero/read.cpp:45-46 | the words `>>` extracts: every entry is a non-empty run without white space |
| ObjLines.WordRun | zero/read.cpp:46 | the longest prefix without white space ends at the end or at white space |
| ObjLines.LoopWordsTrailing | zero/read.cpp:45-50 | the `while (ss.good())` loop yields the words of `>>` plus exactly one empty word when the text ends in white space |
| ObjLines.FirstWord | zero/read.cpp:45-46 | both word loops take the same first word, and the rest ends in white space exactly when the whole text does |
| ObjLines.WordsStep | zero/read.cpp:46 | white space, a word and a white-space-led rest split into that word followed by the words of the rest |
| ObjLines.WordsOfSpaces | zero/read.cpp:46 | text of white space only holds no word |
| ObjLines.LoopFaceWordsClean | zero/read.cpp:43-50 | when no `f` line ends in white space, the as-written loop hands on exactly the words `>>` would |
| ObjLines.LoopFaceWordsAt | zero/read.cpp:43-50 | each `f` line contributes its loop word list to the gathered face lists |
| ObjLines.GatherConcat | zero/read.cpp:32-52 | reading is line by line: positions, normals and face words of a concatenation are the concatenated lists |
| ObjLines.VertexLineAdds | zero/read.cpp:35-38 | a `v` line adds exactly its point, with w = 1, and no normal or face |
| ObjLines.OtherLineAddsNothing | zero/read.cpp:34-51 | a line with any other command adds nothing to any list |
| ZeroRead.IgnoresOther | zero/read.cpp:34-51 | inserting a line with an unknown command does not change the loaded mesh |
| ZeroRead.WordIds | zero/read.cpp:45-50 | the ids of a face line are all its words' `split` ids in order, each below 2^32, or None when a `stoi` throws |
| ZeroRead.IdToIndexDecrements | zero/read.cpp:57-60 | a one-based id that fits in an `int` becomes its zero-based index; id 0 becomes -1; ids above `INT_MAX + 1` become negative |
| ZeroRead.Decrement | zero/read.cpp:57 | every id is decremented, with unsigned wrap-around, and the count is kept |
| ZeroRead.ParseFace | zero/read.cpp:56-60 | a face record exists exactly when the line's ids parse and number at least nine, and then holds ids 0, 2, 3, 5, 6, 8 decremented |
| ZeroRead.ParseFaces | zero/read.cpp:55-60 | all face records parse exactly when each does, and record j comes from line j |
| ZeroRead.FidsExact | zero/read.cpp:53-64 | face j is in `fids[x]` exactly when face j lists x as a corner |
| ZeroRead.FidsStep | zero/read.cpp:62-64 | the last face adds its index at exactly the corners it lists |
| ZeroRead.VnidLastWriter | zero/read.cpp:54-67 | `vnid[x]` is the normal index from the last face that lists x, and 0 (the vector's initial value) when none does |
| ZeroRead.LoadFails | zero/read.cpp:18-70 | a load fails when some face line has a bad number or fewer than nine ids; otherwise it succeeds exactly when corners and normal indices are in range |
| ZeroRead.LoadIsAssemble | zero/read.cpp:53-71 | a successful load is the assembly of the gathered positions, normals and parsed face records |
| ZeroRead.Load | zero/read.cpp:24-71 | `Mesh::read` with the word loop corrected: an `f` line with an unreadable number fails the load with `BadNumber`; a successful load has one vertex per `v` line at that line's position, one face per `f` line, and nothing tombstoned (its error cases, faces, adjacency and normals are in `LoadFails`, `LoadFaces`, `LoadAdjacency` and `LoadNormals`) |
| ZeroRead.LoadAsWritten | zero/read.cpp:24-71 | `Mesh::read` as written, over the words of the `ss.good()` loop: a word `stoi` cannot read fails the load with `BadNumber`; on success, one vertex per `v` line at its position and one face per loop word list (`LoadAsWrittenTrailing` relates it to `Load`) |
| ZeroRead.Build | zero/read.cpp:53-70 | the assembly from the gathered positions, normals and face words: an unreadable word gives `BadNumber`; on success one vertex per position, kept in order, one face per word list, nothing tombstoned |
| ZeroRead.AssembleShape | zero/read.cpp:61-70 | vertex x has id x and the x-th position; face j has id j and corners (a, d, g); nothing starts tombstoned |
| ZeroRead.LoadVertices | zero/read.cpp:69-70 | vertex x of a loaded mesh has id x and the position of the x-th `v` line |
| ZeroRead.LoadFaces | zero/read.cpp:55-61 | face j of a loaded mesh has id j and corners ids[0] - 1, ids[3] - 1, ids[6] - 1 of the j-th `f` line |
| ZeroRead.AssembleAdjacency | zero/read.cpp:53-70 | the assembled mesh is well formed with dense ids, and j is in x's face set exactly when x is a corner of face j |
| ZeroRead.LoadAdjacency | zero/read.cpp:53-70 | at load, faces and vertices agree both ways and every stored index is in range |
| ZeroRead.LoadNormals | zero/read.cpp:65-70 | each vertex's normal is the one its last listing face names, or the first normal when no face lists it |
| ZeroRead.NormalChoice | zero/read.cpp:65-70 | the normal at `vnid[x]` is the first one or the one x's last listing face names |
| ZeroRead.LoadNormalIndex | zero/read.cpp:70 | vertex x takes the in-range normal its `vnid` entry names |
| ZeroRead.LoadConsistent | zero/read.cpp:53-71 | a loaded mesh of proper triangles meets the simplifier's invariants |
| ZeroRead.WordIdsEmptyWord | zero/read.cpp:20 | a word list ending in the empty word has no ids: `stoi("")` throws |
| ZeroRead.LoadAsWrittenTrailing | zero/read.cpp:45-50 | the reader as written fails with `BadNumber` once an `f` line ends in white space, and equals `Load` on every other input |
| Quadric.OuterProd | zero/simplify.cpp:15-21 | entry (i, j) is x[i] y[j] |
| Quadric.Add | zero/simplify.cpp:23-29 | entry-wise sum of two 4x4 matrices |
| Quadric.AddMonoid | zero/simplify.cpp:23-29 | addition is associative and commutative with the zero matrix as identity |
| Quadric.OuterProdSymmetric | zero/simplify.cpp:79 | the outer product of a plane with itself is symmetric |
| Quadric.AddSymmetric | zero/simplify.cpp:79 | the sum of symmetric matrices is symmetric |
| Quadric.PlaneSumEntries | zero/simplify.cpp:75-80 | every entry of the accumulated quadric is the sum of the per-plane products |
| Quadric.PlaneSumSymmetric | zero/simplify.cpp:75-80 | a sum of plane outer products is symmetric |
| Quadric.PlaneSumConcat | zero/simplify.cpp:77-80 | summing the planes of two lists is adding their quadrics |
| Quadric.WithUnitLastRow | zero/simplify.cpp:37 | `setRow(3, (0, 0, 0, 1))` keeps rows 0-2 and replaces row 3 |
| Candidates.Midpoint | zero/simplify.cpp:40-41 | the fallback position is the average of the projected endpoints with w = 1 |
| Candidates.MakeCandidate | zero/simplify.cpp:31-47 | a degenerate summed quadric gives error `INF` (DBL_MAX) and the midpoint; otherwise the error is the quadric error of the solved position |
| Candidates.MakeCandidateSwap | zero/simplify.cpp:31-47 | error and position depend on the unordered pair only; swapping the endpoints swaps just the ids |
| Candidates.LessIsStrictOrder | zero/simplify.cpp:49-53 | `operator<` is irreflexive, transitive and total on the key (error, v1, v2) |
| Candidates.OrderedTieBreak | zero/simplify.cpp:50-51 | on equal errors (a, b) and (b, a) are different keys, so both can sit in the set |
| Candidates.BelowHead | zero/simplify.cpp:104 | nothing in a sorted queue orders before a candidate that precedes its head |
| Candidates.Insert | zero/simplify.cpp:160-161 | `emplace` keeps the queue sorted, does nothing when the key is present, and otherwise adds exactly the candidate |
| Candidates.InsertHasKey | zero/simplify.cpp:160-161 | after `emplace` the key is present |
| Candidates.InsertMembers | zero/simplify.cpp:160-161 | `emplace` keeps every queued candidate and adds nothing but the new one |
| Candidates.InsertAll | zero/simplify.cpp:160-161 | inserting a list keeps the queue sorted, keeps all old members, adds only listed ones, and every listed key ends up present |
| Initialize.FacePlanes | zero/simplify.cpp:60-71 | one plane per listed face, in list order |
| Initialize.ComputeQuadrics | zero/simplify.cpp:73-82 | one symmetric quadric per vertex, each entry the sum over its faces of plane[a] plane[b] |
| Initialize.VertexQuadric | zero/simplify.cpp:75-80 | vertex v's quadric is symmetric and sums its faces' plane products |
| Initialize.FaceCycle | zero/simplify.cpp:87-89 | a face's cyclic corner pairs (c[i], c[(i + 1) % n]) in corner order |
| Initialize.EdgeWalkFrom | zero/simplify.cpp:86-89 | every walked pair is a corner pair of some face |
| Initialize.CollectEdges | zero/simplify.cpp:84-98 | the `pairs` loop chooses exactly the first occurrences of each undirected edge (the reference definition) |
| Initialize.FirstOccurrencesCover | zero/simplify.cpp:90-95 | every walked pair's undirected edge is among the chosen pairs |
| Initialize.FirstOccurrencesDistinct | zero/simplify.cpp:92-94 | no undirected edge is chosen twice, in either orientation |
| Initialize.FirstOccurrencesOrientation | zero/simplify.cpp:89-91 | each chosen pair is oriented as its edge was first met in the face walk |
| Initialize.InitialQueue | zero/simplify.cpp:91 | the queue is sorted, holds a candidate for every chosen pair, and nothing else |
| Initialize.EdgeWalkInRange | zero/simplify.cpp:86-89 | on a well-formed mesh every walked pair joins in-range vertices |
| Initialize.EdgeWalkNoSelfLoops | zero/simplify.cpp:86-89 | on proper triangles no walked pair is a loop |
| Initialize.Construct | zero/simplify.cpp:55-98 | the constructor's engine holds the mesh, `computeQuadrics`' quadrics, one candidate per face edge oriented as first met, no edge twice, and is valid on a consistent mesh |
| Initialize.ConstructFacts | zero/simplify.cpp:84-98 | the initial queue is ready, covers every walked edge once, oriented as first met, and valid on a consistent mesh |
| Initialize.InitialQueueCovers | zero/simplify.cpp:84-98 | every undirected edge of the walk has a queued candidate |
| Initialize.InitialQueueOriented | zero/simplify.cpp:89-91 | every queued pair is oriented as its edge was first met |
| Initialize.InitialQueueDistinct | zero/simplify.cpp:90-94 | no undirected edge is queued twice |
| Initialize.InitialQueueNoSelfLoops | zero/simplify.cpp:86-91 | on proper triangles no queued candidate joins a vertex to itself |
| Initialize.SortedPairsDiffer | zero/simplify.cpp:49-53 | in the ordered set, candidates determined by their pair never repeat a pair |
| Simplify.LiveOnly | zero/simplify.cpp:114-119 | exactly the non-tombstoned ids, order kept |
| Simplify.Outside | zero/simplify.cpp:135-139 | `notInCandidate` holds exactly the corners other than v1 and v2 |
| Simplify.TouchedFaces | zero/simplify.cpp:112-119 | `fids` holds exactly the live faces of v1 or v2 |
| Simplify.Kept | zero/simplify.cpp:140 | exactly the touched faces with two corners outside the pair |
| Simplify.Survivors | zero/simplify.cpp:135-139 | for each kept face, its corners outside the pair |
| Simplify.NewFacesOf | zero/simplify.cpp:141-144 | the new face ids whose corner list holds x |
| Simplify.NewEdges | zero/simplify.cpp:142-143 | two edges (corner, vnew) per surviving pair, in order |
| Simplify.BuildCandidates | zero/simplify.cpp:160-161 | one fresh candidate per new edge, built from the extended quadrics and positions |
| Simplify.MergedNormal | zero/simplify.cpp:128-130 | the merged normal is a direction with w = 1 |
| Simplify.MeshKept | zero/simplify.cpp:134-150 | the re-created faces are exactly the touched faces with two outside corners |
| Simplify.MeshSurvivors | zero/simplify.cpp:135-146 | each re-created face's two outside corners, in range and different from v1 and v2 |
| Simplify.NewFaceList | zero/simplify.cpp:141-148 | new face k has id nf + k and corners: its surviving pair followed by vnew |
| Simplify.GrowFaceIds | zero/simplify.cpp:144 | each surviving corner gains the ids of the new faces it lies on, and nothing else changes |
| Simplify.ContractMesh | zero/simplify.cpp:112-158 | contraction appends one vertex at the candidate's position, keeps the old faces as a prefix, only adds face tombstones and tombstones exactly the two endpoints more (full description in `ContractMeshSpec`) |
| Simplify.ContractMeshWellFormed | zero/simplify.cpp:100-158 | contraction keeps every index in range and adds one vertex at the candidate's position |
| Simplify.OldVertexAt | zero/simplify.cpp:144 | an old vertex keeps id, position and normal, and gains exactly the appended faces it is a corner of |
| Simplify.OldVertexGrows | zero/simplify.cpp:144 | an old vertex's face set grows by exactly the new faces listing it |
| Simplify.NewVertexAt | zero/simplify.cpp:125-152 | the appended vertex has id vnew, the candidate's position, the merged normal and exactly the new faces |
| Simplify.KeptAt | zero/simplify.cpp:134-149 | the k-th new face comes from the k-th kept touched face and holds its outside corners then vnew |
| Simplify.ContractFaces | zero/simplify.cpp:141-148 | contraction keeps the old faces and appends one face per surviving pair |
| Simplify.FacesPrefix | zero/simplify.cpp:148 | the old faces are a prefix, followed by one new face per kept face |
| Simplify.KeptComplete | zero/simplify.cpp:140 | every touched face with two outside corners is re-created |
| Simplify.ContractMeshVertices | zero/simplify.cpp:144-152 | contraction meets the declarative vertex description |
| Simplify.ContractMeshFaces | zero/simplify.cpp:121-149 | contraction meets the declarative face description |
| Simplify.ContractMeshTombstones | zero/simplify.cpp:121-158 | the touched faces and both endpoints are tombstoned, nothing else newly |
| Simplify.ContractMeshSpec | zero/simplify.cpp:100-158 | the contraction meets the full declarative description of one step |
| Simplify.OutsideOfThree | zero/simplify.cpp:136-139 | on a triangle, `notInCandidate` keeps each corner that is neither endpoint, in order |
| Simplify.ReplacementWinding | zero/simplify.cpp:146-148 | a face [outside corners, vnew] winds as the in-place collapse would exactly when the collapsed corner was not the middle one |
| Simplify.TriangleOutside | zero/simplify.cpp:140 | a face holding both endpoints keeps one corner, a face holding one keeps two, and two kept corners differ |
| Simplify.ContractedStructure | zero/simplify.cpp:100-158 | ids stay dense, faces stay triangles in range, and tombstones name existing elements |
| Simplify.ContractedLiveCorners | zero/simplify.cpp:134-158 | live faces of the contracted mesh have only live corners |
| Simplify.ContractedAdjacencyAt | zero/simplify.cpp:114-152 | for a live vertex, a live face is in its face set exactly when the vertex is its corner |
| Simplify.ContractedConsistent | zero/simplify.cpp:100-158 | contracting two live vertices keeps the mesh invariants |
| Simplify.ContractMeshConsistent | zero/simplify.cpp:100-158 | the contraction as computed keeps the mesh invariants |
| Simplify.Contract | zero/simplify.cpp:112-161 | one contraction keeps the engine ready and adds exactly one vertex |
| Simplify.ContractEngine | zero/simplify.cpp:152-161 | the new quadric is the sum of the endpoints'; queued candidates stay; anything new is a fresh (x, vnew) candidate |
| Simplify.ContractQueuesNewEdges | zero/simplify.cpp:143-161 | both (corner, vnew) keys of every new face are queued |
| Simplify.ContractNoSelfLoops | zero/simplify.cpp:160-161 | contraction never queues a loop if none was queued |
| Simplify.ContractValid | zero/simplify.cpp:112-161 | contracting a live candidate keeps the engine valid |
| Simplify.FirstLive | zero/simplify.cpp:103-110 | how many candidates the pop loop discards: all stale, and the next one live |
| Simplify.Step | zero/simplify.cpp:100-164 | the step contracts exactly when some queued candidate is live; otherwise it empties the queue and changes nothing else |
| Simplify.StepContractsLeastLive | zero/simplify.cpp:103-162 | the step contracts the least live candidate in queue order, after popping the stale ones before it |
| Simplify.StepContracts | zero/simplify.cpp:103-162 | a step that meets a live candidate contracts it on the rest of the queue |
| Simplify.FirstLiveInRange | zero/simplify.cpp:108-110 | the candidate the pop loop stops at joins two live vertices |
| Simplify.StepValid | zero/simplify.cpp:100-164 | `simplifyStep` keeps the engine invariants |
| Simplify.ContractedLiveVertices | zero/simplify.cpp:152-158 | after contracting, both endpoints are dead, vnew is live, and the live count drops by one |
| Simplify.ContractLiveCount | zero/simplify.cpp:152-158 | contracting two distinct live vertices lowers the live count by exactly one |
| Simplify.StepLiveCount | zero/simplify.cpp:100-164 | a contracting step lowers the live count by one; a step that finds nothing live leaves the mesh alone |
| Simplify.Run | zero/simplify.cpp:100-164 | n steps keep the engine ready and contract at most n times |
| Simplify.RunBound | zero/simplify.cpp:100-164 | repeated steps keep the engine valid, each contraction removes one live vertex, and at most (live - 1) contractions happen |
| Homogeneous.Project | one/extra.cpp:4-6 | `project` keeps x, y and z |
| Homogeneous.Expand | one/extra.cpp:8-10 | `expand` keeps x, y and z and sets w = 1 |
| Homogeneous.ProjectExpand | one/extra.cpp:4-10 | projecting an expanded vector gives it back |
| Homogeneous.ExpandProject | one/extra.cpp:4-10 | expanding a projection gives the vector back exactly when its w is 1 |
| Homogeneous.Homogenized | two/extra.cpp:12-19 | the 3x3 block is copied, (3, 3) is 1 and the rest of row and column 3 is 0 |
| Homogeneous.ZeroMatrix | two/extra.cpp:13 | a default-constructed matrix is all zeros |
| Homogeneous.Transpose4 | one/curve.cpp:60 | `transposed()` swaps rows and columns |
| Homogeneous.ScalesAdd | one/mesh.cpp:19-20 | a·p + b·p equals (a + b)·p |
| OneMesh.MembershipExact | one/mesh.cpp:32-106 | `hasFace`, `hasEdge` and `hasVert` are exactly membership in the stored arrays |
| OneMesh.EdgeOther | one/mesh.cpp:96-98 | `Edge::v(u)` returns the endpoint that is not u, and `vs[0]` when u is neither |
| OneMesh.EdgeOtherInvolution | one/mesh.cpp:96-98 | taking the other endpoint twice returns to the start |
| OneMesh.Key | one/mesh.cpp:108-112 | the normalised pair (min, max) `operator<` compares |
| OneMesh.EdgeOrder | one/mesh.cpp:108-112 | `Edge::operator<` is a strict weak order whose classes are unordered endpoint pairs |
| OneMesh.CheckConsistent | one/mesh.cpp:244-306 | `consistent` returns true exactly when ids equal positions and every stored neighbour lists the element back |
| OneMesh.Consistent | one/mesh.cpp:244-306 | what `consistent` accepts: ids equal positions and every stored neighbour lists the element back; `CheckConsistent` returns true exactly on these meshes |
| OneMesh.ConsistentIgnoresGeometry | one/mesh.cpp:244-306 | `consistent` never looks at vertex geometry: two meshes that differ only there are both consistent or both not |
| OneMesh.VertexChecks | one/mesh.cpp:265-276 | the vertex loop passes exactly when each vertex's edges and faces have it |
| OneMesh.FaceChecks | one/mesh.cpp:278-289 | the face loop passes exactly when each face's edges and corners list it |
| OneMesh.EdgeChecks | one/mesh.cpp:291-302 | the edge loop passes exactly when each edge's faces and endpoints list it |
| OneGeometry.GeometryAsWritten | one/mesh.cpp:12-14 | the constructor as written stores the normal it is given, unnormalised |
| OneGeometry.GeometryAsWrittenKeepsNormal | one/mesh.cpp:12-14 | for every input the stored normal is the given one; whenever it is non-zero and not unit length it differs from the intended unit normal |
| OneGeometry.MakeGeometry | one/mesh.cpp:12-13 | the intended constructor stores the position and a normal with w = 1 |
| OneGeometry.MakeGeometryUnit | one/mesh.cpp:13 | with a normalising square root, every non-zero normal is stored with unit length |
| OneGeometry.Construct | one/mesh.cpp:12-14 | the constructor under a normal rule: the position is stored as given; `KeepNormal` stores the normal as given (the code as written) and `Normalise` stores w = 1 and the normalised direction (the intended code) |
| OneGeometry.LinearCombination | one/mesh.cpp:16-24 | the blended normal has w = 1 |
| OneGeometry.CombineW | one/mesh.cpp:18-19 | the w coordinate of a combination is the weighted sum of w coordinates |
| OneGeometry.CombineSame | one/mesh.cpp:18-19 | combining copies of one point scales it by the total weight |
| OneGeometry.AffineKeepsPoints | one/mesh.cpp:18-19 | with weights summing to one, a combination of points is a point |
| OneGeometry.AffineReproduces | one/mesh.cpp:18-19 | with weights summing to one, combining copies of one position gives that position |
| OneGeometry.CombinationNormalUnit | one/mesh.cpp:22 | the blended normal has unit length whenever the weighted sum of normals is non-zero |
| OneClosure.KeyListSides | one/mesh.cpp:320-328 | each map key is a side of some face |
| OneClosure.KeyListSorted | one/mesh.cpp:331 | the keys ascend strictly under `Edge::operator<` |
| OneClosure.KeyListCovers | one/mesh.cpp:321-327 | every side of every face has its key in the map |
| OneClosure.OnFace | one/mesh.cpp:323-326 | face i is pushed for key k once per side of it with that key |
| OneClosure.SidesDistinct | one/mesh.cpp:323-326 | the three sides of a proper triangle have three different keys |
| OneClosure.FacesOnMembers | one/mesh.cpp:321-327 | `edge2face[k]` lists face x exactly when a side of x has key k, in ascending order |
| OneClosure.FacesOnStrict | one/mesh.cpp:321-327 | over proper triangles `edge2face[k]` strictly ascends |
| OneClosure.FirstFace | one/mesh.cpp:326 | the first face in face order with a side of key k |
| OneClosure.FirstCorner | one/mesh.cpp:323-324 | the first corner of a face whose side has key k |
| OneClosure.Orientation | one/mesh.cpp:326-332 | the map keeps the endpoints in the order first inserted |
| OneClosure.EdgeList | one/mesh.cpp:329-337 | one edge per map key, each with two endpoints and two faces |
| OneClosure.EdgesWithFaceMembers | one/mesh.cpp:350-353 | `face2edge[i]` lists an edge exactly when one of its face slots names i, ascending |
| OneClosure.EdgesWithFaceStrict | one/mesh.cpp:350-353 | when no edge names a face twice, `face2edge[i]` strictly ascends |
| OneClosure.Closure | one/mesh.cpp:308-364 | `closure` fails with a corner error exactly when a corner is out of range; on success the mesh is consistent and faces, vertex ids and geometry are kept |
| OneClosure.ClosureStages | one/mesh.cpp:308-364 | a successful `closure` passed every stage |
| OneClosure.BuiltVertex | one/mesh.cpp:314-347 | a vertex is rebuilt with fresh face and edge sets and its geometry kept |
| OneClosure.BuiltFace | one/mesh.cpp:354-356 | a face keeps its corners and takes the first three edges listing it |
| OneClosure.EdgeAt | one/mesh.cpp:331-337 | the edge built for a key: id equal to position, endpoints as first met, first two faces |
| OneClosure.ClosureEdges | one/mesh.cpp:320-337 | the rebuilt edges are exactly the distinct face sides, one each, strictly ascending, ids equal to positions |
| OneClosure.ClosureOrientation | one/mesh.cpp:326-332 | each edge keeps the direction in which the face walk first met it |
| OneClosure.ClosureEdgeFaces | one/mesh.cpp:335-336 | an edge's two faces are the first two faces having its side |
| OneClosure.FirstTwo | one/mesh.cpp:335-336 | the first two entries of `edge2face[k]` are the first two faces with side k |
| OneClosure.ClosureIncidence | one/mesh.cpp:341-347 | after `closure` each vertex knows exactly its faces and edges |
| OneClosure.EdgeListDistinctFaces | one/mesh.cpp:335-336 | over proper triangles an edge never names the same face twice |
| OneClosure.ClosureFaceEdges | one/mesh.cpp:350-356 | over proper triangles a face's three edges are exactly its three sides, in ascending id order |
| OneClosure.ClosureTwoFaces | one/mesh.cpp:335-363 | over proper triangles, `closure` succeeds only when each edge lies in exactly the two faces having it as a side |
| OneClosure.ListSideNamesFace | one/mesh.cpp:291-296 | a face with the side of edge e is one of the faces e names |
| OneClosure.KeyNamesEdge | one/mesh.cpp:331-334 | distinct edges have distinct keys |
| OneClosure.ClosureIgnoresGeometry | one/mesh.cpp:308-364 | whether `closure` succeeds depends on the faces and vertex ids, never on vertex geometry |
| OneRead.SplitPair | one/mesh.cpp:157-172 | `_split` reads the first and last non-empty piece, or fails when a piece does not parse or there is no piece |
| OneRead.NonEmptyPieces | one/mesh.cpp:163-170 | the pieces `_split` pushes are exactly the non-empty ones, in order |
| OneRead.NumeralsReadBack | one/mesh.cpp:167-170 | `stoi` reads every numeral of a list back and `(unsigned)` leaves it alone |
| OneRead.SplitNumerals | one/mesh.cpp:163-170 | numerals joined by '/' split back into the same numerals |
| OneRead.SplitPairTriple | one/mesh.cpp:157-172 | a `v/vt/vn` word names its vertex and normal |
| OneRead.SplitPairNoTexture | one/mesh.cpp:157-172 | a `v//vn` word names its vertex and normal |
| OneRead.SplitPairSingle | one/mesh.cpp:157-172 | a bare `v` word names its vertex as vertex and normal |
| OneRead.SplitPairEmpty | one/mesh.cpp:169-171 | the empty word has no piece: `*ids.begin()` of an empty vector is an error |
| OneRead.CollectOk | one/mesh.cpp:195-200 | collecting succeeds exactly when every result does, keeping values in order |
| OneRead.CollectThenFail | one/mesh.cpp:195-200 | after values, the first failure is the one reported |
| OneRead.ParseWordsOk | one/mesh.cpp:195-200 | a line parses exactly when each word does, and pair k comes from word k |
| OneRead.ParseFacesOk | one/mesh.cpp:193-200 | all `f` lines parse exactly when each does, and entry j comes from line j |
| OneRead.Records | one/mesh.cpp:204-213 | face records from the first three pairs; fails for a face with fewer than three pairs or a corner outside the vertices |
| OneRead.Initial | one/mesh.cpp:209-215 | the mesh handed to `closure`: proper triangles built from the face records; each vertex's geometry is built by the given normal rule (`InitialKept` states the geometry) |
| OneRead.ReadIsClosure | one/mesh.cpp:174-223 | a successful read is `closure` of the initial mesh, after every word parsed and every face had three words |
| OneRead.Read | one/mesh.cpp:174-223 | `Mesh::read` with the word loop corrected, storing normals by the given rule (`Normalise` is the intended constructor): a successful read is consistent, has one vertex per `v` line at that line's position and one face per `f` line (faces, normals and failures are in `ReadFaces`, `ReadVertices` and `ReadFails`) |
| OneRead.ReadAsWritten | one/mesh.cpp:174-223 | `Mesh::read` as written, over the words of the `ss.good()` loop and keeping each normal unnormalised: on success consistent, one vertex per `v` line at its position, one face per loop word list (`ReadAsWrittenTrailing`, `ReadAsWrittenVertices` and `ReadAsWrittenAgainstRead` relate it to `Read`) |
| OneRead.InitialKept | one/mesh.cpp:209-217 | `closure` keeps face j's id and corners and vertex x's id and geometry |
| OneRead.ClosureKeeps | one/mesh.cpp:308-364 | `closure` keeps every face's id and corners and every vertex's id and geometry |
| OneRead.RecordOfLine | one/mesh.cpp:197-208 | record j holds the decremented vertex numbers of the first three words of line j |
| OneRead.ReadFails | one/mesh.cpp:171-208 | a read fails when some face word does not parse or some `f` line has fewer than three words |
| OneRead.ReadFaces | one/mesh.cpp:204-209 | face j has id j and the decremented first numbers of the first three words of the j-th `f` line |
| OneRead.LastNormalOf | one/mesh.cpp:210-215 | the geometry built, under either normal rule, from the normal `vert2norm` picks is the one the last face listing the vertex names |
| OneRead.ReadVertices | one/mesh.cpp:203-215 | vertex x has id x, the x-th position and the geometry the normal rule builds from the normal of its last listing face |
| OneRead.ReadAsWrittenVertices | one/mesh.cpp:203-215 | read as written, vertex x has id x, the x-th position and, unnormalised, the normal its last listing face names, which is one of the listed normals |
| OneRead.ReadConsistent | one/mesh.cpp:217-222 | a successful read is consistent |
| OneRead.TrailingSpaceFails | one/mesh.cpp:195-199 | a line whose words parse is read by the corrected loop, while the loop as written fails on it once it ends in white space |
| OneRead.ParseWordsThenFail | one/mesh.cpp:195-199 | a failing word after good ones fails the line with that word's error |
| OneRead.ThreeWordsParse | one/mesh.cpp:195-199 | three good words parse to their three pairs |
| OneRead.ReadAsWrittenTrailing | one/mesh.cpp:193-200 | the reader as written fails once an `f` line ends in white space, and on every other input equals `Read` with normals kept as given |
| OneRead.ClosedRulesAgree | one/mesh.cpp:209-217 | after `closure` the two normal rules give the same faces and positions, and the normalising rule's normal is the normalised form of the kept one |
| OneRead.BuildRulesOk | one/mesh.cpp:12-14 | the normal rule never decides whether reading the lists succeeds |
| OneRead.BuildRulesAgree | one/mesh.cpp:203-222 | both normal rules succeed on the same lists, with the same faces and positions, and normals related by normalisation |
| OneRead.ReadRulesAgree | one/mesh.cpp:174-223 | `Read` under the two normal rules succeeds on the same files, with the same faces and positions, and normals related by normalisation |
| OneRead.ReadAsWrittenAgainstRead | one/mesh.cpp:174-223 | against the reader with both faults corrected: the reader as written fails on an `f` line ending in white space; otherwise both succeed on the same files with the same faces and positions, and the corrected normal is the normalised form of the one kept as written |
| OneSubdivide.EvenWeights | one/mesh.cpp:378-382 | BETA per neighbour, 3/16 at valence 3 or less and 3/(8 valence) above, then 1 - BETA valence |
| OneSubdivide.WeightsAffine | one/mesh.cpp:379-411 | the even, odd and midpoint weights each sum to one |
| OneSubdivide.Neighbours | one/mesh.cpp:374-377 | the other endpoint of each of x's edges, in ascending edge id order |
| OneSubdivide.Off | one/mesh.cpp:390-393 | the corners of a face that are not endpoints of the edge, in corner order |
| OneSubdivide.OffEdge | one/mesh.cpp:389-394 | the off-edge corners of both faces of an edge |
| OneSubdivide.Midpoint | one/mesh.cpp:402-414 | the pushed vertex of edge e has id nv + e and lies halfway between the endpoints |
| OneSubdivide.Through | one/mesh.cpp:424-426 | `ev`: the face's edges through v, in edge order |
| OneSubdivide.Piece | one/mesh.cpp:421-437 | corner pieces hold the old corner and its two edge vertices; the centre piece holds the three edge vertices |
| OneSubdivide.Orient | one/mesh.cpp:225-242 | `_orient` swaps the first two corners when the normals point against each other |
| OneSubdivide.OrientAgrees | one/mesh.cpp:225-242 | after `_orient` the face's normal never points against the reference face's |
| OneSubdivide.OnKey | one/mesh.cpp:100-102 | a vertex lies on an edge exactly when it is one end of the edge's key |
| OneSubdivide.CornerOnTwoSides | one/mesh.cpp:424-426 | of a proper triangle's three sides, each corner lies on exactly two |
| OneSubdivide.ClosureResolvesCorners | one/mesh.cpp:423-426 | in a mesh `closure` built from proper triangles, every corner lies on two of its face's edges, so `ev` is filled |
| OneSubdivide.OffOne | one/mesh.cpp:390-393 | a side of a proper triangle leaves exactly one corner off |
| OneSubdivide.ClosureStencils | one/mesh.cpp:389-397 | each edge's two faces offer exactly two off-edge corners, matching the four odd weights |
| OneSubdivide.NeighboursAdjacent | one/mesh.cpp:374-376 | each neighbour shares an edge with the vertex |
| OneSubdivide.NeighboursCover | one/mesh.cpp:374-376 | every edge of the vertex contributes its other end |
| OneSubdivide.ThroughFacts | one/mesh.cpp:424-426 | `ev` holds exactly the face's edges through v, in edge order |
| OneSubdivide.CornerPiece | one/mesh.cpp:427-430 | corner piece i is the old corner and the new vertices of `ev` |
| OneSubdivide.CentrePiece | one/mesh.cpp:434-437 | the centre piece joins the new vertices of the three edges |
| OneSubdivide.SubdivideStages | one/mesh.cpp:366-450 | a successful subdivision passed both checks and `closure` |
| OneSubdivide.Subdivide | one/mesh.cpp:366-450 | `loopSubdivide`: a successful subdivision is consistent, with one new vertex per old edge and four faces per old face (placement and face layout are in `SubdividePlaces` and `SubdivideFace`) |
| OneSubdivide.MovedConsistent | one/mesh.cpp:446-449 | moving vertex positions keeps a mesh consistent |
| OneSubdivide.SubdivideShape | one/mesh.cpp:366-450 | the result is consistent, with one new vertex per edge and four faces per face |
| OneSubdivide.SubdividePlaces | one/mesh.cpp:372-449 | old vertices take the even rule and vertex nv + e the odd rule of edge e |
| OneSubdivide.SubdivideFace | one/mesh.cpp:418-440 | face 4f + i holds piece i's corners, keeps its last corner, and faces the same way as f |
| OneSubdivide.RefinedTriangles | one/mesh.cpp:418-440 | the refined faces are proper triangles on the enlarged vertex array |
| OneSubdivide.ClosedMeshSubdivides | one/mesh.cpp:366-443 | subdividing a `closure` of proper triangles passes both checks and never hands `closure` an out-of-range corner |
| OneSubdivide.EvenIsPoint | one/mesh.cpp:378-383 | the even rule maps points to a point |
| OneSubdivide.OddIsPoint | one/mesh.cpp:387-398 | the odd rule maps points to a point when the stencil is complete |
| OneSubdivide.PlacesArePoints | one/mesh.cpp:446-449 | positions set by both rules from points are points |
| OneSubdivide.SubdividePoints | one/mesh.cpp:366-450 | subdividing a `closure` of proper triangles whose positions are points leaves every position a point |
| OneCurve.PerSegment | one/curve.cpp:132 | samples per segment: `steps + 1` below `INT_MAX`, 0 when `(int) steps` is negative, and no count at `INT_MAX`, where `st <= (int) steps` never ends |
| OneCurve.Segment | one/curve.cpp:128-131 | segment s uses control points 3s to 3s + 3 |
| OneCurve.SampledAt | one/curve.cpp:128-136 | step st of segment s sits at s·per + st and samples that segment's control points at that step |
| OneCurve.Binormals | one/curve.cpp:137-141 | the B list starts with (0, 0, 1) and pushes one entry per sample |
| OneCurve.BinormalsPrefix | one/curve.cpp:137-141 | more samples only append to B |
| OneCurve.BinormalsLast | one/curve.cpp:139-141 | each pushed B follows from the previous B and the sample's tangent |
| OneCurve.FrameRecurrence | one/curve.cpp:137-141 | B starts at (0, 0, 1) and each next entry is the normalised T × N |
| OneCurve.Assemble | one/curve.cpp:145-151 | the curve has one point per sample, with B read in range because B has one more entry |
| OneCurve.AssembleFrames | one/curve.cpp:137-151 | before rectification N is the normalised B × T and the next B the normalised T × N |
| OneCurve.EvalBezier | one/curve.cpp:90-154 | `evalBezier` exits exactly when the control points are not 3n + 1 with n ≥ 1; with a valid count, `steps == INT_MAX` is the endless loop |
| OneCurve.AssembledSamples | one/curve.cpp:128-151 | the assembled frames sample each segment in turn |
| OneCurve.RectifyKeepsSamples | one/curve.cpp:71-88 | `rectifyNormal` keeps the samples when it keeps positions and tangents |
| OneCurve.BezierRectified | one/curve.cpp:132-153 | with 3n + 1 points and `steps` below `INT_MAX` the curve is the rectified assembly of the samples; at `INT_MAX` the sample loop never ends |
| OneCurve.BezierSamples | one/curve.cpp:90-154 | with 3n + 1 points the curve exists exactly when `steps < INT_MAX`, and samples each segment `steps + 1` times; at `INT_MAX` the loop never ends and above it there are no samples |
| OneCurve.ChangeOfBasis | one/curve.cpp:22-60 | M = (BSPLINE · BERNSTEIN⁻¹)ᵀ is the matrix with Mᵀ·BERNSTEIN = BSPLINE |
| OneCurve.ToBezier | one/curve.cpp:57-63 | the Bézier points of a window are M times its coordinates |
| OneCurve.WindowsMeet | one/curve.cpp:64-67 | consecutive windows share an end point, which is why only window 0 emits its first |
| OneCurve.Bsp2Bez | one/curve.cpp:55-69 | 3(k - 3) + 1 points for k ≥ 4 inputs, none otherwise, and window i's Bézier form at 3i |
| OneCurve.EvalBspline | one/curve.cpp:156-183 | exits exactly with fewer than four points, never trips the Bézier count check, ends exactly when `steps < INT_MAX`, and samples each window's Bézier form |
| OneCurve.BsplineSamples | one/curve.cpp:180-182 | `evalBezier` on `bsp2bez`'s output samples each window's Bézier form in turn when `steps < INT_MAX`; at `INT_MAX` it never ends |
| OneCurve.EvalCircle | one/curve.cpp:185-214 | `steps + 1` points; an error only when `steps + 1` wraps to 0 |
| OneCurve.CircleFrames | one/curve.cpp:194-211 | every point lies in the xy plane with B up, T orthogonal to V and N, and T × N = B |
| OneSurf.CheckFlat | one/surf.cpp:11-20 | `checkFlat` is true exactly when every V, T and N has zero z |
| OneSurf.CircleIsFlat | one/surf.cpp:11-20 | a circle from `evalCircle` passes `checkFlat` |
| OneSurf.CRem | one/surf.cpp:25 | C++ `%` truncates toward zero, so the remainder takes the dividend's sign |
| OneSurf.IndexRange | one/surf.cpp:25-26 | for non-negative positions the index lies in [0, nm) and names row i % n, column j % m |
| OneSurf.IndexInside | one/surf.cpp:25-26 | inside the grid the index is i·m + j |
| OneSurf.IndexOnto | one/surf.cpp:25-26 | every grid index is the index of its own row and column |
| OneSurf.RowFaces | one/surf.cpp:32-44 | one inner-loop pass adds row i's cells when the row is kept |
| OneSurf.MakeFaces | one/surf.cpp:29-51 | `makeFaces` appends exactly the grid's triangles to the face list |
| OneSurf.GridCount | one/surf.cpp:31-44 | 2m(n - 1) triangles for an open profile, 2nm when closed |
| OneSurf.GridCell | one/surf.cpp:34-43 | cell (i, j) holds its two triangles at 2(i·m + j) and the next slot |
| OneSurf.GridInRange | one/surf.cpp:34-50 | every triangle corner is a vertex of the n × m layout |
| OneSurf.Layout | one/surf.cpp:82-86 | the vertex array lists point i of every column before point i + 1 |
| OneSurf.LayoutIndex | one/surf.cpp:82-86 | grid position (i, j) holds point i of column j |
| OneSurf.SurfRev | one/surf.cpp:54-89 | `makeSurfRev` gives a surface exactly when the profile is flat, and then every triangle corner names one of its positions and normals (vertex layout in `SurfRevShape`) |
| OneSurf.GenCyl | one/surf.cpp:91-123 | `makeGenCyl` gives a surface exactly when the profile is flat, and then it has one vertex per profile and sweep point pair, every triangle corner in range (frames in `GenCylShape`) |
| OneSurf.SurfRevShape | one/surf.cpp:54-89 | a surface of revolution exists exactly for a flat profile, with nm vertices, 2m(n - 1) triangles in range, and the profile as column 0 |
| OneSurf.GenCylShape | one/surf.cpp:91-123 | a generalised cylinder exists exactly for a flat profile, with nm vertices, and vertex (i, j) is profile point i in sweep frame j |
| OneSurf.ObjOutput | one/surf.cpp:187-214 | the written file as lines: `v`, `vn`, one `vt`, then `f` |
| OneSurf.ObjGather | one/surf.cpp:187-214 | read back, the written file gives the surface's positions and normals and one word list per triangle |
| OneSurf.CornerReadsBack | one/surf.cpp:209-210 | a written corner `a/1/a` reads back as vertex and normal a - 1 |
| OneSurf.FaceTextWords | one/surf.cpp:206-212 | the words of a written face line are its three corners |
| OneSurf.FaceLineReadsBack | one/surf.cpp:206-212 | a written face line reads back as its corners with the corrected loop, and fails with the loop as written because it ends in a space |
| OneSurf.ObjFacesReadBack | one/surf.cpp:204-213 | the faces parsed from a written surface are its triangles, each corner naming the same vertex and normal |
| TwoParents.AncestorAdd | two/SkeletalModel.cpp:68-74 | walking a steps and then b steps up the parents is walking a + b steps |
| TwoParents.AncestorRange | two/SkeletalModel.cpp:68-74 | with every parent a joint or -1, every ancestor is a joint or -1 |
| TwoParents.DepthUnique | two/SkeletalModel.cpp:70-73 | a joint reaches a root in exactly one number of steps |
| TwoParents.ChainDistinct | two/SkeletalModel.cpp:70-73 | the path from a joint up to a root never repeats a joint |
| TwoParents.NoCycle | two/SkeletalModel.cpp:70-73 | a joint below a root is never its own ancestor |
| TwoParents.DepthBound | two/SkeletalModel.cpp:68-74 | a joint reaching a root does so in fewer steps than there are joints |
| TwoParents.BelowTrans | two/SkeletalModel.cpp:70-73 | lying below is transitive |
| TwoParents.BelowChain | two/SkeletalModel.cpp:70-73 | two joints above a joint lie on one path |
| TwoParents.ChildToward | two/SkeletalModel.cpp:73 | a joint strictly below j lies below some child of j |
| TwoParents.AboveRoot | two/SkeletalModel.cpp:70-71 | only the root itself lies above a root |
| TwoSkeleton.Translation | two/SkeletalModel.cpp:69 | `Matrix4f::translation(v)` is the identity with v in the last column |
| TwoSkeleton.Linking | two/SkeletalModel.cpp:56-74 | the joints `loadSkeleton` links: one per line, each transform the translation by its offset, matrices per joint, and a root exactly when some line has parent -1, that root being such a line (children in `LinkingSpec`) |
| TwoSkeleton.ChildrenOfSpec | two/SkeletalModel.cpp:68-74 | children come out ascending, and c is a child of k exactly when line c names k |
| TwoSkeleton.LastRootSpec | two/SkeletalModel.cpp:70-71 | the root is set exactly when some line has parent -1, and then it is the last such line |
| TwoSkeleton.LinkingSpec | two/SkeletalModel.cpp:64-74 | one joint per line with transform `translation(offset)`, children exactly the lines naming it in ascending order, and the last -1 line as root |
| TwoSkeleton.Parents | two/SkeletalModel.cpp:59-62 | the parent array has one entry per line, the line's parent |
| TwoSkeleton.LinkingFamily | two/SkeletalModel.cpp:68-74 | the linked joints form exactly the family the parent array describes |
| TwoSkeleton.LinkingRoot | two/SkeletalModel.cpp:70-71 | there is a root exactly when some line has parent -1, and it is a root of the parent array |
| TwoSkeleton.LoadSkeleton | two/SkeletalModel.cpp:45-75 | fails exactly when some parent is neither -1 nor a joint, naming the first such line; otherwise gives the linked skeleton |
| TwoSkeleton.PassInherits | two/SkeletalModel.cpp:142-154 | a pass stores m·transform(j) for j first, and each later joint its parent's matrix times its own transform |
| TwoSkeleton.Pass | two/SkeletalModel.cpp:142-154 | a completed pass from joint j first stores m·transform(j) for j and assigns only joints (inheritance, coverage and ending in `PassInherits`, `PassTree` and `PassFromRootEnds`) |
| TwoSkeleton.PassAll | two/SkeletalModel.cpp:145-153 | a completed pass over siblings makes at least one assignment per sibling and assigns only joints |
| TwoSkeleton.PassAllInherits | two/SkeletalModel.cpp:145-153 | over siblings, each assignment stores m·transform or inherits from an earlier one |
| TwoSkeleton.Written | two/SkeletalModel.cpp:144-151 | writing assignments into the matrix list keeps its length; later writes win |
| TwoSkeleton.WrittenTogether | two/SkeletalModel.cpp:144-151 | after the same assignments, each entry is untouched in both lists or the bind entry is the inverse of the current one |
| TwoSkeleton.ComputeBind | two/SkeletalModel.cpp:142-167 | only the bind matrices change; fails exactly without a root or when the pass does not end |
| TwoSkeleton.UpdateCurrent | two/SkeletalModel.cpp:149-180 | only the current matrices change; fails exactly without a root or when the pass does not end |
| TwoSkeleton.BindInvertsCurrent | two/SkeletalModel.cpp:142-154 | after both passes every reached joint's bind matrix is the inverse of its current matrix; others keep theirs |
| TwoSkeleton.PassEndsBelow | two/SkeletalModel.cpp:142-154 | a pass from a joint d steps below a root ends when fuel and depth reach the joint count |
| TwoSkeleton.PassFromRootEnds | two/SkeletalModel.cpp:142-154 | for any file whose parents name joints or -1 and that has a root, the pass from the root ends within one step per joint, in any line order |
| TwoHierarchy.ChildBelow | two/SkeletalModel.cpp:73 | a joint lies below its parent |
| TwoHierarchy.SiblingsApart | two/SkeletalModel.cpp:142-147 | two different children of a joint in the root's tree have no joint below both |
| TwoHierarchy.PassTree | two/SkeletalModel.cpp:142-147 | a pass from a joint of the root's tree assigns exactly the joints below it, each once |
| TwoHierarchy.PassAllTree | two/SkeletalModel.cpp:145-146 | a pass over a joint's children assigns exactly the joints below them, each once |
| TwoHierarchy.PassVisitsTreeOnce | two/SkeletalModel.cpp:142-179 | for any file whose parents name joints or -1 and that has a root, the pass from the root ends, assigns no joint twice, and assigns exactly the joints below the root |
| TwoSkeleton.DrawJoint | two/SkeletalModel.cpp:77-84 | `_drawJoint` leaves the matrix stack as it found it |
| TwoSkeleton.DrawJointIsPass | two/SkeletalModel.cpp:77-84 | the spheres sit at the matrices the transform pass accumulates from the stack's top, and both end together |
| TwoSkeleton.DrawSkeleton | two/SkeletalModel.cpp:100-124 | `_drawSkeleton` leaves the matrix stack as it found it |
| TwoSkeleton.BoxFrame | two/SkeletalModel.cpp:111-120 | a bone's box is drawn with the top after three pushes, and three pops restore the stack |
| TwoSkeleton.DrawSkeletonLoads | two/SkeletalModel.cpp:100-124 | `_drawSkeleton` ends exactly when the pass does and loads one matrix per joint and one per bone |
| TwoSkeleton.EulerAsWritten | two/SkeletalModel.cpp:135 | the rotation as written: with the x and y angles at zero it is exactly the rotation about x by the third angle |
| TwoSkeleton.Euler | two/SkeletalModel.cpp:134-135 | the intended rotation: with the x and y angles at zero it is exactly the rotation about z by the third angle |
| TwoSkeleton.ZSliderTurnsAboutX | two/SkeletalModel.cpp:135 | as written, a quarter turn on the z angle alone keeps the x axis and moves y onto z: a turn about x |
| TwoSkeleton.ZSliderTurnsAboutZ | two/SkeletalModel.cpp:134-135 | corrected, the z angle alone keeps the z axis and turns x to (cos, sin, 0) |
| TwoSkeleton.SetJointTransform | two/SkeletalModel.cpp:132-140 | fails exactly for an index outside the joints; otherwise only that joint's upper-left 3x3 becomes the rotation |
| TwoSkeleton.SetJointTransformIdempotent | two/SkeletalModel.cpp:137-139 | setting the same rotation twice is setting it once |
| TwoSkeleton.SetJointTransformAsWritten | two/SkeletalModel.cpp:132-140 | `setJointTransform` with the rotation as written: fails exactly for an index outside the joints, leaves every other joint alone, and with the x and y angles at no turn sets the joint's 3x3 to a turn about x by the z angle |
| TwoSkeleton.MatVecIdentity | two/SkeletalModel.cpp:194 | the identity matrix leaves every vector unchanged |
| TwoSkeleton.SkinSum | two/SkeletalModel.cpp:191-195 | the weighted sum of joint-carried points: all-zero weights give the zero vector (bind pose and single joint in `SkinAtBindPose` and `SkinOneJoint`) |
| TwoSkeleton.UpdateMesh | two/SkeletalModel.cpp:182-198 | fails exactly when a vertex lacks a bind vertex or a full weight row; otherwise only the current vertices change, in number kept |
| TwoSkeleton.SkinAtBindPose | two/SkeletalModel.cpp:191-195 | when every joint's current and bind transforms cancel, the skinning sum is the point scaled by the total weight |
| TwoSkeleton.UpdateMeshAtBindPose | two/SkeletalModel.cpp:182-198 | in the bind pose, with weights summing to one, every vertex returns to its bind position |
| TwoSkeleton.SkinOneJoint | two/SkeletalModel.cpp:191-195 | weight 1 on joint j and 0 elsewhere gives where joint j carries the point |
| TwoSkeleton.UpdateMeshRigid | two/SkeletalModel.cpp:182-198 | a vertex attached to a single joint moves rigidly with that joint |
| TwoSkeleton.LoadModel | two/SkeletalModel.cpp:11-20 | succeeds exactly when every parent names a joint or -1 and a root exists; then the mesh is loaded, attachment row q is the weight row of line q with one weight per joint, and bind matrices invert current ones |
| TwoSkeleton.LoadSkin | two/SkeletalModel.cpp:15-16 | fails exactly when there are attachment lines but no joints; otherwise the loaded vertices and faces, and row q is the weight row of line q |
| TwoSkeleton.LinkingFresh | two/SkeletalModel.cpp:64-69 | a fresh skeleton is indexed, with one joint per line and all matrices at their default |
| TwoSkeleton.Pose | two/SkeletalModel.cpp:18-19 | both passes keep the joints and root, and fail exactly when there is no root or the pass from it does not end (`PoseBindsInverse` gives the bind inverses) |
| TwoSkeleton.PoseBindsInverse | two/SkeletalModel.cpp:18-19 | posing from defaults binds every joint to the inverse of its current matrix |
| TwoSkeleton.LinkingPoses | two/SkeletalModel.cpp:13-19 | a file whose parents name joints or -1 and that names a root poses without error |
| TwoSkeleton.DefaultsBound | two/SkeletalModel.cpp:18-19 | from defaults, joints that kept their matrices or were bound to inverses bind inverses |
| TwoMesh.Load | two/Mesh.cpp:9-35 | appends one bind vertex per `v` line and one face per `f` line with indices decremented; the current vertices copy the bind vertices |
| TwoMesh.VerticesAppend | two/Mesh.cpp:18-24 | reading lines in two parts reads the parts' vertices in order |
| TwoMesh.VertexInOrder | two/Mesh.cpp:21-24 | the `v` line at q becomes bind vertex number (count of earlier `v` lines) |
| TwoMesh.FacesAppend | two/Mesh.cpp:18-31 | reading lines in two parts reads the parts' faces in order |
| TwoMesh.FaceInOrder | two/Mesh.cpp:25-31 | the `f` line at q becomes face number (count of earlier `f` lines), each index one lower |
| TwoMesh.FaceAt | two/Mesh.cpp:25-31 | for any file, the `f` line at q becomes face number (count of earlier `f` lines), each index decremented as an `unsigned` |
| TwoMesh.FaceZeroWraps | two/Mesh.cpp:26-30 | for any file, an index 0 in an `f` line wraps to the largest `unsigned` value in the face it becomes |
| TwoMesh.Row | two/Mesh.cpp:67-70 | a weight row has one entry per joint |
| TwoMesh.LoadAttachments | two/Mesh.cpp:59-72 | one row per line, entry 0 zero and entries 1 to numJoints - 1 the line's numbers (0 when missing); fails when a line exists but there is no joint |

## Left out

- Stream tokenising of numbers (`>>` into `float`, `int` and `unsigned`) is not modelled. The readers take pre-tokenised lines. The character-level word loop is modelled only for the text of `f` lines.
- The 200-byte `MAX_BUFFER_SIZE` of `getline` is not modelled. A longer line would be cut and the stream would fail, and the model assumes this never happens.
- `float` and `double` arithmetic is modelled on `real`. Rounding, `NaN`, infinities and the 1e-2 determinant threshold's numerical behaviour are not modelled. `INF` is the exact value of `DBL_MAX`.
- Numerical routines are function parameters: square root and normalisation, matrix inverse and determinant, 4x4 products in the skeleton code, `sin`/`cos`, `atan2`, `rotateY`, the plane of a face, `evalBezierAtT` and `rectifyNormal`. Their results are constrained only where a property needs it.
- Rendering is left out: all OpenGL and GLUT calls, `draw`, `drawCurve`, `drawSurface`, `drawNormals` and `Mesh::draw` in `two/`. The drawing traversals are modelled only as the matrices they load.
- File opening, the `File not found` exit in `loadSkeleton`, `cerr` messages and the `print` methods are left out.
- `MatrixStack.cpp` is not part of this model. The stack is a sequence with push-multiply and pop.
- The user interface and the command loop in `zero/main.cpp` are left out. `Simplify.Run` stands for repeated calls of `simplifyStep`.
- The recursive passes and drawing traversals carry a fuel bound. Running out of fuel is reported as failure. `TwoSkeleton.PassFromRootEnds` proves that one unit of fuel per joint suffices for every file whose parents name joints or -1 and that has a root.
- Joints that no root reaches are left out: ones whose parent chain never reaches -1, such as cycles. The source never visits them, and the model proves only that their matrices keep their defaults.
- The model does not promise the C++ behaviour for undefined behaviour: out-of-range vector indexing, dereferencing an empty vector, or reading an uninitialised root pointer. Each such case is an error result. The sampling loop `for (int st = 0; st <= (int) steps; ...)` in `evalBezier` never ends when `steps` is `INT_MAX`, because `st` cannot exceed it; the model reports `EndlessSegment` there.
- OneGeometry.LinearCombination: the contract states only w = 1 of the blended normal. Its positions are characterised by the lemmas `CombineW`, `AffineKeepsPoints`, `AffineReproduces` and `CombinationNormalUnit`.
- TwoSkeleton.UpdateMesh: the skinning sum is characterised by the bind-pose and single-joint lemmas, not by a closed form for arbitrary poses.

## Findings

| source | as written | input that shows it | evidently intended | confidence | as-written member | corrected member |
|---|---|---|---|---|---|---|
| zero/read.cpp:45-50 | `while (ss.good()) { ss >> a; ... }` runs once more after trailing white space and hands `split` an empty word; `stoi("")` throws | an `f` line ending in a blank, or in the `\r` of a CRLF file, e.g. `f 1/1/1 2/2/2 3/3/3 ` | read words with `while (ss >> a)` | high, not executed | ZeroRead.LoadAsWrittenTrailing | ZeroRead.Load |
| one/mesh.cpp:195-199 | the same `ss.good()` loop hands `_split` an empty word, and `*ids.begin()` of the empty vector is undefined | an `f` line ending in white space, including every `f` line `outputObjFile` writes (one/surf.cpp:210 ends each corner with a space) | read words with `while (ss >> a)` | high, not executed | OneRead.ReadAsWrittenTrailing | OneRead.Read |
| one/mesh.cpp:12-14 | the body normalises the parameter `vn`, which shadows the member, so the stored normal keeps its length | `VertexGeometry(v, (0, 0, 2, 1))` stores a normal of length 2 | store `expand(project(vn).normalized())` in the member | high, not executed | OneGeometry.GeometryAsWrittenKeepsNormal | OneGeometry.MakeGeometryUnit |
| two/SkeletalModel.cpp:135 | the third factor is `rotateX(rZ)`, so the z angle turns about x again | `setJointTransform(j, 0, 0, π/2)` keeps the x axis and moves y onto z | `rotateZ(rZ)` | high, not executed | TwoSkeleton.ZSliderTurnsAboutX | TwoSkeleton.ZSliderTurnsAboutZ |
