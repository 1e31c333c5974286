# Lines of Action board and machine player; Enigma machine

This project models two cores of one Java repository and proves properties
of the models.

**Lines of Action** (`Board.java`, `loa/MachinePlayer.java`). The board is
an 8x8 array of pieces (white `WP`, black `BP`, empty `EMP`). It also holds
the list of moves made, the pieces those moves replaced, the side to move,
the move limit, a cached winner and cached sorted region sizes. A piece
moves along a line as many squares as there are pieces on that line. It
may jump its own pieces, may not jump enemy pieces, and may not land on its
own piece. A side wins when all its pieces form one 8-connected region.
The machine player runs a fixed-depth alpha-beta search, `findMove`. The
search scores leaves by 100 times the number of black regions divided by
the number of white regions.

- `LoaPieces` holds pieces, squares, directions, `moveDest` and `mv`.
- `LoaRules` holds positions as values: line counts, the legality rule,
  `makeMove` and `retract` on cells, and the `legalMoves` order.
- `LoaRegions` holds the flood fill and the region scan as functions, with
  the sorting of the size lists.
- `LoaClusters` defines chains of touching pieces and the cluster of a
  piece. It proves that a fill from an unvisited piece visits exactly that
  piece's cluster, that a side's region sizes are the sizes of its
  clusters, one entry per cluster, and that a side has a single region
  exactly when it has pieces and every two of them are joined by a chain.
- `LoaBoard.Board` is a class over an `array<Piece>`. Its loops are proved
  against those functions.
- `GameTrees` defines `Search`, which mirrors `findMove` on an explicit game
  tree, and `Minimax`, the unpruned value. It proves that `Search` is a
  fail-soft estimate of `Minimax`, that the full window gives the exact
  value, and that the move recorded at the root is optimal.
- `LoaSearch.MachinePlayer.FindMove` is proved to compute `Search` on the
  tree of boards it visits.

**Enigma** (`enigma/Permutation.java`, `enigma/Rotor.java`,
`enigma/Machine.java`).

- A `Permutation` (module `Permutations`) is an immutable value: cycle
  notation over an `Alphabet` (module `Alphabets`).
  - `permute` and `invert` walk every cycle in turn.
  - With disjoint cycles they are proved mutually inverse modulo the
    alphabet size.
  - `derangement()` is proved equivalent to "no fixed point".
- A `Rotor` (module `Rotors`) is a class whose setting changes. The
  subclasses (moving rotor, reflector) are a `RotorKind` value.
  - `convertBackward` is proved to undo `convertForward` at every setting.
- A `Machine` (module `Machines`) is a class whose slots are an
  `array<Rotor?>`.
  - `insertRotors` reports exactly the source's exceptions, in the source's
    order.
  - `convert(int)` steps the rotors by the double-stepping rule, then sends
    the signal through plugboard, rotors, reflector, rotors and plugboard.
  - With a reflector and plugboard made of pairs, enciphering is proved to
    be its own inverse. This holds for one character at a fixed rotor
    state and for whole messages from the same starting state.

`JavaInt` models Java's truncating `%`, and `Wrappers` supplies `Option`
for nullable references. `SetCards` holds cardinality helpers.

## Model

| member | source | states |
|---|---|---|
| Alphabets.Alphabet.ToInt | enigma/Permutation.java:93-95 | the index of an alphabet character is in range, holds that character, and is its first occurrence |
| Alphabets.Alphabet.ToChar | enigma/Permutation.java:93-95 | the character at an index in range belongs to the alphabet |
| Alphabets.CharIntChar | enigma/Permutation.java:93-100 | toChar(toInt(c)) == c for every alphabet character |
| Alphabets.IntCharInt | enigma/Permutation.java:93-100 | toInt(toChar(i)) == i on an alphabet of distinct characters |
| Alphabets.NoRepeatsIsDistinct | enigma/Permutation.java:93-100 | the recursive no-repeat test is pairwise distinctness, both directions |
| JavaInt.JavaRem | enigma/Permutation.java:39 | Java's remainder has the sign of the dividend and magnitude below the divisor |
| JavaInt.JavaIdiomIsFloorRem | enigma/Permutation.java:38-44 | `r = p % n; if (r < 0) r += n` yields the floor remainder in 0..n-1 |
| JavaInt.JavaRemIsMod | enigma/Rotor.java:66-72 | Java's remainder equals the Euclidean one, or is n less when negative |
| Permutations.TrimStart | enigma/Permutation.java:18 | trim drops exactly the leading characters <= ' ' |
| Permutations.TrimEnd | enigma/Permutation.java:18 | trim drops exactly the trailing characters <= ' ' |
| Permutations.RemoveAll | enigma/Permutation.java:19-20 | replaceAll of one character with "" leaves no occurrence of it and keeps every other character |
| Permutations.RemoveAllCount | enigma/Permutation.java:19-20 | every other character is kept exactly as often as it occurs |
| Permutations.RemoveAllAppend | enigma/Permutation.java:19-20 | the removal works piecewise over a concatenation, so the characters kept stay in their order |
| Permutations.Split | enigma/Permutation.java:21 | split yields at least one part, and no part holds the separator |
| Permutations.JoinSplit | enigma/Permutation.java:21 | joining the parts of split with the separator gives the string back |
| Permutations.ParseCycles | enigma/Permutation.java:16-22 | the stored cycles, joined by ')', are the trimmed notation without '(' and ' '; no cycle holds '(', ' ' or ')' |
| Permutations.FromNotation | enigma/Permutation.java:16-22 | the constructor keeps the alphabet and stores cycles free of notation characters |
| Permutations.ApplyAbsent | enigma/Permutation.java:11-14 | a character in no cycle is left alone by both lookups |
| Permutations.CyclePrevNext | enigma/Permutation.java:53-89 | within one cycle of distinct characters, the predecessor of the successor is the character, and conversely |
| Permutations.ApplyMember | enigma/Permutation.java:53-69 | with disjoint cycles, a character of cycle k is moved by cycle k alone, forwards and backwards |
| Permutations.ApplyRoundTrip | enigma/Permutation.java:53-89 | with disjoint cycles, invert's lookup undoes permute's, and conversely |
| Permutations.ApplyNextIsPrev | enigma/Permutation.java:53-89 | with cycles of at most two characters, the forward and backward lookups agree |
| Permutations.Permutation.Wrap | enigma/Permutation.java:38-44 | wrap(p) lies in 0..size-1 |
| Permutations.WrapIsModulo | enigma/Permutation.java:37-44 | wrap(p) is p modulo the size, negative p included |
| Permutations.InRange | enigma/Permutation.java:38-44 | wrap leaves an index already in range alone |
| Permutations.Permutation.PermuteValue | enigma/Permutation.java:53-69 | permute(p) lies in 0..size-1 |
| Permutations.Permutation.InvertValue | enigma/Permutation.java:73-89 | invert(c) lies in 0..size-1 |
| Permutations.Permutation.Permute | enigma/Permutation.java:53-69 | the nested loop over the cycles computes PermuteValue |
| Permutations.Permutation.Invert | enigma/Permutation.java:73-89 | the nested loop over the cycles computes InvertValue |
| Permutations.Permutation.PermuteChar | enigma/Permutation.java:93-95 | permute(char) is permute(int) conjugated by toInt and toChar |
| Permutations.Permutation.InvertChar | enigma/Permutation.java:98-100 | invert(char) is invert(int) conjugated by toInt and toChar |
| Permutations.Permutation.Derangement | enigma/Permutation.java:109-123 | derangement() is true exactly when no cycle has length 1 and the cycle lengths add up to at least size() |
| Permutations.Permutation.AddCycleAsWritten | enigma/Permutation.java:26-35 | every call ends in an index out of bounds |
| Permutations.Permutation.AddCycle | enigma/Permutation.java:24-35 | the permutation with CYCLE appended as the last cycle |
| Permutations.AddedCycleLast | enigma/Permutation.java:24-35 | an appended cycle is looked up after the others: permute moves the old result on by that cycle, and the permutation stays valid |
| Permutations.PermuteSuccessor | enigma/Permutation.java:53-69 | with disjoint cycles, a cycle character goes to the next one, and the last goes to the first |
| Permutations.FixedOutsideCycles | enigma/Permutation.java:11-14 | characters in no cycle map to themselves under permute and invert |
| Permutations.InvertPermute | enigma/Permutation.java:51-89 | with disjoint cycles, invert undoes permute and permute undoes invert, modulo the size |
| Permutations.SelfInverse | enigma/Permutation.java:73-89 | with cycles of at most two characters, invert and permute are the same map |
| Permutations.Involution | enigma/Permutation.java:53-69 | with disjoint pair cycles, permuting twice is the identity modulo the size |
| Permutations.InverseInvolution | enigma/Permutation.java:73-89 | with disjoint pair cycles, inverting twice is the identity modulo the size |
| Permutations.CoveredChars | enigma/Permutation.java:109-123 | disjoint cycles cover a subset of the alphabet, as many characters as their total length |
| Permutations.UnitCycleIsFixed | enigma/Permutation.java:113-115 | the character of a one-character cycle is a fixed point |
| Permutations.ShortCyclesLeaveFixedPoint | enigma/Permutation.java:119-121 | cycles shorter in total than the alphabet leave some index fixed |
| Permutations.NoFixedPointInDerangement | enigma/Permutation.java:107-123 | when derangement's test passes, no index is fixed |
| Permutations.DerangementMeansNoFixedPoint | enigma/Permutation.java:107-123 | for disjoint cycles, derangement() holds exactly when no index maps to itself |
| Rotors.Mod | enigma/Rotor.java:66-72 | mod(x, y) lies in 0..y-1 |
| Rotors.ModIsEuclidean | enigma/Rotor.java:62-72 | mod(x, y) is the mathematical x mod y |
| Rotors.RotorView.Advanced | enigma/Rotor.java:94-96 | advancing keeps the kind, the permutation and a valid setting |
| Rotors.RotorView.Forward | enigma/Rotor.java:76-79 | convertForward lies in 0..size-1 |
| Rotors.RotorView.Backward | enigma/Rotor.java:83-86 | convertBackward lies in 0..size-1 |
| Rotors.Rotor.constructor | enigma/Rotor.java:11-15 | a rotor with the given name and permutation at setting 0 |
| Rotors.Rotor.Set | enigma/Rotor.java:53-55 | the setting becomes mod(posn, size) |
| Rotors.Rotor.SetChar | enigma/Rotor.java:58-60 | the setting becomes the index of the character |
| Rotors.Rotor.Advance | enigma/Rotor.java:94-96 | the rotor's state becomes its Advanced state |
| Rotors.Rotor.ConvertForward | enigma/Rotor.java:76-79 | the result is the view's Forward |
| Rotors.Rotor.ConvertBackward | enigma/Rotor.java:83-86 | the result is the view's Backward |
| Rotors.PlainRotorIsInert | enigma/Rotor.java:38-96 | the base rotor does not rotate, does not reflect, is never at a notch, and advance leaves it alone |
| Rotors.ShiftBack | enigma/Rotor.java:76-79 | adding the setting and taking it off again leaves the residue unchanged |
| Rotors.ConvertRoundTrip | enigma/Rotor.java:74-86 | for a bijective permutation, convertBackward undoes convertForward and conversely, at every setting |
| Rotors.PermuteOfWrap | enigma/Permutation.java:53-54 | permute looks only at its argument modulo the size |
| Rotors.InvertOfWrap | enigma/Permutation.java:73-74 | invert looks only at its argument modulo the size |
| Rotors.ReflectorInvolution | enigma/Rotor.java:83-86 | a reflector made of pairs sends a reflected signal back where it came from, at every setting |
| Machines.LastNamed | enigma/Machine.java:44-49 | the scan finds no rotor exactly when none has the name; otherwise it finds an available rotor with that name |
| Machines.LastNamedIsLast | enigma/Machine.java:44-49 | the rotor the scan leaves is the last one with the name |
| Machines.SlotErrorFree | enigma/Machine.java:42-62 | from slot i on, no error is raised exactly when every name exists and repeats no earlier name |
| Machines.FailingSlot | enigma/Machine.java:42-62 | the loop stops at the first slot whose checks fail, that slot's verdict is the loop's error, and every slot before it passes |
| Machines.InsertSucceedsIff | enigma/Machine.java:38-63 | insertRotors succeeds exactly when the count is right, every name exists, the first is a reflector and no name repeats |
| Machines.Stepped | enigma/Machine.java:91-105 | stepping keeps the number of slots and each rotor's kind and permutation |
| Machines.SteppingRule | enigma/Machine.java:91-105 | the reflector stays, the rightmost rotor always advances, and a middle rotor advances when it is at its notch with a rotating left neighbour or when its right neighbour is at its notch |
| Machines.ForwardAll | enigma/Machine.java:109-111 | the forward pass ends in range |
| Machines.BackwardAll | enigma/Machine.java:112-114 | the backward pass ends in range |
| Machines.SignalInRange | enigma/Machine.java:90-119 | convert(int) returns an index of the machine's alphabet |
| Machines.Machine.constructor | enigma/Machine.java:16-23 | a machine with the given alphabet, slot count, pawls and rotors, every slot empty and no plugboard |
| Machines.Machine.InsertRotors | enigma/Machine.java:38-63 | the error is the first the source's checks raise; on success every slot holds the last available rotor with its name, a reflector first, all distinct; a wrong count changes no slot; otherwise the slots before the failing one hold their rotors, the failing slot holds the last rotor with its name (or what it held), and the later slots are unchanged |
| Machines.Machine.FillAndCheck | enigma/Machine.java:43-61 | one pass of the loop: the error is the slot's verdict in the source's order of checks; the slot holds the last rotor so named, or what it held; the other slots are unchanged |
| Machines.Machine.FillSlot | enigma/Machine.java:43-49 | check stays true exactly when no rotor has the name; otherwise the slot holds the last one so named; the other slots are unchanged |
| Machines.Machine.RepeatsEarlier | enigma/Machine.java:57-61 | true exactly when an earlier slot has the same name |
| Machines.Machine.SetRotors | enigma/Machine.java:68-80 | fails exactly on a wrong length or a character outside the alphabet, with that error; slots 1.. take the setting characters up to the first bad one, and slot 0 is untouched; only the rotors in the slots can change |
| Machines.Machine.SetSlot | enigma/Machine.java:78 | slot i's setting becomes the index of c, and the other slots are unchanged |
| Machines.Machine.SetPlugboard | enigma/Machine.java:83-85 | the plugboard becomes the given permutation |
| Machines.Machine.Convert | enigma/Machine.java:90-119 | the rotors step by the stepping rule, and the result is the signal path through the stepped rotors, in range; only the rotors in the slots can change |
| Machines.Machine.AdvanceDecisions | enigma/Machine.java:91-100 | each slot's advance flag is decided from the positions before any rotor moves |
| Machines.Machine.DecideAdvances | enigma/Machine.java:93-100 | the decision loop sets exactly the flags of Advances |
| Machines.Machine.AdvanceSlots | enigma/Machine.java:101-105 | advancing the flagged slots yields the stepped states; only the rotors in the slots can change |
| Machines.Machine.AdvanceMarked | enigma/Machine.java:101-105 | each flagged slot advances once and every other slot keeps its state |
| Machines.Machine.SignalPath | enigma/Machine.java:106-118 | plugboard, rotors forward, rotors backward and plugboard compute Signal |
| Machines.Machine.ForwardPass | enigma/Machine.java:109-111 | convertForward through slots n-1 down to 1 |
| Machines.Machine.BackwardPass | enigma/Machine.java:112-114 | convertBackward through slots 0 up to n-1 |
| Machines.Machine.ConvertMessage | enigma/Machine.java:123-133 | the output enciphers the trimmed, space-free message, and the rotors step once per character; only the rotors in the slots can change |
| Machines.Machine.ConvertText | enigma/Machine.java:127-131 | character k leaves the rotors stepped k + 1 times, and the output is EncipherText; only the rotors in the slots can change |
| Machines.FirstOutside | enigma/Machine.java:73-77 | the index of the first setting character outside the alphabet, or the length |
| Machines.Steps | enigma/Machine.java:123-133 | n steps keep the number of slots and every permutation |
| Machines.EncipherChar | enigma/Machine.java:128-129 | a character of the alphabet enciphers to a character of the alphabet |
| Machines.EncipherText | enigma/Machine.java:123-133 | the output has the message's length and stays in the alphabet |
| Machines.EncipherTextStep | enigma/Machine.java:127-130 | the output grows by the next character, enciphered with the rotors stepped once more |
| Machines.BackwardAfterForwardAll | enigma/Machine.java:109-114 | the rotors on the way back undo the rotors on the way in |
| Machines.ForwardAfterBackwardAll | enigma/Machine.java:109-114 | the rotors on the way in undo the rotors on the way back |
| Machines.PlugInvolution | enigma/Machine.java:106-117 | a plugboard of pairs undoes itself |
| Machines.RotorsInvolution | enigma/Machine.java:109-114 | in through the rotors, off the reflector and out again, done twice, is the identity |
| Machines.SignalInvolution | enigma/Machine.java:90-119 | at a fixed rotor state, converting twice gives the input back |
| Machines.EncipherCharInvolution | enigma/Machine.java:128-129 | the same reciprocity on characters |
| Machines.StepsKeepReversible | enigma/Machine.java:101-105 | stepping keeps a reflector of pairs and bijective rotors |
| Machines.EncipherTwiceAt | enigma/Machine.java:123-133 | character k of the round trip is character k of the text |
| Machines.EncipherTwice | enigma/Machine.java:123-133 | enciphering the output from the same starting state gives the message back |
| LoaPieces.Opposite | Board.java:125 | the opposite of a side is the other side |
| LoaPieces.OppositeTwice | Board.java:115-141 | opposite twice is the identity, so retract restores the side to move |
| LoaPieces.Square.Index | Board.java:82-84 | a board square's index lies in 0..63 |
| LoaPieces.IndexInjective | Board.java:82-102 | distinct squares have distinct cells |
| LoaPieces.SquareAt | Board.java:166-168 | entry k of ALL_SQUARES is the board square with index k |
| LoaPieces.InAllSquares | Board.java:166-168 | ALL_SQUARES holds exactly the board squares |
| LoaPieces.MoveDest | Board.java:256-257 | moveDest returns only board squares |
| LoaPieces.Direction | Board.java:254 | the direction is -1 or 0..7, and never 0..7 from a square to itself |
| LoaPieces.DestOfDirection | Board.java:254-265 | walking the distance in the direction from FROM lands on TO |
| LoaPieces.Mv | Board.java:151 | mv gives a move exactly between two board squares on a common line, with positive length |
| LoaPieces.Somes | Board.java:286-292 | the non-null results of moveDest are board squares |
| LoaPieces.SomesMember | Board.java:286-292 | a square is kept exactly when it was one of the results |
| LoaPieces.Neighbors | Board.java:286-292 | the neighbour list holds only board squares |
| LoaPieces.NeighborsAdjacent | Board.java:286-292 | the neighbour list holds exactly the adjacent board squares |
| LoaPieces.StepOne | Board.java:288 | one step in a direction reaches exactly the adjacent square in that direction |
| LoaRules.CountLine | Board.java:410-419 | a count over a range of line points is at most the range's length |
| LoaRules.LineCount | Board.java:341-356 | a line holds at most 8 pieces |
| LoaRules.CountLineSplit | Board.java:360-406 | the count over a range is the sum of the counts over its two parts |
| LoaRules.CountLineIsCard | Board.java:410-432 | the line count is the number of occupied squares of the line |
| LoaRules.CountLineSameLine | Board.java:341-356 | squares on one line have the same count |
| LoaRules.MoveOnLine | Board.java:341-356 | the line piecesAlongDir counts passes through both ends of the move |
| LoaRules.PathSquare | Board.java:255-265 | every square on the path of a move is a board square |
| LoaRules.PathSteps | Board.java:255-257 | moveDest in the move's direction walks the path |
| LoaRules.PathEnd | Board.java:258-259 | the walk reaches TO at its last step and only there |
| LoaRules.PathWalk | Board.java:248-268 | the squares blocked examines are exactly the squares strictly between FROM and TO |
| LoaRules.Apply | Board.java:115-127 | makeMove keeps a valid position and passes the turn |
| LoaRules.Undo | Board.java:131-141 | retract keeps a valid position and passes the turn back |
| LoaRules.UndoApply | Board.java:115-141 | retract, given the replaced piece, undoes makeMove |
| LoaRules.ApplyCells | Board.java:115-127 | after a move, FROM is empty, TO holds the mover's piece and every other cell is unchanged |
| LoaRules.ApplyLosesAtMostOne | Board.java:115-127 | a legal move costs a side at most one piece |
| LoaRules.MovesFromSpec | Board.java:168-173 | the inner loop collects exactly the legal moves from the square |
| LoaRules.MovesUpToSpec | Board.java:164-177 | after n source squares, the list holds exactly the legal moves from those squares |
| LoaRules.LegalMovesSpec | Board.java:164-177 | legalMoves lists exactly the legal moves: sound and complete |
| LoaRegions.Contig | Board.java:274-297 | numContig visits only P's pieces, never unvisits, and counts exactly the squares it newly visits |
| LoaRegions.ContigList | Board.java:293-295 | the loop over the neighbours does the same, threading the visited set |
| LoaRegions.ContigStart | Board.java:274-285 | a fill started on an unvisited square of colour P counts at least that square |
| LoaRegions.ScanKeepsInvariant | Board.java:300-327 | computeRegions' scan keeps its invariant: sizes positive, summing to the visited pieces of each side, and every earlier piece visited |
| LoaRegions.ScanVisitsAll | Board.java:307-323 | after the scan, every piece of the board has been visited |
| LoaRegions.InsertPerm | Board.java:324-325 | insertion adds the element to the contents and to the sum |
| LoaRegions.InsertSorted | Board.java:324-325 | insertion into a descending list keeps it descending |
| LoaRegions.SortDescSpec | Board.java:324-325 | the reverse-order sort is descending and a permutation, with the same sum and length |
| LoaRegions.RegionSizesSpec | Board.java:300-338 | a side's region sizes are descending and positive, and add up to its number of pieces |
| LoaRegions.RegionsNonEmpty | Board.java:331-338 | a side has a region exactly when it has a piece |
| LoaRegions.RegionCountBound | Board.java:300-327 | a side has at most 64 regions |
| LoaClusters.ConnectedSymmetric | Board.java:286-292 | a chain read backwards is a chain, since the eight neighbour directions come in opposite pairs |
| LoaClusters.ConnectedTrans | Board.java:293-295 | chains from A to B and from B to C join into one from A to C |
| LoaClusters.ClustersDisjoint | Board.java:300-327 | the clusters of two pieces that no chain joins share no square |
| LoaClusters.ContigClosed | Board.java:274-297 | a fill from a piece of P visits it, and no square it newly visits touches an unvisited piece of P |
| LoaClusters.ContigListClosed | Board.java:293-295 | the loop over the neighbours visits every neighbour of colour P, and no square it newly visits touches an unvisited piece of P |
| LoaClusters.ContigSound | Board.java:274-297 | every square a fill newly visits is joined to its start by a chain of P's pieces |
| LoaClusters.ContigListSound | Board.java:293-295 | every square the loop over the neighbours newly visits is joined by a chain to one of them |
| LoaClusters.ContigIsCluster | Board.java:274-297 | from an unvisited piece, with the visited squares a union of whole clusters, numContig visits exactly the cluster of that piece and counts its size |
| LoaClusters.FillAdds | Board.java:314-320 | a fill started by computeRegions records the cluster of its start as a new region, joined to no earlier region |
| LoaClusters.FillKeepsOther | Board.java:314-320 | a fill of one colour leaves the recorded regions of the other colour as they were |
| LoaClusters.ScanRegions | Board.java:307-323 | computeRegions' scan keeps, for each side, one recorded size per start, each start's cluster size, no two starts joined, and the visited pieces exactly the clusters of the starts |
| LoaClusters.RegionsAreClusters | Board.java:300-327 | after computeRegions, a side's pieces are the union of the clusters of its starts, no two starts are joined, and its region sizes are their cluster sizes, one entry per cluster |
| LoaClusters.SingleRegionConnected | Board.java:186-188 | with a single region, every two pieces of the side are joined by a chain |
| LoaClusters.ConnectedSingleRegion | Board.java:186-188 | pieces that are all joined by chains make a single region |
| LoaClusters.SingleRegionIffConnected | Board.java:186-188 | a side has exactly one region if and only if it has a piece and every two of its pieces are joined by a chain |
| LoaBoard.WinnerRuleOver | Board.java:192-211 | winner() is null exactly when neither side is contiguous and the limit is not reached; EMP exactly at the limit with neither contiguous; the side to move only when it alone is contiguous |
| LoaBoard.MarkVisited | Board.java:284 | marking a square adds exactly it to the visited set |
| LoaBoard.NeighborSquares | Board.java:286-292 | numContig's first loop collects the neighbour list |
| LoaBoard.NewVisited | Board.java:306 | a new visited matrix marks no square |
| LoaBoard.Board.constructor | Board.java:38-40 | a board holding the contents with the side to move, no moves and the default limit |
| LoaBoard.Board.Standard | Board.java:43-45 | the standard initial position with black to move |
| LoaBoard.Board.Copy | Board.java:49-52 | a board with the other's cells and side to move, but no moves and the default limit |
| LoaBoard.Board.Initialize | Board.java:55-65 | the cells from the contents, column by column; the side to move, no moves and the default limit |
| LoaBoard.Board.Clear | Board.java:68-70 | back to the initial position with black to move |
| LoaBoard.Board.CopyFrom | Board.java:73-79 | the other's cells and side to move |
| LoaBoard.Board.Set | Board.java:88-96 | fails exactly off the board; otherwise one cell changes, and the turn changes when a next side is given |
| LoaBoard.Board.SetMoveLimit | Board.java:106-111 | refused unless 2 * limit exceeds the moves made; otherwise the limit becomes 2 * limit |
| LoaBoard.Board.MovesMade | Board.java:216-218 | the number of moves made and not retracted |
| LoaBoard.Board.MakeMove | Board.java:115-127 | the position becomes Apply of the move; the move and the replaced piece are recorded; the region cache is invalidated |
| LoaBoard.Board.Retract | Board.java:131-141 | the position becomes Undo of the last move with its replaced piece, and both records lose their last entry |
| LoaBoard.Board.ColCount | Board.java:410-419 | the number of pieces in the column |
| LoaBoard.Board.RowCount | Board.java:423-432 | the number of pieces in the row |
| LoaBoard.Board.PositiveDiaCount | Board.java:385-406 | the number of pieces on the SW-NE diagonal |
| LoaBoard.Board.RisingUpRight | Board.java:389-394 | the pieces from the square up-right to the edge |
| LoaBoard.Board.RisingDownLeft | Board.java:395-404 | plus the pieces below-left of the square to the edge |
| LoaBoard.Board.NegativeDiaCount | Board.java:360-381 | the number of pieces on the NW-SE diagonal |
| LoaBoard.Board.FallingUpLeft | Board.java:364-369 | the pieces from the square up-left to the edge |
| LoaBoard.Board.FallingDownRight | Board.java:370-379 | plus the pieces below-right of the square to the edge |
| LoaBoard.Board.PiecesAlongDir | Board.java:341-356 | the number of pieces on the line of the move, or 0 when there is no direction |
| LoaBoard.Board.Blocked | Board.java:248-268 | blocked exactly when the target holds the mover's own colour or an enemy piece lies strictly between |
| LoaBoard.Board.OpponentOnPath | Board.java:255-266 | the loop finds an enemy piece exactly when one lies on the path before TO |
| LoaBoard.Board.IsLegal | Board.java:150-155 | isLegal is the legality rule on the current position |
| LoaBoard.Board.IsLegalMove | Board.java:159-161 | the same for a move |
| LoaBoard.Board.LegalMoves | Board.java:164-177 | the list is LegalMoves of the position: exactly the legal moves, in ALL_SQUARES order |
| LoaBoard.Board.LegalMovesFrom | Board.java:168-173 | the inner loop yields the legal moves from the square, in order |
| LoaBoard.Board.LegalTo | Board.java:169-172 | mv(s, t) is kept exactly when it exists and is legal |
| LoaBoard.Board.NumContig | Board.java:274-297 | the recursive fill leaves the visited matrix and count of Contig; from an unvisited piece of P, with the visited squares a union of whole clusters, it visits exactly that piece's cluster and returns its size |
| LoaBoard.Board.FillNeighbors | Board.java:293-295 | the loop over the neighbours computes ContigList: every neighbour of colour P ends visited, no newly visited square touches an unvisited piece of P, and each newly visited square is joined by a chain to one of the neighbours |
| LoaBoard.Board.ComputeRegions | Board.java:300-327 | the cache is then valid and describes the cells as they were when first computed |
| LoaBoard.Board.ScanColumn | Board.java:308-322 | one column of the scan advances ScanUpTo by one column |
| LoaBoard.Board.VisitSquare | Board.java:309-321 | one square of the scan performs Visit |
| LoaBoard.Board.GetRegionSizes | Board.java:331-338 | the white list for WP, the black list otherwise, from a valid cache |
| LoaBoard.Board.PiecesContiguous | Board.java:186-188 | true exactly when the side has one region, that is, exactly when it has a piece and every two of its pieces are joined by a chain of touching pieces |
| LoaBoard.Board.Winner | Board.java:192-211 | a known winner is returned unchanged; otherwise the winner rule is applied and cached when it decides |
| LoaBoard.Board.GameOver | Board.java:181-183 | true exactly when winner() is not null |
| GameTrees.SearchScore | loa/MachinePlayer.java:77-129 | findMove's score does not depend on what _foundMove held |
| GameTrees.LoopScore | loa/MachinePlayer.java:92-127 | the same for the loop over the moves |
| GameTrees.BestShift | loa/MachinePlayer.java:86-127 | starting from a better score gives the better of that score and the result |
| GameTrees.BestBound | loa/MachinePlayer.java:86-127 | the best value is at least as good as its start and as every subtree's value |
| GameTrees.SearchFailSoft | loa/MachinePlayer.java:70-129 | for every window inside -INFTY..INFTY, findMove's score is a fail-soft estimate of the minimax value: exact inside the window, and a bound on the correct side outside it |
| GameTrees.LoopFailSoftMax | loa/MachinePlayer.java:93-107 | the maximizing loop is a fail-soft estimate of the best value |
| GameTrees.LoopFailSoftMin | loa/MachinePlayer.java:108-122 | the minimizing loop is a fail-soft estimate of the best value |
| GameTrees.MaxStep | loa/MachinePlayer.java:93-126 | one maximizing turn keeps the fail-soft relation, with or without a cutoff |
| GameTrees.MinStep | loa/MachinePlayer.java:108-126 | one minimizing turn keeps the fail-soft relation, with or without a cutoff |
| GameTrees.MinimaxBounded | loa/MachinePlayer.java:19-21 | with leaves inside -INFTY..INFTY, the minimax value is too |
| GameTrees.BestBounded | loa/MachinePlayer.java:86-127 | the best over bounded subtrees stays inside -INFTY..INFTY |
| GameTrees.FullWindow | loa/MachinePlayer.java:57-68 | with the window -INFTY..INFTY, findMove returns exactly the minimax value |
| GameTrees.RootLoopMax | loa/MachinePlayer.java:93-107 | at the root, the recorded move is the first move or one whose subtree achieves the returned score |
| GameTrees.RootLoopMin | loa/MachinePlayer.java:108-122 | the same for the minimizing root |
| GameTrees.RootChoice | loa/MachinePlayer.java:57-76 | with moves to try, the root records a move whose subtree value equals the minimax value |
| LoaSearch.HeuriBounds | loa/MachinePlayer.java:137-143 | the static estimate lies between 0 and 6400 |
| LoaSearch.UndecidedTwoWhite | loa/MachinePlayer.java:81-85 | an undecided position where white has a piece gives white at least two pieces |
| LoaSearch.MoveKeepsWhite | loa/MachinePlayer.java:97-98 | a legal move from such a position leaves white a piece, so heuriScore never divides by zero |
| LoaSearch.GameTreeExists | loa/MachinePlayer.java:77-129 | every position where white has a piece has a game tree, to any depth |
| LoaSearch.ChildExists | loa/MachinePlayer.java:97-100 | each legal move has the game tree of its copied board |
| LoaSearch.SubtreesExist | loa/MachinePlayer.java:92-127 | every move of a list of legal moves has its subtree |
| LoaSearch.GameTreeBounded | loa/MachinePlayer.java:19-21 | every score in a game tree lies within -INFTY..INFTY |
| LoaSearch.SearchFindsBestMove | loa/MachinePlayer.java:70-129 | the full-window score is the minimax value; a move is recorded exactly when depth >= 1, the game is not won and a legal move exists; the recorded move is legal and achieves the minimax value |
| LoaSearch.MachinePlayer.constructor | loa/MachinePlayer.java:30-32 | a player for the side, with no move found |
| LoaSearch.MachinePlayer.HeuriScore | loa/MachinePlayer.java:137-143 | 100 times the black region count over the white region count, with caches kept current |
| LoaSearch.MachinePlayer.FindMove | loa/MachinePlayer.java:77-129 | the score is Search on the tree of boards visited, and _foundMove is Search's move when saveMove, unchanged otherwise |
| LoaSearch.MachinePlayer.SearchMoves | loa/MachinePlayer.java:92-127 | the loop over the legal moves computes Loop, with _foundMove updated only when saveMove |
| LoaSearch.MachinePlayer.ChildScore | loa/MachinePlayer.java:97-100 | the score of a copy of the board with the move made, and _foundMove untouched |
| LoaSearch.MachinePlayer.SearchForMove | loa/MachinePlayer.java:57-68 | the move returned is the one recorded; it exists exactly when the game is not won and a legal move exists; it is legal and optimal for the side to move |

## Left out

- `Alphabet.java`, `Piece.java`, `Square.java`, `Move.java`, `Game.java`, `Player.java` and `EnigmaException.java` are not part of this model. Their behaviour is modelled from how the core uses them: an alphabet is a sequence of distinct characters, and a piece, a square and a move are values.
- The rotor subclasses (moving rotor, fixed rotor, reflector) are not in the modelled files. `RotorKind` stands for them: a moving rotor advances its setting by one modulo the size and is at a notch when its setting's character is a notch; a reflector never moves.
- Getters that return a field are fields or constants here: `numRotors`, `numPawls`, `getRotors`, `alphabet()`, `name()`, `permutation()`, `size()`, `setting()`, `turn()`. The pawl count is stored but never used by `convert`.
- `toString` and `hashCode` (text and hashing only), and `Board.ROW_COL` (never used by the core) are left out. `equals` is the predicate `LoaBoard.Board.Equals`.
- `MachinePlayer.getMove`, `create`, `isManual` and the no-argument constructor are game plumbing: reporting a move and creating players. `SearchForMove` takes the game's board as a parameter.
- Permutations.Split: Java's `split` also drops trailing empty strings. That is not modelled, so `"(AB)"` yields the cycles `AB` and `""`. An empty cycle changes neither lookup nor `derangement()`.
- Permutations.InvertPermute and the other round-trip lemmas assume disjoint cycles (`Bijective`). The constructor accepts any notation, and with a repeated character the lookups are not inverse.
- LoaRegions.Contig, ContigList, RegionSizesSpec: their own contracts state only the counting, the visited squares and the order of the sizes. That a fill visits exactly one cluster and that the sizes are those of the clusters is proved beside them in LoaClusters (ContigIsCluster, ContigListClosed, ContigListSound, RegionsAreClusters).
- Machines.Machine.Convert, SetRotors, ConvertMessage: these require a successful `insertRotors` (`Ready`). The source's NullPointerException on an empty slot is not modelled there. `InsertRotors` does model the null slot 0 as `NullSlot`.
- Machines.Machine.ConvertMessage: requires every character of the cleaned message to be in the alphabet. What `Alphabet.toInt` does with a foreign character lies outside this model.
- Machines.Machine.constructor: requires the documented `1 < numRotors` and `0 <= pawls < numRotors`, and rotors over the machine's alphabet.
- LoaBoard.Board.Blocked, IsLegal, IsLegalMove: require that FROM holds a piece or TO is empty. Otherwise the source calls `opposite()` on `EMP`, which `Piece.java` defines and this model does not. `legalMoves` only asks from squares that hold the mover's piece.
- LoaBoard.Board.SetMoveLimit: `2 * limit` is computed on unbounded integers. Java's 32-bit product wraps for `|limit| >= 2^30`.
- LoaBoard.Board.MakeMove: requires the move to be legal, as the source's `assert isLegal(move)` does. Capture flags are not modelled, since `Move` is not part of this model.
- LoaSearch.MachinePlayer.HeuriScore and SearchForMove: require white to have a piece. Otherwise `heuriScore` divides by zero, and the ArithmeticException is not modelled. Along the search this holds by `UndecidedTwoWhite` and `MoveKeepsWhite`.
- LoaSearch.MachinePlayer.FindMove: requires the board's caches to describe its cells (`Current`). Every board the search creates is a fresh copy, so this holds there. A caller's board whose cached winner is stale (`makeMove` and `retract` do not reset it) is outside the contract.
- The game tree `FindMove` follows is a ghost value. The program never builds it.
- `findMove`'s comment says it does not set `_foundMove` when the game is over. The code stops only on a win, and on a tie (`winner() == EMP`) it still searches the legal moves. The model follows the code: `Decided` covers wins only.
- Integer overflow: `INFTY` is `Integer.MAX_VALUE`, and every score stays inside `-INFTY..INFTY` (`GameTreeBounded`), so no score computation wraps. The remaining arithmetic (indices, counts, settings) stays far below 2^31.

## Findings

| source | as written | input that shows it | evidently intended | confidence | as-written member | corrected member |
|---|---|---|---|---|---|---|
| enigma/Permutation.java:26-35 | the copy loop runs to `arr.length`, one past the end of `_cycles`, and the new cycle is stored at `arr[_cycles.length + 1]`, one past the end of `arr` | any call, e.g. cycles `["AB"]` and cycle `"CD"`: the loop reads `_cycles[1]` | copy the old cycles and store CYCLE in the last slot, `arr[_cycles.length]` | high for every input (both indices are out of bounds whatever the input); not executed | Permutations.Permutation.AddCycleAsWritten | Permutations.Permutation.AddCycle |
