# Four algorithm exercises, modelled and proved in Dafny

This project models four Python programs from an algorithms course and proves
what each promises:

- **Rubik solver** (`a3/solver.py`). A bidirectional breadth-first search over
  puzzle states. `next_frontier` expands one layer of a frontier, and
  `shortest_path` alternates the two sides until they meet. It then rebuilds
  the move list from the parent links. The cube's move set, `perm_apply` and
  `perm_inverse` are parameters of a `Puzzle` value, bound by `InverseLaw`.
  The module is `Solver` in `solver.dfy`.
- **Huffman coding** (`a4/huffman.py`):
  - the frequency table, the merging of the two lightest entries, stripping
    the weights and assigning codes (`HuffmanTree`, `huffman_tree.dfy`);
  - `encode`/`decode` over strings of `0` and `1` (`HuffmanCodec`,
    `huffman_codec.dfy`);
  - `compress`/`decompress` to and from bytes with a padding entry in the
    decoder ring (`HuffmanPack`, `huffman_pack.dfy`).
- **Stable marriage** (`a1/marriage.py`). `check_pref` and the proposal loop
  of `stable`, the Gale-Shapley procedure with knights proposing. The module
  is `Marriage` in `marriage.dfy`.
- **Seam carving** (`a5/resizeable_image.py`). The recursive `DFS` and the
  dynamic programme of `best_seam`, which fills a table of cumulative
  energies and back-pointers, picks a bottom pixel and walks the pointers
  up. The module is `Seam` in `seam.dfy`.

`outcomes.dfy` (module `Outcomes`) holds `Result` and the three Python
exceptions the programs can raise: `IndexError`, `KeyError` and `ValueError`.

Loops that update variables are methods with loop invariants. Each is proved
against a specification function: `ExpandLayer`, `EncodeWith`, `DecodeFrom`,
`Pack`, `Unpack`, `Cum`/`Walk` and `Trace`. The properties the programs
promise are proved about those functions. Dictionaries and lists the source
mutates are `map`/`seq` values that the methods return.

## Model

| member | source | states |
|---|---|---|
| Solver.ApplyAllAppend | a3/solver.py:97-114 | Applying two move lists in turn is applying their concatenation. |
| Solver.Run | a3/solver.py:13-16 | The layer `next_frontier` pops is the longest prefix of nodes whose order is the first node's. |
| Solver.VisitExtends | a3/solver.py:20-27 | One move appends at most one child of the node, with its state on the visited list, and keeps that list free of duplicates. |
| Solver.ExpandNodeExtends | a3/solver.py:19-27 | Trying every move on a node only appends children of that node, each state recorded in step, and keeps the visited list free of duplicates. |
| Solver.ExpandLayerExtends | a3/solver.py:16-27 | Expanding a layer only appends children of its nodes, each state recorded in step, and keeps the visited list free of duplicates. |
| Solver.ExpandNodeOrders | a3/solver.py:25 | Each child's order is its parent's order plus one. |
| Solver.NextFrontier | a3/solver.py:12-27 | Succeeds exactly when the frontier is non-empty and the layer does not run the deque empty (otherwise IndexError). The new deque is the rest of the frontier followed by the layer's children. |
| Solver.ExpandMoves | a3/solver.py:19-27 | The loop over the moves appends exactly the children the specification function `ExpandNode` creates. |
| Solver.FindMeeting | a3/solver.py:82-95 | Returns the first pair in left-then-right order whose states are equal, or reports that no pair matches. |
| Solver.PathFromReaches | a3/solver.py:101-104 | The moves read off the left parent chain lead from `start` to the node's state. They number at most its order. |
| Solver.InvPathToReaches | a3/solver.py:108-112 | The inverted moves of the right parent chain lead from the node's state back to `end`. They number at most its order. |
| Solver.Reconstruct | a3/solver.py:96-114 | The rebuilt list is the left chain's moves then the right chain's inverses. It leads from `start` to `end` and has at most the two orders' sum of moves. |
| Solver.ShortestPath | a3/solver.py:35-114 | Equal end points give `[]`. Any returned list leads from `start` to `end`, uses only moves or their inverses, and has at most 14 moves. |
| Solver.LayerIsNextOrder | a3/solver.py:63-77 | A whole layer of order `o` is replaced by rooted nodes of order `o + 1`. |
| HuffmanTree.Insert | a4/huffman.py:36 | Inserting into the sorted list adds exactly that entry. |
| HuffmanTree.InsertSorted | a4/huffman.py:36 | Insertion keeps the list sorted by weight. |
| HuffmanTree.SortByWeight | a4/huffman.py:36 | The sort by weight is a permutation and sorted by weight. |
| HuffmanTree.SortWeight | a4/huffman.py:52 | Sorting keeps the total weight. |
| HuffmanTree.SortSyms | a4/huffman.py:52 | Sorting keeps the multiset of leaf bytes. |
| HuffmanTree.CountsMembers | a4/huffman.py:18-26 | The frequency dictionary has a key for exactly the bytes of the message. |
| HuffmanTree.CountsMultiset | a4/huffman.py:18-26 | Each byte's count equals its number of occurrences. |
| HuffmanTree.KeysDistinct | a4/huffman.py:18-26 | Each key is listed once. |
| HuffmanTree.CountsSum | a4/huffman.py:18-26 | The counts sum to the message length. |
| HuffmanTree.SumOverIncr | a4/huffman.py:26 | Incrementing one present key raises the sum by one. |
| HuffmanTree.LeafList | a4/huffman.py:31-32 | One `(count, byte)` leaf per key, in key order. |
| HuffmanTree.LeafListSyms | a4/huffman.py:31-32 | The leaves hold each key once. |
| HuffmanTree.LeafListWeight | a4/huffman.py:31-32 | The leaves' weights sum to the counts' sum. |
| HuffmanTree.SortedLeavesCount | a4/huffman.py:28-37 | Every entry of the sorted heap is a leaf weighted by its byte's count. |
| HuffmanTree.SortedLeavesSyms | a4/huffman.py:28-37 | The sorted heap holds each distinct byte of the message once. |
| HuffmanTree.SortedLeavesWeight | a4/huffman.py:28-37 | The sorted heap's weights sum to the message length. |
| HuffmanTree.LetterFreq | a4/huffman.py:16-37 | Each entry is a leaf weighted by its byte's count, and the distinct bytes appear once each. The heap is sorted and its total weight is the message length. It is empty exactly for an empty message. |
| HuffmanTree.SortedLeaves | a4/huffman.py:16-37 | The heap built from the frequency table has all of `LetterFreq`'s properties. |
| HuffmanTree.MergeWeight | a4/huffman.py:46-52 | A merge step shortens the heap by one and keeps its total weight. |
| HuffmanTree.MergeSyms | a4/huffman.py:46-52 | A merge step keeps the multiset of leaf bytes. |
| HuffmanTree.MergeWellWeighted | a4/huffman.py:46-52 | A merge step keeps every node's weight equal to the sum of its children's. |
| HuffmanTree.MergeKeeps | a4/huffman.py:44-52 | The merge loop's invariant is kept by each step. |
| HuffmanTree.WTreeNode | a4/huffman.py:43-54 | Ends with one tree, or none for an empty heap. Total weight, leaf bytes and well-weightedness are kept. |
| HuffmanTree.TreeNode | a4/huffman.py:61-71 | Stripping weights keeps the leaves in order, and a leaf stays a leaf. |
| HuffmanTree.GetCodes | a4/huffman.py:76-85 | The recursion adds to `codes` exactly the path code of every leaf. |
| HuffmanTree.CodeTableShape | a4/huffman.py:76-85 | Codes exist exactly for the leaves. Each code extends the prefix with `0`/`1`, and is strictly longer under a branch. |
| HuffmanTree.CodeTablePrefixFree | a4/huffman.py:76-85 | With distinct leaves, no code is a prefix of another. |
| HuffmanTree.CodeTablePaths | a4/huffman.py:76-85 | Following a byte's code from the root reaches that byte's leaf. |
| HuffmanCodec.EncodeWithSnoc | a4/huffman.py:119-121 | Encoding one more byte appends its code. |
| HuffmanCodec.InvertCodes | a4/huffman.py:110-114 | The ring's keys are exactly the codes, and it maps every code back to a byte that has it. For an injective table it maps each byte's code to that byte. |
| HuffmanCodec.PrefixFreeInjective | a4/huffman.py:110-114 | A prefix-free table gives distinct bytes distinct codes. |
| HuffmanCodec.InvertedDecodes | a4/huffman.py:110-114 | The inverted table of a prefix-free code decodes each code to its byte. |
| HuffmanCodec.Encode | a4/huffman.py:93-123 | Fails with IndexError exactly for the empty message. Otherwise the output is the codes of the bytes concatenated, the ring inverts the code table and has exactly the codes as keys, and all codes are non-empty exactly when the message has two or more distinct bytes. |
| HuffmanCodec.EncodeBits | a4/huffman.py:116-121 | The loop output is the concatenation of the bytes' codes. |
| HuffmanCodec.TreeFacts | a4/huffman.py:95-108 | The tree's code table covers the message, is prefix-free, and has no empty code exactly when there are two or more distinct bytes. |
| HuffmanCodec.RootCode | a4/huffman.py:105-108 | Codes from the root cover every byte of the message and form a binary prefix-free code. |
| HuffmanCodec.RootCodesNonEmpty | a4/huffman.py:102-108 | Only a one-leaf tree gives a byte the empty code. |
| HuffmanCodec.LeavesNonEmpty | a4/huffman.py:61-71 | A tree has at least one leaf. |
| HuffmanCodec.Decode | a4/huffman.py:130-142 | The loop computes `DecodeFrom`, the reading that `DecodeEncode` proves inverts encoding: a byte is emitted each time the pending bits are a key of the ring. |
| HuffmanCodec.ProperPrefixNoCode | a4/huffman.py:137-141 | A proper prefix of a code is no code. |
| HuffmanCodec.DecodeOne | a4/huffman.py:137-141 | Reading a code to its end emits exactly its byte. |
| HuffmanCodec.DecodeEncode | a4/huffman.py:119-142 | With non-empty binary prefix-free codes, decoding the encoding gives back the message. |
| HuffmanCodec.OneByteEncodesEmpty | a4/huffman.py:119-121 | When the only byte has the empty code, the encoding is empty. |
| HuffmanPack.BitsValueBound | a4/huffman.py:167-186 | `n` bits shifted into a buffer stay below `2^n`. |
| HuffmanPack.EightBits | a4/huffman.py:179-180 | A full group of eight bits is one byte. |
| HuffmanPack.TailLength | a4/huffman.py:160 | The bits left after the full groups number `len(enc) % 8`. |
| HuffmanPack.PackSplit | a4/huffman.py:165-193 | The packed bytes are the full groups and then one last byte. |
| HuffmanPack.PackLength | a4/huffman.py:165-193 | `len(enc) // 8 + 1` bytes are produced. |
| HuffmanPack.ZerosValue | a4/huffman.py:191-192 | Shifting left by `k` is appending `k` zero bits. |
| HuffmanPack.ChunksAppend | a4/huffman.py:179-182 | Bytes of whole groups concatenate. |
| HuffmanPack.ChunksStep | a4/huffman.py:174-182 | The buffer emitted at `count == 8` is the next group's byte. |
| HuffmanPack.TailAfterGroups | a4/huffman.py:188-193 | The bits left in the buffer are those after the last full group. |
| HuffmanPack.BitsValueStep | a4/huffman.py:174-186 | Or-ing a bit into a shifted buffer is appending it. |
| HuffmanPack.PaddingKeepsDecodes | a4/huffman.py:163 | The `padding` key does not disturb decoding, since it is no binary code. |
| HuffmanPack.Compress | a4/huffman.py:152-195 | Fails with IndexError exactly for the empty message. Otherwise the bytes are the encoding packed, `padding` is 8 minus the leftover bits (so 1 to 8), and there are `len(enc) // 8 + 1` bytes. The ring's keys are the codes and `padding`. |
| HuffmanPack.PackBits | a4/huffman.py:160-193 | The bit loop and the final shift produce the packed bytes of the encoding. |
| HuffmanPack.PackLast | a4/huffman.py:188-193 | The final shift by `padding - 1` left-aligns the leftover bits in the last byte. |
| HuffmanPack.GroupsRemainder | a4/huffman.py:160 | The padding expression, as Python parses it, counts the leftover bits. |
| HuffmanPack.LastBuffer | a4/huffman.py:186-192 | The shifted last buffer equals the leftover bits padded with zeros. |
| HuffmanPack.ToBits | a4/huffman.py:217 | `f'{byte:08b}'` gives eight characters. |
| HuffmanPack.Decompress | a4/huffman.py:202-232 | KeyError without a `padding` entry. Otherwise it decodes every byte's eight bits, keeping only the first `8 - padding` of the last byte. |
| HuffmanPack.ToBitsValue | a4/huffman.py:217 | Formatting a byte in binary inverts packing its bits. |
| HuffmanPack.ToBitsStep | a4/huffman.py:217 | Formatting `2v + bit` appends that bit. |
| HuffmanPack.UnpackOne | a4/huffman.py:220-225 | The last byte gives back its first `8 - padding` bits. |
| HuffmanPack.UnpackShort | a4/huffman.py:188-225 | Fewer than eight bits survive compression and decompression. |
| HuffmanPack.UnpackPack | a4/huffman.py:165-227 | Unpacking the packed bytes with the computed padding gives back the bit string. |
| HuffmanPack.UnpackPackStep | a4/huffman.py:179-221 | One leading full group survives the round trip. |
| HuffmanPack.UnpackFirst | a4/huffman.py:220-221 | A byte that is not last contributes all eight bits. |
| HuffmanPack.EncodeWithBinary | a4/huffman.py:119-121 | An encoding with binary codes is binary. |
| HuffmanPack.RoundTrip | a4/huffman.py:152-232 | `decompress(compress(msg))` gives `msg` back when the message has two or more distinct bytes. |
| HuffmanPack.CodeDecodes | a4/huffman.py:130-142 | The encoding is binary and decodes to the message when no code is empty. |
| HuffmanPack.OneByteLost | a4/huffman.py:152-232 | A message of one repeated byte compresses to `[0]` with padding 8 and decompresses to nothing. |
| Marriage.IndexOf | a1/marriage.py:82 | The index returned is the first occurrence. |
| Marriage.BeforeIndex | a1/marriage.py:82 | Comparing the two indexes says which name comes first in the list. |
| Marriage.CheckPref | a1/marriage.py:81-84 | ValueError exactly when a name is missing from the lady's list. Otherwise false exactly when her partner comes before the knight. |
| Marriage.DroppedKept | a1/marriage.py:105-118 | Re-engaging a lady to a knight she ranks no lower keeps every dropped lady better matched than the dropping knight. |
| Marriage.Stable | a1/marriage.py:92-121 | IndexError means some knight ran through his whole list, KeyError that a knight lists a name that is no lady, ValueError that a lady's list leaves out a knight. The lists are only popped from the front. A result has every lady as key. Without a knight named "free" it is a matching with no blocking pair, and each engaged lady heads her knight's remaining list. With complete lists (equal numbers, everyone listing everyone) and no knight named "free", it succeeds and nobody is free. |
| Marriage.RefusedWhy | a1/marriage.py:103-115 | A failed round has the cause named for its error: an exhausted list (IndexError), a listed name that is no lady (KeyError), or a knight missing from a lady's list (ValueError). |
| Marriage.Propose | a1/marriage.py:99-120 | One round fails exactly as the source does or takes the source's step (engage, trade up, or pop the list). It keeps the loop invariants and lowers the loop's measure, and it cannot fail on complete lists. |
| Marriage.RankDrop | a1/marriage.py:110-118 | A trade-up lowers the lady's partner rank measure. |
| Marriage.PopDrop | a1/marriage.py:119-120 | A pop removes a proposal from the measure. |
| Marriage.DropFirst | a1/marriage.py:101-108 | Removing the first free knight keeps the free list distinct. |
| Marriage.EngageFree | a1/marriage.py:105-108 | Engaging a free lady keeps the loop invariant and lowers the rank measure. |
| Marriage.EngageFreeEngagements | a1/marriage.py:105-108 | Engaging a free lady keeps the engagement invariant. |
| Marriage.EngagePartners | a1/marriage.py:106 | Partner and wife maps stay mutually inverse. |
| Marriage.EngageWives | a1/marriage.py:105-108 | Each engaged knight's wife heads his remaining list. |
| Marriage.EngageCovers | a1/marriage.py:108 | Every knight stays free or engaged. |
| Marriage.TradeUp | a1/marriage.py:110-118 | The jilted partner goes back on the free list (last, unless already there). The invariants are kept and the measure drops. |
| Marriage.TradeUpEngagements | a1/marriage.py:110-118 | A trade-up keeps the engagement invariant. |
| Marriage.Reject | a1/marriage.py:119-120 | A refusal pops the knight's list, keeping the invariants and removing a proposal. |
| Marriage.PopShape | a1/marriage.py:120 | Popping keeps each remaining list a suffix of the original. |
| Marriage.RejectEngagements | a1/marriage.py:119-120 | A refusal keeps the engagement invariant. |
| Marriage.InjectionCard | a1/marriage.py:99-103 | An injection from knights into ladies needs at least as many ladies. |
| Marriage.IndexOfAtMost | a1/marriage.py:82 | The first index is at most any index of the name. |
| Marriage.EmptyListShort | a1/marriage.py:103 | A free knight's list can run out only when there are fewer ladies than knights. |
| Marriage.ProposalFacts | a1/marriage.py:101-103 | A free knight's list runs empty only when there are fewer ladies than knights. With complete lists, the head of his list is a lady who lists him and her partner. |
| Marriage.FinishMatching | a1/marriage.py:99-121 | At loop exit the partners form a matching and each lady heads her partner's remaining list. |
| Marriage.FinishStable | a1/marriage.py:99-121 | At loop exit no knight and lady prefer each other to their partners. |
| Marriage.FinishMarried | a1/marriage.py:99-121 | With equal numbers, nobody is free at loop exit. |
| Marriage.Finish | a1/marriage.py:99-121 | Gathers the three loop-exit facts. |
| Seam.SeamExtend | a5/resizeable_image.py:139-145 | A pixel below and at most one column off extends a seam. |
| Seam.SeamEnergyAppend | a5/resizeable_image.py:51-52 | The energy of a seam grows by the added pixel's energy. |
| Seam.Reversed | a5/resizeable_image.py:54 | Reversal keeps the length. |
| Seam.BackIsLeast | a5/resizeable_image.py:114-122 | The pointer chosen for a cell is an in-image neighbour above, and no neighbour's cumulative energy is lower. |
| Seam.CumIsLeast | a5/resizeable_image.py:112-125 | A cell's cumulative energy is at most the energy of any seam ending there. |
| Seam.Walk | a5/resizeable_image.py:139-145 | Following pointers from `(c, j)` gives `j + 1` pixels starting there. |
| Seam.WalkIsSeam | a5/resizeable_image.py:139-145 | The walk is a seam whose energy is the cumulative energy. |
| Seam.WalkSeam | a5/resizeable_image.py:139-145 | The walk is a connected seam. |
| Seam.WalkEnergy | a5/resizeable_image.py:125-145 | The walk's energy is the stored cumulative energy. |
| Seam.LastBelow | a5/resizeable_image.py:133-137 | The search as written picks the last column below column 0's energy, or 0 when there is none. |
| Seam.BottomPickNotLeast | a5/resizeable_image.py:133-137 | On energies 5, 1, 3 the search picks column 2 while column 1 is lower. |
| Seam.MinColumn | a5/resizeable_image.py:133-137 | The corrected search returns a column of least cumulative energy. |
| Seam.CorrectedSeamIsLeast | a5/resizeable_image.py:131-145 | With the corrected search the result is a seam of least energy in the image. |
| Seam.BestSeam | a5/resizeable_image.py:94-148 | KeyError exactly for an empty image. Otherwise it returns the walk from the pixel picked as written: a seam of full height whose energy is the cumulative energy, no worse than column 0's, and least among seams from that pixel. |
| Seam.BottomPixel | a5/resizeable_image.py:133-137 | The loop picks the pixel `LastBelow` names. |
| Seam.Trace | a5/resizeable_image.py:140-145 | Following the pointer map yields a non-empty list starting at the given pixel. |
| Seam.WalkBack | a5/resizeable_image.py:140-145 | The while loop yields the pointer trace. |
| Seam.TraceIsWalk | a5/resizeable_image.py:139-145 | The filled pointer map traces the walk. |
| Seam.PointersUpward | a5/resizeable_image.py:127-129 | Each pointer leads one row up, so tracing ends. |
| Seam.WalkSplit | a5/resizeable_image.py:143-145 | A walk is its pixel followed by the walk from its pointer. |
| Seam.FillRow | a5/resizeable_image.py:113-129 | Filling a row extends both tables by that row. |
| Seam.RowDone | a5/resizeable_image.py:112-113 | A completed row starts the next. |
| Seam.TableStep | a5/resizeable_image.py:125 | Storing a cell keeps the energy table equal to the cumulative energies. |
| Seam.PointersStep | a5/resizeable_image.py:129 | Storing a pointer keeps the pointer table equal to the chosen neighbours. |
| Seam.UpperCell | a5/resizeable_image.py:114-122 | The neighbour chosen from the table is the one `Back` names, and its stored value is its cumulative energy. |
| Seam.Better2 | a5/resizeable_image.py:19-23 | The second result wins a tie or a lower energy; the first wins only when strictly lower. |
| Seam.Better3 | a5/resizeable_image.py:43-49 | The middle result wins a tie with the least; then the last; the first only when strictly lowest. |
| Seam.Dfs | a5/resizeable_image.py:8-56 | The recursion of `DFS` with its three column cases and the source's tie-breaking (`Better2`, `Better3`); its path has one pixel for each row from 0 to the pixel's. |
| Seam.DfsUnfold | a5/resizeable_image.py:13-56 | One `DFS` step keeps the result `Best` picks among the cells above and extends it by the pixel. |
| Seam.BestIsLeast | a5/resizeable_image.py:13-49 | In an image two or more columns wide, the kept result is that of an in-image cell above, and no in-image cell above has less energy. |
| Seam.DfsStep | a5/resizeable_image.py:8-56 | In an image two or more columns wide, each step extends the result from an in-image neighbour above, one of least energy. |
| Seam.ReversedAppend | a5/resizeable_image.py:54 | Appending a pixel then reversing puts it first. |
| Seam.DfsIsSeam | a5/resizeable_image.py:8-56 | In an image two or more columns wide, `DFS` returns a seam from row 0 to the pixel, with its energy. |
| Seam.FoundStep | a5/resizeable_image.py:51-54 | Adding the pixel to a found seam above keeps it a seam with matching energy. |
| Seam.SeamStep | a5/resizeable_image.py:54 | Appending an adjacent pixel keeps the path a seam. |
| Seam.DfsIsCum | a5/resizeable_image.py:8-56 | In an image two or more columns wide, `DFS`'s energy equals the dynamic programme's cumulative energy. |
| Seam.DfsCumStep | a5/resizeable_image.py:13-52 | One `DFS` step matches one cumulative-energy step. |
| Seam.CumStep | a5/resizeable_image.py:125 | A cell's cumulative energy is its energy plus its pointer's. |
| Seam.DfsIsLeast | a5/resizeable_image.py:8-56 | In an image two or more columns wide, `DFS` returns energy no higher than any seam ending at the pixel. |
| Seam.DfsLeavesNarrowImage | a5/resizeable_image.py:14-16 | In a one-column image `DFS` reads column 1, outside the image. |

## Left out

- The cube's geometry: `rubik.quarter_twists`, `perm_apply` and `perm_inverse` are parameters of `Puzzle`, bound only by `InverseLaw`. `rubik.py` is not part of this model.
- Solver.ShortestPath: states that a returned list is a correct path of at most 14 moves, not that it is shortest. It does not say when `None` (`NoPath`) or the IndexError (`Crashed`) occur.
- Solver.NextFrontier: returns the new deque and visited list instead of changing the caller's in place.
- HuffmanTree.LetterFreq: `heapify` and the stable sort fix an order among equal counts. The model sorts stably from dictionary order, so the order among equal weights may differ, and so may the exact tree and codes.
- HuffmanCodec.InvertCodes: the ring is built by iterating a dictionary; the model states the resulting map, not the iteration order.
- HuffmanPack.RoundTrip: holds only for messages with two or more distinct bytes. For one distinct byte the source gives it the empty code and the message is lost (`OneByteLost`).
- The command line, file I/O, `marshal` and `pickle` in `a4/huffman.py`; the byte arrays are sequences of bytes.
- `file_handling`, `initiate` and `main` in `a1/marriage.py` (argument checks, file parsing, output).
- Marriage.Stable: matching and stability are stated only when no knight is named "free", since the source uses that string as a marker.
- Marriage.Stable: the source pops the caller's lists in place; the model returns the popped lists.
- The `dp=False` branch of `best_seam` (lines 60-91), `remove_best_seam`, and the `imagematrix` base class (`energy`, `remove_seam`, pixel storage). `energy` is a function parameter.
- Seam.DfsIsSeam: proved for images two or more columns wide. In a one-column image `DFS` takes its `col == 0` branch and reads column 1 (`DfsLeavesNarrowImage`).
- Seam.DfsIsCum: proved for images two or more columns wide, for the same reason.
- Seam.DfsIsLeast: proved for images two or more columns wide, for the same reason.
- Seam.DfsStep: proved for images two or more columns wide, for the same reason.
- numpy arrays, `deque` and `list` performance, and Python's dictionary iteration order, except where the order matters (the free knights, the bottom-row search).

## Findings

| source | as written | input that shows it | evidently intended | confidence | as-written member | corrected member |
|---|---|---|---|---|---|---|
| a5/resizeable_image.py:133-137 | `minimum` is never updated, so the loop picks the last bottom pixel whose cumulative energy is below column 0's | width 3, height 1, energies 5, 1, 3: column 2 (energy 3) is picked over column 1 (energy 1) | the bottom pixel of least cumulative energy, giving a least-energy seam | not executed | Seam.LastBelow, Seam.BottomPickNotLeast | Seam.MinColumn, Seam.CorrectedSeamIsLeast |
