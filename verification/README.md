# Dancing Links and Rabin-Karp, modelled in Dafny

This project models two independent algorithms and proves what they promise.

**Dancing Links / Algorithm X** (`Algo-Reynalde/main.cpp`). This is Knuth's
exact-cover search over a toroidal, doubly linked, sparse 0/1 matrix.

- The structure. The pointer fields of `struct Node` (`left`, `right`, `up`,
  `down`, `col_header`, `row`, `size`) become seven arrays of the class
  `Dlx.DancingLinks`, indexed by node number.
  - Node 0 is the root header.
  - Nodes 1..ncols are the column headers; column `j` has header `j + 1`.
  - The cells follow row by row, in the order `create_dancing_links`
    allocates them.
  - `Valid()` ties the arrays to an abstract state (`DlxModel.Abs`). That state
    holds the headers still in the root's ring, in ring order, and for each
    column the cells still in its vertical ring, top down.
  - `Valid()` also demands that every ring is symmetric and that every
    header's `size` is the length of its ring.
- The operations.
  - `cover`, `uncover` and `solve` are methods that change the arrays in place.
  - Each method is proved against value-level functions on snapshots of the
    arena (module `Links` for the splices, `DlxModel` for what `cover` does).
  - `solve` is proved against the matrix-level notion of an exact cover
    (`DlxSolve.ExactCover`).
  - `create_dancing_links` is the class's constructor. Its helpers
    (`DlxBuild`) state what the arena looks like part way through the header
    loop and the row loop.

**Rabin-Karp** (`Algo-Antoine/src/rabinKarp.c`). This is a substring search
with a base-256 rolling hash reduced modulo the prime 101. It writes the
index of every occurrence of the pattern into a caller-provided array.

- Characters are bytes `0..255`.
- C's truncating `%` is modelled explicitly (`CRem`), and so is the
  correction of negative remainders.
- Each loop is proved against a pure function:
  - the polynomial hash `Hash`;
  - the ordered list of match positions `Occurrences`.

Files:

- `dlx_seqs.dfy` (module `Seqs`): sequence helpers.
- `dlx_links.dfy` (module `Links`): the arena as a value, the splices, and rings.
- `dlx_model.dfy` (module `DlxModel`): the arena invariant and `cover` on values.
- `dlx_walks.dfy` (module `DlxWalks`): the states `cover`'s two nested loops pass through.
- `dlx_example.dfy` (module `DlxExample`): `cover` followed by hand on the 2 x 2 matrix of ones.
- `dlx_solve.dfy` (module `DlxSolve`): exact covers, and the facts the search relies on.
- `dlx_build.dfy` (module `DlxBuild`): the arena part way through `create_dancing_links`.
- `dlx.dfy` (module `Dlx`): the class with the arrays and the imperative operations.
- `rabin_karp.dfy` (module `RabinKarp`): the hash, the search and their specification.

## Model

| member | source | states |
|---|---|---|
| Dlx.DancingLinks.constructor | Algo-Reynalde/main.cpp:81-129 | The result is built from the matrix. The arena is well formed, with one node per header and per 1. Every column is in the root's ring, in column order. Column c's vertical ring lists, top down, one cell for each row with a 1 in column c, and its size is that count. The solution is empty. |
| Dlx.DancingLinks.Link | Algo-Reynalde/main.cpp:86-128 | On freshly allocated nodes, the header loop and the row loop leave exactly the built arena described above. |
| Dlx.DancingLinks.LinkHeaders | Algo-Reynalde/main.cpp:86-93 | The root's ring holds headers 1..ncols in column order. Each header is its own column header with an empty vertical ring and size 0. No cell is linked yet. |
| Dlx.DancingLinks.AppendHeader | Algo-Reynalde/main.cpp:87-92 | Header h is spliced in just left of the root, at the tail of the ring, and made its own column header. |
| Dlx.DancingLinks.LinkRows | Algo-Reynalde/main.cpp:96-126 | After all rows, the arena is complete. Each column's ring holds that column's rows in increasing order. Each non-zero row's cells form a left/right ring in increasing column order. An all-zero row gets no cell. |
| Dlx.DancingLinks.LinkRow | Algo-Reynalde/main.cpp:97-125 | Linking row i extends a correctly built prefix of rows to one row more. |
| Dlx.DancingLinks.LinkEntry | Algo-Reynalde/main.cpp:100-124 | Entry (i, j) extends the built prefix by one entry. It adds a cell only for a 1 and keeps track of the row's first and last cell. |
| Dlx.DancingLinks.LinkOne | Algo-Reynalde/main.cpp:101-123 | A 1 at (i, j) allocates the next node, appends it to column j's list and extends the built prefix by one entry. |
| Dlx.DancingLinks.LinkCell | Algo-Reynalde/main.cpp:102-123 | The new state is the value-level `AddCell`. The cell is tagged with row i and column j, put at the bottom of column j, and, when it is not the first of its row, put between the row's last cell and its first. |
| Dlx.DancingLinks.LinkBelow | Algo-Reynalde/main.cpp:103-111 | The cell is tagged with its row and column header and spliced in just above header j, at the tail of the vertical ring. The header's size grows by one. |
| Dlx.DancingLinks.LinkBeside | Algo-Reynalde/main.cpp:118-121 | Exactly four left/right entries change. The new cell points back to the previous cell and on to the row's first cell, and those two cells point to it. |
| DlxBuild.HeadersFinished | Algo-Reynalde/main.cpp:86-93 | After the header loop over fresh nodes, the root's ring is headers 1..ncols, every header is its own column header, every column is empty, and no cell is linked. |
| DlxBuild.StepBuilt | Algo-Reynalde/main.cpp:101-123 | Adding the cell for a 1 at (i, j) keeps the build invariant, with that cell appended to column j. |
| DlxBuild.SkipBuilt | Algo-Reynalde/main.cpp:100-101 | A 0 entry keeps the build invariant without allocating. |
| DlxBuild.RowBuilt | Algo-Reynalde/main.cpp:96-125 | Finishing row i closes its cells' left/right ring and moves the build invariant to the next row. |
| DlxBuild.BuiltInv | Algo-Reynalde/main.cpp:81-129 | The finished arena satisfies the invariant, with every column active. Each column's ring is symmetric and its size equals its length. Its cells' row numbers are exactly the rows with a 1 in that column, increasing. |
| DlxBuild.HitRows | Algo-Reynalde/main.cpp:100-111 | The rows with a 1 in column j, strictly increasing. |
| Dlx.DancingLinks.HDetach | Algo-Reynalde/main.cpp:16-17 | The new arena is `HUnlink`: c's neighbours in the root's ring skip it. |
| Dlx.DancingLinks.Detach | Algo-Reynalde/main.cpp:21-23 | The new arena is `VUnlink`: x's vertical neighbours skip it and its column's size drops by one. |
| Dlx.DancingLinks.CoverCells | Algo-Reynalde/main.cpp:20-24 | The walk `node = row->right` unlinks every other cell of the row, left to right, through the given chain of states. |
| Dlx.DancingLinks.CoverRows | Algo-Reynalde/main.cpp:19-25 | The walk `row = row->down` down the covered column treats each row in turn, through the given chain of states. |
| Dlx.DancingLinks.Cover | Algo-Reynalde/main.cpp:15-26 | The new arena is `CoverLinks`: c leaves the header ring, and every other cell of each row in c's ring leaves its own column. The invariant is kept, so rings stay symmetric and sizes stay equal to ring lengths. The active headers lose exactly c. Column c's own ring is unchanged. |
| DlxModel.CoverSound | Algo-Reynalde/main.cpp:15-26 | On values, `cover` keeps the invariant and removes exactly c from the active headers. It keeps column c's ring. |
| DlxModel.CoverOpsFacts | Algo-Reynalde/main.cpp:19-25 | The cells `cover` unlinks are exactly the cells outside column c of the rows in c's ring, each unlinked once. |
| DlxModel.CoverHeaders | Algo-Reynalde/main.cpp:16-17 | After `cover`, the root's ring is the old one without c, still in column order. |
| DlxSolve.CoverKeepsRows | Algo-Reynalde/main.cpp:15-26 | `cover` changes no left/right link of any cell. |
| DlxSolve.CoveredColumnLinks | Algo-Reynalde/main.cpp:15-26 | `cover` leaves the down links along c's own ring as they were, so the loop of line 58 walks c's rows. |
| DlxWalks.OwnColumnKept | Algo-Reynalde/main.cpp:19-25 | No cell of column c is among those `cover` unlinks, at any point of its walk. |
| Dlx.DancingLinks.Reattach | Algo-Reynalde/main.cpp:32-34 | The new arena is `VRelink`: the size grows by one and x's vertical neighbours point to it again. |
| Dlx.DancingLinks.HReattach | Algo-Reynalde/main.cpp:38-39 | The new arena is `HRelink`: c's horizontal neighbours point to it again. |
| Dlx.DancingLinks.UncoverCells | Algo-Reynalde/main.cpp:31-35 | The walk `node = node->left` relinks a row's cells right to left, taking the chain of states back to its start. |
| Dlx.DancingLinks.UncoverRows | Algo-Reynalde/main.cpp:30-36 | The walk `row = row->up` treats the rows bottom up and takes the chain of states back to its start. |
| Dlx.DancingLinks.Uncover | Algo-Reynalde/main.cpp:29-40 | Right after `cover(c)`, `uncover(c)` restores every link and every size and the abstract state. |
| DlxModel.CoverUndone | Algo-Reynalde/main.cpp:15-40 | On values, relinking `cover`'s unlinked cells in reverse order, then relinking c, gives back the arena `cover` started from. |
| Links.RelinkUndoesUnlink | Algo-Reynalde/main.cpp:21-23 | Relinking a node that was symmetrically linked restores exactly the state before it was unlinked. |
| Links.HRelinkUndoesHUnlink | Algo-Reynalde/main.cpp:16-17 | The same for a header in the root's ring (lines 38-39 undo lines 16-17). |
| Links.RelinkAllUndoesUnlinkAll | Algo-Reynalde/main.cpp:30-35 | Relinking in reverse order undoes a whole sequence of unlinks when each node was symmetric at its turn. This is why `uncover` walks up and left. |
| Links.VUnlink | Algo-Reynalde/main.cpp:21-23 | Unlinking a node of a column gives a well-formed arena of the same size. Only `up`, `down` and `size` change; `left`, `right`, the column headers and the rows are kept. |
| Links.VUnlinkSkips | Algo-Reynalde/main.cpp:21-23 | After the unlink, x's up neighbour points down to x's down neighbour and vice versa, and x's column's size is one less. No other `up`, `down` or `size` entry changes. |
| Links.VUnlinkFrame | Algo-Reynalde/main.cpp:21-22 | The unlinked node keeps its own `up` and `down`, and so does every node that is neither of its two neighbours. |
| Links.VRelink | Algo-Reynalde/main.cpp:32-34 | Relinking a node gives a well-formed arena of the same size. Only `up`, `down` and `size` change. |
| Links.HUnlink | Algo-Reynalde/main.cpp:16-17 | Taking a header out of the root's ring gives a well-formed arena of the same size. Only `left` and `right` change; `up`, `down`, the column headers, the rows and the sizes are kept. |
| Links.HRelink | Algo-Reynalde/main.cpp:38-39 | Putting a header back gives a well-formed arena of the same size. Only `left` and `right` change. |
| Links.SplicesAvoid | Algo-Reynalde/main.cpp:19-25 | If none of the later unlinks has a node as its up or down neighbour, that node ends with the `up` and `down` it had right after its own unlink. |
| DlxModel.AvoidsDone | Algo-Reynalde/main.cpp:19-25 | While `cover` runs, the node it unlinks next never has an already unlinked cell as its up or down neighbour. Those neighbours are still in the same column's ring, or they are its header. |
| DlxModel.UnlinkedKeepLinks | Algo-Reynalde/main.cpp:19-25 | Every cell `cover(c)` removes ends with the `up` and `down` it had when it was unlinked. Lines 21-22 write only its neighbours' links, and no later unlink writes its own. |
| DlxExample.CoverRewritesRemovedUp | Algo-Reynalde/main.cpp:15-26 | On the 2 x 2 matrix of ones, the well-formed arena has cell 6 with `up` = 4. `cover(1)` unlinks cells 4 and 6, and cell 6 ends with `up` = 2: unlinking cell 4 rewrote it first. The removed cells keep their links from their own unlink, not from the start of `cover`. |
| Dlx.DancingLinks.ChooseColumn | Algo-Reynalde/main.cpp:49-54 | The column chosen is active and has the least size. Every active column of smaller number has a strictly larger size, so ties go to the first column in ring order. Its size is also the least ring length. |
| Dlx.DancingLinks.SmallestHeader | Algo-Reynalde/main.cpp:49-54 | The scan along the header ring returns a header on the ring with minimal size, the first such header in ring order. |
| DlxSolve.SizeIsLength | Algo-Reynalde/main.cpp:51 | An active header's size is the number of cells in its ring. |
| DlxSolve.HeaderEmpty | Algo-Reynalde/main.cpp:44 | `header->right == header` exactly when no column is active. |
| Dlx.DancingLinks.Solve | Algo-Reynalde/main.cpp:43-78 | With no active column, it returns true and changes nothing. On true, every column is covered and the rows appended to the solution are an exact cover of the columns active on entry. On false, the links, the sizes, the abstract state and the solution are as on entry. |
| Dlx.DancingLinks.Branch | Algo-Reynalde/main.cpp:48-77 | Covering the chosen column and trying its rows gives the same outcome as `Solve` for a non-empty ring. |
| Dlx.DancingLinks.TryColumn | Algo-Reynalde/main.cpp:58-76 | The rows of the covered column are tried top down. On success there is an exact cover of the columns active before the cover. On failure the column is uncovered and the state is back to before the cover. |
| Dlx.DancingLinks.TryRow | Algo-Reynalde/main.cpp:59-73 | Pushing the row and covering its other columns, then recursing, either finds an exact cover starting with that row or leaves the state and the solution as they were. |
| Dlx.DancingLinks.Descend | Algo-Reynalde/main.cpp:65-73 | After the recursive call, on success the solution extends the old one by an exact cover. On failure the pop and the uncover of the row's columns, right to left, restore the state before the push. |
| Dlx.DancingLinks.CoverRow | Algo-Reynalde/main.cpp:61-63 | The columns of the row's other cells are covered left to right. The active headers lose exactly those columns. |
| Dlx.DancingLinks.UncoverRow | Algo-Reynalde/main.cpp:71-73 | Uncovering the same columns right to left restores the arena and the abstract state from before `CoverRow`. |
| Dlx.DancingLinks.CoverLoop | Algo-Reynalde/main.cpp:61-63 | The walk `node = node->right` covers the columns of the row's other cells, left to right. The states it passes through form a chain of `cover` calls: each one is `CoverLinks` and `CoverAbs` of the one before. The chain starts at the entry state and ends at the current one. |
| Dlx.DancingLinks.CoverNext | Algo-Reynalde/main.cpp:62 | One `cover(node->col_header)` adds one link to the chain, ending in the new state. The `right` links of all cells are unchanged, so the walk goes on along the same row. |
| Dlx.DancingLinks.UncoverLoop | Algo-Reynalde/main.cpp:71-73 | The walk `node = node->left` undoes the chain from its end. It finishes in the chain's first state: the arena and abstract state before the row's columns were covered. |
| Dlx.DancingLinks.UncoverNext | Algo-Reynalde/main.cpp:72 | One `uncover(node->col_header)` takes the state at link n + 1 of the chain back to link n. The `left` links of all cells are unchanged. |
| Dlx.DancingLinks.TryCell | Algo-Reynalde/main.cpp:58-74 | One turn of the loop on the q-th cell of the covered column c. On success no column is left, and the rows appended to the solution are an exact cover of the columns active before `cover(c)`. On failure the arena, the abstract state and the solution are as on entry. |
| DlxSolve.CoverNothing | Algo-Reynalde/main.cpp:44-46 | The empty selection is an exact cover of the empty set of columns. |
| DlxSolve.ExtendCover | Algo-Reynalde/main.cpp:59-66 | A row inside the active columns, followed by an exact cover of the columns it leaves open, is an exact cover of the active columns. |
| DlxSolve.FoundRow | Algo-Reynalde/main.cpp:58-66 | Choosing row i for the covered column c, with its other columns covered too, and then an exact cover of what is left, gives an exact cover of the columns active before c was covered. |
| DlxSolve.PushFound | Algo-Reynalde/main.cpp:59-66 | The same, stated on the `solution` vector that the recursive call extended after the push. |
| DlxSolve.RowHits | Algo-Reynalde/main.cpp:58-63 | A row's 1s are exactly the cell the walk starts from plus the cells `node = node->right` visits. |
| DlxSolve.ActiveAfterRow | Algo-Reynalde/main.cpp:56-63 | The columns active after covering c and the row's other columns are those active before, minus the row's 1s. |
| DlxSolve.ChainHeaders | Algo-Reynalde/main.cpp:61-63 | Covering a list of distinct active columns in turn removes exactly them from the active headers. |
| RabinKarp.CalculateHash | Algo-Antoine/src/rabinKarp.c:15-21 | The loop returns the hash of the first `length` characters, which lies in [0, 101). |
| RabinKarp.HashIsPolynomial | Algo-Antoine/src/rabinKarp.c:15-21 | The Horner form equals Σ str[k]·256^(length-1-k) reduced mod 101. |
| RabinKarp.CorrectedRemainder | Algo-Antoine/src/rabinKarp.c:53-57 | C's truncating `%` followed by adding 101 to a negative result is the mathematical (non-negative) remainder. |
| RabinKarp.LeadingWeight | Algo-Antoine/src/rabinKarp.c:35-39 | After the loop, `h == 256^(patternLen-1) mod 101`. |
| RabinKarp.RollHash | Algo-Antoine/src/rabinKarp.c:53-57 | Rolling the window one place (drop the first character, append the next) and correcting a negative value gives exactly the next window's hash. |
| RabinKarp.RollPoly | Algo-Antoine/src/rabinKarp.c:53 | The polynomial value of the next window, computed from the current one. |
| RabinKarp.RollWindow | Algo-Antoine/src/rabinKarp.c:52-58 | The rolled hash is the next window's hash and lies in [0, 101). |
| RabinKarp.HashFilterKeepsMatches | Algo-Antoine/src/rabinKarp.c:43-45 | Equal hashes and equal characters together hold exactly when the pattern occurs at i, so the hash test never hides a match. |
| RabinKarp.Examine | Algo-Antoine/src/rabinKarp.c:43-50 | Position i is recorded exactly when the pattern occurs there. The array then lists the occurrences below i + 1. Entries at or beyond the count stay as they were. |
| RabinKarp.Advance | Algo-Antoine/src/rabinKarp.c:42-59 | One iteration keeps the loop invariant. The count and the written entries are the occurrences so far, the other entries are untouched, and the text hash is the hash of the current window. |
| RabinKarp.Search | Algo-Antoine/src/rabinKarp.c:30-62 | The entries written are `Occurrences`, the occurrence positions in increasing order, and the return value is their number. Entries at or beyond it are unmodified. With `OccurrencesOrdered`, a pattern longer than the text gives 0. |
| RabinKarp.OccurrencesExact | Algo-Antoine/src/rabinKarp.c:42-50 | A position is listed exactly when the pattern occurs there (soundness and completeness). |
| RabinKarp.OccurrencesOrdered | Algo-Antoine/src/rabinKarp.c:42-48 | The listed positions are strictly increasing. There are at most `textLen - patternLen + 1` of them, and none when the pattern is longer than the text. |

## Left out

- Dlx.DancingLinks.Solve: when `solve` returns false, the model proves that the links, the sizes and the solution are restored. It does not prove that no exact cover exists.
- Pointers and the heap. Nodes live in an arena of arrays instead of being separate objects. The constructor allocates all nodes up front, as many as `create_dancing_links` would create (one root, one header per column, one cell per 1). It numbers them in the order the source allocates them. `new Node()` without `delete` (no lifetime) is not modelled.
- Dlx.DancingLinks.constructor: requires at least one row, and no row longer than row 0 (`MatrixShape`). `create_dancing_links` reads `matrix[0]` and `column_headers[j]` unchecked, so other inputs are undefined behaviour. Shorter rows are allowed, as in the source.
- `size` is an unbounded integer. The source's `int` cannot overflow here, since sizes stay within the number of rows.
- The recursion depth and the stack use of `solve` are not modelled.
- `main` (Algo-Reynalde/main.cpp) and `test1`, `test2` (Algo-Antoine/src/rabinKarp.c) are demo drivers and are not modelled. The console output (`printf` at line 46 of rabinKarp.c) is not modelled either.
- RabinKarp.Search: requires `patternLen >= 1`. For an empty pattern the source reports index 0. It reports a later index only where the rolled hash of line 53, which is then `(256 * textHash - 255 * text[i]) % 101` corrected, comes back to 0. For the one-character text "A" it reports index 0 alone. That case is not modelled.
- RabinKarp.Search: the source hashes the first `patternLen` characters of the text even when the pattern is longer than the text, reading past its end. The model reads the text hash only when the pattern fits.
- RabinKarp.Search: requires the caller's array to have at least `textLen - patternLen + 1` slots. The source writes without a bound, and this is the most it can write.
- Characters are bytes 0..255. C's signed `char`, which makes non-ASCII bytes negative and can make `calculateHash` return a negative value, is not modelled.
- The text and the pattern are finite sequences, so `strlen` is assumed to find a terminator. Unterminated strings are not modelled.
- `long long` overflow cannot happen and is not modelled. Every intermediate value of lines 18, 38 and 53 stays below 2^23 in absolute value: the hashes and `h` are below 101 and the characters below 256.
