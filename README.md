# Osiva image viewer core, modelled in Dafny

Osiva is a Windows viewer that shows each image in its own borderless
window, optionally cut to the shape of the picture by a transparent
window region. This project models the parts of Osiva that compute
something of their own and proves what they promise:

- **Transparent regions** (contour.cpp, contour.h, wregion.cpp).
  - `Contour`: the boundary tracer over a byte mask, the corner extractor and the contour point list.
  - `Scan`: the corner comparison, the active-span list (`pn_insert`, `pn_remove`) and the corner-parity sweep that fills, marks and measures a polygon.
  - `EdgeTree`: the edge tree as an index arena, its recursive builder with the depth limit, the visited bit 0x02 and the 1000-call guard, and its teardown.
  - `MaskOps`: the mask classification, the dilation and dehair passes with their rotating row buffers, the glint passes and the diagonal clean-up.
  - `WRegion`: the acceptance gates of extractRegion and extractRegions, nodeCount, plotContour/plotBranch and the union/XOR assembly of addEdge. The window region is a set of pixels.
- **Raster records and transforms.**
  - `LlImage`: the LLIMG record of ll_image.h and its line array.
  - `Rotate`: the four quarter turns (rotate.cpp).
  - `Reduce`: the box-average reductions, the 3-3-2 colour packing and the dub (reduce.cpp).
  - `Resize`: the split-pixel resamplers, resize and the aspect lock (resizer.cpp).
- **GIF reader** (readgif.cpp).
  - `GifStream`: the byte cursor, the signature, the 16-bit fields, colour tables and data sub-blocks.
  - `GifLzw`: readCode and the LZW decoder with its Prefix/Suffix/OutCode tables, proved against the reference decoder `Run` of the string dictionary.
  - `GifRows`: the interlace sequencer doInterlace and the four-pass row order of Appendix E of the GIF89a specification.
  - `Gif`: readImage, de_gif and expandGif.
- **Small parsers and state machines.**
  - `WindowManager`: the layout file (wndmgr.cpp) over strings, that is the writer save_layout, the readers parseN, is_layout_file and load_layout_file, and the proof that a saved layout loads back. Also the tab wrap and the dissolve frame count.
  - `Snapshot`: the command-line splitter, the rotation counter, the key step and the click clamp (snapshot.cpp).
  - `DragSource`: the drop source, the format enumerator, the reference counts, the DROPFILES package and the drag result (dragsrc.cpp).

The modelling conventions are these:

- State the source changes in place is modelled as classes and arrays: the LLIMG record, the mask, the picture buffers and the decoder tables.
- The file-static state of the GIF reader is modelled as fields of `GifStream.Stream`, `GifLzw.CodeReader`, `GifLzw.Tables` and `GifRows.Sink`.
- Pure decisions are modelled as functions.
- Everything outside the program is a parameter:
  - the window-region calls of GDI, as the `fill` function from a contour to its pixels;
  - the key and button states;
  - the screen work area;
  - file contents, given as strings or byte sequences.
- Freeing is reported as the sequence of buffers freed.
- Integers are unbounded except where the source's width matters: the 32-bit reference counts, `size_t` lengths and the 32-bit skip of EnumFORMATETC are written out.

## Model

| member | source | states |
|---|---|---|
| LlImage.ZeroPalette | ll_image.h:106-109 | the palette memset leaves: 256 entries, all zero |
| LlImage.LongAlignedBounds | ll_image.h:54 | rounding a row up to whole longs, 4*((n+3)/4), adds fewer than four bytes and leaves a multiple of four |
| LlImage.AlignedRowBytes | ll_image.h:54 | an 8-bit row of an aligned width is exactly that many bytes |
| LlImage.Llimg.constructor | ll_image.h:138 | llimg_create_base: a fresh record, every field zero except bih_top 40 and planes 1 |
| LlImage.Llimg.Zero | ll_image.h:106-113 | llimg_zero_llimg: every field cleared, then bih_top 40 and planes 1 |
| LlImage.Llimg.MakeLineArray | ll_image.h:119-134 | when a row has no bytes the line array is left alone; otherwise line[0] is the raster and row y starts line_bytes after row y-1; nothing else in the record changes |
| LlImage.Llimg.Allocate | rotate.cpp:42-57 | the record is zeroed and then set to the given depth, width and top-down height, with a fresh raster of that many rows and the line array laid over it |
| LlImage.Llimg.AllocateOver | resizer.cpp:785-800 | as Allocate, but with the given number of raster rows (one more than the image is high) and the line array over all of them |
| LlImage.Llimg.AllocateLined | reduce.cpp:261-271 | as Allocate, with the line array made by llimg_make_line_array |
| LlImage.StrideRows | ll_image.h:128-132 | the line array has max(1, height) entries, the first at the raster start and each further one line_bytes after the one before |
| LlImage.Pixels8 | ll_image.h:42-43 | the 8-bit picture of the first w bytes of the first h rows is an h by w matrix |
| LlImage.Pixels24 | ll_image.h:42-43 | the 24-bit picture of the first 3w bytes of the first h rows, read blue, green, red, is an h by w matrix |
| LlImage.Prune | ll_image.h:74-84 | null-safe; frees the line array when there is one and then the raster when there is one, each once, and never the record |
| LlImage.Release | ll_image.h:90-101 | null-safe; frees the line array when there is one, then the raster when there is one, then the record itself, each once |
| Contour.StepBack | contour.cpp:73-76 | stepping in direction d and then in the opposite direction (d+4) mod 8 of the dx/dy tables returns to the start pixel |
| Contour.AroundPixel | contour.cpp:80-87 | the corners one odd table entry apart are one unit apart; the corners two entries apart are different, so listing a pixel's corners never steps back |
| Contour.BetweenPixels | contour.cpp:80-87 | the last corner listed for a pixel left in direction s is adjacent to the first corner of the next pixel (p_start of s), and it never reverses across the move |
| Contour.ThroughOneCorner | contour.cpp:80-87 | when a pixel lists only the corner that p_start/p_end share, the path coming into it is not reversed by the corner after it |
| Contour.CornersDistinct | contour.cpp:80-87 | the four odd corner entries of one pixel are four different points |
| Contour.TablesOdd | contour.cpp:77-87 | p_start and p_end only name odd corner entries, and next_s always names a direction 0..7 |
| Contour.CornerInside | contour.cpp:80-87 | every corner of a pixel inside the raster lies on the corner grid (0..w, 0..h) |
| Contour.FindNeighbour | contour.cpp:109-153 | the direction search turns from s+1 onward: it returns the direction reached after `turns` turns; when turns < 8 the neighbour there holds cv, every earlier neighbour does not, and turns agrees with the reference FirstTurn |
| Contour.FirstTurn | contour.cpp:109-153 | the reference search: the first turn k..7 whose neighbour holds cv, or 8; every skipped neighbour fails the test |
| Contour.AllTurns | contour.cpp:155-157 | eight failed turns mean the pixel has no 8-neighbour holding cv (the "single pixel contact" case) |
| Contour.NextCorner | contour.cpp:119-144 | the next corner listed is one unit from the last corner of the path and differs from the one before it |
| Contour.Listed | contour.cpp:119-144 | the reference corner listing: run to p_end, it adds exactly the corners from the current one up to p_end (all four when it starts on p_end); stopped early by a corner equal to the first point, it adds fewer and the path is not empty |
| Contour.ListedExtends | contour.cpp:119-144 | the listing only appends: the path it returns starts with the path it was given |
| Contour.ListedUnfold | contour.cpp:120-144 | one step of the listing: at p_end it stops with the path unchanged, on a corner equal to the first point it stops closed, and otherwise it goes on with that corner appended and the next odd corner |
| Contour.ListingStart | contour.cpp:119 | before any corner of a pixel is listed, the listing invariant holds with the path as it was |
| Contour.ListingStep | contour.cpp:120-144 | listing one more corner that does not close the contour keeps the path a unit-step, non-reversing path of grid corners |
| Contour.ListingCloses | contour.cpp:133-134 | a corner equal to the first point ends the trace with a closed path |
| Contour.ListingNext | contour.cpp:120-144 | one pass of the listing loop: where the listing stops (p_end, or a corner equal to the first point) its result is as ListedPath says; otherwise the listing invariant holds with the corner appended and the listing's result is unchanged |
| Contour.ListedKeeps | contour.cpp:119-144 | from any state of the listing loop, the listing's result is a closed path of raster corners starting with the earlier points when it stopped early, and otherwise a path on which the listing invariant holds at p_end |
| Contour.ListingEnds | contour.cpp:142-148 | when a pixel's listing reaches p_end, its last corner is the one the next pixel's first corner is adjacent to |
| Contour.ListCorners | contour.cpp:119-144 | lists the corners of one pixel: the path stays a unit-step non-reversing path of grid corners from the same start; closed means the path has come back to its start; the result agrees with Listed |
| Contour.ListLoop | contour.cpp:120-144 | the loop of the listing computes exactly Listed; with ListedKeeps it has the same path guarantees as ListCorners |
| Contour.TraceFromStep | contour.cpp:105-179 | one pass of the forever loop: an isolated seed yields its unit square, an isolated pixel later yields no contour, a closing listing yields the path, and otherwise the trace goes on from the neighbour found with next_s of the move |
| Contour.Advance | contour.cpp:145-179 | moving to the neighbour found keeps every trace invariant (path of adjacent grid corners from the seed, no reversal, current pixel holding cv) |
| Contour.TracePixel | contour.cpp:105-179 | one pass of the loop agrees with TraceFrom; finishing with no contour happens only when the seed does not hold cv; an isolated seed gives its square |
| Contour.TraceContour | contour.cpp:43-183 | a seed outside the raster gives no contour; an isolated seed gives the square (x,y), (x+1,y), (x+1,y+1), (x,y+1); a seed holding cv never gives no contour; any contour found is a closed, non-reversing path of raster corners starting at the seed and never revisiting it before closing; the result is the reference trace Traced |
| Contour.NewPointNode | contour.h:64-69 | a new ContourPointNode is at (0, 0) with type 0 |
| Contour.CornersUpTo | contour.cpp:212-274 | every point extractCorners keeps is a point of the contour and is tagged TOP (1) or BOT (2) |
| Contour.ExtractCorners | contour.cpp:201-278 | walks the circular list once from the second point back to the first and keeps the tagged points in order; the count it returns is their number |
| Contour.CornerKindMeaning | contour.cpp:236-248 | on a unit-step path that does not reverse, a point is tagged exactly when the path turns there; TOP exactly when its vertical neighbour lies below it (larger y), BOT exactly when above |
| Contour.CornersAreTurns | contour.cpp:201-278 | on a closed, non-reversing contour the corners kept are exactly the turning points, each tagged by where its vertical neighbour lies |
| Contour.BoundsMeaning | contour.cpp:890-910 | the box of a contour encloses every point and each side is attained by some point; an empty (null) contour has the all-zero box |
| Contour.BoundsStep | contour.cpp:902-908 | one more point widens the box by min/max on each side |
| Contour.MeasureContour | contour.cpp:890-910 | perim is the number of points and (l, t, r, b) is the tight bounding box; all zero for a null contour |
| Contour.PlotContour | contour.cpp:862-870 | writes cv (as a byte) at every contour point with y < ymax and x < xmax, changes no other pixel, and returns 0 |
| Contour.MakeContourPointArray | contour.cpp:917-938 | n_pts is the number of points; the array is null exactly for an empty contour and otherwise holds the points in list order |
| Scan.CompCorners | contour.cpp:295-305 | comp_corners returns 1 exactly when the first corner is at or after the second in (y, x) order, and -1 otherwise; it never returns 0 |
| Scan.CompCornersOrder | contour.cpp:295-305 | comp_corners is antisymmetric and transitive, so it is a consistent order to sort by |
| Scan.InsertCornerSorted | contour.cpp:458 | inserting a corner into a (y, x)-sorted list keeps it sorted and adds exactly that corner |
| Scan.InsertCornerAbove | contour.cpp:458 | a lower bound of the corner and of the list bounds the list after the insertion |
| Scan.SortCorners | contour.cpp:446-458 | the sorted corner array is ordered by comp_corners and is a permutation of the corners |
| Scan.InsertPos | contour.cpp:311-343 | pn_insert's place: after every entry with x at most the new x and before the first larger one |
| Scan.PnInsert | contour.cpp:311-343 | the list after pn_insert is the reference insertion Inserted |
| Scan.InsertPosUnique | contour.cpp:311-343 | the insertion point is the one index with those two properties |
| Scan.InsertedAt | contour.cpp:311-343 | entries before the insertion point are kept, the new one is at it, the rest are shifted by one |
| Scan.InsertedSorted | contour.cpp:311-343 | insertion keeps the active list sorted by x and adds exactly the new entry (multiset) |
| Scan.FindX | contour.cpp:349-373 | pn_remove's target: the first entry whose x equals the corner's x, or the list length when there is none |
| Scan.PnRemove | contour.cpp:349-373 | returns 1 exactly when some entry has the corner's x, 0 otherwise; the list is the reference removal Removed (the first such entry is taken out, nothing else changes) |
| Scan.FindXUnique | contour.cpp:349-373 | the removal point is the one index with those properties |
| Scan.RemovedAt | contour.cpp:349-373 | entries before the removed one are kept, the rest shift down by one |
| Scan.RemovedSorted | contour.cpp:349-373 | removal keeps the list sorted by x and takes out exactly the entry found |
| Scan.DropPerm | contour.cpp:349-373 | dropping one entry takes exactly that entry out of the multiset |
| Scan.RowEnd | contour.cpp:466-478 | the number of sorted corners on rows up to y: those before it are on rows at most y, the next is on a later row |
| Scan.Pairs | contour.cpp:483-494 | the spans of one scanline pair entry 2i with entry 2i+1 of the active list; an unpaired last entry is dropped ("scan parity violated") |
| Scan.ApplyRow | contour.cpp:466-478 | applies every corner of row y to the active list and stops at the first corner of a later row |
| Scan.ApplyCorner | contour.cpp:468-477 | a TOP corner is inserted into the active list, any other corner is removed |
| Scan.PairUp | contour.cpp:483-494 | walks the active list two entries at a time; the spans are exactly Pairs of the list |
| Scan.SweepRow | contour.cpp:464-497 | one pass of the scanline loop keeps the sweep invariant and advances y by one |
| Scan.ScanSpans | contour.cpp:462-497 | the spans the sweep paints are exactly the reference AllSpans of the sorted corners |
| Scan.ApplyAllSorted | contour.cpp:464-478 | the active list stays sorted by x whatever corners are applied |
| Scan.PairsOrdered | contour.cpp:483-494 | the spans of one row are on that row and ordered left to right without overlap |
| Scan.RowsBelowOrdered | contour.cpp:462-497 | the spans of rows y0..y-1 are ordered and lie on those rows |
| Scan.AllSpansOrdered | contour.cpp:462-497 | the spans of any corner list are ordered and pairwise disjoint |
| Scan.FreshSpan | contour.cpp:483-494 | no pixel of a span is covered by an earlier one, so painting twice never happens |
| Scan.WeightWithinArea | contour.cpp:588-594 | the weight of ordered spans is between zero and their area |
| Scan.PairsParity | contour.cpp:483-494 | a pixel lies in a row's spans exactly when it is on that row and an odd number of active entries lie at or left of it, short of an unpaired last entry |
| Scan.RowsBelowCovered | contour.cpp:462-497 | the spans of rows y0..y-1 cover exactly the pixels covered by their own rows' pairs |
| Scan.ScanParity | contour.cpp:462-497 | the even-odd rule: a pixel is filled exactly when its row is between the first and last corner rows and an odd number of the row's active corners lie at or left of it |
| Scan.CornerSweep | contour.cpp:436-497 | extracts the corners, sorts them and sweeps: the spans are ContourSpans of the contour and are ordered |
| Scan.PaintSpans | contour.cpp:492-493 | every pixel covered by a span gets the byte, and no other pixel changes |
| Scan.FillContour | contour.cpp:420-502 | returns 1 and changes nothing for a null image or contour; otherwise returns 0 and writes color (as a byte) over exactly the pixels of the contour's spans |
| Scan.CountFg | contour.cpp:588-591 | the number of pixels of one span that hold fg is at most the span's width |
| Scan.MarkSpan | contour.cpp:588-593 | counts the span's pixels holding fg before ORing or_color into each of them; no other pixel changes |
| Scan.MarkSpans | contour.cpp:579-595 | area is the sum of the span widths, weight is the number of covered pixels that held fg before marking, and exactly the covered pixels get or_color ORed in |
| Scan.MarkContour | contour.cpp:513-603 | area and weight are zero and nothing changes for a null image or contour (return 1); otherwise returns 0 with area the covered pixel count, weight the covered pixels that held fg_color, and or_color ORed into exactly the covered pixels |
| Scan.PaintSpan | contour.cpp:492-493 | the pixels of one span inside the raster get the colour and nothing else changes |
| EdgeTree.NewEdgeNode | contour.h:119-128 | a new EdgeTreeNode has no contour, fill colour 0, area 0, an all-zero box and no parent, sibling or child |
| EdgeTree.Arena.NewRoot | wregion.cpp:485 | appends one fresh node and returns its index; the nodes before it are unchanged |
| EdgeTree.Arena.AddChild | contour.cpp:759-771 | appends a node with the given parent, contour and fill colour, linked as the parent's first child when no child was made yet and otherwise as the sibling of the last child; no other node changes |
| EdgeTree.RootSorted | contour.cpp:646-671 | the synthesised root square (0,0) TOP, (0,h-1) BOT, (w-1,h-1) BOT, (w-1,0) TOP sorts to (0,0), (w-1,0), (0,h-1), (w-1,h-1) |
| EdgeTree.RootActive | contour.cpp:721-737 | over the root's upper rows the active list holds its two TOP corners, and after its last row it is empty |
| EdgeTree.RootUpperRow | contour.cpp:739-753 | each upper row of the root has one span, from column 0 to column w-1 exclusive |
| EdgeTree.RootRows | contour.cpp:721-782 | the root's rows 0..y-1 give exactly one span each, Span(k, 0, w-1) |
| EdgeTree.RootLastRow | contour.cpp:721-737 | the root's last row has no span (both corners are removed first) |
| EdgeTree.RootSpans | contour.cpp:646-782 | the root sweep visits rows 0 .. h-2 from column 0 up to column w-2: the last row and the last column are never visited |
| EdgeTree.RootCoverage | contour.cpp:646-782 | a pixel is in the root's sweep exactly when 0 <= x < w-1 and 0 <= y < h-1 |
| EdgeTree.NextKid | contour.h:109-143 | the reference child chain: the first node at index j or later whose parent is p, or NIL |
| EdgeTree.NextKidFirst | contour.h:109-143 | no child of p lies between j and the next child found |
| EdgeTree.NextKidAppend | contour.cpp:759-771 | a child appended after the last one is the next child of every index with none after it |
| EdgeTree.KidsAdopted | contour.cpp:759-771 | appending a child after the last child (or as the first child) keeps the chain child, sibling, sibling, ... equal to the children in creation order |
| EdgeTree.KidAdopted | contour.cpp:759-771 | after that append, the sibling link of each child of the parent names the next child made after it, the new child's link NIL |
| EdgeTree.KidsDescended | contour.cpp:772 | the nodes built below the last child leave the parent's chain as it was |
| EdgeTree.Adopted | contour.cpp:759-771 | appending a traced child keeps the arena a valid tree (parents before children, the links pointing forward) and freezes the nodes built before |
| EdgeTree.Descended | contour.cpp:772-773 | after the child's subtree is built the sweep goes on with that child as the last one, and the nodes before the build are unchanged |
| EdgeTree.BuildChildEdgeTree | contour.cpp:619-787 | 1 for a null image or parent, changing nothing; otherwise client grows, and a call past the 1000th returns 3 at once; a background other than 0 or 1 gives 2 and changes nothing; the arena stays a valid tree, the nodes before the call are not changed, pixels only gain bits, every new child of the parent carries the foreground colour and the children are chained in creation order; on success every pixel of the parent's sweep has the visited bit 0x02; at the depth limit no node is added |
| EdgeTree.SweepNode | contour.cpp:693-780 | the sweep once the background is known: the arena stays a valid tree, older nodes keep their content, pixels only gain bits, the new children carry the foreground and are chained in creation order, on success the parent's whole sweep is visited, and at the depth limit no node is added |
| EdgeTree.VisitSpans | contour.cpp:719-782 | the sweep over a node's spans row by row keeps the chain and the tree invariants; on success every pixel of every span is visited; at the depth limit nothing is added |
| EdgeTree.VisitSpan | contour.cpp:747-776 | visits the pixels of one span left to right with the same guarantees; on success all of them have bit 0x02 set |
| EdgeTree.VisitColumn | contour.cpp:750-775 | one column of a span: a pixel inside the raster is visited with the guarantees of VisitPixel, and on success the visited prefix of the row grows by that column |
| EdgeTree.VisitPixel | contour.cpp:750-775 | a pixel already visited, or not holding the foreground, or at the depth limit, adds no node; a foreground pixel below the limit whose trace is found becomes a new last child owning exactly the contour traced from it with the foreground as fill colour; on success the pixel has bit 0x02 |
| EdgeTree.MarkVisited | contour.cpp:750-753 | sets bit 0x02 of the pixel; pixels only gain bits |
| EdgeTree.Discover | contour.cpp:756-773 | traces the pixel's contour, appends a child owning it with the foreground colour and builds the child's subtree |
| EdgeTree.Attach | contour.cpp:759-773 | the new child is the last appended node, a child of the sweeping node filled with the foreground and owning the traced contour; the chain of children and the arena stay valid |
| EdgeTree.AppendKid | contour.cpp:759-771 | appends one node with the given parent, contour and fill colour; it becomes the parent's last child, the children stay chained in creation order through the child and sibling links, and the older nodes keep their contours, colours and parents |
| EdgeTree.DeleteOrderBounds | contour.h:134-140 | deleteEdgeTree of NIL frees nothing; otherwise it frees the root last and only nodes of the subtree |
| EdgeTree.DeleteOrderPostorder | contour.h:134-140 | deleteEdgeTree is a postorder teardown: every node is freed after the sibling and child it links to, so no freed node is followed |
| WRegion.MaskPalette | wregion.cpp:252-272 | the mask palette has 256 entries: white, black, pink, green, cyan, yellow and magenta in entries 0..6, and the zeros llimg_create_base left in the rest |
| WRegion.AlignedMaskRow | wregion.cpp:240-244 | the allocation width 4*((w+3)/4) is at least w, less than w+4, and is its own row size in bytes at 8 bits per pixel |
| WRegion.Classified | wregion.cpp:277-312 | the classified mask is h rows of w pixels, each 0 or 1 |
| WRegion.OwnersConcat | wregion.cpp:159-168 | the contour owners of two walks in a row are those of the first followed by those of the second |
| WRegion.OwnerOfVisit | wregion.cpp:163-164 | one visit counts its node exactly when the node owns a contour |
| WRegion.BranchesCount | wregion.cpp:159-168 | nodeCount from a node counts exactly the contour owners of the walks of that node and its siblings |
| WRegion.WalkCount | wregion.cpp:159-168 | for the root, which has no siblings, nodeCount is the number of contours the region walk combines |
| WRegion.AssembleConcat | wregion.cpp:567-586 | combining two walks in a row is combining the second into the result of the first |
| WRegion.AssembleBounds | wregion.cpp:567-586 | the assembled region never reaches beyond the starting region and the polygons of the walk's contour owners; when every owner has fill colour 1 (OR only), it is exactly their union with the start |
| WRegion.EvenPointsMeaning | wregion.cpp:176-183 | plotContour writes a point exactly when it is the k-th point of the contour with color + k even |
| WRegion.PlotAlternate | wregion.cpp:174-185 | writes color as a byte at every point of the contour counted even from color, inside the raster, and changes nothing else |
| WRegion.PaintedConcat | wregion.cpp:191-198 | painting two walks in a row is painting the second over the result of the first |
| WRegion.PlotBranch | wregion.cpp:191-198 | every pixel ends as the walk from the node paints it: each node's contour in colour level + 3, the node first and then its children one level deeper in sibling order |
| WRegion.Chain | wregion.cpp:505 | the sibling chain from a node lists only nodes of the tree |
| WRegion.GatherBounds | wregion.cpp:505-512 | the gathered minima are at most, and the maxima at least, the start and each child's box sides |
| WRegion.CornerPoints | contour.cpp:917-938 | the point array holds the corners' coordinates, one per corner, in order |
| WRegion.FindStart | wregion.cpp:423-432 | finds the first nonzero mask pixel in raster order; reports none only when every pixel is zero |
| WRegion.NewMask | wregion.cpp:239-273 | a fresh 8-bit mask record of width w and height h with dib_height -h, the mask palette, zero client counters, and a line array laid out for rows padded to a multiple of four bytes |
| WRegion.ClassifyImage | wregion.cpp:277-312 | the mask raster becomes the classification of the image against the seed pixel (xm, ym) |
| WRegion.CleanMask | wregion.cpp:318-396 | the mask becomes CleanUp of its old contents with the given number of erosions, and stays 0/1 when it was |
| WRegion.BuildMask | wregion.cpp:239-396 | a fresh mask holding the classification of the image, eroded and cleaned |
| WRegion.FirstSetUnique | wregion.cpp:423-429 | the first nonzero pixel in raster order is unique |
| WRegion.TraceRegion | wregion.cpp:423-461 | an all-zero mask gives no region; a region comes from a closed, non-reversing trace starting at the first nonzero pixel whose box passes the 20 percent and 16-pixel gates, and is the polygon fill of its corners; in both directions the result is RegionAt of the first nonzero pixel |
| WRegion.GrowTree | wregion.cpp:484-487 | builds a fresh one-root tree over the mask: a valid tree whose root has no sibling, with the build's error code and call count, pixels only gaining bits |
| WRegion.ChildExtents | wregion.cpp:498-512 | the area and extreme sides summed over the root's children, starting from area 0, minima (w, h) and maxima (0, 0) |
| WRegion.GrowAndGate | wregion.cpp:484-516 | edges is 0 when the build gave up past 1000 calls, else nodeCount of the tree; the region is built exactly when edges is positive and the children span at least 16 pixels one way and cover at least 10 percent |
| WRegion.ChildrenSized | wregion.cpp:498-516 | the size gate of extractRegions over the root's children |
| WRegion.WRegion.constructor | wregion.cpp:203-210 | no mask, no tree, no edges and no region |
| WRegion.WRegion.ExtractedOK | wregion.h:42 | 1 exactly when a region is held, 0 exactly when none is |
| WRegion.WRegion.CreateMask | wregion.cpp:226-399 | the old mask goes; no mask for a null image, a depth other than 8 or 24, or missing image data; otherwise a fresh mask holding the image classified against (xm, ym) and cleaned; tree, region and edges are untouched |
| WRegion.WRegion.ApplyRegion | wregion.cpp:590-600 | the window receives the region held (none when none), and the object no longer holds it |
| WRegion.WRegion.AddEdge | wregion.cpp:567-586 | the region becomes the old region with the walk from the node combined in: each owner's polygon ORed when its fill colour is 1 and XORed otherwise, in walk order |
| WRegion.WRegion.BuildRegion | wregion.cpp:549-563 | the region is the whole tree combined from the root into the empty region |
| WRegion.WRegion.ExtractRegion | wregion.cpp:403-462 | no region without an 8-bit, non-empty mask or for an all-background mask; otherwise the region is RegionAt of the first nonzero pixel: the trace of value 1 from it, when its box covers at least 20 percent of the mask and is at least 16 pixels wide or high, filled through its corners |
| WRegion.WRegion.ExtractRegions | wregion.cpp:467-523 | no region and the old tree without a usable mask; otherwise a fresh tree over the mask, edges its contour count (0 past 1000 calls), and a region exactly when edges is positive and the root's children pass the size gate, the region then combining every contour of the tree |
| WRegion.WRegion.Regrow | wregion.cpp:480-522 | the part of extractRegions after its gates, with the same outcome |
| WRegion.WRegion.PlotTreeToMask | wregion.cpp:527-531 | with a mask and a tree, every pixel ends as the tree walk from the root paints it; without a mask, or without a tree, nothing changes |
| WRegion.WRegion.Dispose | wregion.cpp:215-222 | the mask's buffers are released (line array exactly when there is one, the raster, then the record), the tree is torn down in postorder from the root and the region is deleted exactly when one is held |
| MaskOps.Classify8 | wregion.cpp:277-290 | the 8-bit classification is h rows of w 0/1 pixels, 0 exactly where the palette index equals the seed's |
| MaskOps.Classify24 | wregion.cpp:291-312 | the 24-bit classification is h rows of w 0/1 pixels, 1 exactly where the blue, green or red byte differs from the seed's by more than bg_diff |
| MaskOps.ClassifyIndexed | wregion.cpp:280-289 | the mask raster becomes the 8-bit classification of the image |
| MaskOps.ClassifyPixel | wregion.cpp:302-309 | one pixel: cleared, then 1 ORed in for each channel that differs |
| MaskOps.ClassifyRow24 | wregion.cpp:299-310 | one mask row becomes the classification of the image row; other rows are untouched |
| MaskOps.ClassifyTrueColor | wregion.cpp:298-311 | the mask raster becomes the 24-bit classification of the image |
| MaskOps.Dilation | wregion.cpp:63-109 | one dilation keeps the raster's shape |
| MaskOps.DilateMeaning | wregion.cpp:83-97 | a written-back interior pixel becomes index exactly when it or one of its four neighbours was index, and otherwise keeps its value |
| MaskOps.DilationShrinks | wregion.cpp:318-320 | dilating the background 0 of a 0/1 mask leaves a 0/1 mask that has only lost ones |
| MaskOps.DilateRow | wregion.cpp:79-97 | the row buffer holds the dilated interior of row y, computed from the rows as they are around it |
| MaskOps.CopyRow | wregion.cpp:99 | memcpy of the buffer over one mask row: exactly the copied columns change |
| MaskOps.DilateStep | wregion.cpp:79-102 | one turn of the row loop: row y is computed into one buffer and the other buffer (row y-1's result, zeros on the first turn) is copied over row y-1 |
| MaskOps.Dilate | wregion.cpp:63-109 | oimg_dialate_index: the raster becomes the reference Dilation of its old contents (row 0 gets the first, empty buffer; rows 1 .. h-4 get their result with zero end columns; rows h-3 .. h-1 keep their values) |
| MaskOps.Dilations | wregion.cpp:318-321 | n dilations keep the raster's shape |
| MaskOps.DilationsShrink | wregion.cpp:318-321 | any number of background dilations of a 0/1 mask leaves a 0/1 mask holding only ones it had |
| MaskOps.DilateTimes | wregion.cpp:318-321 | the erosion loop: the raster becomes n dilations of its old contents |
| MaskOps.Dehaired | wregion.cpp:114-155 | one dehair pass keeps the raster's shape |
| MaskOps.DehairMeaning | wregion.cpp:134-142 | a written-back pixel becomes z exactly when it was z, or both vertical neighbours and one horizontal neighbour were, or both horizontal neighbours and one vertical neighbour were; otherwise it keeps its value |
| MaskOps.DehairRow | wregion.cpp:130-142 | the row buffer holds the dehaired interior of row y |
| MaskOps.DehairStep | wregion.cpp:130-148 | one turn of the row loop: row y is computed and, from the third turn on (y > 2), the interior of row y-1's result is copied back |
| MaskOps.Dehair | wregion.cpp:114-155 | oimg_dehair_index: the raster becomes the reference Dehaired of its old contents |
| MaskOps.GlintRow | wregion.cpp:333-341 | the pass over one row keeps its length |
| MaskOps.GlintRowAt | wregion.cpp:327-342 | row y after the pass, each row read against the row above as the pass left it |
| MaskOps.Glint | wregion.cpp:327-342 | the glint pass keeps the raster's shape |
| MaskOps.GlintMeaning | wregion.cpp:327-342 | an interior pixel of the result is v exactly when its upper and left neighbours in the result and its right and lower neighbours in the input are all v, and otherwise keeps its value; border pixels never change |
| MaskOps.GlintBinary | wregion.cpp:327-359 | a glint pass for 0 or for 1 keeps a 0/1 mask 0/1 |
| MaskOps.GlintRowPass | wregion.cpp:328-341 | one row of the pass, left to right; other rows are untouched |
| MaskOps.GlintPass | wregion.cpp:327-342 | the raster becomes the reference Glint of its old contents |
| MaskOps.Diag | wregion.cpp:367-380 | a diagonal pass keeps the raster's shape |
| MaskOps.DiagBreaks | wregion.cpp:361-396 | every 2 by 2 block of the input that had the diagonal pattern no longer has it in the result, and 0/1 masks stay 0/1 |
| MaskOps.DiagRow | wregion.cpp:368-379 | after row y the rows up to y are the reference cells, the rows below untouched |
| MaskOps.DiagPass | wregion.cpp:367-380 | the raster becomes the reference Diag of its old contents |
| MaskOps.CleanUp | wregion.cpp:318-396 | erosions, the glint passes for 0 then 1 and the two diagonal passes keep the raster's shape |
| MaskOps.CleanUpBinary | wregion.cpp:318-396 | the whole clean-up keeps a 0/1 mask 0/1 |
| Rotate.TurnRight | rotate.cpp:62-76 | a clockwise quarter turn of a w by h picture is an h by w picture |
| Rotate.TurnLeft | rotate.cpp:169-183 | a counter-clockwise quarter turn of a w by h picture is an h by w picture |
| Rotate.TurnPlaces | rotate.cpp:62-76 | the right turn puts source pixel (x, y) at row x, column h-1-y; the left turn puts it at row w-1-x, column y |
| Rotate.LeftUndoesRight | rotate.cpp:34-186 | turning left after turning right gives the picture back |
| Rotate.RightUndoesLeft | rotate.cpp:34-186 | turning right after turning left gives the picture back |
| Rotate.FourRightTurns | rotate.cpp:34-79 | two right turns put pixel (x, y) at (w-1-x, h-1-y), and four right turns give the picture back |
| Rotate.RightTurned24 | rotate.cpp:66-76 | once every source pixel has been moved, the rotated 24-bit picture is the right turn of the source |
| Rotate.LeftTurned24 | rotate.cpp:173-183 | once every source pixel has been moved, the rotated 24-bit picture is the left turn of the source |
| Rotate.RightTurned8 | rotate.cpp:118-126 | the same for the 8-bit right turn |
| Rotate.LeftTurned8 | rotate.cpp:224-232 | the same for the 8-bit left turn |
| Rotate.RowR24 | rotate.cpp:67-75 | after source row y, every pixel of rows 0..y has been copied, blue, green, red, to its turned place |
| Rotate.Rotate24R | rotate.cpp:34-79 | -1 and nothing changed for a source that is not 24-bit; otherwise 0, the rotated record is h wide and w high, zeroed but for its 24-bit depth, with rows padded to a multiple of four bytes, and its picture is the right turn of the source |
| Rotate.RowL24 | rotate.cpp:174-182 | after source row y, every pixel of rows 0..y is at its left-turned place |
| Rotate.Rotate24L | rotate.cpp:141-186 | as Rotate24R, with the left turn |
| Rotate.RowR8 | rotate.cpp:119-125 | after source row y, every byte of rows 0..y is at its right-turned place |
| Rotate.Rotate8R | rotate.cpp:86-133 | -1 and nothing changed for a source that is not 8-bit; otherwise 0, an h by w 8-bit record whose picture is the right turn of the source and whose colour table is the source's |
| Rotate.RowL8 | rotate.cpp:225-231 | after source row y, every byte of rows 0..y is at its left-turned place |
| Rotate.Rotate8L | rotate.cpp:193-239 | as Rotate8R, with the left turn |
| Reduce.Pix2Bgr | reduce.cpp:49-64 | the red, green and blue fields of a 3-3-2 pixel land at the top of their channels and the reserved byte is 0 |
| Reduce.Rgb2Pix | reduce.cpp:66-70 | the pixel keeps the top three bits of red and of green and the top two bits of blue, each in its own field |
| Reduce.PackUnpack | reduce.cpp:49-70 | packing what pix2bgr unpacks gives every pixel back |
| Reduce.FullStrength | reduce.cpp:37-46 | the conditional fill keeps black black and makes white fully white |
| Reduce.Palette332 | reduce.cpp:339-342 | the installed palette has 256 entries |
| Reduce.Palette332Loop | reduce.cpp:339-342 | the loop leaves the palette whose entry k is pix2bgr of k |
| Reduce.Paletted | reduce.cpp:129-131 | an 8-bit picture seen through its colour table keeps its width and height |
| Reduce.Reduced | reduce.cpp:88-89 | the reduced picture is width/r by height/r |
| Reduce.RowTotalBounds | reduce.cpp:127-133 | a sum of n channel bytes is between 0 and 255 n |
| Reduce.TotalBounds | reduce.cpp:117-139 | a sum over rows of n pixels is between 0 and 255 times n times the number of rows |
| Reduce.MeanFits | reduce.cpp:148-150 | the mean of bytes fits a byte, so the cast to unsigned char never wraps |
| Reduce.WholeBlockSum | reduce.cpp:111-139 | for a whole block the band accumulator equals the sum of the block's r by r pixels |
| Reduce.AveragedMean | reduce.cpp:146-151 | each channel of a reduced pixel is the integer mean of that channel over its block, kept whole by the cast |
| Reduce.UniformChannel | reduce.cpp:146-151 | a channel that is constant over a block averages to that constant |
| Reduce.UniformBlock | reduce.cpp:146-151 | a block of one colour reduces to that colour |
| Reduce.StartsAsWrittenShifted | reduce.cpp:293-295 | as written, the k-th block read starts at column (k+1) r, one block late |
| Reduce.AsWrittenSkipsFirstBlock | reduce.cpp:293-302 | as written, a 4-pixel row reduced by 2 reads only the block at column 2 and a 5-pixel row the blocks at 2 and 4 |
| Reduce.StartsAsWrittenCount | reduce.cpp:293-307 | the number of blocks the loop reads from a row, in closed form |
| Reduce.AsWrittenShiftsLeft | reduce.cpp:293-332 | as written, every output pixel inside the row shows the block the corrected sampling puts one pixel to its right |
| Reduce.AsWrittenWhitesLastBlock | reduce.cpp:309-318 | as written, when r divides the width the last whole block is filled with white instead of read |
| Reduce.AsWrittenReadsPastRow | reduce.cpp:293-302 | as written, a 5-pixel row reduced by 2 reads its second block past the end of the row |
| Reduce.AddBlock | reduce.cpp:127-133 | r pixels of one row are added to accumulator x of each channel and no other accumulator changes |
| Reduce.AddRow | reduce.cpp:117-139 | every accumulator column gains that row's share of its block, and in the 8-bit reducer 255 r past the whole blocks |
| Reduce.AccumulateRow | reduce.cpp:117-139 | the accumulators hold the band's sums over one more source row |
| Reduce.AccumulateBand | reduce.cpp:111-139 | after clearing and summing a band, accumulator X of each channel is the block sum of output column X |
| Reduce.StoreMeans | reduce.cpp:141-151 | output row Y holds the blue, green and red means of its blocks, keeping the rows stored before it |
| Reduce.StorePacked | reduce.cpp:321-332 | output row Y holds the 3-3-2 packed means of its blocks, keeping the rows stored before it |
| Reduce.ReduceBand | reduce.cpp:111-152 | one more band of the 24-bit output holds its block means |
| Reduce.ReduceRaster | reduce.cpp:110-153 | the 24-bit output raster is the reduced picture |
| Reduce.PackBand | reduce.cpp:279-333 | one more band of the 8-bit output holds its packed block means |
| Reduce.PackRaster | reduce.cpp:279-333 | the 8-bit output raster is the packed reduced picture |
| Reduce.PackedWidthCovers | reduce.cpp:264-265 | the rounded-up, word-aligned width leaves room for every whole block |
| Reduce.ReduceTo24 | reduce.cpp:76-160 | a source of another depth is refused with -1 and the target untouched; otherwise the target is a fresh 24-bit record of width/r by height/r with word-aligned rows holding the block means of the source, read through its colour table when it is 8-bit (reduce24bit, reduce.cpp:166-247, is the depth-24 case) |
| Reduce.Reduce256To256 | reduce.cpp:252-344 | a source of another depth is refused with -1; otherwise the target is an 8-bit record of the rounded-up size with the 3-3-2 palette, whose pixels are the packed block means of the corrected sampling |
| Reduce.Gradient | reduce.cpp:390-393 | every byte of row y of the fallback picture is y mod 256 |
| Reduce.DubRow8 | reduce.cpp:377-386 | row y of the dub holds every pixel of the source row expanded through the colour table, keeping the rows before it |
| Reduce.ExpandedPicture | reduce.cpp:375-386 | a dub whose every pixel is expanded shows the paletted source picture |
| Reduce.CopiedRowsKeepPicture | reduce.cpp:387-389 | copying whole padded rows keeps the 24-bit picture they hold |
| Reduce.Dub | reduce.cpp:353-398 | a fresh 24-bit record of the source's size with word-aligned rows: an 8-bit source expanded through its colour table, a 24-bit source copied row by row, any other depth the gradient |
| Resize.SplitFacts | resizer.cpp:130-141 | the split of stride j and its weight divide j times the old length by the new length: split times divisor plus weight is the product, with the weight below the divisor |
| Resize.SplitGrows | resizer.cpp:130-132 | when the old length is at least the new, each stride ends in a later cell than the one before |
| Resize.SplitBelow | resizer.cpp:130-132 | every stride before the last ends inside the source line |
| Resize.SplitSame | resizer.cpp:130-141 | with old and new length equal, stride j ends exactly at cell j with weight 0 |
| Resize.Narrowed | resizer.cpp:88 | a line narrowed to n cells keeps n - 1 pixels, the last cell is never stored |
| Resize.MeanRange | resizer.cpp:130-167 | a narrowed channel is never brighter than the brightest pixel of the line and at most one below the darkest |
| Resize.SqueezedExact | resizer.cpp:174-179 | the stored narrowed channel is the cell's mean itself: the cast to a byte never wraps |
| Resize.NarrowSameSize | resizer.cpp:130-167 | narrowing a line to its own length keeps every stored pixel |
| Resize.SplitConserved | resizer.cpp:141-163 | the two parts of a split pixel are non-negative and add up to the pixel's channel |
| Resize.CellsConserve | resizer.cpp:130-167 | after k strides, what the cells gathered, the part carried into cell k and the pixels not yet read make up the whole line |
| Resize.NarrowConserved | resizer.cpp:130-167 | narrowing loses no weight and makes none up: the stored cells and the last cell together hold the whole line |
| Resize.Full | resizer.cpp:715-744 | the stretched line has n cells |
| Resize.FullCopy | resizer.cpp:718-723 | cells from the end of stride k-1 up to split k copy pixel k-1 |
| Resize.FullBlend | resizer.cpp:724-743 | the cell at split k holds the blend of pixels k-1 and k weighted by the split's fraction |
| Resize.FullTail | resizer.cpp:715-744 | the cells past the last split copy the last pixel |
| Resize.BlendRange | resizer.cpp:724-743 | a blend lies between the darkest and the brightest pixel of the line |
| Resize.FullRange | resizer.cpp:715-744 | stretching never leaves the range of the line: every cell lies between its darkest and brightest pixel |
| Resize.StretchedExact | resizer.cpp:752-758 | the stored stretched channel is the cell itself: the cast to a byte never wraps |
| Resize.FullFirst | resizer.cpp:718-723 | the first cell of a stretched line copies the first pixel |
| Resize.FullSameSize | resizer.cpp:715-744 | stretching a line to its own length gives the line back |
| Resize.WidenCovered | resizer.cpp:675-676 | the kept width n - n/w is covered by the cells the strides fill |
| Resize.StretchShort | resizer.cpp:823-873 | the heighteners' strides stop short of row n - 2, the last row kept, exactly when the new height is more than twice the old |
| Resize.Fetch | resizer.cpp:407-409 | the three channels of a source pixel, read directly or through the colour table |
| Resize.StoreRow | resizer.cpp:169-180 | the first count accumulators, cast to bytes, become the pixels of one output row and nothing else changes |
| Resize.GatherRun | resizer.cpp:133-139 | the whole pixels up to the split are added to the open cell and the weight grows by the divisor for each |
| Resize.SplitPixel | resizer.cpp:140-166 | the split pixel's leading part closes the previous cell, which is scaled to its mean, and its trailing part opens the next; no other cell changes |
| Resize.GatherCell | resizer.cpp:130-139 | the open cell plus the split pixel's leading part is the cell's full gathered total |
| Resize.NarrowStride | resizer.cpp:130-167 | one stride leaves the closed cell holding its mean and the next cell holding the carried part |
| Resize.Clear | resizer.cpp:114-116 | every accumulator becomes zero |
| Resize.NarrowRow | resizer.cpp:114-167 | after one row every stored cell holds the mean of its window in each channel |
| Resize.NarrowPicture | resizer.cpp:88-89 | the narrowed picture is n - 1 pixels wide and as high as the source |
| Resize.NarrowRaster | resizer.cpp:112-182 | the output raster is the picture narrowed row by row |
| Resize.Narrow | resizer.cpp:76-189 | a source of another depth is refused with -1 and the target untouched; otherwise the target is a fresh 24-bit record n - 1 wide with word-aligned rows holding every row narrowed by area (narrow8bit, resizer.cpp:345-466, the depth-8 case) |
| Resize.ShortenPicture | resizer.cpp:211-212 | the shortened picture is as wide as the source and n - 1 rows high |
| Resize.AddRow | resizer.cpp:258-266 | one more source row joins every column's open cell |
| Resize.AddPoint | resizer.cpp:262-266 | one column takes its pixel of the source row and no other column changes |
| Resize.GatherRows | resizer.cpp:256-268 | the whole rows up to the split join every column's open cell |
| Resize.SplitRow | resizer.cpp:269-299 | in every column the top part of the split row closes its cell at its mean and the bottom part goes to the bottom buffer |
| Resize.SplitPoint | resizer.cpp:277-299 | one column's cell holds its mean and its bottom buffer slot the bottom part; no other column changes |
| Resize.CarryDown | resizer.cpp:310-319 | the bottom buffer becomes the accumulators, opening the next cell in every column |
| Resize.ShortenCell | resizer.cpp:254-299 | one stride's gathering and split leave every column closed at its mean and the bottoms buffered |
| Resize.ShortenStride | resizer.cpp:254-322 | one stride stores output row y and opens cell y + 1 |
| Resize.ShortenStore | resizer.cpp:300-319 | the closed cells become output row y and the bottoms open the next cell |
| Resize.OpenColumns | resizer.cpp:244-246 | every column opens cell 0 empty |
| Resize.OpenAll | resizer.cpp:225-246 | fresh, distinct accumulators and a bottom buffer of three per column, every column open and empty |
| Resize.ShortenRaster | resizer.cpp:225-323 | all n - 1 output rows hold the shortened columns |
| Resize.ShortenStrides | resizer.cpp:251-323 | all n - 1 output rows hold the shortened columns |
| Resize.Shorten | resizer.cpp:200-332 | a source of another depth is refused with -1 and the target untouched; otherwise the target is a fresh 24-bit record n - 1 rows high whose every column is the source column narrowed by area (shorten8bit, resizer.cpp:475-616, the depth-8 case) |
| Resize.SpreadRun | resizer.cpp:718-723 | cells from `from` to `to` become copies of one pixel and no other cell changes |
| Resize.WidenBlend | resizer.cpp:724-743 | the cell at the split becomes the blend of the two pixels, completing the cells of one more stride |
| Resize.WidenStride | resizer.cpp:715-744 | after one stride the cells of strides up to x + 1 hold the stretched line |
| Resize.WidenRow | resizer.cpp:715-744 | after the stride loop the cells hold the whole stretched line the strides reach |
| Resize.WidenPicture | resizer.cpp:675-677 | the widened picture is n - n/w pixels wide and as high as the source |
| Resize.WidenLine | resizer.cpp:702-758 | one more output row holds its stretched source row |
| Resize.WidenRows | resizer.cpp:700-760 | every output row holds its stretched source row |
| Resize.WidenRaster | resizer.cpp:690-760 | the output raster is the widened picture |
| Resize.Widen | resizer.cpp:663-767 | a source that is not 24-bit is refused with -1 and the target untouched; otherwise the target is a fresh 24-bit record n - n/w wide holding every row stretched by linear blends |
| Resize.CopyRow | resizer.cpp:827-836 | the first count pixels of a source row become output row `out` and nothing else changes |
| Resize.PutPixel | resizer.cpp:827-836 | one output pixel takes the three channels given and no other byte changes |
| Resize.WeighTop | resizer.cpp:837-848 | each accumulator is wt times the top pixel's channel |
| Resize.AddBottom | resizer.cpp:849-861 | each accumulator is the blend of the top and bottom pixels divided by the divisor |
| Resize.CopyTall | resizer.cpp:827-836 | one more output row is a copy of its source row and no other row changes |
| Resize.TallCopies | resizer.cpp:827-836 | the rows up to the split hold the stretched columns and rows outside the run are untouched |
| Resize.TallAccumulate | resizer.cpp:837-861 | the accumulators hold the stretched columns' cells at split k |
| Resize.TallBlend | resizer.cpp:862-872 | the row at the split holds the blended cells and no other row changes |
| Resize.TallStride | resizer.cpp:823-873 | one stride fills the rows up to and at its split and leaves the others untouched |
| Resize.TallStrides | resizer.cpp:823-873 | as written, the strides fill the rows before the last split and leave the rows from it on as allocated |
| Resize.TallRaster | resizer.cpp:808-873 | the same, from cleared accumulators |
| Resize.TallTail | resizer.cpp:823-873 | the corrected tail fills the rows past the last split with the last source row, completing all n - 1 rows |
| Resize.HeightenPicture | resizer.cpp:788-789 | the heightened picture is `cols` wide and n - 1 rows high |
| Resize.Heighten | resizer.cpp:776-881 | a source of another depth is refused with -1 and the target untouched; otherwise a fresh 24-bit record n - 1 rows over n allocated, as wide as the source (one less from 8 bits, resizer.cpp:903), whose columns are the source columns stretched (heighten8bit, resizer.cpp:891-1001, the depth-8 case) |
| Resize.VerticalPicture | resizer.cpp:1024-1035 | the vertical pass on pictures is MidWidth wide and height - 1 rows high |
| Resize.Vertical | resizer.cpp:1024-1035 | fewer rows asked for shortens, otherwise heightens, into a fresh 24-bit temporary record of height - 1 rows showing the vertical picture |
| Resize.Horizontal | resizer.cpp:1036-1041 | a width below the source's narrows, otherwise widens, giving width - 1 or width - width/w pixels holding the horizontal picture |
| Resize.Resize | resizer.cpp:1012-1046 | no image, or an image whose widening the source cannot carry out (Stalls), gives no image; any other image gives a fresh record, zeroed when its depth is neither 8 nor 24, otherwise the vertical then the horizontal pass of its picture |
| Resize.LockAspect | resizer.cpp:1052-1067 | no image leaves the box alone; otherwise the width the height allows replaces the width when it is smaller, else the height the width allows replaces the height, with C's truncating division, and the result keeps the image's aspect within rounding |
| Resize.LockNarrower | resizer.cpp:1059-1062 | the width the height allows, when below the asked width, fits the box at the image's aspect |
| Resize.LockShorter | resizer.cpp:1060-1066 | when the height allows at least the asked width, the height the width allows fits the box at the image's aspect |
| GifStream.Pow2Add | readgif.cpp:199 | powers of two multiply by adding exponents |
| GifStream.Pow2Grows | readgif.cpp:199 | a larger exponent gives a larger power of two |
| GifStream.Head | readgif.cpp:179-181 | the compared header is six bytes |
| GifStream.VersionOf | readgif.cpp:179-184 | the file is GIF87a exactly when its first six bytes are "GIF87a", GIF89a exactly when they are "GIF89a", and neither otherwise |
| GifStream.Le16 | readgif.cpp:190-193 | a 16-bit little-endian field is between 0 and 65535 |
| GifStream.Le16Bytes | readgif.cpp:597-604 | a 16-bit field is written as two bytes |
| GifStream.Le16RoundTrip | readgif.cpp:597-604 | reading a field back from what a writer stores, wherever it sits, gives the value |
| GifStream.TableSizeRange | readgif.cpp:198-199 | a colour table holds a power of two between 2 and 256 entries |
| GifStream.ReadPalette | readgif.cpp:218-224 | reading n triples into a palette keeps the palette's length |
| GifStream.EgaPalette | readgif.cpp:225-236 | the EGA fill keeps the palette's length |
| GifStream.EgaRepeats | readgif.cpp:230-235 | entries 16 apart in the EGA fill have the same colour |
| GifStream.SubBlocksEnd | readgif.cpp:291-295 | skipping a run of sub-blocks always moves forward |
| GifStream.DataBlocks | readgif.cpp:665-681 | unblocking always moves forward |
| GifStream.Chunk | readgif.cpp:669-673 | n bytes read from an offset are the bytes there, zeros past the end |
| GifStream.DataBlocksStep | readgif.cpp:666-681 | one step of the walk takes one sub-block and ends on a zero size or past the end of the file |
| GifStream.Packed | readgif.cpp:666-681 | the sub-block encoding of chunks is never empty |
| GifStream.PackedSplit | readgif.cpp:666-681 | an encoding is the first chunk's size, the chunk, and the encoding of the rest |
| GifStream.SkipPacked | readgif.cpp:291-295 | skipping the sub-blocks of an encoding lands just past its terminator |
| GifStream.UnblockPacked | readgif.cpp:665-681 | unblocking an encoding gives back its chunks laid end to end and stops just past the terminator |
| GifStream.Stream.constructor | readgif.cpp:174 | the cursor starts at the first byte of the file image |
| GifStream.Stream.Next | readgif.cpp:70 | NEXTBYTE returns the byte under the cursor and moves on by one |
| GifStream.Stream.Skip | readgif.cpp:287-288 | n dropped NEXTBYTEs move the cursor by n |
| GifStream.Stream.ReadLe16 | readgif.cpp:190-191 | a 16-bit field read low byte first, the cursor two bytes on |
| GifStream.Stream.SkipSubBlocks | readgif.cpp:422-432 | the cursor lands where the run of sub-blocks ends |
| GifStream.Stream.Unblock | readgif.cpp:665-681 | the unblocked stream and the final cursor are those of DataBlocks |
| GifStream.Stream.UnblockStep | readgif.cpp:668-680 | one size byte and its sub-block: the rest of the walk is unchanged |
| GifStream.Stream.ReadChunk | readgif.cpp:669-673 | the chunk is the n bytes under the cursor and the cursor moves by n |
| GifStream.Stream.SkipDataBlocks | readgif.cpp:519-527 | skipping the data of a later image stops where unblocking would |
| GifRows.PassRows | readgif.cpp:930-961 | every row a pass names is inside the image |
| GifRows.Order | readgif.cpp:930-961 | the interlaced order of an image h rows high has h entries |
| GifRows.PassRowsAt | readgif.cpp:930-961 | entry j of a pass is start + j times step, and there is one exactly when that row is inside the image |
| GifRows.PassHasRow | readgif.cpp:930-961 | a row with the residue of pass p is in that pass, at index (y - start) / step |
| GifRows.PassesDisjoint | readgif.cpp:930-961 | no row is in two passes |
| GifRows.SomePass | readgif.cpp:930-961 | every row is in some pass |
| GifRows.PassLength | readgif.cpp:930-961 | how many rows a pass sends, in closed form |
| GifRows.PassCounts | readgif.cpp:930-961 | the four passes send h/8, h/8, h/4 and h/2 rows, with the remainders counted |
| GifRows.OrderAt | readgif.cpp:930-961 | each pass sits in the order after the passes before it |
| GifRows.Locate | readgif.cpp:930-961 | each place in the order belongs to one pass, at one index |
| GifRows.OrderCovers | readgif.cpp:930-961 | every row of the image appears in the order |
| GifRows.PassIncreasing | readgif.cpp:930-961 | a pass sends its rows top to bottom |
| GifRows.OrderDistinct | readgif.cpp:930-961 | no row appears twice in the order |
| GifRows.OrderIsPermutation | readgif.cpp:930-961 | the interlaced order is a permutation of the rows 0 to h - 1, as GIF89a Appendix E lays it out |
| GifRows.NextRowAsWritten | readgif.cpp:930-965 | the sequencer as written stays among the four passes |
| GifRows.Settle | readgif.cpp:930-961 | settling moves forward to a pass no earlier than p |
| GifRows.NextRow | readgif.cpp:930-965 | the corrected sequencer stays among the four passes |
| GifRows.SettleSkipsEmpty | readgif.cpp:930-961 | the passes skipped while settling send no rows |
| GifRows.StepFollows | readgif.cpp:930-965 | one step of the corrected sequencer moves to the next place in the order |
| GifRows.RowsFollowOrder | readgif.cpp:920-965 | before row k of the order the sequencer is in the pass that sends it, at the right index |
| GifRows.RowsAreOrder | readgif.cpp:920-965 | the corrected sequencer visits the rows of the interlaced order one after another |
| GifRows.RowsAligned | readgif.cpp:920-965 | for a row the order sends, the sequencer is in the pass of its residue |
| GifRows.NextRowMoves | readgif.cpp:930-965 | finishing a row always moves the sequencer to another row |
| GifRows.RowsAlwaysAligned | readgif.cpp:920-965 | the sequencer always stays on rows of the pass it is in |
| GifRows.LastStep | readgif.cpp:959-961 | after the last row of the order the sequencer is in the last pass, below the image |
| GifRows.RowsPastEnd | readgif.cpp:915-916 | past the rows of the order the sequencer is below the image for good, so no pixel is stored |
| GifRows.AsWrittenLosesRows | readgif.cpp:932-948 | as written, a two-row interlaced image sends its second row of data to row 4, off the image, and row 1 is never written |
| GifRows.AsWrittenThreeRows | readgif.cpp:932-957 | as written, three rows go to rows 0, 4 and 2 where Appendix E gives 0, 2 and 1 |
| GifRows.AsWrittenFourRows | readgif.cpp:932-957 | as written, four rows go to rows 0, 4, 2 and 1 where Appendix E gives 0, 2, 1 and 3 |
| GifRows.SpotRow | readgif.cpp:909-916 | a pixel of an interlaced picture that is stored lies in the row the order gives, at its column |
| GifRows.SpotInjective | readgif.cpp:909-916 | two pixels never land on the same byte |
| GifRows.SpotInside | readgif.cpp:915-916 | the pixels of an interlaced picture stay inside its w times h bytes |
| GifRows.Sink.constructor | readgif.cpp:699-701 | a fresh picture buffer with the cursor reset and no pixel emitted |
| GifRows.Sink.Emit | readgif.cpp:726-729 | the pixel joins the emitted stream and only its spot in the picture changes |
| GifRows.Sink.DoInterlace | readgif.cpp:903-967 | the pixel joins the emitted stream and only its spot, the row the interlaced order gives, changes |
| GifRows.Sink.Place | readgif.cpp:909-916 | the pixel is stored on its spot, the row pointer moves one on, and nothing else changes |
| GifRows.Sink.Advance | readgif.cpp:920-965 | the column moves one on and wraps at the end of a row, when the pass and row become those of the next place in the order |
| GifRows.PlacedStep | readgif.cpp:909-916 | storing the next pixel on its spot, and nowhere else, keeps the earlier ones in place |
| GifRows.SpotOfCursor | readgif.cpp:909-916 | where the cursor says pixel k goes is its spot, or nowhere once below the image |
| GifLzw.And | readgif.cpp:894 | C's bitwise and of a non-negative value with a mask is no more than the mask |
| GifLzw.AndLowBits | readgif.cpp:894 | masking with 2^n - 1 keeps exactly the low n bits |
| GifLzw.ShiftMask | readgif.cpp:891-894 | shifting right by s and keeping n bits gives bits s to s + n - 1 |
| GifLzw.SplitBits | readgif.cpp:888-890 | the bits of a + 2^k b, for a below 2^k, are those of a, then those of b |
| GifLzw.Byte | readgif.cpp:662 | a raster byte is below 256, and zero past the raster's end as calloc leaves it |
| GifLzw.CodeBits | readgif.cpp:874-880 | an n-bit code packed least significant bit first is below 2^n |
| GifLzw.WindowSum | readgif.cpp:887-890 | the window readCode forms is the two or three bytes at the byte offset, low byte first |
| GifLzw.RasterBit | readgif.cpp:887 | bit 8b + t of the raster is bit t mod 8 of byte b + t / 8 |
| GifLzw.WindowBit | readgif.cpp:887-891 | bit t of the window is the raster's bit at the byte offset plus t |
| GifLzw.CodeIsBits | readgif.cpp:887-894 | readCode returns the codeSize-bit code at the bit offset, least significant bit first, for codes up to 17 bits |
| GifLzw.WindowBits | readgif.cpp:887-891 | every bit of the code lies inside the window |
| GifLzw.AndSmall | readgif.cpp:725 | a value below 2^k comes through a mask of k ones whole |
| GifLzw.CodeReader.constructor | readgif.cpp:648-651 | the reader starts at bit 0 with the code width given and masks that agree with it |
| GifLzw.CodeReader.ReadCode | readgif.cpp:882-895 | the code is the masked window at the bit offset, at most the read mask, the offset moves by the code width, and while the masks agree it is the packed code itself |
| GifLzw.CodeReader.Reset | readgif.cpp:719-721 | the code width is put back and the masks agree with it |
| GifLzw.CodeReader.Grow | readgif.cpp:809-818 | the code width grows by one bit when the free code reaches MaxCode and the width is below 12, and the masks keep agreeing |
| GifLzw.Initial | readgif.cpp:710 | the decoder starts in a well-formed state |
| GifLzw.Lookup | readgif.cpp:742-779 | a code that has a string has a non-empty one |
| GifLzw.Tail | readgif.cpp:786-787 | the kept tail of a string has at most n elements |
| GifLzw.Step | readgif.cpp:711-823 | a pass that goes on keeps the state well formed and strictly grows the output, short of the whole picture |
| GifLzw.StepInRange | readgif.cpp:711-823 | one pass of the loop keeps every emitted value a pixel value |
| GifLzw.RunInRange | readgif.cpp:711-823 | decoding from a state short of the whole picture emits at most the whole picture, all pixel values |
| GifLzw.DecodeInRange | readgif.cpp:706-823 | readImage's decoder never emits more than Width times Height pixels, each below the colour count |
| GifLzw.Tables.constructor | readgif.cpp:119-123 | fresh prefix, suffix and output stack of their static sizes |
| GifLzw.ChainStep | readgif.cpp:763-769 | a code above BitMask is an entry whose suffix is its string's last pixel and whose prefix denotes the rest |
| GifLzw.ChainEnd | readgif.cpp:778-779 | the chain ends at a pixel value, whose string is that pixel alone |
| GifLzw.RecordEntry | readgif.cpp:800-801 | storing the previous code and the new first pixel at the free code adds their string to what the tables denote |
| GifLzw.LookupDenotes | readgif.cpp:742-756 | a code already in the tables denotes its string; the free code denotes the previous string plus its own first pixel |
| GifLzw.ClearApplied | readgif.cpp:717-731 | after a Clear code, a code above BitMask is malformed and otherwise becomes the first pixel of an empty dictionary |
| GifLzw.RunEof | readgif.cpp:711 | the EOF code ends the decoding with what was emitted |
| GifLzw.RunThen | readgif.cpp:820-822 | after an applied code the decoding stops on a full picture and otherwise goes on from the next code |
| GifLzw.Popped | readgif.cpp:791-795 | popping k entries gives k pixels |
| GifLzw.PoppedTail | readgif.cpp:786-795 | popping a cut of a string's stack gives the string's last elements |
| GifLzw.Chase | readgif.cpp:763-769 | the chain walk stacks suffixes until a pixel value is reached or the stack overflows, keeping what the stack holds of the string |
| GifLzw.Unwind | readgif.cpp:742-779 | the string of a data code is pushed onto OutCode last pixel first; an overflow happens exactly when the string is over 4097 pixels long |
| GifLzw.Push | readgif.cpp:779 | one entry goes onto the stack and nothing else changes |
| GifLzw.Flush | readgif.cpp:789-795 | the stacked pixels are handed to the picture, last pushed first |
| GifLzw.Record | readgif.cpp:800-801 | the new table entry at FreeCode is the previous code and the first pixel, and nothing else changes |
| GifLzw.DataStep | readgif.cpp:733-819 | a data code stops the loop on a full table or an overflowing stack, and otherwise hands on its string, records the new entry and mirrors the reference decoder's step |
| GifLzw.Extend | readgif.cpp:781-818 | a stacked string's pixels are handed on, the new entry recorded and the code width grown as the reference decoder's step says |
| GifLzw.DataQuit | readgif.cpp:737-774 | a full table ends the decoding, an unknown code is malformed, and a string over 4097 pixels ends it too |
| GifLzw.DataApplied | readgif.cpp:781-818 | a data code whose string fits emits its last pixels within the picture and leaves the registers and tables mirroring the new state |
| GifLzw.Hand | readgif.cpp:785-795 | the safety cut keeps the picture at most Width times Height and the kept pixels are handed on |
| GifLzw.FreeBound | readgif.cpp:638-640 | a first free code below 4096 means a minimum code size of at most 11 |
| GifLzw.ClearStep | readgif.cpp:717-731 | a Clear code resets the code width and free code, reads the next code as a pixel and mirrors the reference decoder |
| GifLzw.ClearMirrors | readgif.cpp:722-729 | after a Clear code and pixel c the registers mirror an empty dictionary with c as the previous string |
| GifLzw.Start | readgif.cpp:710 | on the first code the registers mirror the reference start state |
| GifLzw.Finish | readgif.cpp:711-823 | a step that ends the decoding gives the reference result |
| GifLzw.Advance | readgif.cpp:820-822 | after an applied code the decoding goes on from the state the registers mirror, or ends on a full picture |
| GifLzw.ReadNext | readgif.cpp:820-822 | the code read at the end of a pass keeps the registers mirroring the reference decoder |
| GifLzw.ClearRound | readgif.cpp:717-731 | one pass on a Clear code grows the picture by one pixel and keeps mirroring, or ends with the reference result |
| GifLzw.DataRound | readgif.cpp:733-822 | one pass on a data code grows the picture and keeps mirroring, or ends with the reference result |
| GifLzw.Decompress | readgif.cpp:710-823 | the decoder emits at most Width times Height pixels, and when the reference decoder succeeds they are exactly its pixels |
| GifLzw.Drain | readgif.cpp:711-823 | the loop from the first code read ends with the reference decoder's result, or the reference says the stream is malformed |
| Gif.Splice | readgif.cpp:829-830 | writing r into s at `at` keeps the length, puts r's bytes inside the range and leaves every other byte |
| Gif.Zeros | readgif.cpp:830 | n zero bytes |
| Gif.Store | readgif.cpp:830 | the buffer afterwards is the old buffer with r written at `at` |
| Gif.AlignedInside | readgif.cpp:699-701 | pixel i of a w by h picture lands in row i / w, column i mod w of the long-aligned buffer, inside it |
| Gif.RestridedAt | readgif.cpp:836-848 | after moving the rows each pixel is found at its long-aligned place |
| Gif.RestridedPadded | readgif.cpp:844 | after moving the rows every padding byte is zero |
| Gif.RestridedSame | readgif.cpp:836 | when the width is already a multiple of four the buffer is left as it is |
| Gif.RestridedRow | readgif.cpp:841-847 | byte i of the moved buffer in row y is the pixel of that row and column, or zero padding |
| Gif.Restride | readgif.cpp:836-848 | the long-align loop, last row first, leaves the buffer exactly as Restrided says: every pixel at its long-aligned place, the padding zero |
| Gif.ShiftRow | readgif.cpp:841-847 | the loop from row y down has moved the rows below y to their aligned places |
| Gif.MoveRow | readgif.cpp:843-844 | memmove of one row and memset of its padding: the row's bytes land at the new place, the padding is zero and nothing else changes |
| Gif.FilledShows | readgif.cpp:706-848 | decoded pixels placed, zero-filled to the end of a non-interlaced picture and realigned: the buffer shows each pixel at its spot and zeros after the last |
| Gif.LineOffsets | readgif.cpp:857-863 | the line array has one entry per row, each row `stride` bytes after the one before |
| Gif.Describe | readgif.cpp:597-681 | an image descriptor ends after its ten fixed bytes, its colours and its sub-blocks |
| Gif.Recolored | readgif.cpp:612-620 | the colour table stays 256 entries long after a local table is read in |
| Gif.ReadColorTable | readgif.cpp:218-224 | n triples are read as ReadPalette says and the stream moves 3n bytes (also readgif.cpp:612-620) |
| Gif.ReadDescriptor | readgif.cpp:597-681 | the descriptor read is the one Describe gives, the stream ends after it and the colours are the ones it carries |
| Gif.DecodeInto | readgif.cpp:699-823 | a buffer of aligned-width times height bytes, with each decoded pixel at its spot and, when the code stream decodes, exactly the reference decoder's pixels |
| Gif.Settle | readgif.cpp:825-848 | the corrected zero fill, then the long-align move: the buffer is Filled and then Restrided |
| Gif.ReadPicture | readgif.cpp:699-848 | the picture buffer is long-aligned and padded, and shows the decoded pixels when the codes decode |
| Gif.ReadBody | readgif.cpp:699-863 | after the descriptor: the record gets the image's size, top-down, its long-aligned row table over the colours it holds, and a fresh raster whose rows are the buffer's, and the fresh buffer shows the picture of the descriptor's codes |
| Gif.ReadImage | readgif.cpp:587-866 | readImage: the stream ends after the descriptor, the record holds the image's size, row table, colours and a fresh raster holding the buffer row by row, the buffer shows the picture, and nothing else in the record changes |
| Gif.Hold | readgif.cpp:856 | a fresh raster of `rows` rows of `stride` bytes whose row y is the buffer's bytes from y times stride on |
| Gif.HoldRow | readgif.cpp:856 | one more row of the raster holds its part of the buffer, and the rows before it still do |
| Gif.RowInside | readgif.cpp:857-863 | each of the rows of an aligned buffer ends inside it, the last one at its end |
| Gif.RowStartIs | readgif.cpp:857-863 | the row offset counted up one stride at a time is the row number times the stride |
| Gif.SetSize | readgif.cpp:606-620 | the record gets the width, height and colour table, and nothing else changes |
| Gif.SetRows | readgif.cpp:853-863 | the record gets the width, the negated height as DIB height, a fresh raster holding the buffer row by row and a line array of aligned rows |
| Gif.ColorBitsOf | readgif.cpp:198 | BitsPerPixel is between 1 and 8 |
| Gif.GlobalPalette | readgif.cpp:216-236 | the global colour table has 256 entries |
| Gif.ExtensionEnd | readgif.cpp:254-480 | an extension ends past its label |
| Gif.FirstImage | readgif.cpp:246-570 | the image the block loop reads, when there is one, lies after the position the loop starts from |
| Gif.SkipExtension | readgif.cpp:254-480 | the stream ends where ExtensionEnd says |
| Gif.SkipImage | readgif.cpp:491-528 | a later image is skipped to the end Describe gives |
| Gif.DeGif | readgif.cpp:152-579 | de_gif returns 0 exactly when the signature, the screen and a first image pass; on 0 the record holds that image; on 1 it is the zeroed record with the global or EGA colours |
| Gif.Screen | readgif.cpp:179-236 | the header passes exactly when Screened holds, and then the stream is at the first block, with the global colours and BitsPerPixel |
| Gif.Blocks | readgif.cpp:246-570 | the block loop finds an image exactly when FirstImage does, loads it into the record, and otherwise leaves the size, rows and colours as they were |
| Gif.ExpandGif | readgif.cpp:1007-1018 | expandGif returns a record exactly when de_gif accepts the bytes, holding the first image; otherwise the fresh record is released |
| Gif.DescribeEncoded | readgif.cpp:597-681 | a descriptor of given size, flags, colours and sub-blocks is read back as those values, with the unblocked raster |
| Gif.LabelledSkipped | readgif.cpp:254-480 | an extension with only sub-blocks after its label ends after the blocks' terminator |
| Gif.BlockSkipped | readgif.cpp:254-480 | an extension with a fixed block before its sub-blocks ends after both |
| Gif.ImageAfterExtension | readgif.cpp:246-531 | an extension followed by an image separator leads the block loop to that image |
| Gif.FillAsWritten | readgif.cpp:825-831 | the fill as written runs exactly when npixels differs from maxpixels on a non-interlaced picture, over maxpixels - npixels taken modulo 2^32 |
| Gif.FillAsWrittenOverruns | readgif.cpp:710-831 | a picture of no pixels whose codes are a Clear code and one pixel decodes that pixel, so the fill as written covers 2^32 - 1 bytes |
| Gif.ClearThenPixel | readgif.cpp:717-731 | a Clear code then a pixel value decode to that one pixel even when the picture has no pixels (also readgif.cpp:820-822) |
| Snapshot.Text | snapshot.cpp:1799-1801 | the C string of a buffer: a prefix without NUL, followed by a NUL when shorter than the buffer |
| Snapshot.SkipSpaces | snapshot.cpp:1800-1815 | the first position at or after k that is not a space, all spaces skipped |
| Snapshot.Find | snapshot.cpp:1803-1819 | the first position at or after k holding c, or the end |
| Snapshot.SpanAt | snapshot.cpp:1800-1825 | an argument starts after the spaces, ends at its closing quote or space or at the end, and the next scan starts one past its end unless that is the end |
| Snapshot.Texts | snapshot.cpp:1812-1829 | one text per span, each the characters between the span's start and end |
| Snapshot.CountArgs | snapshot.cpp:1796-1808 | the first pass counts exactly the arguments the spans of the line give |
| Snapshot.SkipBlanks | snapshot.cpp:1800-1815 | the loop skips spaces to where SkipSpaces says, which holds NUL exactly at the end of the string |
| Snapshot.PassArg | snapshot.cpp:1802-1806 | one argument is passed over to SpanAt's next position |
| Snapshot.Cut | snapshot.cpp:1825 | the buffer keeps its length when each argument's end is overwritten with NUL |
| Snapshot.SplitArgs | snapshot.cpp:1810-1829 | the second pass points each token at its argument's start, ends the array with NULL and writes NUL exactly at each argument's end inside the string |
| Snapshot.ParseCommandLine | snapshot.cpp:1788-1832 | the returned array has one entry per argument and a NULL, and each entry reads back, as a C string of the cut buffer, exactly that argument |
| Snapshot.CutArg | snapshot.cpp:1818-1825 | after the cuts, the C string at an argument's start is the argument |
| Snapshot.CommandLine | snapshot.cpp:1791-1794 | a line of arguments is empty exactly when there are none |
| Snapshot.ArgsOfCommandLine | snapshot.cpp:1788-1832 | splitting the line made of quote-free arguments, each quoted when empty or holding a space, gives back exactly those arguments |
| Snapshot.SpansOfLine | snapshot.cpp:1799-1808 | the spans of a rendered line read back as the arguments |
| Snapshot.SpansOrdered | snapshot.cpp:1799-1808 | argument spans lie inside the line, in order and without overlap, each next position one past its end or the end |
| Snapshot.Turn | snapshot.cpp:1190-1195 | a quarter turn keeps the rotation in 0 to 3, clockwise one up and three wrapping to 0, anticlockwise one down and 0 wrapping to 3 |
| Snapshot.TurnBack | snapshot.cpp:1190-1195 | a turn one way then the other gives the rotation back |
| Snapshot.FourTurns | snapshot.cpp:1190-1195 | four turns the same way give the rotation back |
| Snapshot.KeyStep | snapshot.cpp:762-767 | the step is positive, at least 10 with control, at most 4 without, and shift makes it larger |
| Snapshot.Moved | snapshot.cpp:786-805 | an arrow key keeps the window's size and moves it only along the arrow's axis |
| Snapshot.MoveBack | snapshot.cpp:786-805 | a window well inside the work area comes back to where it was after an arrow and its opposite |
| Snapshot.Clamp | snapshot.cpp:429-432 | the clamped value is at most limit - 16, is the value or one of the bounds, and is at least 16 on a screen at least 32 wide |
| Snapshot.ClickPointKept | snapshot.cpp:427-432 | a click inside the band is kept and clamping a second time changes nothing |
| Snapshot.Centred | snapshot.cpp:1430-1464 | the window centring or following a click takes the picture's size, at least 16 each way |
| Snapshot.Followed | snapshot.cpp:1439-1445 | the point under the click stays inside the span of the resized window when it was inside the old one |
| Snapshot.ScaledWithin | snapshot.cpp:1442-1443 | the click's offset scaled to the new width lies between 0 and that width |
| Snapshot.ClickHeld | snapshot.cpp:1439-1445 | a click inside the window, at a point not negative, stays inside the window after it is resized |
| Snapshot.Cornered | snapshot.cpp:924-979 | the window placed by a drop takes the picture's size, at least 16 each way |
| Snapshot.CornerKept | snapshot.cpp:936-963 | unless pulled back onto the work area, the window keeps the corner of the quarter the drop is in |
| Snapshot.CorneredOnScreen | snapshot.cpp:966-977 | on a work area at least 8 across, at least 8 pixels of the placed window stay on it each way |
| Snapshot.Recentred | snapshot.cpp:1111-1164 | the turned window is the old window's height by its width |
| Snapshot.RecentredCentre | snapshot.cpp:1107-1164 | the centre of the turned window is within a pixel of the old centre each way |
| Snapshot.Window.constructor | snapshot.cpp:262-276 | a new window has no turns and the rectangle given |
| Snapshot.Window.Load | snapshot.cpp:1024-1090 | a layout file leaves turns and window as they were; any other file clears the turns and places the window as Centred says for a negative click or the error image and as Cornered says else |
| Snapshot.Window.Rotate | snapshot.cpp:1100-1195 | a rotation that fails leaves count and window; one that succeeds adds the turn, keeps the count in 0 to 3 and moves the window as Recentred says |
| Snapshot.Window.KeyMove | snapshot.cpp:752-805 | an arrow key moves the window as Moved says by the step KeyStep gives, and leaves the turns |
| WindowManager.SkipWhite | wndmgr.cpp:1585-1595 | atoi's leading white space: the first position from k on that is not white space |
| WindowManager.DigitsEnd | wndmgr.cpp:1585-1595 | the end of the run of digits from k on |
| WindowManager.Digits | wndmgr.cpp:1405-1413 | the digits %d prints for a natural number read back as that number |
| WindowManager.Decimal | wndmgr.cpp:1405-1413 | %d prints digits, with a minus sign only in front |
| WindowManager.AtoiDecimal | wndmgr.cpp:1405-1413 | atoi reads back every integer %d prints (also wndmgr.cpp:1585-1595) |
| WindowManager.RunEnd | wndmgr.cpp:1512-1520 | the end of a token: the first separator from k on, or the end of the line |
| WindowManager.FieldsAppend | wndmgr.cpp:1512-1520 | splitting text made of two parts the first of which ends in a separator gives the fields of each part in turn |
| WindowManager.FieldsOne | wndmgr.cpp:1512-1520 | a text that is one field without separators splits into itself |
| WindowManager.Taken | wndmgr.cpp:1513-1524 | parseN keeps a prefix of the fields, exactly N of them when there are that many and N is at least 2 |
| WindowManager.Strtok | wndmgr.cpp:1512-1518 | strtok returns the next field and moves past it, or nothing when no field is left |
| WindowManager.ParseN | wndmgr.cpp:1507-1525 | parseN returns the first N fields of the line, split on bar and newline, and on comma too for nine fields |
| WindowManager.FgetsEnd | wndmgr.cpp:1477 | fgets reads at most size - 1 characters, stops after the first newline, reads something when there is text, and stops short only on a newline (also wndmgr.cpp:1555, 1570, 1621) |
| WindowManager.FirstLine | wndmgr.cpp:1476-1480 | the first line is a prefix of the text |
| WindowManager.LineVersion | wndmgr.cpp:1482-1495 | a nonzero version needs the line to start with the header |
| WindowManager.VersionNeedsHeader | wndmgr.cpp:1471-1499 | a text is a layout file only when it starts with the header |
| WindowManager.HeaderVersion | wndmgr.cpp:1348-1352 | the file save_layout writes reads as version 2, negated for a consolidated layout (also wndmgr.cpp:1471-1499) |
| WindowManager.HeaderFirstLine | wndmgr.cpp:1348-1352 | the first line read back is the header, a space, 2 and R when consolidated (also wndmgr.cpp:1477-1480) |
| WindowManager.LastIndex | wndmgr.cpp:1321 | strrchr: the last position holding c, with no c after it, or none when c is not there (also wndmgr.cpp:1327, 1391) |
| WindowManager.BaseName | wndmgr.cpp:1391-1392 | the name after the last backslash holds no backslash and is no longer than the path |
| WindowManager.Reverse | wndmgr.cpp:1384 | the reverse iterator visits the windows last first |
| WindowManager.RecordsSnoc | wndmgr.cpp:1384-1415 | one window more adds its record at the end |
| WindowManager.SaveLayout | wndmgr.cpp:1348-1415 | the text written is the header line followed by the records of the windows from the bottom of the Z order up, each skipped when its path is missing or shorter than 3 |
| WindowManager.Room | wndmgr.cpp:1332 | 260 - strlen as an unsigned size_t, the room left when the name fits |
| WindowManager.LayoutName | wndmgr.cpp:1327-1335 | ".osiva" is added exactly when the name has no extension or one over 6 characters and there is room for it |
| WindowManager.LayoutNameIdempotent | wndmgr.cpp:1327-1335 | naming a layout twice adds ".osiva" once |
| WindowManager.LayoutStep | wndmgr.cpp:1384-1415 | the loop's text extends by the next record of the Z order, counted from the bottom |
| WindowManager.PrintRecord | wndmgr.cpp:1402-1414 | the fprintf calls add exactly the record line of the window |
| WindowManager.Turns | wndmgr.cpp:1598-1607 | a recorded rotation becomes at most two turns |
| WindowManager.ApplyTurns | wndmgr.cpp:1598-1607 | the rotation after the turns stays in 0 to 3 |
| WindowManager.TurnsRestore | wndmgr.cpp:1598-1607 | the turns for rotation 0 to 3, applied to a fresh window, give that rotation; case 2 falling through gives two clockwise turns |
| WindowManager.RelativePathOverrun | wndmgr.cpp:1576-1578 | the length test as written lets through a folder of 250 and a name of 10 characters, whose joined path and NUL overrun the buffer of 261 by one |
| WindowManager.Placed | wndmgr.cpp:1572-1620 | a record opens a window only with nine fields or more, at the right path, and a relative path then fits its buffer; otherwise the line was short or the path too long |
| WindowManager.LoadFrom | wndmgr.cpp:1570-1622 | with skipped records moving on to the next line, every relative path loaded fits its buffer |
| WindowManager.ReadRecord | wndmgr.cpp:1572-1620 | the record read is the one Placed says |
| WindowManager.LoadStep | wndmgr.cpp:1570-1622 | one pass of the loop adds the record of the line fgets reads, or nothing, and goes on after it |
| WindowManager.LoadLayout | wndmgr.cpp:1531-1627 | load_layout_file opens the windows Loaded gives for the text, each relative path inside its buffer |
| WindowManager.MangledFields | wndmgr.cpp:1512-1520 | after strtok has cut a buffer, it holds at most one field and cutting again changes nothing |
| WindowManager.NextAsWritten | wndmgr.cpp:1570-1577 | a record that is skipped leaves the loop on the same, now cut, buffer without reading another line |
| WindowManager.SkipStalls | wndmgr.cpp:1570-1577 | once a record is skipped the loop as written comes back to the same state forever |
| WindowManager.ShortLineStalls | wndmgr.cpp:1572-1574 | a line of two fields, followed by a good record, makes the loop as written stall before it |
| WindowManager.FieldsOfLine | wndmgr.cpp:1402-1414 | a record line splits into the name and the nine numbers (also wndmgr.cpp:1512-1520) |
| WindowManager.LineClean | wndmgr.cpp:1402-1414 | a record line of a storable name is one line ending in its newline, without NUL |
| WindowManager.RestoredKeeps | wndmgr.cpp:1405-1413 | a window read back has the corner and size it was saved with and turns to its saved rotation (also wndmgr.cpp:1585-1612) |
| WindowManager.RecordPlaced | wndmgr.cpp:1402-1414 | the record save_layout writes for a window is read back as that window restored (also wndmgr.cpp:1572-1620) |
| WindowManager.AtoiTen | wndmgr.cpp:1585-1595 | the ten fields of a record are read back as the name and the nine numbers |
| WindowManager.RecordsLoad | wndmgr.cpp:1384-1415 | the records of a list of restorable windows load back as those windows restored, in order (also wndmgr.cpp:1570-1622) |
| WindowManager.HeaderSkipped | wndmgr.cpp:1555 | the first fgets takes exactly the header line |
| WindowManager.SavedLayoutLoads | wndmgr.cpp:1271-1417 | a layout save_layout writes loads back every kept window, from the bottom of the Z order up, at its place, size, transparency and rotation (also wndmgr.cpp:1531-1627) |
| WindowManager.IndexOf | wndmgr.cpp:297-300 | the first place of w, the length exactly when w is not there |
| WindowManager.Find | wndmgr.cpp:297-300 | the search loop stops at IndexOf |
| WindowManager.SteppedCycles | wndmgr.cpp:303-312 | the next window is one on, or one back, modulo the window count |
| WindowManager.SteppedBack | wndmgr.cpp:303-312 | a step one way then the other comes back to the same window |
| WindowManager.Tab | wndmgr.cpp:288-314 | tab gives nothing exactly when the window is not on the list, and otherwise the one after it, or before it with shift or reverse, wrapping around |
| WindowManager.DissolveFrames | wndmgr.cpp:1760-1763 | the frame count is 2 to the power dissolve_bits, 1 for a negative count |
| WindowManager.BlendEnds | wndmgr.cpp:1819-1853 | frame 0 shows the old colour and the last frame exactly the new one |
| WindowManager.BlendBetween | wndmgr.cpp:1819-1853 | every frame's colour lies between the old and the new |
| DragSource.Inc32 | dragsrc.cpp:123 | ++ on a 32-bit ULONG count: one up, wrapping to 0 at 2^32 (also dragsrc.cpp:271) |
| DragSource.Dec32 | dragsrc.cpp:133 | -- on a 32-bit count: one down, wrapping to 2^32 - 1 below 0 (also dragsrc.cpp:277) |
| DragSource.CountsCancel | dragsrc.cpp:120-139 | an AddRef then a Release, or a Release then an AddRef, give the count back |
| DragSource.DropSource.constructor | dragsrc.cpp:96-114 | no references; the button held at the start drops and the other cancels, the left one when both are held, neither when none is |
| DragSource.DropSource.AddRef | dragsrc.cpp:120-124 | the count one up, returned, the buttons kept |
| DragSource.DropSource.Release | dragsrc.cpp:130-139 | the count one down, returned, the object gone exactly when it reaches 0 |
| DragSource.DropSource.QueryContinueDrag | dragsrc.cpp:161-172 | cancel exactly on Escape or a cancel button; drop exactly when neither and the drop button is up; otherwise continue |
| DragSource.ButtonDrag | dragsrc.cpp:96-114 | with a button held at the start, the drag goes on while it is held, drops when it is let go and cancels when both are down (also dragsrc.cpp:161-172) |
| DragSource.NoButtonDrops | dragsrc.cpp:102-103 | a drag started with no button held drops at once unless Escape cancels it (also dragsrc.cpp:165-169) |
| DragSource.Fetch | dragsrc.cpp:302-306 | Next copies the next formats from the cursor, as many as asked or as are left |
| DragSource.FetchSplit | dragsrc.cpp:288-311 | fetching a then b from where the first fetch ends is fetching a + b |
| DragSource.FetchAll | dragsrc.cpp:288-311 | fetching every format from the start gives all of them |
| DragSource.SkipTo | dragsrc.cpp:317-324 | the cursor stays inside the list, and without 32-bit wrap Skip succeeds exactly when it stays short of the end, moving by celt |
| DragSource.SkipToEndFails | dragsrc.cpp:320-321 | skipping exactly to the end fails |
| DragSource.SkipWrapsBack | dragsrc.cpp:320-322 | a count of 2^32 - 1 moves the cursor back by one |
| DragSource.EnumFormats.constructor | dragsrc.cpp:221-235 | a copy of the formats, the cursor at the start, no references |
| DragSource.EnumFormats.Add | dragsrc.cpp:243-247 | one more format at the end, the cursor and count kept |
| DragSource.EnumFormats.AddRef | dragsrc.cpp:268-272 | the count one up and returned, the list and cursor kept |
| DragSource.EnumFormats.Release | dragsrc.cpp:274-282 | the count one down and returned, the object destroyed exactly at 0 |
| DragSource.EnumFormats.Next | dragsrc.cpp:288-311 | a refused call copies nothing and reports 0; otherwise the formats Fetch gives are copied, the cursor moves past them, their number is reported when asked, and S_OK comes exactly when all asked for were copied |
| DragSource.EnumFormats.Skip | dragsrc.cpp:317-324 | the cursor moves to where SkipTo says with S_OK, or stays with S_FALSE |
| DragSource.EnumFormats.Reset | dragsrc.cpp:329-334 | the cursor back at the start, S_OK |
| DragSource.EnumFormats.Clone | dragsrc.cpp:340-353 | E_POINTER without a place for the copy; otherwise a fresh enumerator with the same formats and cursor and one reference |
| DragSource.DropPackage | dragsrc.cpp:581-590 | a DROPFILES header with pFiles 20 and fWide 0, the name after it and two NUL bytes at the end |
| DragSource.NulFrom | dragsrc.cpp:589 | the first NUL from k on, or the end |
| DragSource.DropRoundTrip | dragsrc.cpp:581-590 | the file list a drop target reads from the package is the one name, or none for an empty name |
| DragSource.DragResult | dragsrc.cpp:617-632 | 1 exactly for a copy drop, 0 exactly when the drag did not drop, otherwise 2 |
| DragSource.ReplyResult | dragsrc.cpp:161-172 | the drag's result is nonzero exactly when QueryContinueDrag answered drop (also dragsrc.cpp:617-632) |

## Left out

- Scan.PaintSpan, Scan.MarkSpan, EdgeTree.VisitSpan, EdgeTree.VisitColumn: a write outside the raster is skipped. In C it is undefined behaviour. The sweeps of contours traced inside the raster never make one.
- Scan.SortCorners: a stable sort stands for `qsort`. The source leaves the order of corners with equal keys unspecified, and the model keeps their contour order.
- The `unsigned short` coordinates of contour.h are unbounded non-negative integers, so wrap-around above 65535 is not modelled.
- Contour.TraceContour: termination is not proved. After 8*width*height + 1 steps without closing, the trace returns `Endless`, which stands for the source's endless loop. The design's "a rectangle gives four alternating corners" is not stated.
- EdgeTree.BuildChildEdgeTree: it states that every new child carries the foreground colour and is chained in creation order, and that the whole sweep is visited. It does not state which contours the children hold. Each child's contour is the tracer's on an unvisited foreground pixel of the grid as it then was (EdgeTree.Discover states that for one child), but that grid is not kept, so the tie is not carried through the sweep. Nor does it state that each unvisited foreground pixel of the sweep, in sweep order, gets a child.
- WRegion.GrowTree: the tree it builds is as weak as EdgeTree.BuildChildEdgeTree states it. Its children's contours are not tied to the tracer.
- WRegion.WRegion.ExtractRegions: the region combines the contours of the tree as it was built, and these are not tied to the tracer. So the model does not state that the region matches the mask's shapes.
- EdgeTree.BuildChildEdgeTree: error 4 is no code of the source. It is returned where the tracer hits the step bound above, where the source would never return. The source's crash on a null trace cannot happen, since a seed holding the foreground always gives a contour.
- WRegion.WRegion.CreateMask: without image data the model sets the mask to null. The source frees the mask and keeps the dangling pointer.
- WRegion.NewMask: allocates a height-by-width mask. The source spaces its rows `4*((w+3)/4)` bytes apart, and the padding bytes are not modelled.
- WRegion.WRegion.ExtractRegion, WRegion.WRegion.ExtractRegions: the 32-bit `int` products of the gates, such as `(r-l)*(b-t)*100` and `w*h`, are unbounded, so their overflow on very large masks is not modelled.
- Snapshot.Window.Load: requires a window of nonzero width and height when it centres the picture. show_centered_img divides by them (snapshot.cpp:1442-1443). The help dialog's right edge is a parameter, given only for the logo at start-up.
- Resize.LockAspect: requires a nonzero image width and height. The source divides by them.
- Resize.Resize: requires a target width and height of at least 1. The source goes on to allocate records of no or negative size.
- Resize.Resize: where the vertical pass leaves a picture less than one pixel wide and the target is wider, the source divides by zero (resizer.cpp:675) or lays out rows of negative length. The model returns no image there; it does not model a crash.
- Resize.Heighten: the 8-bit heightener copies whole source rows into its accumulators (resizer.cpp:891-1001). The model keeps only the columns it stores, which gives the same picture.
- MaskOps.Dehair: requires a width of at least 2 when there are 6 rows or more. The source indexes its row buffer outside the row there.
- GifStream.Stream.Next: reads a zero byte past the end of the file image. The source reads past its buffer.
- GifLzw.Byte: gives zero past the end of the raster. The source callocs `filesize + 256` bytes (readgif.cpp:662), so it reads zeros up to there and outside its buffer beyond.
- GifLzw.Drain: OldCode and FinChar start at 0. In the source they are file statics (readgif.cpp:98-101) that keep their values from the image decoded before when the first code is not a Clear code.
- Gif.DecodeInto, Gif.ReadPicture: `Width*Height` and the aligned width times Height are unbounded. The source computes them in `int` (readgif.cpp:699-701), so their overflow on very large images is not modelled.
- Gif.SetRows, Gif.ReadBody, Gif.ReadImage, Gif.Blocks, Gif.DeGif, Gif.ExpandGif: the record's raster is a fresh copy of the buffer, laid out as rows. In the source the record takes the buffer itself (readgif.cpp:856), so the aliasing of the two is not modelled.
- WRegion.WRegion.PlotTreeToMask: with a mask but no tree, reached when extractRegions returns early on an empty mask (wregion.cpp:473-474), the source dereferences a null root in plotBranch (wregion.cpp:193). The model leaves the mask as it is.
- GifRows.Sink.constructor: ptr and oldYC are reset with each picture. In the source they are statics of doInterlace (readgif.cpp:906-907), kept from the image decoded before, through a pointer into that image's freed buffer.
- Allocation failures (`malloc`, `calloc` or `new` returning null) are not modelled. Examples are the "not enough memory" returns of readImage and Clone's E_OUTOFMEMORY.
- WindowManager.DissolveFrames: the `int` frame count is unbounded, so its overflow for 31 or more dissolve bits is not modelled.
- WindowManager.BlendEnds, WindowManager.BlendBetween: only the dissolve lines whose expressions are defined are modelled (wndmgr.cpp:1819-1825, 1848-1853). The 24-bit lines read and advance the same pointer in one unsequenced expression.
- The OLE plumbing of dragsrc.cpp is not modelled: QueryInterface, GiveFeedback, DataObject, DoDragDrop, GlobalAlloc and GlobalLock.
- File and window I/O is not modelled:
  - read_gif_file, and the fopen, fgets and fclose calls of the layout code, whose texts are parameters;
  - save_layout's dialog and CopyFile. CopyFile is given the bare file name, and the joined path in `buff` is never used.
  - The painting, timers and window moves of the handlers in snapshot.cpp and wndmgr.cpp. Only the values they compute are modelled.
- Debug output is not modelled: llimg_dumpContour, llimg_printChildEdgeTree, printRegionTree, dump_info, and the sweep's scan-parity diagnostics.
- Floating point and randomness (tile_rect, scale_to_area, random_index and the window arrangers) are not part of this model.

## Findings

| source | as written | input that shows it | evidently intended | confidence | as-written member | corrected member |
|---|---|---|---|---|---|---|
| reduce.cpp:293-307 | reduce256_256 reads block k of a row starting at column (k+1)*r, one block late | a 4-pixel row reduced by 2 reads only the block at column 2; a 5-pixel row reads a block starting at column 4, past the row | block k starts at column k*r, so the first block is read and no read leaves the row | not executed | Reduce.AsWrittenShiftsLeft | Reduce.Reduce256To256 |
| resizer.cpp:823-873 | the heighteners' strides stop at the last split and leave the rows after it as malloc returned them | a 1-row image heightened to 3 rows, or any new height over twice the old | every one of the new height - 1 rows is written, the last ones from the last source row | not executed | Resize.TallStrides | Resize.Heighten |
| readgif.cpp:930-965 | doInterlace starts each pass at its first row even when that row is past the bottom of the image | an interlaced image 2 rows high: its second row of data goes to row 4, off the image, and row 1 is never written | the rows of Appendix E of GIF89a: passes with no rows inside the image are skipped | not executed | GifRows.AsWrittenLosesRows | GifRows.Sink.DoInterlace |
| wndmgr.cpp:1570-1577 | a skipped record `continue`s without reading the next line, so the same cut buffer is parsed forever | a line holding only the two fields a and b, before a good record | a skipped record moves on to the next line | not executed | WindowManager.ShortLineStalls | WindowManager.LoadLayout |
| wndmgr.cpp:1550, 1576-1578 | the length test lets through a folder and a name whose lengths sum to _MAX_PATH, but sprintf writes both, a backslash and a NUL | a folder of 250 characters and a name of 10: 262 bytes into a buffer of 261 | the test counts the backslash and the NUL | not executed | WindowManager.RelativePathOverrun | WindowManager.Placed |
| readgif.cpp:825-831 | the zero fill runs whenever npixels != maxpixels, over maxpixels - npixels as a size_t | a picture of no pixels whose codes are a Clear code and one pixel decodes one pixel, so the fill covers 2^32 - 1 bytes | fill only when fewer pixels than the picture holds were decoded | not executed | Gif.FillAsWrittenOverruns | Gif.Settle |
