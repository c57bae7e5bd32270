# mk_atlas packing core in Dafny

A model of the packing engine of `mk_atlas`, the tool that builds one texture
atlas out of many sprite images. It covers the three parts that carry the
algorithm, plus the small pure helpers beside them:

- the **trimmer** (`ImageMaxAlpha`, `TrimImage`): an RGBA image is its bounds
  plus an alpha value per pixel. Trimming cuts it down to the bounding box of its
  visible pixels, moving the right, left, bottom and top edges in that order;
- the **guillotine packing tree** (`node`, `FindInsertCandidates`, `Insert`): an
  immutable `Leaf | Split` tree of rectangles. Go's node pointers become paths
  from the root. Candidates are listed in pre-order, left subtree first;
- the **greedy packer** (`Atlas.PackImages`): a round scans every remaining
  sprite against every free leaf. It commits the single lowest-scoring placement
  (the first one met wins a tie), then swap-removes the placed sprite. The
  packer fails with "Failed to fit all images" when a round finds nothing;
- the **metadata record** (`AtlasMeta`) and the ActionScript name helpers
  (`PathAsASVarName`, `CleanASPath`).

Modules: `Wrappers` (Option, Outcome), `Geometry` (Go's `image.Point` and
`image.Rectangle`, including `image.Rect`'s corner re-ordering and
`Rectangle.Intersect`), `Trim`, `PackTree`, `Packer`, `Meta`, `Names`.

Modelling choices:
- `TrimImage`'s four loops are four methods, `TrimRight`, `TrimLeft`,
  `TrimBottom` and `TrimTop`. `TrimImage` calls them in the source's order.
- The panics in `node.Insert` are preconditions.
- The goroutine and channel in `PackImages` are replaced by the candidate
  sequence that `FindInsertCandidates` returns.
- `AtlasImage` keeps the trimmed image's bounds, not its pixels.

Behaviour worth knowing:
- A split node carries `used == true`, because `Insert` sets the flag before
  splitting. `FindInsertCandidates` still never yields one, because it tests
  for children before it tests the flag.
- Two 1×1 sprites do not fit on a 4×4 atlas. The free area `Rect(1, 1, 4, 4)`
  is 3×3, and each sprite needs 2×2 with padding. After the first placement no
  free leaf holds a second one (`Packer.TwoSmallSpritesOnFourByFour`).
- The record's offset is the trimmed rectangle's minimum corner in the decoded
  image's own coordinates. It is not taken relative to the original bounds'
  corner; the two agree when that corner is (0, 0).
- An image without pixels (zero width or height) trims to the zero rectangle,
  because `SubImage` of an empty rectangle is `ZR`. The "at least 1×1" result
  holds for every image that has pixels.

## Model

| member | source | states |
|---|---|---|
| Geometry.MakeRect | src/mk_atlas/mk_atlas.go:181-185 | `image.Rect` as the children of a split, the root at :200 and the strip scans at :51-61 build it: the result is well-formed and has the given coordinates as its corners on each axis. Ordered coordinates are kept as given; otherwise each axis's pair is swapped. |
| Geometry.Intersect | src/mk_atlas/mk_atlas.go:65 | `Rectangle.Intersect`, behind `SubImage` here and in the strip scans: a point lies in the result exactly when it lies in both rectangles. An empty overlap gives the zero rectangle, and a non-empty rectangle inside the other comes back unchanged. |
| Trim.SubImage | src/mk_atlas/mk_atlas.go:65 | a sub-image keeps the pixels' absolute coordinates and alpha values. Its bounds hold exactly the points in both the requested rectangle and the image. An empty overlap gives the zero rectangle. |
| Trim.ImageMaxAlpha | src/mk_atlas/mk_atlas.go:23-44 | the result is at least the alpha of every pixel in the image. It is the alpha of some pixel, or 0 when there is no pixel. |
| Trim.StripScan | src/mk_atlas/mk_atlas.go:51-62 | the maximum alpha over a strip inside the image is zero exactly when no pixel of the strip is visible. |
| Trim.TrimRight | src/mk_atlas/mk_atlas.go:51-53 | the right edge moves left and the other edges stay. Every visible pixel stays inside. When the starting width is at least 1 it stays at least 1, and afterwards the rightmost column holds a visible pixel if the image has one; a fully transparent image is cut to width 1. A starting width of 0 or 1 is left as it is. |
| Trim.TrimLeft | src/mk_atlas/mk_atlas.go:54-56 | the same for the left edge: when the starting width is at least 1, the leftmost column ends up holding a visible pixel, or the width is 1. |
| Trim.TrimBottom | src/mk_atlas/mk_atlas.go:58-60 | the same for the bottom edge, on rows, when the starting height is at least 1. |
| Trim.TrimTop | src/mk_atlas/mk_atlas.go:61-63 | the same for the top edge, on rows, when the starting height is at least 1. |
| Trim.TrimImage | src/mk_atlas/mk_atlas.go:46-66 | the result keeps the alpha values. For an image with pixels, it lies inside the source with extent at least 1 on both axes: a visible image gets exactly the bounding box of its visible pixels, and a fully transparent image gets the 1×1 rectangle at the source's minimum corner. An image without pixels gets the zero rectangle. |
| Trim.BoundingBoxUnique | src/mk_atlas/mk_atlas.go:46-66 | the bounding box that trimming promises is unique: two rectangles that both enclose every visible pixel and touch one on each edge are equal. |
| PackTree.Score | src/mk_atlas/mk_atlas.go:156-161 | the score is the smaller of the two leftover slacks. |
| PackTree.FindInsertCandidates | src/mk_atlas/mk_atlas.go:149-165 | every candidate names an unused leaf (never a split node) that holds the size. Its score is that leaf's score, and it is never negative. |
| PackTree.FreeFittingLeaves | src/mk_atlas/mk_atlas.go:149-165 | reference enumeration without pruning: a path is listed exactly when it leads to an unused leaf that holds the size. |
| PackTree.TooSmallHasNoFittingLeaf | src/mk_atlas/mk_atlas.go:150 | in a well-formed tree, no free leaf of a too-small subtree holds the size, so the source's pruning loses no candidate. |
| PackTree.CandidatesAreFreeFittingLeaves | src/mk_atlas/mk_atlas.go:149-165 | on a well-formed tree, the candidate paths are exactly the unused leaves that hold the size, in pre-order with the left subtree first. |
| PackTree.Insert | src/mk_atlas/mk_atlas.go:167-190 | the node must be unused and hold the size. The result rectangle has exactly that size, starts at the node's minimum corner and lies inside the node. The node is marked used. An exact fit creates no children. Otherwise the node is guillotine-cut: vertically when the x slack is at least the y slack, horizontally otherwise. The left part has the requested extent on the cut axis, and the right part is a fresh unused leaf. The recursive fill of the left part makes it either exactly the handed-out rectangle as a used leaf, or one more cut into that used leaf and a second fresh unused leaf; nothing else is split. |
| PackTree.CutPartitions | src/mk_atlas/mk_atlas.go:180-186 | both parts of a cut lie inside the parent and are disjoint. Together they cover exactly the parent's points. |
| PackTree.InsertShape | src/mk_atlas/mk_atlas.go:176-187 | filling a free leaf gives a well-formed subtree. Every free leaf in it lies inside the old leaf and clear of the handed-out rectangle. |
| PackTree.InsertCoversLeftover | src/mk_atlas/mk_atlas.go:180-187 | filling a free leaf uses up only the rectangle handed out: every other point of the old leaf lies in a free leaf of the new subtree. |
| PackTree.Replace | src/mk_atlas/mk_atlas.go:232 | rebuilding the tree through a path puts the new node at that path. For a non-empty path it keeps the root rectangle. |
| PackTree.InsertAt | src/mk_atlas/mk_atlas.go:232 | inserting at a candidate's path hands out a rectangle of the requested size at that leaf's corner, inside the leaf. The root rectangle is unchanged. |
| PackTree.ReplaceKeepsWellFormed | src/mk_atlas/mk_atlas.go:232 | replacing a node by a well-formed node with the same rectangle keeps the tree well-formed. |
| PackTree.ReplaceFreeLeaf | src/mk_atlas/mk_atlas.go:232 | after a replacement, each free leaf is either a free leaf of the new node or an untouched free leaf of the old tree. |
| PackTree.ReplaceKeepsOtherLeaves | src/mk_atlas/mk_atlas.go:232 | replacing a leaf leaves every other free leaf at its path with its old node. |
| PackTree.ReplaceBelow | src/mk_atlas/mk_atlas.go:232 | below the replaced path, the new tree is exactly the new node. |
| PackTree.InsertAtShape | src/mk_atlas/mk_atlas.go:177-187 | a commit keeps the tree well-formed over the same root. Each free leaf afterwards lies inside the filled leaf and clear of the new placement, or it is another free leaf of the old tree. Conversely, every free leaf of the old tree other than the filled one is still a free leaf, with the same rectangle. |
| PackTree.CommitFreeArea | src/mk_atlas/mk_atlas.go:232 | a commit removes exactly the handed-out rectangle from the free area: a point is in a free leaf afterwards exactly when it was in one before and lies outside the placement. |
| PackTree.SubtreeInside | src/mk_atlas/mk_atlas.go:180-186 | every node of a well-formed tree lies inside the root. |
| PackTree.DistinctLeavesDisjoint | src/mk_atlas/mk_atlas.go:180-186 | two different leaves of a well-formed tree never overlap. |
| PackTree.FreeLeavesDisjointInsideRoot | src/mk_atlas/mk_atlas.go:177-187 | the free leaves of a well-formed tree are pairwise disjoint and lie inside the root. |
| PackTree.LeavesCoverRoot | src/mk_atlas/mk_atlas.go:177-187 | the leaves of a well-formed tree cover its rectangle exactly: a point lies in the root exactly when it lies in some leaf. |
| Packer.ScanTake | src/mk_atlas/mk_atlas.go:220-224 | a candidate takes the lead when nothing was found yet or its score is strictly lower. The new leader is then minimal over everything scanned, and every earlier candidate scores strictly higher. |
| Packer.ScanKeep | src/mk_atlas/mk_atlas.go:220 | a candidate scoring at least the leader's leaves the leader in place, and the leader stays minimal. |
| Packer.ScanSprite | src/mk_atlas/mk_atlas.go:215-225 | scanning one sprite's whole candidate list keeps the leader minimal over every candidate scanned so far. It finds nothing only when nothing was found before and the list is empty, and a changed leader is one of this sprite's candidates. |
| Packer.ScanComplete | src/mk_atlas/mk_atlas.go:228-230 | after the scan, "nothing found" holds exactly when every remaining sprite has no candidate. |
| Packer.PickBest | src/mk_atlas/mk_atlas.go:205-231 | a round returns no pick exactly when no remaining sprite has a candidate. Otherwise the pick is one of its sprite's candidates, its score is the lowest of the round, and every candidate scanned before it scores strictly higher. |
| Packer.SwapRemove | src/mk_atlas/mk_atlas.go:235-236 | the removed slot receives the last entry and the other slots keep their entries. The multiset loses exactly the removed entry. |
| Packer.SwapRemoveDistinct | src/mk_atlas/mk_atlas.go:235-236 | with distinct entries, swap-removal keeps them distinct and drops exactly the removed one. |
| Packer.CommitPlacedInside | src/mk_atlas/mk_atlas.go:232-236 | after a commit every placed sprite's padded rectangle, the new one included, lies inside the root. |
| Packer.CommitClearOfPlaced | src/mk_atlas/mk_atlas.go:232 | the rectangle handed out by a commit is clear of every sprite placed before, because those are clear of the free leaf it is cut from. |
| Packer.CommitPlacedDisjoint | src/mk_atlas/mk_atlas.go:232-236 | after a commit no two placed sprites' padded rectangles overlap. |
| Packer.CommitClearOfFreeLeaves | src/mk_atlas/mk_atlas.go:232-236 | after a commit every placed sprite is clear of every free leaf of the new tree. |
| Packer.CommitKeepsInvariant | src/mk_atlas/mk_atlas.go:232-236 | committing a round's winner keeps the packing invariant. Placed padded rectangles stay inside the root, clear of each other and clear of every free leaf. |
| Packer.CommitKeepsFreeArea | src/mk_atlas/mk_atlas.go:232-236 | a commit keeps the free area exact: the tree's free leaves cover exactly the root minus the padded rectangles of the placed sprites. |
| Packer.PackImages | src/mk_atlas/mk_atlas.go:192-240 | the packer stops after at most one round per sprite and changes only atlas positions. On success every padded rectangle `[pos, pos + size + (1,1))` lies inside `Rect(1, 1, W, H)` and no two overlap. On failure the error is "Failed to fit all images" and some sprites remain unplaced, each untouched and without a candidate in the final tree. The final tree's free leaves then cover exactly the root minus the placed sprites, so no space was thrown away. |
| Packer.TwoSmallSpritesOnFourByFour | src/mk_atlas/mk_atlas.go:200-232 | on a 4×4 atlas the first 1×1 sprite goes to (1, 1), and afterwards no free leaf holds a second one. |
| Meta.MetaMapContents | src/mk_atlas/mk_atlas.go:308-316 | the record map has exactly the sprites' keys. Under each key is the record of the last sprite with that key. |
| Meta.AtlasMeta | src/mk_atlas/mk_atlas.go:305-319 | the record carries the atlas size, and its keys are exactly the sprites' keys. For each sprite that no later sprite shares a key with, the record under its key holds the atlas position, trimmed size, original size and trimmed offset; of sprites sharing a key, the last one wins. |
| Meta.RecordInsideAtlas | src/mk_atlas/mk_atlas.go:370-371 | for a sprite placed by a successful pack, 0 < x <= x + w < W and likewise on y, so the generated texture coordinates satisfy 0 < u0 <= u1 < 1 and 0 < v0 <= v1 < 1. Both u0 < u1 and v0 < v1 hold exactly when the trimmed image has pixels. A sprite without pixels, trimmed to the zero rectangle, gets u0 == u1 and v0 == v1. |
| Names.PathAsASVarName | src/mk_atlas/mk_atlas.go:340-349 | the rune count is preserved and ASCII letters and digits are kept. Every other rune becomes `_`, so the name contains only letters, digits and `_`. |
| Names.PathAsASVarNameIdempotent | src/mk_atlas/mk_atlas.go:340-349 | applying the transformation twice gives the same name as applying it once. |
| Names.CleanASPath | src/mk_atlas/mk_atlas.go:351-353 | the rune count is preserved and every backslash becomes `/`. Nothing else changes and no backslash remains. |
| Names.CleanASPathIdempotent | src/mk_atlas/mk_atlas.go:351-353 | cleaning a cleaned path changes nothing. |
| Names.VarNameIgnoresSeparatorStyle | src/mk_atlas/mk_atlas.go:340-353 | a key and its cleaned form give the same ActionScript name. |

## Left out

- File discovery and decoding (`AddImage`, `AddImages`): these are `os.Open`, `image.Decode` and `filepath.Glob`. The model starts from the decoded RGBA image that `TrimImage` receives.
- Pixel storage: the `Pix`/`Stride` byte layout is abstracted to an alpha function. The non-RGBA `panic` branch of `ImageMaxAlpha` is left out because `TrimImage` only passes RGBA images.
- The pixel buffers of trimmed sprites: `AtlasImage` keeps only the trimmed bounds, which is all that packing and metadata use.
- `SaveAtlasImage`: the canvas fill, `draw.Draw` composition and PNG encoding are library calls.
- The path-strip step of `AtlasMeta` (`filepath.Join` over `strings.Split`): it depends on `filepath` cleaning rules, so the key is the parameter `keyOf`.
- `SaveAtlasMeta` and `SaveAtlasMetaAsActionScript`: JSON marshalling, the `text/template` output and its floating-point UV division. Only the integer bounds behind the UV values are stated.
- Command-line handling, profiling and `main`, including its rejection of widths or heights of 1 or less.
- The goroutine and buffered channel in `PackImages`: they are a sequential producer, modelled as the candidate sequence.
- `PixelArea` and `ManhattenSize`: nothing in the core calls them.
- PackTree.Insert: requires a non-negative size besides the source's two panics. Every caller passes a trimmed size plus (1, 1). With a negative size, `image.Rect` re-orders the child's corners and the source's recursion never ends.
- The progress message `fmt.Printf("%d images left...")` in `PackImages` (mk_atlas.go:203): it is output only.
- Go's fixed-width `int` coordinates: sums such as `n.Rect.Min.X+size.X` (mk_atlas.go:181) would wrap near 2^63. The model's integers are unbounded, so it assumes atlas and sprite sizes far below that.
- Trim.TrimImage: requires well-formed bounds. `image.NewRGBA` only builds images with well-formed bounds.
- Packer.PackImages: requires well-formed trimmed bounds. The trimmed bounds come from `SubImage` (mk_atlas.go:65), and `Trim.TrimImage` ensures they are the zero rectangle or a non-empty rectangle inside the source, so they are always well-formed.
- Strings are sequences of Unicode scalar values (`char`), so "length" in `Names` means the rune count, not Go's byte `len`. Invalid UTF-8, which Go's range loop reads as U+FFFD, cannot be represented.
- Trim.ImageMaxAlpha: returns an unbounded natural instead of a `uint32`. It never exceeds 255, so nothing wraps.
