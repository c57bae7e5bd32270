/** The greedy packer: each round scans every remaining sprite against every
    free leaf, commits the single lowest-scoring placement, and repeats until
    all sprites are placed or a round finds nothing. */
module Packer {
  import opened Wrappers
  import opened Geometry
  import opened PackTree

  /** A sprite: its source path, the bounds of the decoded image, the bounds of
      the trimmed image (in the decoded image's coordinates), and the atlas
      position recorded by the packer. The trimmed pixels themselves are not
      part of the model. */
  datatype AtlasImage = AtlasImage(path: string, orgBounds: Rect, trimmed: Rect, atlasPos: Point)

  /** The size a sprite is fitted with: its trimmed size plus one pixel of padding on each axis. */
  function PaddedSize(img: AtlasImage): Point {
    img.trimmed.Size().Add(Point(1, 1))
  }

  /** The atlas area a placed sprite reserves: its padded size at its atlas position. */
  function Padded(img: AtlasImage): Rect {
    Rect(img.atlasPos, img.atlasPos.Add(PaddedSize(img)))
  }

  /** The area available to sprites: `Rect(1, 1, W, H)`. */
  function Root(atlasSize: Point): Rect {
    MakeRect(1, 1, atlasSize.x, atlasSize.y)
  }

  /** Two sprites that differ at most in their atlas position. */
  predicate SameSprite(a: AtlasImage, b: AtlasImage) {
    a.path == b.path && a.orgBounds == b.orgBounds && a.trimmed == b.trimmed
  }

  /** The candidate lists of the remaining sprites in a round, one per sprite. */
  function Rows(tree: Node, sizes: seq<Point>): seq<seq<Candidate>> {
    seq(|sizes|, i requires 0 <= i < |sizes| => FindInsertCandidates(tree, sizes[i]))
  }

  /** The winner of a round: an index into the remaining sprites and one of its candidates. */
  datatype Pick = Pick(image: nat, cand: Candidate)

  /** Candidate `j` of sprite `k` comes before position (i, j0) of the scan
      over the candidate lists `rows`. */
  ghost predicate ScannedBefore(rows: seq<seq<Candidate>>, k: int, j: int, i: int, j0: int) {
    && 0 <= k < |rows| && 0 <= j < |rows[k]|
    && (k < i || (k == i && j < j0))
  }

  /** The scan state before position (i, j0): `best` is empty exactly when nothing
      was scanned; otherwise it is a scanned candidate whose score no scanned
      candidate beats and every candidate scanned before it exceeds. */
  ghost predicate Leading(rows: seq<seq<Candidate>>, best: Option<Pick>, at: nat, i: int, j0: int) {
    && (best.None? <==> forall k, j :: !ScannedBefore(rows, k, j, i, j0))
    && (best.Some? ==>
          && ScannedBefore(rows, best.value.image, at, i, j0)
          && rows[best.value.image][at] == best.value.cand
          && (forall k, j :: ScannedBefore(rows, k, j, i, j0) ==>
                best.value.cand.score <= rows[k][j].score)
          && (forall k, j :: ScannedBefore(rows, k, j, best.value.image, at) ==>
                best.value.cand.score < rows[k][j].score))
  }

  /** Advancing the scan by one candidate adds exactly that candidate. */
  lemma ScanStep(rows: seq<seq<Candidate>>, i: int, j: int)
    requires 0 <= i < |rows| && 0 <= j < |rows[i]|
    ensures ScannedBefore(rows, i, j, i, j + 1)
    ensures forall k, j' :: ScannedBefore(rows, k, j', i, j + 1) <==>
                            ScannedBefore(rows, k, j', i, j) || (k == i && j' == j)
  {
  }

  /** A scanned candidate takes the lead when nothing was found yet or it
      scores strictly lower than the leader. */
  lemma ScanTake(rows: seq<seq<Candidate>>, best: Option<Pick>, at: nat, i: int, j: int)
    requires 0 <= i < |rows| && 0 <= j < |rows[i]|
    requires Leading(rows, best, at, i, j)
    requires best.None? || rows[i][j].score < best.value.cand.score
    ensures Leading(rows, Some(Pick(i, rows[i][j])), j, i, j + 1)
  {
    var c := rows[i][j];
    var next := j + 1;
    ScanStep(rows, i, j);
    forall k, j' | ScannedBefore(rows, k, j', i, next)
      ensures c.score <= rows[k][j'].score
    {
      if best.None? {
        assert !ScannedBefore(rows, k, j', i, j);
      } else if ScannedBefore(rows, k, j', i, j) {
        assert best.value.cand.score <= rows[k][j'].score;
      }
    }
    forall k, j' | ScannedBefore(rows, k, j', i, j)
      ensures c.score < rows[k][j'].score
    {
      assert best.value.cand.score <= rows[k][j'].score;
    }
  }

  /** Otherwise the leader stays: the new candidate scores at least as much. */
  lemma ScanKeep(rows: seq<seq<Candidate>>, best: Option<Pick>, at: nat, i: int, j: int)
    requires 0 <= i < |rows| && 0 <= j < |rows[i]|
    requires Leading(rows, best, at, i, j)
    requires best.Some? && rows[i][j].score >= best.value.cand.score
    ensures Leading(rows, best, at, i, j + 1)
  {
    ScanStep(rows, i, j);
  }

  /** Finishing a sprite's list is starting the next sprite's. */
  lemma ScanNextRow(rows: seq<seq<Candidate>>, best: Option<Pick>, at: nat, i: int)
    requires 0 <= i < |rows|
    requires Leading(rows, best, at, i, |rows[i]|)
    ensures Leading(rows, best, at, i + 1, 0)
  {
    var next := i + 1;
    assert forall k, j :: ScannedBefore(rows, k, j, next, 0) <==> ScannedBefore(rows, k, j, i, |rows[i]|);
    if best.None? {
      forall k, j
        ensures !ScannedBefore(rows, k, j, next, 0)
      {
        assert !ScannedBefore(rows, k, j, i, |rows[i]|);
      }
    }
  }

  /** A scan that has passed every sprite has found the round's winner. */
  lemma ScanComplete(rows: seq<seq<Candidate>>, best: Option<Pick>, at: nat)
    requires Leading(rows, best, at, |rows|, 0)
    ensures best.None? <==> forall i :: 0 <= i < |rows| ==> rows[i] == []
    ensures best.Some? ==>
              && best.value.image < |rows|
              && at < |rows[best.value.image]|
              && rows[best.value.image][at] == best.value.cand
    ensures best.Some? ==>
              forall i, j :: 0 <= i < |rows| && 0 <= j < |rows[i]| ==> best.value.cand.score <= rows[i][j].score
    ensures best.Some? ==>
              forall i, j :: 0 <= i < |rows| && 0 <= j < |rows[i]|
                             && (i < best.value.image || (i == best.value.image && j < at)) ==>
                best.value.cand.score < rows[i][j].score
  {
    var n := |rows|;
    assert forall k, j :: 0 <= k < |rows| && 0 <= j < |rows[k]| ==> ScannedBefore(rows, k, j, n, 0);
    if best.None? {
      forall k | 0 <= k < |rows|
        ensures rows[k] == []
      {
        assert !ScannedBefore(rows, k, 0, n, 0);
      }
    }
  }

  /** The inner loop of a round: scanning the candidate list of sprite `i`. */
  method ScanSprite(ghost rows: seq<seq<Candidate>>, i: nat, cands: seq<Candidate>, best0: Option<Pick>, ghost at0: nat)
    returns (best: Option<Pick>, ghost at: nat)
    requires i < |rows| && cands == rows[i]
    requires Leading(rows, best0, at0, i, 0)
    ensures Leading(rows, best, at, i + 1, 0)
    ensures best.None? <==> best0.None? && cands == []
    ensures best.Some? && best != best0 ==> best.value.image == i && best.value.cand in cands
  {
    best, at := best0, at0;
    var j := 0;
    while j < |cands|
      invariant 0 <= j <= |cands|
      invariant Leading(rows, best, at, i, j)
      invariant best.None? <==> best0.None? && j == 0
      invariant best.Some? && best != best0 ==> best.value.image == i && best.value.cand in cands
    {
      if best.None? || cands[j].score < best.value.cand.score {
        ScanTake(rows, best, at, i, j);
        best := Some(Pick(i, cands[j]));
        at := j;
      } else {
        ScanKeep(rows, best, at, i, j);
      }
      j := j + 1;
    }
    ScanNextRow(rows, best, at, i);
  }

  /** One round's scan: for each remaining sprite in order, every candidate in
      the order the tree yields them; a candidate replaces the best so far only
      when nothing was found yet or its score is strictly lower. So the winner
      has the lowest score of the round, and among equal scores the one met
      first. `at` is the winner's position in its sprite's candidate list. */
  method PickBest(tree: Node, sizes: seq<Point>) returns (best: Option<Pick>, ghost at: nat)
    ensures best.None? <==> forall i :: 0 <= i < |sizes| ==> Rows(tree, sizes)[i] == []
    ensures best.Some? ==>
              && best.value.image < |sizes|
              && at < |Rows(tree, sizes)[best.value.image]|
              && Rows(tree, sizes)[best.value.image][at] == best.value.cand
    ensures best.Some? ==>
              forall i, j :: 0 <= i < |sizes| && 0 <= j < |Rows(tree, sizes)[i]| ==>
                best.value.cand.score <= Rows(tree, sizes)[i][j].score
    ensures best.Some? ==>
              forall i, j :: 0 <= i < |sizes| && 0 <= j < |Rows(tree, sizes)[i]|
                             && (i < best.value.image || (i == best.value.image && j < at)) ==>
                best.value.cand.score < Rows(tree, sizes)[i][j].score
  {
    ghost var rows := Rows(tree, sizes);
    best := None;
    at := 0;
    var i := 0;
    while i < |sizes|
      invariant 0 <= i <= |sizes|
      invariant Leading(rows, best, at, i, 0)
    {
      var cands := FindInsertCandidates(tree, sizes[i]);
      assert cands == rows[i];
      best, at := ScanSprite(rows, i, cands, best, at);
      i := i + 1;
    }
    ScanComplete(rows, best, at);
  }

  /** Removal of entry `i` by moving the last entry into its slot, as the
      source does with its slice of remaining sprites. */
  function SwapRemove(s: seq<int>, i: int): (r: seq<int>)
    requires 0 <= i < |s|
    ensures |r| == |s| - 1
    ensures forall j :: 0 <= j < |r| && j != i ==> r[j] == s[j]
    ensures i < |r| ==> r[i] == s[|s| - 1]
    ensures multiset(r) == multiset(s) - multiset{s[i]}
  {
    var last := |s| - 1;
    var r := s[i := s[last]][..last];
    assert multiset(r) == multiset(s) - multiset{s[i]} by {
      assert s == s[..last] + [s[last]];
      if i < last {
        assert r == s[..last][i := s[last]];
      } else {
        assert r == s[..last];
      }
    }
    r
  }

  /** An entry of a sequence without repetitions occurs in it exactly once. */
  lemma DistinctOccursOnce(s: seq<int>, i: int)
    requires 0 <= i < |s|
    requires forall a, b :: 0 <= a < b < |s| ==> s[a] != s[b]
    ensures multiset(s)[s[i]] == 1
  {
    var x := s[i];
    var k := 0;
    while k < |s|
      invariant 0 <= k <= |s|
      invariant multiset(s[..k])[x] == if k > i then 1 else 0
    {
      assert s[..k + 1] == s[..k] + [s[k]];
      k := k + 1;
    }
    assert s[..|s|] == s;
  }

  /** With distinct entries, swap-removal keeps them distinct and drops exactly entry `i`. */
  lemma SwapRemoveDistinct(s: seq<int>, i: int)
    requires 0 <= i < |s|
    requires forall a, b :: 0 <= a < b < |s| ==> s[a] != s[b]
    ensures forall a, b :: 0 <= a < b < |SwapRemove(s, i)| ==> SwapRemove(s, i)[a] != SwapRemove(s, i)[b]
    ensures forall x :: x in SwapRemove(s, i) <==> x in s && x != s[i]
  {
    var r := SwapRemove(s, i);
    DistinctOccursOnce(s, i);
    forall x
      ensures x in r <==> x in s && x != s[i]
    {
      assert x in r <==> x in multiset(r);
      assert x in s <==> x in multiset(s);
    }
  }

  /** What holds between rounds: the tree is well-formed over the root; the
      remaining entries are distinct sprite indices; sprites keep everything but
      their position; remaining sprites are untouched; and every placed sprite's
      padded rectangle lies in the root, clear of the other placed sprites and of
      every free leaf. */
  ghost predicate PackInvariant(images: seq<AtlasImage>, atlas: seq<AtlasImage>, remaining: seq<int>, tree: Node, root: Rect)
  {
    && |atlas| == |images|
    && WellFormedTree(tree) && tree.rect == root
    && (forall k :: 0 <= k < |remaining| ==> 0 <= remaining[k] < |images|)
    && (forall a, b :: 0 <= a < b < |remaining| ==> remaining[a] != remaining[b])
    && (forall i :: 0 <= i < |atlas| ==> SameSprite(atlas[i], images[i]))
    && (forall i :: 0 <= i < |atlas| && i in remaining ==> atlas[i] == images[i])
    && (forall i :: 0 <= i < |atlas| && i !in remaining ==> Padded(atlas[i]).Inside(root))
    && (forall i, j :: 0 <= i < |atlas| && 0 <= j < |atlas| && i != j && i !in remaining && j !in remaining ==>
          Disjoint(Padded(atlas[i]), Padded(atlas[j])))
    && (forall i, q :: 0 <= i < |atlas| && i !in remaining && IsFreeLeaf(tree, q) ==>
          Disjoint(Padded(atlas[i]), At(tree, q).rect))
  }

  /** The sprite table after committing remaining sprite `b` into the free leaf
      at `path`: its position becomes the handed-out rectangle's corner. */
  function CommitAtlas(atlas: seq<AtlasImage>, remaining: seq<int>, tree: Node, b: int, path: Path, size: Point): seq<AtlasImage>
    requires 0 <= b < |remaining| && 0 <= remaining[b] < |atlas|
    requires 0 <= size.x && 0 <= size.y
    requires IsFreeLeaf(tree, path) && Fits(size, At(tree, path).rect)
  {
    atlas[remaining[b] := atlas[remaining[b]].(atlasPos := InsertAt(tree, path, size).rect.min)]
  }

  /** What a commit needs: the invariant holds, `b` names a remaining sprite,
      `size` is its padded size, and `path` is a free leaf that holds it. */
  ghost predicate CommitReady(images: seq<AtlasImage>, atlas: seq<AtlasImage>, remaining: seq<int>,
                              tree: Node, root: Rect, b: int, path: Path, size: Point)
  {
    && PackInvariant(images, atlas, remaining, tree, root)
    && 0 <= b < |remaining| && size == PaddedSize(atlas[remaining[b]])
    && 0 <= size.x && 0 <= size.y
    && IsFreeLeaf(tree, path) && Fits(size, At(tree, path).rect)
  }

  /** After a commit every placed sprite's padded rectangle lies in the root. */
  lemma CommitPlacedInside(images: seq<AtlasImage>, atlas: seq<AtlasImage>, remaining: seq<int>,
                           tree: Node, root: Rect, b: int, path: Path, size: Point)
    requires CommitReady(images, atlas, remaining, tree, root, b, path, size)
    ensures var atlas' := CommitAtlas(atlas, remaining, tree, b, path, size);
            forall i :: 0 <= i < |atlas'| && i !in SwapRemove(remaining, b) ==> Padded(atlas'[i]).Inside(root)
  {
    var atlas' := CommitAtlas(atlas, remaining, tree, b, path, size);
    var c := InsertAt(tree, path, size);
    SwapRemoveDistinct(remaining, b);
    SubtreeInside(tree, path);
    assert Padded(atlas'[remaining[b]]) == c.rect;
  }

  /** The newly placed rectangle is clear of every sprite placed before: those
      are clear of the free leaf it was cut from. */
  lemma CommitClearOfPlaced(images: seq<AtlasImage>, atlas: seq<AtlasImage>, remaining: seq<int>,
                            tree: Node, root: Rect, b: int, path: Path, size: Point)
    requires CommitReady(images, atlas, remaining, tree, root, b, path, size)
    ensures forall i :: 0 <= i < |atlas| && i !in remaining ==>
              Disjoint(Padded(atlas[i]), InsertAt(tree, path, size).rect)
  {
    var c := InsertAt(tree, path, size);
    var leaf := At(tree, path).rect;
    forall i | 0 <= i < |atlas| && i !in remaining
      ensures Disjoint(Padded(atlas[i]), c.rect)
    {
      DisjointWithin(Padded(atlas[i]), c.rect, Padded(atlas[i]), leaf);
    }
  }

  /** After a commit no two placed sprites' padded rectangles overlap. */
  lemma CommitPlacedDisjoint(images: seq<AtlasImage>, atlas: seq<AtlasImage>, remaining: seq<int>,
                             tree: Node, root: Rect, b: int, path: Path, size: Point)
    requires CommitReady(images, atlas, remaining, tree, root, b, path, size)
    ensures var atlas' := CommitAtlas(atlas, remaining, tree, b, path, size);
            var remaining' := SwapRemove(remaining, b);
            forall i, j :: 0 <= i < |atlas'| && 0 <= j < |atlas'| && i != j && i !in remaining' && j !in remaining' ==>
              Disjoint(Padded(atlas'[i]), Padded(atlas'[j]))
  {
    var atlas' := CommitAtlas(atlas, remaining, tree, b, path, size);
    SwapRemoveDistinct(remaining, b);
    CommitClearOfPlaced(images, atlas, remaining, tree, root, b, path, size);
    assert Padded(atlas'[remaining[b]]) == InsertAt(tree, path, size).rect;
  }

  /** After a commit every placed sprite is clear of every free leaf. */
  lemma CommitClearOfFreeLeaves(images: seq<AtlasImage>, atlas: seq<AtlasImage>, remaining: seq<int>,
                                tree: Node, root: Rect, b: int, path: Path, size: Point)
    requires CommitReady(images, atlas, remaining, tree, root, b, path, size)
    ensures var atlas' := CommitAtlas(atlas, remaining, tree, b, path, size);
            var c := InsertAt(tree, path, size);
            forall i, q :: 0 <= i < |atlas'| && i !in SwapRemove(remaining, b) && IsFreeLeaf(c.node, q) ==>
              Disjoint(Padded(atlas'[i]), At(c.node, q).rect)
  {
    var k := remaining[b];
    var c := InsertAt(tree, path, size);
    var leaf := At(tree, path).rect;
    var atlas' := CommitAtlas(atlas, remaining, tree, b, path, size);
    var remaining' := SwapRemove(remaining, b);
    SwapRemoveDistinct(remaining, b);
    InsertAtShape(tree, path, size);
    assert Padded(atlas'[k]) == c.rect;
    forall i, q | 0 <= i < |atlas'| && i !in remaining' && IsFreeLeaf(c.node, q)
      ensures Disjoint(Padded(atlas'[i]), At(c.node, q).rect)
    {
      var f := At(c.node, q).rect;
      if f.Inside(leaf) && Disjoint(f, c.rect) {
        if i != k {
          DisjointWithin(Padded(atlas[i]), f, Padded(atlas[i]), leaf);
        }
      } else {
        assert IsFreeLeaf(tree, q) && q != path && f == At(tree, q).rect;
        if i == k {
          DistinctLeavesDisjoint(tree, path, q);
          DisjointWithin(c.rect, f, leaf, f);
        }
      }
    }
  }

  /** Committing a sprite into one of its candidate leaves and recording the
      handed-out corner as its position keeps the invariant. */
  lemma CommitKeepsInvariant(images: seq<AtlasImage>, atlas: seq<AtlasImage>, remaining: seq<int>,
                             tree: Node, root: Rect, b: int, path: Path, size: Point)
    requires PackInvariant(images, atlas, remaining, tree, root)
    requires 0 <= b < |remaining| && size == PaddedSize(atlas[remaining[b]])
    requires 0 <= size.x && 0 <= size.y
    requires IsFreeLeaf(tree, path) && Fits(size, At(tree, path).rect)
    ensures PackInvariant(images,
                          atlas[remaining[b] := atlas[remaining[b]].(atlasPos := InsertAt(tree, path, size).rect.min)],
                          SwapRemove(remaining, b), InsertAt(tree, path, size).node, root)
  {
    assert CommitReady(images, atlas, remaining, tree, root, b, path, size);
    SwapRemoveDistinct(remaining, b);
    InsertAtShape(tree, path, size);
    CommitPlacedInside(images, atlas, remaining, tree, root, b, path, size);
    CommitPlacedDisjoint(images, atlas, remaining, tree, root, b, path, size);
    CommitClearOfFreeLeaves(images, atlas, remaining, tree, root, b, path, size);
    assert CommitAtlas(atlas, remaining, tree, b, path, size)
        == atlas[remaining[b] := atlas[remaining[b]].(atlasPos := InsertAt(tree, path, size).rect.min)];
  }

  /** The free area of the tree is exactly the root minus the padded rectangles
      of the sprites placed so far: packing throws no space away. */
  ghost predicate FreeAreaExact(atlas: seq<AtlasImage>, remaining: seq<int>, tree: Node, root: Rect) {
    forall pt :: FreeAt(tree, pt) <==>
                   root.Contains(pt) && forall i :: 0 <= i < |atlas| && i !in remaining ==> !Padded(atlas[i]).Contains(pt)
  }

  /** A commit keeps the free area exact: it frees nothing and uses up only the
      padded rectangle of the sprite it places. */
  lemma CommitKeepsFreeArea(images: seq<AtlasImage>, atlas: seq<AtlasImage>, remaining: seq<int>,
                            tree: Node, root: Rect, b: int, path: Path, size: Point)
    requires CommitReady(images, atlas, remaining, tree, root, b, path, size)
    requires FreeAreaExact(atlas, remaining, tree, root)
    ensures FreeAreaExact(CommitAtlas(atlas, remaining, tree, b, path, size), SwapRemove(remaining, b),
                          InsertAt(tree, path, size).node, root)
  {
    var k := remaining[b];
    var c := InsertAt(tree, path, size);
    var atlas' := CommitAtlas(atlas, remaining, tree, b, path, size);
    var remaining' := SwapRemove(remaining, b);
    SwapRemoveDistinct(remaining, b);
    assert Padded(atlas'[k]) == c.rect;
    forall pt
      ensures FreeAt(c.node, pt) <==>
                root.Contains(pt) && forall i :: 0 <= i < |atlas'| && i !in remaining' ==> !Padded(atlas'[i]).Contains(pt)
    {
      CommitFreeArea(tree, path, size, pt);
      assert (forall i :: 0 <= i < |atlas'| && i !in remaining' ==> !Padded(atlas'[i]).Contains(pt)) <==>
             (forall i :: 0 <= i < |atlas| && i !in remaining ==> !Padded(atlas[i]).Contains(pt)) && !c.rect.Contains(pt);
    }
  }

  /** All sprites lie inside the root and no two padded rectangles overlap. */
  ghost predicate Packed(atlas: seq<AtlasImage>, root: Rect) {
    && (forall i :: 0 <= i < |atlas| ==> Padded(atlas[i]).Inside(root))
    && (forall i, j :: 0 <= i < |atlas| && 0 <= j < |atlas| && i != j ==> Disjoint(Padded(atlas[i]), Padded(atlas[j])))
  }

  /** `Atlas.PackImages`. Starting from the single free leaf `Rect(1, 1, W, H)`,
      each round commits the round's best placement, records the placed
      rectangle's corner as the sprite's position and swap-removes the sprite;
      a round without any candidate ends with "Failed to fit all images".
      `tree` and `unplaced` expose the final tree and the remaining sprites. */
  method PackImages(images: seq<AtlasImage>, atlasSize: Point)
    returns (atlas: seq<AtlasImage>, err: Outcome<string>, rounds: nat, ghost tree: Node, ghost unplaced: seq<int>)
    requires forall i :: 0 <= i < |images| ==> images[i].trimmed.WellFormed()
    ensures |atlas| == |images| && rounds <= |images|
    ensures forall i :: 0 <= i < |images| ==> SameSprite(atlas[i], images[i])
    ensures err.Pass? ==> rounds == |images| && Packed(atlas, Root(atlasSize))
    ensures err.Fail? ==> err.error == "Failed to fit all images"
    ensures err.Fail? ==>
              && |unplaced| > 0 && rounds + |unplaced| == |images|
              && WellFormedTree(tree) && tree.rect == Root(atlasSize)
              && FreeAreaExact(atlas, unplaced, tree, Root(atlasSize))
              && forall k :: k in unplaced ==>
                   0 <= k < |images| && atlas[k] == images[k] && FindInsertCandidates(tree, PaddedSize(images[k])) == []
  {
    var root := Root(atlasSize);
    var t := Leaf(root, false);
    atlas := images;
    var remaining := seq(|images|, k => k);
    forall i | 0 <= i < |images|
      ensures i in remaining
    {
      assert remaining[i] == i;
    }
    forall pt
      ensures FreeAt(t, pt) <==> root.Contains(pt)
    {
      var q: Path := [];
      assert IsFreeLeaf(t, q) && At(t, q) == t;
    }
    rounds := 0;
    while |remaining| > 0
      invariant PackInvariant(images, atlas, remaining, t, root)
      invariant FreeAreaExact(atlas, remaining, t, root)
      invariant rounds + |remaining| == |images|
      decreases |remaining|
    {
      var sizes := seq(|remaining|, k requires 0 <= k < |remaining| => PaddedSize(atlas[remaining[k]]));
      var best, at := PickBest(t, sizes);
      if best.None? {
        err := Fail("Failed to fit all images");
        tree := t;
        unplaced := remaining;
        forall k | k in unplaced
          ensures 0 <= k < |images| && atlas[k] == images[k] && FindInsertCandidates(tree, PaddedSize(images[k])) == []
        {
          var b :| 0 <= b < |remaining| && remaining[b] == k;
          assert Rows(t, sizes)[b] == [];
        }
        return;
      }
      var b := best.value.image;
      var cand := best.value.cand;
      var k := remaining[b];
      assert cand in Rows(t, sizes)[b];
      CommitKeepsInvariant(images, atlas, remaining, t, root, b, cand.path, sizes[b]);
      CommitKeepsFreeArea(images, atlas, remaining, t, root, b, cand.path, sizes[b]);
      var placed := InsertAt(t, cand.path, sizes[b]);
      atlas := atlas[k := atlas[k].(atlasPos := placed.rect.min)];
      t := placed.node;
      remaining := SwapRemove(remaining, b);
      rounds := rounds + 1;
    }
    err := Pass;
    tree := t;
    unplaced := [];
  }

  /** On a 4x4 atlas the free area is `Rect(1, 1, 4, 4)`, 3x3 pixels. The first
      1x1 sprite (2x2 with padding) goes to (1, 1), after which no free leaf
      holds a second 2x2 sprite, so two 1x1 sprites do not fit. */
  lemma TwoSmallSpritesOnFourByFour()
    ensures var t := Leaf(Root(Point(4, 4)), false);
            && IsFreeLeaf(t, []) && Fits(Point(2, 2), t.rect)
            && InsertAt(t, [], Point(2, 2)).rect == Rect(Point(1, 1), Point(3, 3))
            && FindInsertCandidates(InsertAt(t, [], Point(2, 2)).node, Point(2, 2)) == []
  {
    var t := Leaf(Root(Point(4, 4)), false);
    assert t.rect == Rect(Point(1, 1), Point(4, 4));
    var c := InsertAt(t, [], Point(2, 2));
    var cut := Split(Rect(Point(1, 1), Point(4, 4)), true,
                     Split(Rect(Point(1, 1), Point(3, 4)), true,
                           Leaf(Rect(Point(1, 1), Point(3, 3)), true),
                           Leaf(Rect(Point(1, 3), Point(3, 4)), false)),
                     Leaf(Rect(Point(3, 1), Point(4, 4)), false));
    assert c.node == cut;
  }
}
