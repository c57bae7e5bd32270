/** The guillotine packing tree: a binary tree of rectangles whose leaves are
    the free or occupied regions of the atlas. Go's node pointers become paths
    from the root. */
module PackTree {
  import opened Geometry

  /** One step down the tree. */
  datatype Dir = ToLeft | ToRight

  /** A node's address: the steps from the root to it. */
  type Path = seq<Dir>

  /** A tree node. `Insert` sets `used` on every node it touches, so a split node
      carries `used == true` as well as the leaf that a sprite fills. */
  datatype Node =
    | Leaf(rect: Rect, used: bool)
    | Split(rect: Rect, used: bool, left: Node, right: Node)

  /** A place where a sprite fits and the slack it would leave. */
  datatype Candidate = Candidate(path: Path, score: int)

  /** The result of an insertion: the rebuilt node and the rectangle handed out. */
  datatype Committed = Committed(node: Node, rect: Rect)

  /** `size` is no larger than `r` on either axis. */
  predicate Fits(size: Point, r: Rect) {
    size.x <= r.Dx() && size.y <= r.Dy()
  }

  /** The slack on the tighter axis when `size` is placed in `r`. */
  function Score(r: Rect, size: Point): (s: int)
    ensures s <= r.Dx() - size.x && s <= r.Dy() - size.y
    ensures s == r.Dx() - size.x || s == r.Dy() - size.y
  {
    var ds := r.Size().Sub(size);
    if ds.x >= ds.y then ds.y else ds.x
  }

  function Child(t: Node, d: Dir): Node
    requires t.Split?
  {
    if d == ToLeft then t.left else t.right
  }

  predicate ValidPath(t: Node, p: Path)
    decreases p
  {
    |p| == 0 || (t.Split? && ValidPath(Child(t, p[0]), p[1..]))
  }

  function At(t: Node, p: Path): Node
    requires ValidPath(t, p)
    decreases p
  {
    if |p| == 0 then t else At(Child(t, p[0]), p[1..])
  }

  /** The node at `p` is an unused leaf. */
  predicate IsFreeLeaf(t: Node, p: Path) {
    ValidPath(t, p) && At(t, p).Leaf? && !At(t, p).used
  }

  /** `t` with the node at `p` replaced by `n`; the Dafny form of assigning
      through a node pointer. */
  function Replace(t: Node, p: Path, n: Node): (r: Node)
    requires ValidPath(t, p)
    ensures ValidPath(r, p) && At(r, p) == n
    ensures |p| > 0 ==> r.rect == t.rect && r.Split? && r.used == t.used
    decreases p
  {
    if |p| == 0 then n
    else if p[0] == ToLeft then t.(left := Replace(t.left, p[1..], n))
    else t.(right := Replace(t.right, p[1..], n))
  }

  /** A vertical guillotine cut of `parent` into a left part and a right part. */
  predicate VerticalCut(parent: Rect, l: Rect, r: Rect) {
    && parent.WellFormed()
    && parent.min.x <= l.max.x <= parent.max.x
    && l == Rect(parent.min, Point(l.max.x, parent.max.y))
    && r == Rect(Point(l.max.x, parent.min.y), parent.max)
  }

  /** A horizontal guillotine cut of `parent` into a top part and a bottom part. */
  predicate HorizontalCut(parent: Rect, l: Rect, r: Rect) {
    && parent.WellFormed()
    && parent.min.y <= l.max.y <= parent.max.y
    && l == Rect(parent.min, Point(parent.max.x, l.max.y))
    && r == Rect(Point(parent.min.x, l.max.y), parent.max)
  }

  predicate GuillotineCut(parent: Rect, l: Rect, r: Rect) {
    VerticalCut(parent, l, r) || HorizontalCut(parent, l, r)
  }

  /** A guillotine cut partitions the parent: both parts lie inside it, they
      share no point, and every point of the parent lies in one of them. */
  lemma CutPartitions(parent: Rect, l: Rect, r: Rect)
    requires GuillotineCut(parent, l, r)
    ensures l.Inside(parent) && r.Inside(parent) && l.WellFormed() && r.WellFormed()
    ensures Disjoint(l, r)
    ensures forall p :: parent.Contains(p) <==> l.Contains(p) || r.Contains(p)
  {
  }

  /** The tree invariant: every rectangle is well-formed, and every split node
      is marked used and is cut by a guillotine cut into its two children. */
  predicate WellFormedTree(t: Node) {
    && t.rect.WellFormed()
    && match t
       case Leaf(_, _) => true
       case Split(rect, used, l, r) =>
         used && GuillotineCut(rect, l.rect, r.rect) && WellFormedTree(l) && WellFormedTree(r)
  }

  /** Every node of a well-formed tree is itself well-formed and lies inside the root. */
  lemma {:induction false} SubtreeInside(t: Node, p: Path)
    requires WellFormedTree(t) && ValidPath(t, p)
    ensures WellFormedTree(At(t, p)) && At(t, p).rect.Inside(t.rect)
    decreases p
  {
    if |p| > 0 {
      var c := Child(t, p[0]);
      CutPartitions(t.rect, t.left.rect, t.right.rect);
      SubtreeInside(c, p[1..]);
    }
  }

  /** Two different leaves of a well-formed tree never overlap. */
  lemma {:induction false} DistinctLeavesDisjoint(t: Node, p: Path, q: Path)
    requires WellFormedTree(t) && ValidPath(t, p) && ValidPath(t, q)
    requires At(t, p).Leaf? && At(t, q).Leaf? && p != q
    ensures Disjoint(At(t, p).rect, At(t, q).rect)
    decreases p
  {
    assert |p| > 0 && |q| > 0;
    CutPartitions(t.rect, t.left.rect, t.right.rect);
    if p[0] == q[0] {
      assert p == [p[0]] + p[1..] && q == [q[0]] + q[1..];
      DistinctLeavesDisjoint(Child(t, p[0]), p[1..], q[1..]);
    } else {
      SubtreeInside(Child(t, p[0]), p[1..]);
      SubtreeInside(Child(t, q[0]), q[1..]);
      DisjointWithin(At(t, p).rect, At(t, q).rect, Child(t, p[0]).rect, Child(t, q[0]).rect);
    }
  }

  /** The free leaves of a well-formed tree are pairwise disjoint and lie inside the root. */
  lemma FreeLeavesDisjointInsideRoot(t: Node)
    requires WellFormedTree(t)
    ensures forall p :: IsFreeLeaf(t, p) ==> At(t, p).rect.Inside(t.rect)
    ensures forall p, q :: IsFreeLeaf(t, p) && IsFreeLeaf(t, q) && p != q ==>
                            Disjoint(At(t, p).rect, At(t, q).rect)
  {
    forall p | IsFreeLeaf(t, p)
      ensures At(t, p).rect.Inside(t.rect)
    {
      SubtreeInside(t, p);
    }
    forall p, q | IsFreeLeaf(t, p) && IsFreeLeaf(t, q) && p != q
      ensures Disjoint(At(t, p).rect, At(t, q).rect)
    {
      DistinctLeavesDisjoint(t, p, q);
    }
  }

  /** The leaves of a well-formed tree cover its rectangle exactly: a point lies
      in the root exactly when it lies in some leaf. */
  lemma {:induction false} LeavesCoverRoot(t: Node, pt: Point)
    requires WellFormedTree(t)
    ensures t.rect.Contains(pt) <==> exists q :: ValidPath(t, q) && At(t, q).Leaf? && At(t, q).rect.Contains(pt)
    decreases t
  {
    if t.rect.Contains(pt) {
      if t.Leaf? {
        var q: Path := [];
        assert ValidPath(t, q) && At(t, q) == t;
        assert ValidPath(t, q) && At(t, q).Leaf? && At(t, q).rect.Contains(pt);
      } else {
        CutPartitions(t.rect, t.left.rect, t.right.rect);
        var d := if t.left.rect.Contains(pt) then ToLeft else ToRight;
        LeavesCoverRoot(Child(t, d), pt);
        var q' :| ValidPath(Child(t, d), q') && At(Child(t, d), q').Leaf? && At(Child(t, d), q').rect.Contains(pt);
        AtUnder(t, d, q');
        assert ValidPath(t, [d] + q') && At(t, [d] + q').Leaf? && At(t, [d] + q').rect.Contains(pt);
      }
    } else {
      forall q | ValidPath(t, q) && At(t, q).Leaf?
        ensures !At(t, q).rect.Contains(pt)
      {
        SubtreeInside(t, q);
      }
    }
  }

  /** Every candidate of a candidate list, moved one level down under `d`. */
  function Under(d: Dir, cs: seq<Candidate>): (out: seq<Candidate>)
    ensures |out| == |cs|
    ensures forall i :: 0 <= i < |cs| ==> out[i] == Candidate([d] + cs[i].path, cs[i].score)
  {
    seq(|cs|, i requires 0 <= i < |cs| => Candidate([d] + cs[i].path, cs[i].score))
  }

  lemma AtUnder(t: Node, d: Dir, p: Path)
    requires t.Split?
    ensures ValidPath(t, [d] + p) <==> ValidPath(Child(t, d), p)
    ensures ValidPath(t, [d] + p) ==> At(t, [d] + p) == At(Child(t, d), p)
  {
    assert ([d] + p)[0] == d && ([d] + p)[1..] == p;
  }

  /** `c` names an unused leaf of `n` that holds `size`, with that leaf's score. */
  predicate IsCandidate(n: Node, size: Point, c: Candidate) {
    IsFreeLeaf(n, c.path) && Fits(size, At(n, c.path).rect) && c.score == Score(At(n, c.path).rect, size)
  }

  lemma UnderKeepsCandidates(n: Node, d: Dir, cs: seq<Candidate>, size: Point)
    requires n.Split?
    requires forall c :: c in cs ==> IsCandidate(Child(n, d), size, c)
    ensures forall c :: c in Under(d, cs) ==> IsCandidate(n, size, c)
  {
    forall c | c in Under(d, cs)
      ensures IsCandidate(n, size, c)
    {
      var i :| 0 <= i < |cs| && Under(d, cs)[i] == c;
      assert cs[i] in cs;
      AtUnder(n, d, cs[i].path);
    }
  }

  /** `FindInsertCandidates`: walks the subtree whose rectangle can hold `size`,
      left child before right child, and yields each unused leaf there with its
      score; split nodes are descended into whatever their `used` flag says. */
  function FindInsertCandidates(n: Node, size: Point): (cs: seq<Candidate>)
    ensures forall c :: c in cs ==>
              && IsFreeLeaf(n, c.path) && Fits(size, At(n, c.path).rect)
              && c.score == Score(At(n, c.path).rect, size) && c.score >= 0
  {
    if !Fits(size, n.rect) then []
    else match n
      case Leaf(rect, used) => if used then [] else [Candidate([], Score(rect, size))]
      case Split(_, _, l, r) =>
        var cl := FindInsertCandidates(l, size);
        var cr := FindInsertCandidates(r, size);
        UnderKeepsCandidates(n, ToLeft, cl, size);
        UnderKeepsCandidates(n, ToRight, cr, size);
        Under(ToLeft, cl) + Under(ToRight, cr)
  }

  /** The paths of a candidate list. */
  function Paths(cs: seq<Candidate>): (ps: seq<Path>)
    ensures |ps| == |cs| && forall i :: 0 <= i < |cs| ==> ps[i] == cs[i].path
  {
    seq(|cs|, i requires 0 <= i < |cs| => cs[i].path)
  }

  /** Every path of a path list, moved one level down under `d`. */
  function PrefixAll(d: Dir, ps: seq<Path>): (out: seq<Path>)
    ensures |out| == |ps| && forall i :: 0 <= i < |ps| ==> out[i] == [d] + ps[i]
  {
    seq(|ps|, i requires 0 <= i < |ps| => [d] + ps[i])
  }

  lemma PathsUnder(d: Dir, cs: seq<Candidate>)
    ensures Paths(Under(d, cs)) == PrefixAll(d, Paths(cs))
  {
  }

  lemma PathsConcat(a: seq<Candidate>, b: seq<Candidate>)
    ensures Paths(a + b) == Paths(a) + Paths(b)
  {
  }

  /** Reference enumeration without pruning: all unused leaves whose rectangle
      holds `size`, in pre-order with the left subtree first. */
  function FreeFittingLeaves(n: Node, size: Point): (ps: seq<Path>)
    ensures forall p :: p in ps <==> IsFreeLeaf(n, p) && Fits(size, At(n, p).rect)
  {
    match n
    case Leaf(rect, used) => if !used && Fits(size, rect) then [[]] else []
    case Split(_, _, l, r) =>
      var pl := FreeFittingLeaves(l, size);
      var pr := FreeFittingLeaves(r, size);
      var ps := PrefixAll(ToLeft, pl) + PrefixAll(ToRight, pr);
      assert forall p :: p in ps <==> IsFreeLeaf(n, p) && Fits(size, At(n, p).rect) by {
        forall p
          ensures p in ps <==> IsFreeLeaf(n, p) && Fits(size, At(n, p).rect)
        {
          if |p| > 0 {
            AtUnder(n, p[0], p[1..]);
            assert p == [p[0]] + p[1..];
            if p[0] == ToLeft {
              if p[1..] in pl {
                var i :| 0 <= i < |pl| && pl[i] == p[1..];
                assert PrefixAll(ToLeft, pl)[i] == p;
              }
            } else {
              if p[1..] in pr {
                var i :| 0 <= i < |pr| && pr[i] == p[1..];
                assert PrefixAll(ToRight, pr)[i] == p;
              }
            }
          }
          if p in ps {
            var i :| 0 <= i < |ps| && ps[i] == p;
            if i < |pl| {
              AtUnder(n, ToLeft, pl[i]);
            } else {
              AtUnder(n, ToRight, pr[i - |pl|]);
            }
          }
        }
      }
      ps
  }

  /** In a well-formed tree, a node too small for `size` has no free leaf that
      holds it, so pruning such a subtree loses no candidate. */
  lemma TooSmallHasNoFittingLeaf(n: Node, size: Point)
    requires WellFormedTree(n) && !Fits(size, n.rect)
    ensures FreeFittingLeaves(n, size) == []
  {
    var ps := FreeFittingLeaves(n, size);
    if |ps| > 0 {
      assert ps[0] in ps;
      SubtreeInside(n, ps[0]);
    }
  }

  /** On a well-formed tree the candidates are exactly the free leaves that hold
      `size`, in pre-order with the left subtree first. */
  lemma {:induction false} CandidatesAreFreeFittingLeaves(n: Node, size: Point)
    requires WellFormedTree(n)
    ensures Paths(FindInsertCandidates(n, size)) == FreeFittingLeaves(n, size)
  {
    if !Fits(size, n.rect) {
      TooSmallHasNoFittingLeaf(n, size);
    } else if n.Split? {
      CandidatesAreFreeFittingLeaves(n.left, size);
      CandidatesAreFreeFittingLeaves(n.right, size);
      var cl := FindInsertCandidates(n.left, size);
      var cr := FindInsertCandidates(n.right, size);
      assert FindInsertCandidates(n, size) == Under(ToLeft, cl) + Under(ToRight, cr);
      PathsUnder(ToLeft, cl);
      PathsUnder(ToRight, cr);
      PathsConcat(Under(ToLeft, cl), Under(ToRight, cr));
    }
  }

  /** Size of the slack still to remove from the left descendant; it bounds
      `Insert`'s recursion to two levels. */
  function Slack(n: Node, size: Point): nat {
    (if n.rect.Dx() == size.x then 0 else 1) + (if n.rect.Dy() == size.y then 0 else 1)
  }

  /** `node.Insert`: the node must be unused and hold `size` (the source panics
      otherwise). An exact fit marks the node used; otherwise the node is marked
      used, cut along the axis with more slack (vertically on a tie) into a left
      part of the requested extent and the rest, and the left part is filled. */
  function Insert(n: Node, size: Point): (c: Committed)
    requires !n.used && 0 <= size.x && 0 <= size.y && Fits(size, n.rect)
    ensures c.rect.min == n.rect.min && c.rect.Size() == size && c.rect.Inside(n.rect)
    ensures c.node.rect == n.rect && c.node.used
    ensures size == n.rect.Size() ==> c.node == n.(used := true)
    ensures size != n.rect.Size() ==> c.node.Split? && c.node.right.Leaf? && !c.node.right.used
    ensures size != n.rect.Size() && c.node.left.rect.Size() == size ==> c.node.left == Leaf(c.rect, true)
    ensures size != n.rect.Size() && c.node.left.rect.Size() != size ==>
              && c.node.left.Split? && c.node.left.left == Leaf(c.rect, true)
              && c.node.left.right.Leaf? && !c.node.left.right.used
    ensures c.node.Split? && size != n.rect.Size() ==>
              GuillotineCut(n.rect, c.node.left.rect, c.node.right.rect)
              && (n.rect.Dx() - size.x >= n.rect.Dy() - size.y ==>
                    VerticalCut(n.rect, c.node.left.rect, c.node.right.rect) && c.node.left.rect.Dx() == size.x)
              && (n.rect.Dx() - size.x < n.rect.Dy() - size.y ==>
                    HorizontalCut(n.rect, c.node.left.rect, c.node.right.rect) && c.node.left.rect.Dy() == size.y)
    decreases Slack(n, size)
  {
    var r := n.rect;
    var ds := r.Size().Sub(size);
    if ds.x == 0 && ds.y == 0 then
      Committed(n.(used := true), r)
    else
      var (l, rt) :=
        if ds.x >= ds.y then
          (Leaf(MakeRect(r.min.x, r.min.y, r.min.x + size.x, r.max.y), false),
           Leaf(MakeRect(r.min.x + size.x, r.min.y, r.max.x, r.max.y), false))
        else
          (Leaf(MakeRect(r.min.x, r.min.y, r.max.x, r.min.y + size.y), false),
           Leaf(MakeRect(r.min.x, r.min.y + size.y, r.max.x, r.max.y), false));
      var inner := Insert(l, size);
      Committed(Split(r, true, inner.node, rt), inner.rect)
  }

  /** Inserting into a free leaf yields a well-formed subtree whose free leaves lie
      inside the old leaf and clear of the rectangle handed out. */
  lemma {:induction false} InsertShape(n: Node, size: Point)
    requires n.Leaf? && !n.used && n.rect.WellFormed() && 0 <= size.x && 0 <= size.y && Fits(size, n.rect)
    ensures WellFormedTree(Insert(n, size).node)
    ensures forall q :: IsFreeLeaf(Insert(n, size).node, q) ==>
              At(Insert(n, size).node, q).rect.Inside(n.rect) && Disjoint(At(Insert(n, size).node, q).rect, Insert(n, size).rect)
    decreases Slack(n, size)
  {
    var c := Insert(n, size);
    if size != n.rect.Size() {
      var l := c.node.left;
      var rt := c.node.right;
      CutPartitions(n.rect, l.rect, rt.rect);
      var lf := Leaf(l.rect, false);
      assert Insert(lf, size).node == l && Insert(lf, size).rect == c.rect;
      InsertShape(lf, size);
      assert rt.Leaf? && !rt.used;
      forall q | IsFreeLeaf(c.node, q)
        ensures At(c.node, q).rect.Inside(n.rect) && Disjoint(At(c.node, q).rect, c.rect)
      {
        AtUnder(c.node, q[0], q[1..]);
        assert q == [q[0]] + q[1..];
        if q[0] == ToLeft {
          assert IsFreeLeaf(l, q[1..]);
        } else {
          assert q[1..] == [];
          DisjointWithin(rt.rect, c.rect, rt.rect, l.rect);
        }
      }
    }
  }

  /** A point is free: some unused leaf of `t` contains it. */
  ghost predicate FreeAt(t: Node, pt: Point) {
    exists q :: IsFreeLeaf(t, q) && At(t, q).rect.Contains(pt)
  }

  /** Inserting into a free leaf uses up only the rectangle it hands out: every
      other point of the leaf stays in a free leaf of the new subtree. */
  lemma {:induction false} InsertCoversLeftover(n: Node, size: Point, pt: Point)
    requires n.Leaf? && !n.used && n.rect.WellFormed() && 0 <= size.x && 0 <= size.y && Fits(size, n.rect)
    requires n.rect.Contains(pt) && !Insert(n, size).rect.Contains(pt)
    ensures FreeAt(Insert(n, size).node, pt)
    decreases Slack(n, size)
  {
    var c := Insert(n, size);
    if size != n.rect.Size() {
      var l := c.node.left;
      var rt := c.node.right;
      CutPartitions(n.rect, l.rect, rt.rect);
      if rt.rect.Contains(pt) {
        AtUnder(c.node, ToRight, []);
        assert [ToRight] + [] == [ToRight];
        assert IsFreeLeaf(c.node, [ToRight]) && At(c.node, [ToRight]).rect.Contains(pt);
      } else {
        var lf := Leaf(l.rect, false);
        assert Insert(lf, size).node == l && Insert(lf, size).rect == c.rect;
        InsertCoversLeftover(lf, size, pt);
        var q' :| IsFreeLeaf(l, q') && At(l, q').rect.Contains(pt);
        AtUnder(c.node, ToLeft, q');
        assert IsFreeLeaf(c.node, [ToLeft] + q') && At(c.node, [ToLeft] + q').rect.Contains(pt);
      }
    }
  }

  /** `Insert` applied to the node at path `p` of the tree. */
  function InsertAt(t: Node, p: Path, size: Point): (c: Committed)
    requires ValidPath(t, p) && !At(t, p).used && 0 <= size.x && 0 <= size.y && Fits(size, At(t, p).rect)
    ensures c.rect.min == At(t, p).rect.min && c.rect.Size() == size && c.rect.Inside(At(t, p).rect)
    ensures c.node.rect == t.rect
  {
    var inner := Insert(At(t, p), size);
    Committed(Replace(t, p, inner.node), inner.rect)
  }

  /** Replacing a node by a well-formed node with the same rectangle keeps the tree well-formed. */
  lemma {:induction false} ReplaceKeepsWellFormed(t: Node, p: Path, n: Node)
    requires WellFormedTree(t) && ValidPath(t, p)
    requires WellFormedTree(n) && n.rect == At(t, p).rect
    ensures WellFormedTree(Replace(t, p, n)) && Replace(t, p, n).rect == t.rect
    decreases p
  {
    if |p| > 0 {
      ReplaceKeepsWellFormed(Child(t, p[0]), p[1..], n);
    }
  }

  /** A free leaf of the tree after a replacement at `p` is either a free leaf of
      the new node, or a free leaf of the old tree off `p` with its old rectangle. */
  lemma {:induction false} ReplaceFreeLeaf(t: Node, p: Path, n: Node, q: Path)
    requires ValidPath(t, p) && IsFreeLeaf(Replace(t, p, n), q)
    ensures || (|p| <= |q| && q[..|p|] == p && IsFreeLeaf(n, q[|p|..]) && At(Replace(t, p, n), q) == At(n, q[|p|..]))
            || (IsFreeLeaf(t, q) && q != p && At(Replace(t, p, n), q) == At(t, q))
    decreases p
  {
    if |p| > 0 {
      var t' := Replace(t, p, n);
      assert |q| > 0;
      AtUnder(t', q[0], q[1..]);
      AtUnder(t, q[0], q[1..]);
      assert q == [q[0]] + q[1..];
      if q[0] == p[0] {
        ReplaceFreeLeaf(Child(t, p[0]), p[1..], n, q[1..]);
        assert p == [p[0]] + p[1..];
        if |p| <= |q| && q[1..][..|p| - 1] == p[1..] {
          assert q[..|p|] == [q[0]] + q[1..][..|p| - 1];
          assert q[|p|..] == q[1..][|p| - 1..];
        }
      } else {
        assert Child(t', q[0]) == Child(t, q[0]);
      }
    }
  }

  /** A replacement at a leaf `p` leaves every other free leaf where it was. */
  lemma {:induction false} ReplaceKeepsOtherLeaves(t: Node, p: Path, n: Node, q: Path)
    requires ValidPath(t, p) && At(t, p).Leaf?
    requires IsFreeLeaf(t, q) && q != p
    ensures IsFreeLeaf(Replace(t, p, n), q) && At(Replace(t, p, n), q) == At(t, q)
    decreases p
  {
    if |p| > 0 {
      var t' := Replace(t, p, n);
      assert |q| > 0;
      assert q == [q[0]] + q[1..] && p == [p[0]] + p[1..];
      AtUnder(t', q[0], q[1..]);
      AtUnder(t, q[0], q[1..]);
      if q[0] == p[0] {
        ReplaceKeepsOtherLeaves(Child(t, p[0]), p[1..], n, q[1..]);
      } else {
        assert Child(t', q[0]) == Child(t, q[0]);
      }
    }
  }

  /** Below the replacement point the new tree is the new node. */
  lemma {:induction false} ReplaceBelow(t: Node, p: Path, n: Node, q: Path)
    requires ValidPath(t, p) && ValidPath(n, q)
    ensures ValidPath(Replace(t, p, n), p + q) && At(Replace(t, p, n), p + q) == At(n, q)
    decreases p
  {
    if |p| == 0 {
      assert p + q == q;
    } else {
      var t' := Replace(t, p, n);
      assert (p + q)[0] == p[0] && (p + q)[1..] == p[1..] + q;
      ReplaceBelow(Child(t, p[0]), p[1..], n, q);
      AtUnder(t', p[0], p[1..] + q);
      assert p + q == [p[0]] + (p[1..] + q);
    }
  }

  /** Committing into a free leaf of a well-formed tree keeps the tree well-formed
      with the same root, and every free leaf afterwards either lies inside the
      leaf that was filled and clear of the handed-out rectangle, or is a free
      leaf of the old tree other than the filled one. */
  lemma InsertAtShape(t: Node, p: Path, size: Point)
    requires WellFormedTree(t) && IsFreeLeaf(t, p) && 0 <= size.x && 0 <= size.y && Fits(size, At(t, p).rect)
    ensures WellFormedTree(InsertAt(t, p, size).node) && InsertAt(t, p, size).node.rect == t.rect
    ensures forall q :: IsFreeLeaf(InsertAt(t, p, size).node, q) ==>
              || (At(InsertAt(t, p, size).node, q).rect.Inside(At(t, p).rect)
                  && Disjoint(At(InsertAt(t, p, size).node, q).rect, InsertAt(t, p, size).rect))
              || (IsFreeLeaf(t, q) && q != p && At(InsertAt(t, p, size).node, q) == At(t, q))
    ensures forall q :: IsFreeLeaf(t, q) && q != p ==>
              IsFreeLeaf(InsertAt(t, p, size).node, q) && At(InsertAt(t, p, size).node, q) == At(t, q)
  {
    var leaf := At(t, p);
    forall q | IsFreeLeaf(t, q) && q != p
      ensures IsFreeLeaf(InsertAt(t, p, size).node, q) && At(InsertAt(t, p, size).node, q) == At(t, q)
    {
      ReplaceKeepsOtherLeaves(t, p, Insert(leaf, size).node, q);
    }
    SubtreeInside(t, p);
    InsertShape(leaf, size);
    var inner := Insert(leaf, size);
    ReplaceKeepsWellFormed(t, p, inner.node);
    forall q | IsFreeLeaf(InsertAt(t, p, size).node, q)
      ensures || (At(InsertAt(t, p, size).node, q).rect.Inside(leaf.rect)
                  && Disjoint(At(InsertAt(t, p, size).node, q).rect, inner.rect))
              || (IsFreeLeaf(t, q) && q != p && At(InsertAt(t, p, size).node, q) == At(t, q))
    {
      ReplaceFreeLeaf(t, p, inner.node, q);
    }
  }

  /** A commit removes exactly the handed-out rectangle from the free area: a
      point is free afterwards exactly when it was free before and lies outside
      the placement. */
  lemma CommitFreeArea(t: Node, p: Path, size: Point, pt: Point)
    requires WellFormedTree(t) && IsFreeLeaf(t, p) && 0 <= size.x && 0 <= size.y && Fits(size, At(t, p).rect)
    ensures FreeAt(InsertAt(t, p, size).node, pt) <==> FreeAt(t, pt) && !InsertAt(t, p, size).rect.Contains(pt)
  {
    var leaf := At(t, p);
    var inner := Insert(leaf, size);
    var c := InsertAt(t, p, size);
    SubtreeInside(t, p);
    InsertAtShape(t, p, size);
    if FreeAt(c.node, pt) {
      var q :| IsFreeLeaf(c.node, q) && At(c.node, q).rect.Contains(pt);
      var f := At(c.node, q).rect;
      DisjointIffNoCommonPoint(f, c.rect);
      if !(f.Inside(leaf.rect) && Disjoint(f, c.rect)) {
        DistinctLeavesDisjoint(t, p, q);
        DisjointWithin(c.rect, f, leaf.rect, f);
        DisjointIffNoCommonPoint(c.rect, f);
      }
    }
    if FreeAt(t, pt) && !c.rect.Contains(pt) {
      var q :| IsFreeLeaf(t, q) && At(t, q).rect.Contains(pt);
      if q == p {
        InsertCoversLeftover(leaf, size, pt);
        var q' :| IsFreeLeaf(inner.node, q') && At(inner.node, q').rect.Contains(pt);
        ReplaceBelow(t, p, inner.node, q');
        assert IsFreeLeaf(c.node, p + q');
      }
    }
  }
}
