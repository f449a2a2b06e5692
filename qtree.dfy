/**
 * The quadtree codec for square grayscale images (Lab 9, QTree).
 *
 * A node is either a leaf holding one grayscale value or a split node with
 * four children (upper left, upper right, lower left, lower right).  The
 * tree is built from a raw image by `compress`, serialised in preorder by
 * `write`, read back by `parse` and painted back into a raw image by
 * `uncompress`.
 *
 * Regions are described by their origin and their SIDE length instead of
 * their pixel count: the source recomputes the side as `sqrt(size)` at every
 * level and hands `size / 4` to the children, and `SqrtOfQuarter` shows that
 * this is exactly the halved side, for every size.
 */
module QuadTree {
  import opened Wrappers

  /** The value of a node that is split into four sub-regions. */
  const QUAD_SPLIT: int := -1

  datatype QTNode =
    | Leaf(value: int)
    | Split(ul: QTNode, ur: QTNode, ll: QTNode, lr: QTNode)
  {
    /** What the node reports as its value: its pixel, or QUAD_SPLIT. */
    function Val(): int {
      if Leaf? then value else QUAD_SPLIT
    }
  }

  datatype QTError =
    | NoToken          // a token was requested from an exhausted list
    | NotEnoughData    // a QUAD_SPLIT is followed by fewer than four tokens
    | NotYetCompressed // `write` was called before a tree was built
    | EmptyImage       // `compress` read the first pixel of an image with none

  /** A tree whose leaves can be told apart from split nodes by their value. */
  ghost predicate WellFormed(t: QTNode) {
    match t
    case Leaf(v) => v != QUAD_SPLIT
    case Split(a, b, c, d) => WellFormed(a) && WellFormed(b) && WellFormed(c) && WellFormed(d)
  }

  function NodeCount(t: QTNode): nat {
    match t
    case Leaf(_) => 1
    case Split(a, b, c, d) => 1 + NodeCount(a) + NodeCount(b) + NodeCount(c) + NodeCount(d)
  }

  function LeafCount(t: QTNode): nat {
    match t
    case Leaf(_) => 1
    case Split(a, b, c, d) => LeafCount(a) + LeafCount(b) + LeafCount(c) + LeafCount(d)
  }

  function SplitCount(t: QTNode): nat {
    match t
    case Leaf(_) => 0
    case Split(a, b, c, d) => 1 + SplitCount(a) + SplitCount(b) + SplitCount(c) + SplitCount(d)
  }

  /** Every split owns exactly four children, so leaves outnumber splits three to one, plus one. */
  lemma {:induction false} LeavesAndSplits(t: QTNode)
    ensures LeafCount(t) == 3 * SplitCount(t) + 1
    ensures NodeCount(t) == LeafCount(t) + SplitCount(t)
  {
    match t
    case Leaf(_) =>
    case Split(a, b, c, d) =>
      LeavesAndSplits(a); LeavesAndSplits(b); LeavesAndSplits(c); LeavesAndSplits(d);
  }

  // ---------------------------------------------------------------------------
  // Token codec
  // ---------------------------------------------------------------------------

  /** The preorder token sequence of a node: its value, then (for a split) its four children. */
  function Preorder(t: QTNode): (ts: seq<int>)
    ensures |ts| == NodeCount(t)
    ensures ts[0] == t.Val()
  {
    match t
    case Leaf(v) => [v]
    case Split(a, b, c, d) => [QUAD_SPLIT] + Preorder(a) + Preorder(b) + Preorder(c) + Preorder(d)
  }

  /**
   * Parses one node from the front of `values`, returning it together with the
   * tokens left over (the list the source pops from is left holding exactly these).
   */
  function Parse(values: seq<int>): (r: Result<(QTNode, seq<int>), QTError>)
    ensures r.Ok? ==> |r.value.1| < |values|
    decreases |values|
  {
    if values == [] then Err(NoToken)
    else
      var x, rest := values[0], values[1..];
      if x != QUAD_SPLIT then Ok((Leaf(x), rest))
      else if |rest| < 4 then Err(NotEnoughData)
      else
        var (ul, r1) :- Parse(rest);
        var (ur, r2) :- Parse(r1);
        var (ll, r3) :- Parse(r2);
        var (lr, r4) :- Parse(r3);
        Ok((Split(ul, ur, ll, lr), r4))
  }

  /**
   * What a successful parse returns is a well-formed tree, and the tokens it
   * consumed are exactly that tree's preorder.
   */
  lemma {:induction false} ParseSound(values: seq<int>)
    ensures Parse(values).Ok? ==>
      && WellFormed(Parse(values).value.0)
      && values == Preorder(Parse(values).value.0) + Parse(values).value.1
    decreases |values|
  {
    if values == [] {
    } else if values[0] != QUAD_SPLIT {
      assert values == [values[0]] + values[1..];
    } else if |values| >= 5 && Parse(values).Ok? {
      var rest := values[1..];
      var (ul, r1) := Parse(rest).value;
      var (ur, r2) := Parse(r1).value;
      var (ll, r3) := Parse(r2).value;
      var (lr, r4) := Parse(r3).value;
      assert Parse(values).value == (Split(ul, ur, ll, lr), r4);
      ParseSound(rest);
      ParseSound(r1);
      ParseSound(r2);
      ParseSound(r3);
      SplitPreorder(ul, ur, ll, lr, r4);
      assert values == [QUAD_SPLIT] + rest;
    }
  }

  /** The preorder of a split, followed by the rest, regrouped as the parser reads it. */
  lemma SplitPreorder(ul: QTNode, ur: QTNode, ll: QTNode, lr: QTNode, rest: seq<int>)
    ensures Preorder(Split(ul, ur, ll, lr)) + rest
         == [QUAD_SPLIT] + (Preorder(ul) + (Preorder(ur) + (Preorder(ll) + (Preorder(lr) + rest))))
  {
    var a, b, c, d := Preorder(ul), Preorder(ur), Preorder(ll), Preorder(lr);
    assert Preorder(Split(ul, ur, ll, lr)) == [QUAD_SPLIT] + a + b + c + d;
    Regroup([QUAD_SPLIT], a, b, c, d, rest);
  }

  /** Appending five sequences and a tail does not depend on how the appends are grouped. */
  lemma Regroup(q: seq<int>, a: seq<int>, b: seq<int>, c: seq<int>, d: seq<int>, rest: seq<int>)
    ensures q + a + b + c + d + rest == q + (a + (b + (c + (d + rest))))
  {
    calc {
      q + a + b + c + d + rest;
      q + a + b + c + (d + rest);
      q + a + b + (c + (d + rest));
      q + a + (b + (c + (d + rest)));
      q + (a + (b + (c + (d + rest))));
    }
  }

  /** Parsing the preorder tokens of a well-formed tree gives the tree back and consumes exactly them. */
  lemma {:induction false} ParsePreorder(t: QTNode, rest: seq<int>)
    requires WellFormed(t)
    ensures Parse(Preorder(t) + rest) == Ok((t, rest))
  {
    match t
    case Leaf(v) =>
      assert Preorder(t) + rest == [v] + rest;
    case Split(a, b, c, d) =>
      var pa, pb, pc, pd := Preorder(a), Preorder(b), Preorder(c), Preorder(d);
      var s3 := pd + rest;
      var s2 := pc + s3;
      var s1 := pb + s2;
      var s := Preorder(t) + rest;
      SplitPreorder(a, b, c, d, rest);
      ParsePreorder(a, s1);
      ParsePreorder(b, s2);
      ParsePreorder(c, s3);
      ParsePreorder(d, rest);
      assert s[1..] == pa + s1;
      assert |s[1..]| >= 4;
  }

  /** A split followed by fewer than four tokens is rejected as "not enough data". */
  lemma ParseShortSplit(values: seq<int>)
    requires |values| >= 1 && values[0] == QUAD_SPLIT && |values| < 5
    ensures Parse(values) == Err(NotEnoughData)
  {
  }

  // ---------------------------------------------------------------------------
  // Region geometry and the image a tree denotes
  // ---------------------------------------------------------------------------

  /** The largest r with r * r <= n. */
  function IntSqrt(n: nat): (r: nat)
    ensures r * r <= n < (r + 1) * (r + 1)
    decreases n
  {
    if n == 0 then 0
    else
      var s := IntSqrt(n / 4);
      var h := 2 * s;
      SqrtStep(n, s);
      if (h + 1) * (h + 1) <= n then h + 1 else h
  }

  /** The root of n lies between twice the root of n / 4 and two more. */
  lemma SqrtStep(n: nat, s: nat)
    requires s * s <= n / 4 < (s + 1) * (s + 1)
    ensures (2 * s) * (2 * s) <= n < (2 * s + 2) * (2 * s + 2)
  {
    var q := n / 4;
    assert n == 4 * q + n % 4;
    assert (2 * s) * (2 * s) == 4 * (s * s);
    assert (2 * s + 2) * (2 * s + 2) == 4 * ((s + 1) * (s + 1));
    assert q + 1 <= (s + 1) * (s + 1);
    assert 4 * (q + 1) <= 4 * ((s + 1) * (s + 1));
  }

  /** `(int) Math.sqrt(size)` on a Java int: a negative size gives NaN, which converts to 0. */
  function SideOf(size: int): nat {
    if size <= 0 then 0 else IntSqrt(size)
  }

  /** The side of a quarter of a region is half the region's side, whatever the pixel count. */
  lemma SqrtOfQuarter(n: nat)
    ensures IntSqrt(n / 4) == IntSqrt(n) / 2
  {
  }

  ghost predicate PowerOfTwo(d: nat)
    decreases d
  {
    d == 1 || (d >= 2 && d % 2 == 0 && PowerOfTwo(d / 2))
  }

  /**
   * The value a node painted over the d x d region at (r0, c0) gives pixel
   * (i, j), or None when painting leaves that pixel alone (it lies outside the
   * region, or a split covers only 2*(d/2) rows and columns, and nothing once d is 1).
   */
  function ValueAt(t: QTNode, r0: nat, c0: nat, d: nat, i: nat, j: nat): Option<int>
  {
    if !(r0 <= i < r0 + d && c0 <= j < c0 + d) then None
    else match t
      case Leaf(v) => Some(v)
      case Split(ul, ur, ll, lr) =>
        var h := d / 2;
        if i < r0 + h then
          if j < c0 + h then ValueAt(ul, r0, c0, h, i, j) else ValueAt(ur, r0, c0 + h, h, i, j)
        else
          if j < c0 + h then ValueAt(ll, r0 + h, c0, h, i, j) else ValueAt(lr, r0 + h, c0 + h, h, i, j)
  }

  /** An image as a value: its rows, top to bottom. */
  type Grid = seq<seq<int>>

  /** The pixel at (i, j), or 0 off the grid. */
  function At(g: Grid, i: int, j: int): int {
    if 0 <= i < |g| && 0 <= j < |g[i]| then g[i][j] else 0
  }

  /** The pixels of an array image as a grid. */
  ghost function Pixels(img: array2<int>): (g: Grid)
    reads img
  {
    seq(img.Length0, i requires 0 <= i < img.Length0 reads img =>
      seq(img.Length1, j requires 0 <= j < img.Length1 reads img => img[i, j]))
  }

  lemma PixelsAt(img: array2<int>, i: nat, j: nat)
    requires i < img.Length0 && j < img.Length1
    ensures At(Pixels(img), i, j) == img[i, j]
  {
  }

  /** Every pixel of the d x d region at (r0, c0) equals the pixel at (r0, c0). */
  ghost predicate Uniform(g: Grid, r0: nat, c0: nat, d: nat)
  {
    forall i, j :: r0 <= i < r0 + d && c0 <= j < c0 + d ==> At(g, i, j) == At(g, r0, c0)
  }

  /** The tree the compressor builds for the d x d region at (r0, c0). */
  ghost function Compressed(g: Grid, r0: nat, c0: nat, d: nat): (t: QTNode)
    requires 1 <= d
    decreases d, 1
  {
    if Uniform(g, r0, c0, d) then Leaf(At(g, r0, c0))
    else
      assert d >= 2 by {
        if d == 1 { assert Uniform(g, r0, c0, d); }
      }
      Quadrants(g, r0, c0, d)
  }

  /** The split node of a region: one compressed tree per quadrant, in the order UL, UR, LL, LR. */
  ghost function Quadrants(g: Grid, r0: nat, c0: nat, d: nat): (t: QTNode)
    requires 2 <= d
    decreases d, 0
  {
    var h := d / 2;
    Split(Compressed(g, r0, c0, h), Compressed(g, r0, c0 + h, h),
          Compressed(g, r0 + h, c0, h), Compressed(g, r0 + h, c0 + h, h))
  }

  /** Four quadrant trees built by the compressor make up the tree of their non-uniform region. */
  lemma CompressedOfQuadrants(g: Grid, r0: nat, c0: nat, d: nat, h: nat, r1: nat, c1: nat,
                              ul: QTNode, ur: QTNode, ll: QTNode, lr: QTNode)
    requires 2 <= d && h == d / 2 && r1 == r0 + h && c1 == c0 + h && !Uniform(g, r0, c0, d)
    requires ul == Compressed(g, r0, c0, h) && ur == Compressed(g, r0, c1, h)
    requires ll == Compressed(g, r1, c0, h) && lr == Compressed(g, r1, c1, h)
    ensures Compressed(g, r0, c0, d) == Split(ul, ur, ll, lr)
  {
    SameRegion(g, r0, c0, h, r0, c0, d / 2);
    SameRegion(g, r0, c1, h, r0, c0 + d / 2, d / 2);
    SameRegion(g, r1, c0, h, r0 + d / 2, c0, d / 2);
    SameRegion(g, r1, c1, h, r0 + d / 2, c0 + d / 2, d / 2);
  }

  /** The tree of a region depends only on the region. */
  lemma SameRegion(g: Grid, r: nat, c: nat, d: nat, r': nat, c': nat, d': nat)
    requires 1 <= d && r == r' && c == c' && d == d'
    ensures Compressed(g, r, c, d) == Compressed(g, r', c', d')
  {
  }

  /** The compressor emits a leaf, holding the region's first pixel, exactly when the region is uniform. */
  lemma CompressedLeaf(g: Grid, r0: nat, c0: nat, d: nat)
    requires 1 <= d
    ensures Compressed(g, r0, c0, d).Leaf? <==> Uniform(g, r0, c0, d)
    ensures Compressed(g, r0, c0, d).Leaf? ==> Compressed(g, r0, c0, d).value == At(g, r0, c0)
  {
  }

  /** Painting the compressed tree of a power-of-two region reproduces every pixel (i, j) of it. */
  lemma {:induction false} CompressedPaints(g: Grid, r0: nat, c0: nat, d: nat, i: nat, j: nat)
    requires PowerOfTwo(d)
    requires r0 <= i < r0 + d && c0 <= j < c0 + d
    ensures ValueAt(Compressed(g, r0, c0, d), r0, c0, d, i, j) == Some(At(g, i, j))
    decreases d, 1
  {
    if Uniform(g, r0, c0, d) {
      assert At(g, i, j) == At(g, r0, c0);
    } else {
      CompressedSplitPaints(g, r0, c0, d, i, j);
    }
  }

  lemma {:induction false} CompressedSplitPaints(g: Grid, r0: nat, c0: nat, d: nat, i: nat, j: nat)
    requires PowerOfTwo(d)
    requires r0 <= i < r0 + d && c0 <= j < c0 + d && !Uniform(g, r0, c0, d)
    ensures ValueAt(Compressed(g, r0, c0, d), r0, c0, d, i, j) == Some(At(g, i, j))
    decreases d, 0
  {
    assert d != 1 by {
      if d == 1 { assert Uniform(g, r0, c0, d); }
    }
    assert d == 2 * (d / 2) && PowerOfTwo(d / 2);
    // the origin of the quadrant holding (i, j)
    var qr, qc := if i < r0 + d / 2 then r0 else r0 + d / 2, if j < c0 + d / 2 then c0 else c0 + d / 2;
    CompressedPaints(g, qr, qc, d / 2, i, j);
    CompressedSplitQuadrant(g, r0, c0, d, i, j, qr, qc);
  }

  /** Within a split region, the compressed tree paints a pixel as the tree of the pixel's quadrant does. */
  lemma CompressedSplitQuadrant(g: Grid, r0: nat, c0: nat, d: nat, i: nat, j: nat, qr: nat, qc: nat)
    requires 2 <= d && !Uniform(g, r0, c0, d)
    requires r0 <= i < r0 + d && c0 <= j < c0 + d
    requires qr == (if i < r0 + d / 2 then r0 else r0 + d / 2) && qc == (if j < c0 + d / 2 then c0 else c0 + d / 2)
    ensures ValueAt(Compressed(g, r0, c0, d), r0, c0, d, i, j)
         == ValueAt(Compressed(g, qr, qc, d / 2), qr, qc, d / 2, i, j)
  {
    var t := Compressed(g, r0, c0, d);
    CompressedSplit(g, r0, c0, d);
    SplitValueAt(t, r0, c0, d, i, j, qr, qc);
  }

  /** A region that is not uniform compresses to a split of its four quadrants' trees. */
  lemma CompressedSplit(g: Grid, r0: nat, c0: nat, d: nat)
    requires 2 <= d && !Uniform(g, r0, c0, d)
    ensures Compressed(g, r0, c0, d)
         == Split(Compressed(g, r0, c0, d / 2), Compressed(g, r0, c0 + d / 2, d / 2),
                  Compressed(g, r0 + d / 2, c0, d / 2), Compressed(g, r0 + d / 2, c0 + d / 2, d / 2))
  {
    assert Compressed(g, r0, c0, d) == Quadrants(g, r0, c0, d);
  }

  /** A split node paints a pixel of its region as the child covering the pixel's quadrant does. */
  lemma SplitValueAt(t: QTNode, r0: nat, c0: nat, d: nat, i: nat, j: nat, qr: nat, qc: nat)
    requires t.Split? && r0 <= i < r0 + d && c0 <= j < c0 + d
    requires qr == (if i < r0 + d / 2 then r0 else r0 + d / 2) && qc == (if j < c0 + d / 2 then c0 else c0 + d / 2)
    ensures ValueAt(t, r0, c0, d, i, j)
         == ValueAt(if qr == r0 then (if qc == c0 then t.ul else t.ur) else (if qc == c0 then t.ll else t.lr), qr, qc, d / 2, i, j)
  {
  }

  /** A region free of the QUAD_SPLIT value compresses to a tree that can be serialised and parsed back. */
  lemma {:induction false} CompressedWellFormed(g: Grid, r0: nat, c0: nat, d: nat)
    requires 1 <= d
    requires forall i, j :: r0 <= i < r0 + d && c0 <= j < c0 + d ==> At(g, i, j) != QUAD_SPLIT
    ensures WellFormed(Compressed(g, r0, c0, d))
    decreases d
  {
    if !Uniform(g, r0, c0, d) {
      var h := d / 2;
      CompressedWellFormed(g, r0, c0, h);
      CompressedWellFormed(g, r0, c0 + h, h);
      CompressedWellFormed(g, r0 + h, c0, h);
      CompressedWellFormed(g, r0 + h, c0 + h, h);
    }
  }

  /** No split node of a tree has four leaf children of one value (it could have been a leaf). */
  ghost predicate Minimal(t: QTNode) {
    match t
    case Leaf(_) => true
    case Split(a, b, c, d) =>
      && !(a.Leaf? && b.Leaf? && c.Leaf? && d.Leaf? && a.value == b.value == c.value == d.value)
      && Minimal(a) && Minimal(b) && Minimal(c) && Minimal(d)
  }

  /** Four uniform quadrants that share one value make their whole region uniform. */
  lemma QuadrantsUniform(g: Grid, r0: nat, c0: nat, h: nat)
    requires 1 <= h
    ensures
      && Uniform(g, r0, c0, h) && Uniform(g, r0, c0 + h, h)
      && Uniform(g, r0 + h, c0, h) && Uniform(g, r0 + h, c0 + h, h)
      && At(g, r0, c0 + h) == At(g, r0, c0) && At(g, r0 + h, c0) == At(g, r0, c0) && At(g, r0 + h, c0 + h) == At(g, r0, c0)
      ==> Uniform(g, r0, c0, 2 * h)
  {
  }

  /** The compressor never splits a power-of-two region that one leaf could stand for. */
  lemma {:induction false} CompressedIsMinimal(g: Grid, r0: nat, c0: nat, d: nat)
    requires PowerOfTwo(d)
    ensures Minimal(Compressed(g, r0, c0, d))
    decreases d
  {
    if !Uniform(g, r0, c0, d) {
      var h := d / 2;
      assert d == 2 * h && PowerOfTwo(h);
      var a, b, c, e := Compressed(g, r0, c0, h), Compressed(g, r0, c0 + h, h),
                        Compressed(g, r0 + h, c0, h), Compressed(g, r0 + h, c0 + h, h);
      assert Compressed(g, r0, c0, d) == Split(a, b, c, e);
      CompressedIsMinimal(g, r0, c0, h);
      CompressedIsMinimal(g, r0, c0 + h, h);
      CompressedIsMinimal(g, r0 + h, c0, h);
      CompressedIsMinimal(g, r0 + h, c0 + h, h);
      if a.Leaf? && b.Leaf? && c.Leaf? && e.Leaf? && a.value == b.value == c.value == e.value {
        CompressedLeaf(g, r0, c0, h);
        CompressedLeaf(g, r0, c0 + h, h);
        CompressedLeaf(g, r0 + h, c0, h);
        CompressedLeaf(g, r0 + h, c0 + h, h);
        QuadrantsUniform(g, r0, c0, h);
        assert false;
      }
    }
  }

  /**
   * The codec round trip: the tokens of the tree compressed from a power-of-two
   * image free of QUAD_SPLIT parse back to that tree with nothing left over, and
   * painting the tree reproduces every pixel.
   */
  lemma CompressRoundTrip(g: Grid, d: nat)
    requires PowerOfTwo(d)
    requires forall i, j :: 0 <= i < d && 0 <= j < d ==> At(g, i, j) != QUAD_SPLIT
    ensures Parse(Preorder(Compressed(g, 0, 0, d))) == Ok((Compressed(g, 0, 0, d), []))
    ensures forall i, j :: 0 <= i < d && 0 <= j < d ==> ValueAt(Compressed(g, 0, 0, d), 0, 0, d, i, j) == Some(At(g, i, j))
  {
    var t := Compressed(g, 0, 0, d);
    CompressedWellFormed(g, 0, 0, d);
    ParsePreorder(t, []);
    assert Preorder(t) + [] == Preorder(t);
    forall i, j | 0 <= i < d && 0 <= j < d
      ensures ValueAt(t, 0, 0, d, i, j) == Some(At(g, i, j))
    {
      CompressedPaints(g, 0, 0, d, i, j);
    }
  }

  /** Position of pixel (i, j) of an n x n image in its row-major value list. */
  function RowMajor(values: seq<int>, n: nat, i: nat, j: nat): int
    requires n * n <= |values| && i < n && j < n
  {
    RowMajorBound(n, i, j);
    values[i * n + j]
  }

  lemma RowMajorBound(n: nat, i: nat, j: nat)
    requires i < n && j < n
    ensures i * n + j < n * n
  {
    assert i * n <= (n - 1) * n;
  }

  // ---------------------------------------------------------------------------
  // The tree container
  // ---------------------------------------------------------------------------

  class QTree {
    /** the root node, absent until a tree has been built */
    var root: Option<QTNode>
    /** the square dimension of the image */
    var dim: nat
    /** the raw image */
    var image: array2<int>
    /** the size of the raw image */
    var rawSize: int
    /** the size of the compressed image */
    var compressedSize: int

    /** An initially empty tree. */
    constructor ()
      ensures image.Length0 == 0 && image.Length1 == 0
      ensures root == None && dim == 0 && rawSize == 0 && compressedSize == 0
    {
      root := None;
      dim := 0;
      image := new int[0, 0];
      rawSize := 0;
      compressedSize := 0;
    }

    /** Paints `node` over the d x d region at (r0, c0) and leaves every other cell alone. */
    method UncompressRegion(node: QTNode, d: nat, r0: nat, c0: nat)
      requires WellFormed(node)
      requires r0 + d <= image.Length0 && c0 + d <= image.Length1
      modifies image
      ensures forall i, j :: 0 <= i < image.Length0 && 0 <= j < image.Length1 ==>
        image[i, j] == if r0 <= i < r0 + d && c0 <= j < c0 + d
                       then ValueAt(node, r0, c0, d, i, j).GetOr(old(image[i, j]))
                       else old(image[i, j])
      decreases node
    {
      if node.Val() != QUAD_SPLIT {
        var v := node.value;
        for row := 0 to d
          invariant forall i, j :: 0 <= i < image.Length0 && 0 <= j < image.Length1 ==>
            image[i, j] == if r0 <= i < r0 + row && c0 <= j < c0 + d then v else old(image[i, j])
        {
          for col := 0 to d
            invariant forall i, j :: 0 <= i < image.Length0 && 0 <= j < image.Length1 ==>
              image[i, j] == if (r0 <= i < r0 + row && c0 <= j < c0 + d) || (i == r0 + row && c0 <= j < c0 + col)
                             then v else old(image[i, j])
          {
            image[r0 + row, c0 + col] := v;
          }
        }
      } else {
        var h := d / 2;
        UncompressRegion(node.ul, h, r0, c0);
        UncompressRegion(node.ur, h, r0, c0 + h);
        UncompressRegion(node.ll, h, r0 + h, c0);
        UncompressRegion(node.lr, h, r0 + h, c0 + h);
      }
    }

    /**
     * Reads a compressed image given as its tokens: the raw pixel count first,
     * then the preorder tokens of the tree.  The dimension is set before parsing,
     * so a failed parse leaves it changed; raw and compressed sizes are not touched.
     */
    method Uncompress(file: seq<int>) returns (r: Outcome<QTError>)
      modifies this
      ensures rawSize == old(rawSize) && compressedSize == old(compressedSize)
      ensures file == [] ==> r == Fail(NoToken) && unchanged(this)
      ensures file != [] ==> dim == SideOf(file[0])
      ensures file != [] && Parse(file[1..]).Err? ==>
        r == Fail(Parse(file[1..]).error) && root == old(root) && image == old(image)
      ensures file != [] && Parse(file[1..]).Ok? ==>
        && r == Pass
        && root == Some(Parse(file[1..]).value.0)
        && fresh(image) && image.Length0 == dim && image.Length1 == dim
        && forall i, j :: 0 <= i < dim && 0 <= j < dim ==>
             image[i, j] == ValueAt(root.value, 0, 0, dim, i, j).GetOr(0)
    {
      if file == [] {
        return Fail(NoToken);
      }
      var size := file[0];
      dim := SideOf(size);
      var parsed := Parse(file[1..]);
      if parsed.Err? {
        return Fail(parsed.error);
      }
      ParseSound(file[1..]);
      var tree := parsed.value.0;
      root := Some(tree);
      image := new int[dim, dim]((i, j) => 0);
      UncompressRegion(tree, dim, 0, 0);
      r := Pass;
    }

    /**
     * The compressed image as tokens: the raw size, then the preorder tokens of
     * the tree; fails when no tree has been built.
     */
    method Write() returns (r: Result<seq<int>, QTError>)
      ensures root == None ==> r == Err(NotYetCompressed)
      ensures root != None ==> r == Ok([rawSize] + Preorder(root.value))
      ensures root != None && compressedSize == 1 + NodeCount(root.value) ==> |r.value| == compressedSize
    {
      if root == None {
        return Err(NotYetCompressed);
      }
      r := Ok([rawSize] + Preorder(root.value));
    }

    /** Whether every pixel of the d x d region at (r0, c0) equals the one at (r0, c0). */
    method CanCompressBlock(r0: nat, c0: nat, d: nat) returns (b: bool)
      requires r0 + d <= image.Length0 && c0 + d <= image.Length1
      ensures b <==> Uniform(Pixels(image), r0, c0, d)
    {
      ghost var g := Pixels(image);
      if d == 0 {
        return true;
      }
      PixelsAt(image, r0, c0);
      for row := r0 to r0 + d
        invariant forall i, j :: r0 <= i < row && c0 <= j < c0 + d ==> At(g, i, j) == At(g, r0, c0)
      {
        for col := c0 to c0 + d
          invariant forall i, j :: (r0 <= i < row && c0 <= j < c0 + d) || (i == row && c0 <= j < col) ==>
            At(g, i, j) == At(g, r0, c0)
        {
          PixelsAt(image, row, col);
          if image[row, col] != image[r0, c0] {
            return false;
          }
        }
      }
      return true;
    }

    /**
     * Compresses the d x d region at (r0, c0), counting one for every node it
     * builds; `g` names the image's pixels, which compression only reads.
     */
    method CompressRegion(ghost g: Grid, r0: nat, c0: nat, d: nat) returns (n: QTNode)
      requires 1 <= d && r0 + d <= image.Length0 && c0 + d <= image.Length1 && g == Pixels(image)
      modifies this`compressedSize
      ensures n == Compressed(g, r0, c0, d)
      ensures compressedSize == old(compressedSize) + NodeCount(n)
      decreases d
    {
      compressedSize := compressedSize + 1;
      var uniform := CanCompressBlock(r0, c0, d);
      if uniform {
        PixelsAt(image, r0, c0);
        return Leaf(image[r0, c0]);
      }
      var h := d / 2;
      assert d >= 2 by {
        if d == 1 { assert Uniform(g, r0, c0, d); }
      }
      var r1, c1 := r0 + h, c0 + h;
      var ul := CompressRegion(g, r0, c0, h);
      var ur := CompressRegion(g, r0, c1, h);
      var ll := CompressRegion(g, r1, c0, h);
      var lr := CompressRegion(g, r1, c1, h);
      n := Split(ul, ur, ll, lr);
      CompressedOfQuadrants(g, r0, c0, d, h, r1, c1, ul, ur, ll, lr);
    }

    /**
     * Compresses a raw image given as its values in row-major order: the image is
     * the largest square the values fill, and the counters are set as the source
     * sets them (compressedSize starts at one, for the size line of the file).
     * With no values the root region has no first pixel to read: the counters
     * and the empty image are already set, and no tree is built.
     */
    method Compress(values: seq<int>) returns (r: Outcome<QTError>)
      modifies this
      ensures image.Length0 == dim && image.Length1 == dim
      ensures rawSize == |values| && dim == IntSqrt(|values|) && fresh(image)
      ensures forall i, j :: 0 <= i < dim && 0 <= j < dim ==> image[i, j] == RowMajor(values, dim, i, j)
      ensures values == [] ==> r == Fail(EmptyImage) && root == old(root) && compressedSize == 2
      ensures values != [] ==>
        && r == Pass
        && root == Some(Compressed(Pixels(image), 0, 0, dim))
        && compressedSize == 1 + NodeCount(root.value)
    {
      var n := IntSqrt(|values|);
      var img := new int[n, n];
      // `k` counts the values already taken from the front of the list
      var k := 0;
      for row := 0 to n
        invariant k == row * n && unchanged(this)
        invariant forall i, j :: 0 <= i < row && 0 <= j < n ==> img[i, j] == RowMajor(values, n, i, j)
      {
        for col := 0 to n
          invariant unchanged(this)
          invariant forall i, j :: (0 <= i < row && 0 <= j < n) || (i == row && 0 <= j < col) ==>
            img[i, j] == RowMajor(values, n, i, j)
        {
          RowMajorBound(n, row, col);
          img[row, col] := values[k + col];
        }
        k := k + n;
        assert k == (row + 1) * n;
      }
      rawSize, dim, image := |values|, n, img;
      compressedSize := 1;
      if n == 0 {
        // the root call counts itself, finds the empty region uniform and reads image[0][0]
        compressedSize := compressedSize + 1;
        return Fail(EmptyImage);
      }
      var tree := CompressRegion(Pixels(image), 0, 0, n);
      root := Some(tree);
      r := Pass;
    }
  }
}
