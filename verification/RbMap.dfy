/** The ordered map of src/map.c: mutable nodes without parent pointers, a path array
    recorded on the way down and unwound on the way up.  The colour bit, which the source
    packs into the low bit of the right link, is a field of its own here. */
module RbMap {
  import opened Arith
  import opened RbTree

  type Key(==, !new)
  type Value

  // The number of path entries: sixteen times the size of a pointer in bytes.
  const RB_MAX_DEPTH: nat := 128

  datatype Cmp = Less | Equal | Greater

  class MapNode {
    const key: Key
    const data: Value
    var left: MapNode?
    var right: MapNode?
    var red: bool

    constructor (key: Key, data: Value)
      ensures this.key == key && this.data == data
      ensures left == null && right == null && red
    {
      this.key, this.data := key, data;
      left, right, red := null, null, true;
    }
  }

  /** `p` is the root of the linked structure that `t` describes. */
  ghost predicate Shape(t: Tree<MapNode>, p: MapNode?)
    reads Nodes(t)
    decreases t
  {
    match t
    case Leaf => p == null
    case Node(red, l, n, r) => p == n && n.red == red && Shape(l, n.left) && Shape(r, n.right)
  }

  ghost predicate FrameShape(f: Frame<MapNode>)
    reads f.elem, Nodes(f.sibling)
  {
    f.elem.red == f.red && Shape(f.sibling, if f.side.ToLeft? then f.elem.right else f.elem.left)
  }

  /** The links along `fs` lead from `root` to `hole`. */
  ghost predicate Chain(fs: Path<MapNode>, root: MapNode?, hole: MapNode?)
    reads PathNodes(fs)
    decreases |fs|
  {
    if fs == [] then root == hole
    else
      var f := Last(fs);
      && FrameShape(f)
      && (if f.side.ToLeft? then f.elem.left else f.elem.right) == hole
      && Chain(Front(fs), root, f.elem)
  }

  /** As `Chain`, except that the last link need not have been set yet. */
  ghost predicate Loose(fs: Path<MapNode>, root: MapNode?)
    reads PathNodes(fs)
  {
    fs != [] ==> FrameShape(Last(fs)) && Chain(Front(fs), root, Last(fs).elem)
  }

  lemma {:induction false} PlugShape(fs: Path<MapNode>, t: Tree<MapNode>, root: MapNode?, p: MapNode?)
    requires Chain(fs, root, p) && Shape(t, p)
    ensures Shape(Plug(fs, t), root)
    decreases |fs|
  {
    if fs != [] {
      PlugShape(Front(fs), Fill(Last(fs), t), root, Last(fs).elem);
    }
  }

  // The rotation macros are written out in the methods below, each of which is one case of
  // a fix-up loop: it takes the nodes it relinks and the subtrees hanging off them.

  method FixFourNode(cnode: MapNode, left: MapNode, leftleft: MapNode,
                     ghost a: Tree<MapNode>, ghost b: Tree<MapNode>, ghost c: Tree<MapNode>, ghost d: Tree<MapNode>)
    returns (tnode: MapNode)
    requires cnode.left == left && left.left == leftleft
    requires cnode != left && left != leftleft && cnode != leftleft
    requires {cnode, left, leftleft} !! Nodes(a) && {cnode, left, leftleft} !! Nodes(b)
    requires {cnode, left, leftleft} !! Nodes(c) && {cnode, left, leftleft} !! Nodes(d)
    requires Shape(a, leftleft.left) && Shape(b, leftleft.right) && Shape(c, left.right) && Shape(d, cnode.right)
    modifies {cnode, left, leftleft}`left, {cnode, left, leftleft}`right, {cnode, left, leftleft}`red
    ensures Shape(Node(old(left.red), Node(false, a, leftleft, b), left, Node(old(cnode.red), c, cnode, d)), tnode)
  {
    leftleft.red := false;
    tnode := cnode.left;
    cnode.left := tnode.right;
    tnode.right := cnode;
    assert Shape(a, leftleft.left) && Shape(b, leftleft.right) && Shape(c, cnode.left) && Shape(d, cnode.right);
  }

  method SplitFourNode(cnode: MapNode, left: MapNode, right: MapNode,
                       ghost a: Tree<MapNode>, ghost b: Tree<MapNode>, ghost c: Tree<MapNode>, ghost d: Tree<MapNode>)
    requires cnode.left == left && cnode.right == right
    requires cnode != left && left != right && cnode != right
    requires {cnode, left, right} !! Nodes(a) && {cnode, left, right} !! Nodes(b)
    requires {cnode, left, right} !! Nodes(c) && {cnode, left, right} !! Nodes(d)
    requires Shape(a, left.left) && Shape(b, left.right) && Shape(c, right.left) && Shape(d, right.right)
    modifies {cnode, left, right}`red
    ensures Shape(Node(true, Node(false, a, left, b), cnode, Node(false, c, right, d)), cnode)
  {
    left.red := false;
    right.red := false;
    cnode.red := true;
    assert Shape(a, left.left) && Shape(b, left.right) && Shape(c, right.left) && Shape(d, right.right);
  }

  method LeanLeft(cnode: MapNode, right: MapNode,
                  ghost a: Tree<MapNode>, ghost b: Tree<MapNode>, ghost c: Tree<MapNode>)
    returns (tnode: MapNode)
    requires cnode.right == right && cnode != right
    requires {cnode, right} !! Nodes(a) && {cnode, right} !! Nodes(b) && {cnode, right} !! Nodes(c)
    requires Shape(a, cnode.left) && Shape(b, right.left) && Shape(c, right.right)
    modifies {cnode, right}`left, {cnode, right}`right, {cnode, right}`red
    ensures Shape(Node(old(cnode.red), Node(true, a, cnode, b), right, c), tnode)
  {
    var tcolor := cnode.red;
    tnode := cnode.right;
    cnode.right := tnode.left;
    tnode.left := cnode;
    tnode.red := tcolor;
    cnode.red := true;
    assert Shape(a, cnode.left) && Shape(b, cnode.right) && Shape(c, tnode.right);
  }

  method InsertFixLeft(cnode: MapNode, left: MapNode, ghost f: Frame<MapNode>, ghost t: Tree<MapNode>)
    returns (top: MapNode)
    requires f.elem == cnode && f.side.ToLeft? && FrameShape(f)
    requires IsRed(t) && Shape(t, left) && cnode.left == left
    requires Separate(Fill(f, t))
    modifies Nodes(Fill(f, t))`left, Nodes(Fill(f, t))`right, Nodes(Fill(f, t))`red
    ensures Shape(InsertStep(f, t), top)
  {
    var leftleft := left.left;
    if leftleft != null && leftleft.red {
      SeparateParts(Fill(f, t));
      SeparateParts(t);
      SeparateParts(t.left);
      top := FixFourNode(cnode, left, leftleft, t.left.left, t.left.right, t.right, f.sibling);
    } else {
      top := cnode;
    }
  }

  method InsertFixRight(cnode: MapNode, right: MapNode, ghost f: Frame<MapNode>, ghost t: Tree<MapNode>)
    returns (top: MapNode)
    requires f.elem == cnode && f.side.ToRight? && FrameShape(f)
    requires IsRed(t) && Shape(t, right) && cnode.right == right
    requires Separate(Fill(f, t))
    modifies Nodes(Fill(f, t))`left, Nodes(Fill(f, t))`right, Nodes(Fill(f, t))`red
    ensures Shape(InsertStep(f, t), top)
  {
    var left := cnode.left;
    SeparateParts(Fill(f, t));
    SeparateParts(t);
    if left != null && left.red {
      SeparateParts(f.sibling);
      SplitFourNode(cnode, left, right, f.sibling.left, f.sibling.right, t.left, t.right);
      top := cnode;
    } else {
      top := LeanLeft(cnode, right, f.sibling, t.left, t.right);
    }
  }

  // ----- order

  ghost predicate TotalOrder(compare: (Key, Key) -> Cmp) {
    && (forall a, b :: compare(a, b) == Equal <==> a == b)
    && (forall a, b :: compare(a, b) == Less <==> compare(b, a) == Greater)
    && (forall a, b, c :: compare(a, b) == Less && compare(b, c) == Less ==> compare(a, c) == Less)
  }

  ghost predicate Sorted(compare: (Key, Key) -> Cmp, s: seq<MapNode>) {
    forall i, j :: 0 <= i < j < |s| ==> compare(s[i].key, s[j].key) == Less
  }

  /** Every key of `s` is below `key`; every key of `s` is above `key`. */
  ghost predicate AllBelow(compare: (Key, Key) -> Cmp, s: seq<MapNode>, key: Key) {
    forall n <- s :: compare(n.key, key) == Less
  }

  ghost predicate AllAbove(compare: (Key, Key) -> Cmp, s: seq<MapNode>, key: Key) {
    forall n <- s :: compare(key, n.key) == Less
  }

  lemma SortedNoDup(compare: (Key, Key) -> Cmp, s: seq<MapNode>)
    requires TotalOrder(compare) && Sorted(compare, s)
    ensures NoDup(s)
  {
  }

  lemma SortedConcat(compare: (Key, Key) -> Cmp, a: seq<MapNode>, n: MapNode, b: seq<MapNode>)
    requires TotalOrder(compare)
    ensures Sorted(compare, a + [n] + b) <==>
      && Sorted(compare, a)
      && Sorted(compare, b)
      && AllBelow(compare, a, n.key)
      && AllAbove(compare, b, n.key)
  {
    var s := a + [n] + b;
    if Sorted(compare, s) {
      forall i, j | 0 <= i < j < |a| ensures compare(a[i].key, a[j].key) == Less {
        assert s[i] == a[i] && s[j] == a[j];
      }
      forall i, j | 0 <= i < j < |b| ensures compare(b[i].key, b[j].key) == Less {
        assert s[|a| + 1 + i] == b[i] && s[|a| + 1 + j] == b[j];
      }
      forall i | 0 <= i < |a| ensures compare(a[i].key, n.key) == Less {
        assert s[i] == a[i] && s[|a|] == n;
      }
      forall i | 0 <= i < |b| ensures compare(n.key, b[i].key) == Less {
        assert s[|a| + 1 + i] == b[i] && s[|a|] == n;
      }
    }
  }

  lemma SortedParts(compare: (Key, Key) -> Cmp, a: seq<MapNode>, b: seq<MapNode>)
    requires Sorted(compare, a + b)
    ensures Sorted(compare, a) && Sorted(compare, b)
  {
    assert forall i :: 0 <= i < |a| ==> (a + b)[i] == a[i];
    assert forall i :: 0 <= i < |b| ==> (a + b)[|a| + i] == b[i];
  }

  /** Removing an element, or leaving one out, keeps the order. */
  lemma SortedWithout(compare: (Key, Key) -> Cmp, a: seq<MapNode>, b: seq<MapNode>, key: Key)
    requires TotalOrder(compare) && Sorted(compare, a) && Sorted(compare, b)
    requires AllBelow(compare, a, key) && AllAbove(compare, b, key)
    ensures Sorted(compare, a + b)
  {
  }

  ghost function Bindings(s: seq<MapNode>): map<Key, Value>
  {
    if s == [] then map[] else Bindings(Front(s))[Last(s).key := Last(s).data]
  }

  lemma {:induction false} BindingsOf(compare: (Key, Key) -> Cmp, s: seq<MapNode>)
    requires TotalOrder(compare) && Sorted(compare, s)
    ensures forall n <- s :: n.key in Bindings(s) && Bindings(s)[n.key] == n.data
    ensures forall k <- Bindings(s) :: exists n <- s :: n.key == k
    ensures |Bindings(s)| == |s|
  {
    BindingsSize(compare, s);
    if s != [] {
      BindingsOf(compare, Front(s));
      LastFresh(compare, s);
      assert s == Front(s) + [Last(s)];
    }
  }

  lemma {:induction false} BindingsSize(compare: (Key, Key) -> Cmp, s: seq<MapNode>)
    requires TotalOrder(compare) && Sorted(compare, s)
    ensures |Bindings(s)| == |s|
  {
    if s != [] {
      BindingsSize(compare, Front(s));
      LastFresh(compare, s);
    }
  }

  lemma LastFresh(compare: (Key, Key) -> Cmp, s: seq<MapNode>)
    requires TotalOrder(compare) && Sorted(compare, s) && s != []
    ensures Last(s).key !in Bindings(Front(s))
    ensures forall n <- Front(s) :: n.key != Last(s).key
  {
    forall i | 0 <= i < |s| - 1 ensures Front(s)[i].key != Last(s).key {
      assert compare(s[i].key, s[|s| - 1].key) == Less;
    }
    BindingsAbsent(Front(s), Last(s).key);
  }

  lemma {:induction false} BindingsInsert(a: seq<MapNode>, n: MapNode, b: seq<MapNode>)
    requires forall m <- a + b :: m.key != n.key
    ensures n.key !in Bindings(a + b)
    ensures Bindings(a + [n] + b) == Bindings(a + b)[n.key := n.data]
    ensures Bindings(a + b) == Bindings(a + [n] + b) - {n.key}
  {
    if b == [] {
      assert a + [] == a && a + [n] + [] == a + [n] && Front(a + [n]) == a;
      BindingsAbsent(a, n.key);
    } else {
      assert Front(a + b) == a + Front(b) && Front(a + [n] + b) == a + [n] + Front(b);
      BindingsInsert(a, n, Front(b));
      assert Last(b) in a + b;
    }
  }

  lemma {:induction false} BindingsAbsent(a: seq<MapNode>, key: Key)
    requires forall m <- a :: m.key != key
    ensures key !in Bindings(a)
  {
    if a != [] {
      BindingsAbsent(Front(a), key);
      assert Last(a) in a;
    }
  }

  // ----- the path array

  datatype PathEntry = PathEntry(node: MapNode?, cmp: Cmp)

  /** The first `|fs|` entries of the array record `fs`. */
  ghost predicate Records(path: array<PathEntry>, fs: Path<MapNode>)
    reads path
  {
    && |fs| < path.Length
    && forall i :: 0 <= i < |fs| ==>
        path[i].node == fs[i].elem && path[i].cmp == if fs[i].side.ToLeft? then Less else Greater
  }

  lemma FillPlug(fs: Path<MapNode>, t: Tree<MapNode>)
    requires fs != [] && Separate(Plug(fs, t))
    ensures Separate(Fill(Last(fs), t))
    ensures PathNodes(Front(fs)) !! Nodes(Fill(Last(fs), t))
    ensures Nodes(Plug(fs, t)) == PathNodes(Front(fs)) + Nodes(Fill(Last(fs), t))
  {
    PlugSeparate(Front(fs), Fill(Last(fs), t));
  }

  lemma TreeAllocated(t: Tree<MapNode>)
    ensures forall n <- Nodes(t) :: allocated(n)
  {
  }

  lemma {:induction false} PathAllocated(fs: Path<MapNode>)
    ensures forall n <- PathNodes(fs) :: allocated(n)
    decreases |fs|
  {
    if fs != [] {
      PathAllocated(Front(fs));
      TreeAllocated(Last(fs).sibling);
    }
  }

  lemma {:induction false} ChainRoot(fs: Path<MapNode>, root: MapNode?, hole: MapNode?)
    requires fs != [] && Chain(fs, root, hole)
    ensures root == fs[0].elem
    decreases |fs|
  {
    if |fs| > 1 {
      ChainRoot(Front(fs), root, Last(fs).elem);
    }
  }

  /** Sets the link that the path took. */
  method Attach(cnode: MapNode, cmp: Cmp, child: MapNode?, ghost f: Frame<MapNode>, ghost t: Tree<MapNode>)
    requires f.elem == cnode && FrameShape(f) && Shape(t, child)
    requires (cmp == Less) == f.side.ToLeft?
    requires Separate(Fill(f, t))
    modifies cnode`left, cnode`right
    ensures FrameShape(f) && Shape(t, child)
    ensures (if f.side.ToLeft? then cnode.left else cnode.right) == child
  {
    FillSeparate(f, t);
    if cmp == Less {
      cnode.left := child;
    } else {
      cnode.right := child;
    }
  }

  method InsertFix(cnode: MapNode, cmp: Cmp, child: MapNode, ghost f: Frame<MapNode>, ghost t: Tree<MapNode>)
    returns (top: MapNode)
    requires f.elem == cnode && FrameShape(f) && Shape(t, child) && IsRed(t)
    requires (if f.side.ToLeft? then cnode.left else cnode.right) == child
    requires (cmp == Less) == f.side.ToLeft?
    requires Separate(Fill(f, t))
    modifies Nodes(Fill(f, t))`left, Nodes(Fill(f, t))`right, Nodes(Fill(f, t))`red
    ensures Shape(InsertStep(f, t), top)
  {
    if cmp == Less {
      top := InsertFixLeft(cnode, child, f, t);
    } else {
      top := InsertFixRight(cnode, child, f, t);
    }
  }

  /** One turn of the loop after an insertion; `stop` is the early exit. */
  method InsertTurn(cnode: MapNode, cmp: Cmp, child: MapNode, ghost root: MapNode?,
                    ghost above: Path<MapNode>, ghost f: Frame<MapNode>, ghost t: Tree<MapNode>)
    returns (stop: bool, top: MapNode)
    requires f.elem == cnode && FrameShape(f) && Shape(t, child) && Chain(above, root, cnode)
    requires (cmp == Less) == f.side.ToLeft?
    requires Separate(Fill(f, t)) && PathNodes(above) !! Nodes(Fill(f, t))
    modifies Nodes(Fill(f, t))`left, Nodes(Fill(f, t))`right, Nodes(Fill(f, t))`red
    ensures stop <==> !IsRed(t)
    ensures Chain(above, root, cnode)
    ensures stop ==> Shape(Fill(f, t), cnode)
    ensures !stop ==> Shape(InsertStep(f, t), top)
  {
    PathAllocated(above);
    TreeAllocated(Fill(f, t));
    Attach(cnode, cmp, child, f, t);
    stop, top := !child.red, cnode;
    if !stop {
      top := InsertFix(cnode, cmp, child, f, t);
    }
  }

  /** Stores the new top of the repaired subtree in the path. */
  method SetNode(path: array<PathEntry>, i: nat, node: MapNode?, ghost above: Path<MapNode>, ghost t: Tree<MapNode>,
                 ghost root: MapNode?, ghost elem: MapNode?)
    requires i < path.Length && |above| <= i && Records(path, above)
    requires Chain(above, root, elem) && Shape(t, node)
    modifies path
    ensures Records(path, above) && Chain(above, root, elem) && Shape(t, node)
    ensures path[i] == old(path[i]).(node := node)
  {
    assert forall n <- PathNodes(above) :: n as object != path;
    assert forall n <- Nodes(t) :: n as object != path;
    path[i] := PathEntry(node, path[i].cmp);
    assert Shape(t, node);
  }

  method InsertTurnAt(path: array<PathEntry>, i: nat, ghost root: MapNode?, ghost up: Path<MapNode>,
                      ghost t: Tree<MapNode>)
    returns (stop: bool)
    requires i + 1 == |up| && Records(path, up) && Loose(up, root)
    requires path[i + 1].node != null && Shape(t, path[i + 1].node)
    requires Separate(Plug(up, t))
    modifies path, Nodes(Fill(Last(up), t))`left, Nodes(Fill(Last(up), t))`right, Nodes(Fill(Last(up), t))`red
    ensures stop <==> !IsRed(t)
    ensures stop ==> Shape(Plug(up, t), root) && path[0].node == root
    ensures !stop ==>
      && Records(path, Front(up))
      && Chain(Front(up), root, Last(up).elem)
      && path[i].node != null
      && Shape(InsertStep(Last(up), t), path[i].node)
  {
    FillPlug(up, t);
    ghost var above, f := Front(up), Last(up);
    var top;
    stop, top := InsertTurn(path[i].node, path[i].cmp, path[i + 1].node, root, above, f, t);
    if stop {
      FilledShape(up, t, root);
    } else {
      SetNode(path, i, top, above, InsertStep(f, t), root, f.elem);
    }
  }

  /** What the turn does to the ghost picture. */
  lemma InsertTurnPicture(up: Path<MapNode>, t: Tree<MapNode>)
    requires up != [] && IsRed(t) && Separate(Plug(up, t))
    ensures
      var t' := InsertStep(Last(up), t);
      && Separate(Plug(Front(up), t'))
      && Nodes(Plug(Front(up), t')) == Nodes(Plug(up, t))
      && InsertUp(Front(up), t') == InsertUp(up, t)
  {
    var f, above := Last(up), Front(up);
    InsertStepElems(f, t);
    SameElems(InsertStep(f, t), Fill(f, t));
    PlugSeparate(above, InsertStep(f, t));
    PlugSeparate(above, Fill(f, t));
  }

  lemma FilledShape(up: Path<MapNode>, t: Tree<MapNode>, root: MapNode?)
    requires up != [] && Chain(Front(up), root, Last(up).elem) && Shape(Fill(Last(up), t), Last(up).elem)
    ensures Shape(Plug(up, t), root) && root == up[0].elem
  {
    PlugShape(Front(up), Fill(Last(up), t), root, Last(up).elem);
    if |up| > 1 {
      ChainRoot(Front(up), root, Last(up).elem);
    }
  }

  /** The loop after an insertion: relinks from the end of the path towards the root. */
  method InsertFixup(path: array<PathEntry>, p: nat, ghost root: MapNode?, ghost fs: Path<MapNode>,
                     ghost t0: Tree<MapNode>)
    requires p == |fs| && Records(path, fs)
    requires path[p].node != null && Shape(t0, path[p].node)
    requires Loose(fs, root)
    requires Separate(Plug(fs, t0))
    modifies path, Nodes(Plug(fs, t0))`left, Nodes(Plug(fs, t0))`right, Nodes(Plug(fs, t0))`red
    ensures path[0].node != null && Shape(InsertUp(fs, t0), path[0].node)
  {
    var i := p;
    ghost var t, up := t0, fs;
    while i > 0
      invariant 0 <= i <= p && |up| == i
      invariant Records(path, up) && Loose(up, root)
      invariant path[i].node != null && Shape(t, path[i].node)
      invariant Separate(Plug(up, t)) && Nodes(Plug(up, t)) == Nodes(Plug(fs, t0))
      invariant InsertUp(up, t) == InsertUp(fs, t0)
    {
      i := i - 1;
      FillPlug(up, t);
      var stop := InsertTurnAt(path, i, root, up, t);
      if stop {
        break;
      }
      InsertTurnPicture(up, t);
      t, up := InsertStep(Last(up), t), Front(up);
    }
  }

  /** Records the comparison, and the child it leads to. */
  method PathDown(path: array<PathEntry>, p: nat, cmp: Cmp, child: MapNode?,
                  ghost fs: Path<MapNode>, ghost t: Tree<MapNode>, ghost root: MapNode?)
    requires p + 1 < path.Length && |fs| == p + 1 && Records(path, Front(fs))
    requires path[p].node == Last(fs).elem && cmp == if Last(fs).side.ToLeft? then Less else Greater
    requires Chain(fs, root, child) && Shape(t, child)
    modifies path
    ensures Records(path, fs) && path[p + 1].node == child
    ensures Chain(fs, root, child) && Shape(t, child)
  {
    assert forall n <- PathNodes(fs) :: n as object != path;
    assert forall n <- Nodes(t) :: n as object != path;
    path[p], path[p + 1] := PathEntry(path[p].node, cmp), PathEntry(child, Equal);
    assert Shape(t, child);
  }

  /** Where a descent by `key` stands: at the end of `fs`, over subtree `t`. */
  ghost predicate Descending(compare: (Key, Key) -> Cmp, key: Key, tree: Tree<MapNode>, fs: Path<MapNode>,
                             t: Tree<MapNode>) {
    && Plug(fs, t) == tree
    && Balanced(t)
    && Fits(fs, BlackHeight(t), IsRed(t))
    && AllBelow(compare, Before(fs), key)
    && AllAbove(compare, After(fs), key)
    && |fs| + Height(t) <= Height(tree)
  }

  function FrameAt(t: Tree<MapNode>, side: Side): Frame<MapNode>
    requires t.Node?
  {
    Frame(t.red, t.elem, side, if side.ToLeft? then t.right else t.left)
  }

  function Child(t: Tree<MapNode>, side: Side): Tree<MapNode>
    requires t.Node?
  {
    if side.ToLeft? then t.left else t.right
  }

  lemma NarrowOrder(compare: (Key, Key) -> Cmp, key: Key,
                    b: seq<MapNode>, l: seq<MapNode>, n: MapNode, r: seq<MapNode>, a: seq<MapNode>)
    requires TotalOrder(compare) && Sorted(compare, b + (l + [n] + r) + a)
    requires AllBelow(compare, b, key) && AllAbove(compare, a, key)
    ensures compare(key, n.key) == Greater ==> AllBelow(compare, b + (l + [n]), key)
    ensures compare(key, n.key) == Less ==> AllAbove(compare, ([n] + r) + a, key)
  {
    assert b + (l + [n] + r) + a == (b + l) + [n] + (r + a);
    SortedConcat(compare, b + l, n, r + a);
    assert AllBelow(compare, l, n.key) by {
      forall m <- l ensures compare(m.key, n.key) == Less {
        assert m in b + l;
      }
    }
    assert AllAbove(compare, r, n.key) by {
      forall m <- r ensures compare(n.key, m.key) == Less {
        assert m in r + a;
      }
    }
  }

  lemma DescendStep(compare: (Key, Key) -> Cmp, key: Key, tree: Tree<MapNode>, fs: Path<MapNode>, t: Tree<MapNode>,
                    side: Side)
    requires TotalOrder(compare) && Sorted(compare, Elems(tree))
    requires Descending(compare, key, tree, fs, t) && t.Node?
    requires compare(key, t.elem.key) == if side.ToLeft? then Less else Greater
    ensures Descending(compare, key, tree, fs + [FrameAt(t, side)], Child(t, side))
  {
    Descend(fs, t, side);
    PlugElems(fs, t);
    NarrowOrder(compare, key, Before(fs), Elems(t.left), t.elem, Elems(t.right), After(fs));
  }

  lemma ChainStep(fs: Path<MapNode>, t: Tree<MapNode>, root: MapNode?, side: Side)
    requires t.Node? && Chain(fs, root, t.elem) && Shape(t, t.elem)
    ensures Chain(fs + [FrameAt(t, side)], root, if side.ToLeft? then t.elem.left else t.elem.right)
  {
    assert Front(fs + [FrameAt(t, side)]) == fs;
  }

  /** One step down, recorded. */
  method StepDown(compare: (Key, Key) -> Cmp, key: Key, path: array<PathEntry>, p: nat, cmp: Cmp, node: MapNode,
                  ghost tree: Tree<MapNode>, ghost fs: Path<MapNode>, ghost t: Tree<MapNode>, ghost root: MapNode?)
    returns (ghost fs': Path<MapNode>, ghost t': Tree<MapNode>)
    requires TotalOrder(compare) && Sorted(compare, Elems(tree)) && Descending(compare, key, tree, fs, t) && t.Node?
    requires p == |fs| && p + 1 < path.Length && Records(path, fs) && path[p].node == node
    requires Chain(fs, root, node) && Shape(t, node) && cmp == compare(key, node.key) != Equal
    modifies path
    ensures Descending(compare, key, tree, fs', t') && |fs'| == p + 1 && Records(path, fs') && t' < t
    ensures Chain(fs', root, path[p + 1].node) && Shape(t', path[p + 1].node)
  {
    ghost var side := if cmp == Less then ToLeft else ToRight;
    DescendStep(compare, key, tree, fs, t, side);
    ChainStep(fs, t, root, side);
    fs', t' := fs + [FrameAt(t, side)], Child(t, side);
    PathDown(path, p, cmp, if cmp == Less then node.left else node.right, fs', t', root);
  }

  datatype Search = Present(node: MapNode) | Absent | TooDeep

  method RecordPath(compare: (Key, Key) -> Cmp, root: MapNode?, ghost tree: Tree<MapNode>, key: Key,
                    path: array<PathEntry>)
    returns (r: Search, p: nat, ghost fs: Path<MapNode>)
    requires TotalOrder(compare) && Sorted(compare, Elems(tree)) && WellFormed(tree) && Shape(tree, root)
    requires path.Length == RB_MAX_DEPTH
    modifies path
    ensures Shape(tree, root)
    ensures r.Present? ==> r.node in Nodes(tree) && r.node.key == key
    ensures r.TooDeep? ==> Height(tree) >= RB_MAX_DEPTH - 1
    ensures r.Absent? ==>
      && p == |fs| < RB_MAX_DEPTH - 1
      && Records(path, fs)
      && Chain(fs, root, null)
      && Descending(compare, key, tree, fs, Leaf)
  {
    fs := [];
    ghost var t := tree;
    SetNode(path, 0, root, [], t, root, root);
    p := 0;
    while path[p].node != null && p < RB_MAX_DEPTH - 1
      invariant p == |fs| <= RB_MAX_DEPTH - 1 && Records(path, fs)
      invariant Descending(compare, key, tree, fs, t)
      invariant Chain(fs, root, path[p].node) && Shape(t, path[p].node)
      decreases t
    {
      var node := path[p].node;
      var cmp := compare(key, node.key);
      if cmp == Equal {
        PlugSeparate(fs, t);
        PlugShape(fs, t, root, node);
        return Present(node), p, fs;
      }
      fs, t := StepDown(compare, key, path, p, cmp, node, tree, fs, t, root);
      p := p + 1;
    }
    PlugShape(fs, t, root, path[p].node);
    r := if p >= RB_MAX_DEPTH - 1 then TooDeep else Absent;
  }

  method BlackenRoot(ghost t: Tree<MapNode>, top: MapNode)
    requires Separate(t) && Shape(t, top)
    modifies top`red
    ensures Shape(Blacken(t), top)
  {
    SeparateParts(t);
    top.red := false;
  }

  lemma {:induction false} InsertUpNodes(fs: Path<MapNode>, t: Tree<MapNode>)
    ensures Nodes(InsertUp(fs, t)) == Nodes(Plug(fs, t))
    ensures Separate(Plug(fs, t)) ==> Separate(InsertUp(fs, t))
    decreases |fs|
  {
    if fs != [] && IsRed(t) {
      InsertUpNodes(Front(fs), InsertStep(Last(fs), t));
      InsertStepElems(Last(fs), t);
      SameElems(InsertStep(Last(fs), t), Fill(Last(fs), t));
      PlugSeparate(Front(fs), InsertStep(Last(fs), t));
      PlugSeparate(Front(fs), Fill(Last(fs), t));
    }
  }

  /** Hangs the new node under the recorded path and runs the fix-up loop. */
  method LinkAtEnd(path: array<PathEntry>, p: nat, node: MapNode, ghost root: MapNode?, ghost fs: Path<MapNode>)
    returns (top: MapNode)
    requires p == |fs| && Records(path, fs) && Chain(fs, root, null)
    requires node.left == null && node.right == null && node.red
    requires Separate(Plug(fs, Node(true, Leaf, node, Leaf)))
    modifies path, PathNodes(fs)`left, PathNodes(fs)`right, PathNodes(fs)`red, node`left, node`right, node`red
    ensures Shape(Blacken(InsertUp(fs, Node(true, Leaf, node, Leaf))), top)
  {
    ghost var t0 := Node(true, Leaf, node, Leaf);
    PlugSeparate(fs, t0);
    SetNode(path, p, node, fs, t0, root, null);
    InsertFixup(path, p, root, fs, t0);
    top := path[0].node;
    InsertUpNodes(fs, t0);
    BlackenRoot(InsertUp(fs, t0), top);
  }

  // ----- removal: the cases of the unwinding loop

  /** `tree` has none of the nodes in it. */
  ghost predicate Without(tree: Tree<MapNode>, p: MapNode, q: MapNode, r: MapNode) {
    p !in Nodes(tree) && q !in Nodes(tree) && r !in Nodes(tree)
  }

  method RemoveDoubleLeft(p: MapNode, right: MapNode, rightleft: MapNode, ghost t: Tree<MapNode>,
                          ghost a: Tree<MapNode>, ghost b: Tree<MapNode>, ghost c: Tree<MapNode>)
    returns (tnode: MapNode)
    requires p.right == right && right.left == rightleft && rightleft.red
    requires p != right && right != rightleft && p != rightleft
    requires Without(t, p, right, rightleft) && Without(a, p, right, rightleft)
    requires Without(b, p, right, rightleft) && Without(c, p, right, rightleft)
    requires Shape(t, p.left) && Shape(a, rightleft.left) && Shape(b, rightleft.right) && Shape(c, right.right)
    modifies {p, right, rightleft}`left, {p, right, rightleft}`right, {p, right, rightleft}`red
    ensures Shape(Node(old(p.red), Node(false, t, p, a), rightleft, Node(old(right.red), b, right, c)), tnode)
  {
    if p.red {
      p.red := false;
    } else {
      rightleft.red := false;
    }
    tnode := RotateRightLeft(p, right, rightleft, t, a, b, c);
  }

  /** The right child is rotated right, then the node left. */
  method RotateRightLeft(p: MapNode, right: MapNode, rightleft: MapNode, ghost t: Tree<MapNode>,
                         ghost a: Tree<MapNode>, ghost b: Tree<MapNode>, ghost c: Tree<MapNode>)
    returns (tnode: MapNode)
    requires p.right == right && right.left == rightleft
    requires p != right && right != rightleft && p != rightleft
    requires Without(t, p, right, rightleft) && Without(a, p, right, rightleft)
    requires Without(b, p, right, rightleft) && Without(c, p, right, rightleft)
    requires Shape(t, p.left) && Shape(a, rightleft.left) && Shape(b, rightleft.right) && Shape(c, right.right)
    modifies {p, right, rightleft}`left, {p, right, rightleft}`right
    ensures Shape(Node(rightleft.red, Node(p.red, t, p, a), rightleft, Node(right.red, b, right, c)), tnode)
  {
    tnode := right.left;
    right.left := tnode.right;
    tnode.right := right;
    p.right := tnode;
    tnode := p.right;
    p.right := tnode.left;
    tnode.left := p;
    assert Shape(t, p.left);
    assert Shape(a, p.right);
    assert Shape(b, right.left);
    assert Shape(c, right.right);
  }

  method RemoveSingleLeft(p: MapNode, right: MapNode, ghost t: Tree<MapNode>, ghost a: Tree<MapNode>,
                          ghost b: Tree<MapNode>)
    returns (tnode: MapNode)
    requires p.right == right && p != right
    requires {p, right} !! Nodes(t) && {p, right} !! Nodes(a) && {p, right} !! Nodes(b)
    requires Shape(t, p.left) && Shape(a, right.left) && Shape(b, right.right)
    modifies {p, right}`left, {p, right}`right, {p, right}`red
    ensures Shape(Node(old(right.red), Node(true, t, p, a), right, b), tnode)
  {
    if !p.red {
      p.red := true;
    }
    tnode := p.right;
    p.right := tnode.left;
    tnode.left := p;
    assert Shape(t, p.left) && Shape(a, p.right) && Shape(b, tnode.right);
  }

  method RemoveDoubleRight(p: MapNode, left: MapNode, leftright: MapNode, leftrightleft: MapNode,
                           ghost t: Tree<MapNode>, ghost a: Tree<MapNode>, ghost b: Tree<MapNode>,
                           ghost c: Tree<MapNode>, ghost d: Tree<MapNode>)
    returns (tnode: MapNode)
    requires p.left == left && left.right == leftright && leftright.left == leftrightleft
    requires p != left && p != leftright && p != leftrightleft
    requires left != leftright && left != leftrightleft && leftright != leftrightleft
    requires Without(t, p, left, leftright) && Without(a, p, left, leftright) && Without(b, p, left, leftright)
    requires Without(c, p, left, leftright) && Without(d, p, left, leftright)
    requires leftrightleft !in Nodes(t) && leftrightleft !in Nodes(a) && leftrightleft !in Nodes(b)
    requires leftrightleft !in Nodes(c) && leftrightleft !in Nodes(d)
    requires Shape(t, p.right) && Shape(a, left.left) && Shape(d, leftright.right)
    requires Shape(b, leftrightleft.left) && Shape(c, leftrightleft.right)
    modifies {p, left, leftright}`left, {p, left, leftright}`right, leftrightleft`red
    ensures Shape(Node(leftright.red, Node(left.red, a, left, Node(false, b, leftrightleft, c)), leftright,
                       Node(p.red, d, p, t)), tnode)
  {
    leftrightleft.red := false;
    tnode := RotateRightThenLeft(p, left, leftright, t, a, Node(false, b, leftrightleft, c), d);
  }

  /** The node is rotated right, twice, its old left child below being rotated left in between. */
  method RotateRightThenLeft(p: MapNode, left: MapNode, leftright: MapNode, ghost t: Tree<MapNode>,
                             ghost a: Tree<MapNode>, ghost e: Tree<MapNode>, ghost d: Tree<MapNode>)
    returns (tnode: MapNode)
    requires p.left == left && left.right == leftright
    requires p != left && p != leftright && left != leftright
    requires Without(t, p, left, leftright) && Without(a, p, left, leftright)
    requires Without(e, p, left, leftright) && Without(d, p, left, leftright)
    requires Shape(t, p.right) && Shape(a, left.left) && Shape(e, leftright.left) && Shape(d, leftright.right)
    modifies {p, left, leftright}`left, {p, left, leftright}`right
    ensures Shape(Node(leftright.red, Node(left.red, a, left, e), leftright, Node(p.red, d, p, t)), tnode)
  {
    var unode := p.left;
    p.left := unode.right;
    unode.right := p;
    tnode := p.left;
    p.left := tnode.right;
    tnode.right := p;
    unode.right := tnode;
    tnode := unode.right;
    unode.right := tnode.left;
    tnode.left := unode;
    assert Shape(t, p.right) && Shape(d, p.left) && Shape(a, left.left) && Shape(e, left.right);
  }

  method RemoveRedLeft(p: MapNode, left: MapNode, leftright: MapNode, ghost t: Tree<MapNode>,
                       ghost a: Tree<MapNode>, ghost b: Tree<MapNode>, ghost c: Tree<MapNode>)
    returns (tnode: MapNode)
    requires p.left == left && left.right == leftright
    requires p != left && left != leftright && p != leftright
    requires {p, left, leftright} !! Nodes(t) && {p, left, leftright} !! Nodes(a)
    requires {p, left, leftright} !! Nodes(b) && {p, left, leftright} !! Nodes(c)
    requires Shape(t, p.right) && Shape(a, left.left) && Shape(b, leftright.left) && Shape(c, leftright.right)
    modifies {p, left}`left, {p, left}`right, {left, leftright}`red
    ensures Shape(Node(false, a, left, Node(p.red, Node(true, b, leftright, c), p, t)), tnode)
  {
    leftright.red := true;
    tnode := p.left;
    p.left := tnode.right;
    tnode.right := p;
    tnode.red := false;
    assert Shape(t, p.right) && Shape(a, left.left) && Shape(b, leftright.left) && Shape(c, leftright.right);
  }

  method RemoveSingleRight(p: MapNode, left: MapNode, leftleft: MapNode, ghost t: Tree<MapNode>,
                           ghost a: Tree<MapNode>, ghost b: Tree<MapNode>, ghost c: Tree<MapNode>)
    returns (tnode: MapNode)
    requires p.left == left && left.left == leftleft && !left.red
    requires p != left && left != leftleft && p != leftleft
    requires Without(t, p, left, leftleft) && Without(a, p, left, leftleft)
    requires Without(b, p, left, leftleft) && Without(c, p, left, leftleft)
    requires Shape(t, p.right) && Shape(a, leftleft.left) && Shape(b, leftleft.right) && Shape(c, left.right)
    modifies {p, left}`left, {p, left}`right, {p, left, leftleft}`red
    ensures Shape(Node(old(p.red), Node(false, a, leftleft, b), left, Node(false, c, p, t)), tnode)
  {
    if p.red {
      p.red := false;
      left.red := true;
    }
    leftleft.red := false;
    assert Shape(t, p.right) && Shape(a, leftleft.left) && Shape(b, leftleft.right) && Shape(c, left.right);
    tnode := TurnRight(p, left, Node(false, a, leftleft, b), c, t);
  }

  /** Rotates `p` to the right. */
  method TurnRight(p: MapNode, left: MapNode, ghost x: Tree<MapNode>, ghost c: Tree<MapNode>, ghost t: Tree<MapNode>)
    returns (tnode: MapNode)
    requires p.left == left && p != left && Shape(x, left.left) && Shape(c, left.right) && Shape(t, p.right)
    requires Without(x, p, left, left) && Without(c, p, left, left) && Without(t, p, left, left)
    modifies p`left, left`right
    ensures Shape(Node(left.red, x, left, Node(p.red, c, p, t)), tnode)
  {
    tnode := p.left;
    p.left := tnode.right;
    tnode.right := p;
    assert Shape(t, p.right) && Shape(c, p.left) && Shape(x, left.left);
  }

  method RemoveRecolour(p: MapNode, left: MapNode, ghost t: Tree<MapNode>, ghost a: Tree<MapNode>,
                        ghost b: Tree<MapNode>)
    requires p.left == left && p != left
    requires {p, left} !! Nodes(t) && {p, left} !! Nodes(a) && {p, left} !! Nodes(b)
    requires Shape(t, p.right) && Shape(a, left.left) && Shape(b, left.right)
    modifies {p, left}`red
    ensures Shape(Node(false, Node(true, a, left, b), p, t), p)
  {
    left.red := true;
    if p.red {
      p.red := false;
    }
    assert Shape(t, p.right) && Shape(a, left.left) && Shape(b, left.right);
  }

  method RemoveStepLeft(cnode: MapNode, ghost f: Frame<MapNode>, ghost t: Tree<MapNode>)
    returns (restored: bool, top: MapNode)
    requires f.elem == cnode && f.side.ToLeft? && FrameShape(f) && Unwindable(f)
    requires Shape(t, cnode.left) && Separate(Fill(f, t))
    modifies Nodes(Fill(f, t))`left, Nodes(Fill(f, t))`right, Nodes(Fill(f, t))`red
    ensures restored <==> RemoveStep(f, t).Restored?
    ensures Shape(RemoveStep(f, t).tree, top)
  {
    var right := cnode.right;
    var rightleft := right.left;
    ghost var s := f.sibling;
    SeparateParts(Fill(f, t));
    SeparateParts(s);
    assert Shape(s, right);
    assert Shape(s.left, rightleft) && Shape(s.right, right.right);
    if rightleft != null && rightleft.red {
      SeparateParts(s.left);
      restored := true;
      top := RemoveDoubleLeft(cnode, right, rightleft, t, s.left.left, s.left.right, s.right);
    } else {
      restored := cnode.red;
      top := RemoveSingleLeft(cnode, right, t, s.left, s.right);
    }
  }

  method RemoveStepRight(cnode: MapNode, ghost f: Frame<MapNode>, ghost t: Tree<MapNode>)
    returns (restored: bool, top: MapNode)
    requires f.elem == cnode && f.side.ToRight? && FrameShape(f) && Unwindable(f)
    requires Shape(t, cnode.right) && Separate(Fill(f, t))
    modifies Nodes(Fill(f, t))`left, Nodes(Fill(f, t))`right, Nodes(Fill(f, t))`red
    ensures restored <==> RemoveStep(f, t).Restored?
    ensures Shape(RemoveStep(f, t).tree, top)
  {
    var left := cnode.left;
    ghost var s := f.sibling;
    SeparateParts(Fill(f, t));
    SeparateParts(s);
    assert Shape(s, left);
    if left.red {
      restored := true;
      top := RemoveStepRedLeft(cnode, left, f, t);
    } else {
      var leftleft := left.left;
      assert Shape(s.left, leftleft) && Shape(s.right, left.right);
      if leftleft != null && leftleft.red {
        SeparateParts(s.left);
        restored := true;
        top := RemoveSingleRight(cnode, left, leftleft, t, s.left.left, s.left.right, s.right);
      } else {
        restored, top := cnode.red, cnode;
        RemoveRecolour(cnode, left, t, s.left, s.right);
      }
    }
  }

  method RemoveStepRedLeft(cnode: MapNode, left: MapNode, ghost f: Frame<MapNode>, ghost t: Tree<MapNode>)
    returns (top: MapNode)
    requires f.elem == cnode && f.side.ToRight? && FrameShape(f) && Unwindable(f)
    requires cnode.left == left && left.red
    requires Shape(t, cnode.right) && Separate(Fill(f, t))
    modifies Nodes(Fill(f, t))`left, Nodes(Fill(f, t))`right, Nodes(Fill(f, t))`red
    ensures RemoveStep(f, t).Restored? && Shape(RemoveStep(f, t).tree, top)
  {
    ghost var s := f.sibling;
    SeparateParts(Fill(f, t));
    SeparateParts(s);
    SeparateParts(s.right);
    assert Shape(s, left);
    var leftright := left.right;
    assert Shape(s.right, leftright) && Shape(s.left, left.left);
    var leftrightleft := leftright.left;
    assert Shape(s.right.left, leftrightleft) && Shape(s.right.right, leftright.right);
    if leftrightleft != null && leftrightleft.red {
      ghost var lrl := s.right.left;
      SeparateParts(lrl);
      top := RemoveDoubleRight(cnode, left, leftright, leftrightleft, t, s.left, lrl.left, lrl.right, s.right.right);
    } else {
      top := RemoveRedLeft(cnode, left, leftright, t, s.left, s.right.left, s.right.right);
    }
  }

  /** Hooks the top of a repaired subtree into the rest: into its parent, or in as the root. */
  method Reattach(path: array<PathEntry>, i: nat, tnode: MapNode?, root: MapNode?,
                  ghost above: Path<MapNode>, ghost t: Tree<MapNode>, ghost elem: MapNode?)
    returns (newRoot: MapNode?)
    requires i == |above| && Records(path, above) && Chain(above, root, elem) && Shape(t, tnode)
    requires Separate(Plug(above, t))
    modifies PathNodes(above)`left, PathNodes(above)`right
    ensures Shape(Plug(above, t), newRoot)
  {
    newRoot := root;
    if i == 0 {
      newRoot := tnode;
    } else {
      ghost var f := Last(above);
      FillPlug(above, t);
      PathAllocated(Front(above));
      Attach(path[i - 1].node, path[i - 1].cmp, tnode, f, t);
      PlugShape(Front(above), Fill(f, t), root, f.elem);
    }
  }

  /** One turn of the unwinding loop, up to hooking in the result. */
  method RemoveTurn(cnode: MapNode, cmp: Cmp, child: MapNode?, ghost root: MapNode?,
                    ghost above: Path<MapNode>, ghost f: Frame<MapNode>, ghost t: Tree<MapNode>)
    returns (restored: bool, top: MapNode)
    requires f.elem == cnode && FrameShape(f) && Shape(t, child) && Chain(above, root, cnode) && Unwindable(f)
    requires (cmp == Less) == f.side.ToLeft?
    requires Separate(Fill(f, t)) && PathNodes(above) !! Nodes(Fill(f, t))
    modifies Nodes(Fill(f, t))`left, Nodes(Fill(f, t))`right, Nodes(Fill(f, t))`red
    ensures Chain(above, root, cnode)
    ensures restored <==> RemoveStep(f, t).Restored?
    ensures Shape(RemoveStep(f, t).tree, top)
  {
    PathAllocated(above);
    TreeAllocated(Fill(f, t));
    Attach(cnode, cmp, child, f, t);
    if cmp == Less {
      restored, top := RemoveStepLeft(cnode, f, t);
    } else {
      restored, top := RemoveStepRight(cnode, f, t);
    }
  }

  method RemoveTurnAt(path: array<PathEntry>, i: nat, root: MapNode?, ghost up: Path<MapNode>, ghost t: Tree<MapNode>)
    returns (restored: bool, newRoot: MapNode?)
    requires i + 1 == |up| && Records(path, up) && Loose(up, root) && Unwindable(Last(up))
    requires Shape(t, path[i + 1].node)
    requires Separate(Plug(up, t))
    modifies path, Nodes(Plug(up, t))`left, Nodes(Plug(up, t))`right, Nodes(Plug(up, t))`red
    ensures restored <==> RemoveStep(Last(up), t).Restored?
    ensures restored ==> Shape(Plug(Front(up), RemoveStep(Last(up), t).tree), newRoot)
    ensures !restored ==>
      && Records(path, Front(up))
      && Chain(Front(up), root, Last(up).elem)
      && Shape(RemoveStep(Last(up), t).tree, path[i].node)
  {
    FillPlug(up, t);
    ghost var above, f := Front(up), Last(up);
    ghost var t' := RemoveStep(f, t).tree;
    var cnode, top := path[i].node, null;
    restored, top := RemoveTurn(cnode, path[i].cmp, path[i + 1].node, root, above, f, t);
    RemoveStepElems(f, t);
    SameElems(t', Fill(f, t));
    PlugSeparate(above, t');
    PlugSeparate(above, Fill(f, t));
    newRoot := root;
    if restored && top == cnode {
      // recoloured in place: still linked
      PlugShape(above, t', root, cnode);
    } else if restored {
      newRoot := Reattach(path, i, top, root, above, t', cnode);
    } else {
      SetNode(path, i, top, above, t', root, cnode);
    }
  }

  lemma RemoveTurnPicture(up: Path<MapNode>, t: Tree<MapNode>)
    requires up != [] && (forall f <- up :: Unwindable(f)) && Separate(Plug(up, t))
    ensures
      var t' := RemoveStep(Last(up), t).tree;
      && Separate(Plug(Front(up), t'))
      && Nodes(Plug(Front(up), t')) == Nodes(Plug(up, t))
  {
    var f, above := Last(up), Front(up);
    RemoveStepElems(f, t);
    SameElems(RemoveStep(f, t).tree, Fill(f, t));
    PlugSeparate(above, RemoveStep(f, t).tree);
    PlugSeparate(above, Fill(f, t));
  }

  /** The loop after pruning a black leaf: unwinds until balance is restored. */
  method RemoveFixup(path: array<PathEntry>, p: nat, root: MapNode?, ghost fs: Path<MapNode>, ghost t0: Tree<MapNode>)
    returns (newRoot: MapNode?)
    requires p == |fs| && Records(path, fs) && (forall f <- fs :: Unwindable(f))
    requires Shape(t0, path[p].node)
    requires Loose(fs, root)
    requires Separate(Plug(fs, t0))
    modifies path, Nodes(Plug(fs, t0))`left, Nodes(Plug(fs, t0))`right, Nodes(Plug(fs, t0))`red
    ensures Shape(RemoveUp(fs, t0), newRoot)
  {
    var i := p;
    ghost var t, up := t0, fs;
    while i > 0
      invariant 0 <= i <= p && |up| == i && up <= fs
      invariant Records(path, up) && Loose(up, root)
      invariant Shape(t, path[i].node)
      invariant Separate(Plug(up, t)) && Nodes(Plug(up, t)) == Nodes(Plug(fs, t0))
      invariant RemoveUp(up, t) == RemoveUp(fs, t0)
    {
      i := i - 1;
      assert Last(up) in fs;
      RemoveTurnPicture(up, t);
      var restored, r := RemoveTurnAt(path, i, root, up, t);
      if restored {
        return r;
      }
      t, up := RemoveStep(Last(up), t).tree, Front(up);
    }
    newRoot := path[0].node;
  }

  // ----- removal: finding the node and its successor

  lemma {:induction false} ChainConcat(fs: Path<MapNode>, gs: Path<MapNode>, root: MapNode?, mid: MapNode?,
                                       hole: MapNode?)
    requires Chain(fs, root, mid) && Chain(gs, mid, hole)
    ensures Chain(fs + gs, root, hole)
    decreases |gs|
  {
    if gs == [] {
      assert fs + gs == fs;
    } else {
      ChainConcat(fs, Front(gs), root, mid, Last(gs).elem);
      assert Front(fs + gs) == fs + Front(gs);
    }
  }

  lemma InMiddle(compare: (Key, Key) -> Cmp, b: seq<MapNode>, m: seq<MapNode>, a: seq<MapNode>, node: MapNode)
    requires TotalOrder(compare) && node in b + m + a
    requires AllBelow(compare, b, node.key) && AllAbove(compare, a, node.key)
    ensures node in m
  {
    assert compare(node.key, node.key) == Equal;
  }

  lemma SameKey(compare: (Key, Key) -> Cmp, es: seq<MapNode>, x: MapNode, y: MapNode)
    requires TotalOrder(compare) && Sorted(compare, es) && x in es && y in es && compare(x.key, y.key) == Equal
    ensures x == y
  {
    var i, j :| 0 <= i < |es| && 0 <= j < |es| && es[i] == x && es[j] == y;
    var a, b := x.key, y.key;
    assert i < j ==> compare(a, b) == Less;
    assert j < i ==> compare(b, a) == Less;
  }

  /** A key equal to that of a node of the tree leads to that node. */
  lemma FoundNode(compare: (Key, Key) -> Cmp, tree: Tree<MapNode>, fs: Path<MapNode>, t: Tree<MapNode>, node: MapNode)
    requires TotalOrder(compare) && Sorted(compare, Elems(tree)) && node in Nodes(tree)
    requires Descending(compare, node.key, tree, fs, t)
    ensures t.Node?
    ensures compare(node.key, t.elem.key) == Equal ==> t.elem == node
  {
    PlugElems(fs, t);
    NodesSet(tree);
    InMiddle(compare, Before(fs), Elems(t), After(fs), node);
    if t.Node? && compare(node.key, t.elem.key) == Equal {
      assert Elems(t)[|Elems(t.left)|] == t.elem;
      SameKey(compare, Elems(tree), node, t.elem);
    }
  }

  /** Descends to `node`, recording the path. */
  method RecordPathTo(compare: (Key, Key) -> Cmp, root: MapNode?, ghost tree: Tree<MapNode>, node: MapNode,
                      path: array<PathEntry>)
    returns (d: nat, ghost fs: Path<MapNode>, ghost t: Tree<MapNode>)
    requires TotalOrder(compare) && Sorted(compare, Elems(tree)) && WellFormed(tree) && Shape(tree, root)
    requires path.Length == RB_MAX_DEPTH && node in Nodes(tree) && Height(tree) < RB_MAX_DEPTH - 1
    modifies path
    ensures t.Node? && t.elem == node && d == |fs| && Records(path, fs) && path[d].node == node
    ensures Chain(fs, root, node) && Shape(t, node)
    ensures Descending(compare, node.key, tree, fs, t)
  {
    fs, t := [], tree;
    SetNode(path, 0, root, [], t, root, root);
    d := 0;
    FoundNode(compare, tree, fs, t, node);
    var cmp := compare(node.key, path[d].node.key);
    while cmp != Equal
      invariant d == |fs| && Records(path, fs)
      invariant Descending(compare, node.key, tree, fs, t) && t.Node?
      invariant Chain(fs, root, path[d].node) && Shape(t, path[d].node)
      invariant cmp == compare(node.key, t.elem.key)
      decreases t
    {
      var here := path[d].node;
      ghost var side := if cmp == Less then ToLeft else ToRight;
      DescendStep(compare, node.key, tree, fs, t, side);
      ChainStep(fs, t, root, side);
      fs, t := fs + [FrameAt(t, side)], Child(t, side);
      PathDown(path, d, cmp, if cmp == Less then here.left else here.right, fs, t, root);
      d := d + 1;
      FoundNode(compare, tree, fs, t, node);
      cmp := compare(node.key, path[d].node.key);
    }
    FoundNode(compare, tree, fs, t, node);
  }

  /** The path through `t` to the right, and then to the left along `gs`. */
  ghost function SuccessorPath(fs: Path<MapNode>, t: Tree<MapNode>, gs: Path<MapNode>): Path<MapNode>
    requires t.Node?
  {
    fs + [FrameAt(t, ToRight)] + gs
  }

  lemma {:induction false} ChainSplit(fs: Path<MapNode>, t: Tree<MapNode>, gs: Path<MapNode>, root: MapNode?,
                                      hole: MapNode?)
    requires t.Node? && Chain(SuccessorPath(fs, t, gs), root, hole)
    ensures Chain(fs, root, t.elem) && FrameShape(FrameAt(t, ToRight)) && Chain(gs, t.elem.right, hole)
    decreases |gs|
  {
    var up := SuccessorPath(fs, t, gs);
    if gs == [] {
      assert Front(up) == fs;
    } else {
      assert Front(up) == SuccessorPath(fs, t, Front(gs));
      ChainSplit(fs, t, Front(gs), root, Last(gs).elem);
    }
  }

  /** The path down the left links of `t`. */
  ghost function LeftSpine(t: Tree<MapNode>): (gs: Path<MapNode>)
    ensures AllLeft(gs) && |gs| <= Height(t) && (gs == [] <==> t.Leaf?)
  {
    if t.Leaf? then [] else [FrameAt(t, ToLeft)] + LeftSpine(t.left)
  }

  lemma ConcatAssoc(a: Path<MapNode>, b: Path<MapNode>, c: Path<MapNode>)
    ensures a + (b + c) == (a + b) + c
  {
  }

  lemma {:induction false} LeftSpineFits(fs: Path<MapNode>, t: Tree<MapNode>)
    requires Balanced(t) && Fits(fs, BlackHeight(t), IsRed(t))
    ensures Fits(fs + LeftSpine(t), 0, false) && Plug(fs + LeftSpine(t), Leaf) == Plug(fs, t)
    decreases t
  {
    if t.Leaf? {
      assert fs + [] == fs;
    } else {
      var g, rest := FrameAt(t, ToLeft), LeftSpine(t.left);
      Descend(fs, t, ToLeft);
      LeftSpineFits(fs + [g], t.left);
      ConcatAssoc(fs, [g], rest);
    }
  }

  method StepLeft(path: array<PathEntry>, p: nat, here: MapNode, ghost root: MapNode?, ghost up: Path<MapNode>,
                  ghost s: Tree<MapNode>)
    returns (ghost down: Path<MapNode>, ghost left: Tree<MapNode>)
    requires p == |up| && p + 1 < path.Length && Records(path, up) && path[p].node == here
    requires Chain(up, root, here) && Shape(s, here)
    modifies path
    ensures s.Node? && left == s.left && |down| == p + 1 && down + LeftSpine(left) == up + LeftSpine(s)
    ensures Records(path, down) && Chain(down, root, path[p + 1].node) && Shape(left, path[p + 1].node)
  {
    ChainStep(up, s, root, ToLeft);
    down, left := up + [FrameAt(s, ToLeft)], s.left;
    assert Front(down) == up;
    PathDown(path, p, Less, here.left, down, left, root);
  }

  /** Follows left links to their end, recording the path. */
  method RecordLeftSpine(path: array<PathEntry>, p0: nat, ghost root: MapNode?, ghost up0: Path<MapNode>,
                         ghost s0: Tree<MapNode>)
    returns (p: nat)
    requires p0 == |up0| && Records(path, up0) && Chain(up0, root, path[p0].node) && Shape(s0, path[p0].node)
    requires |up0| + Height(s0) < path.Length
    modifies path
    ensures p == p0 + |LeftSpine(s0)|
    ensures Records(path, up0 + LeftSpine(s0)) && path[p].node == null && Chain(up0 + LeftSpine(s0), root, null)
  {
    ghost var s, up := s0, up0;
    p := p0;
    while path[p].node != null
      invariant p == |up| && up + LeftSpine(s) == up0 + LeftSpine(s0)
      invariant Records(path, up)
      invariant Chain(up, root, path[p].node) && Shape(s, path[p].node)
      decreases |LeftSpine(s)|
    {
      up, s := StepLeft(path, p, path[p].node, root, up, s);
      p := p + 1;
    }
    assert up + [] == up;
  }

  /** Descends from the node found to its successor, or stays if there is no right child. */
  method RecordSuccessor(path: array<PathEntry>, d: nat, node: MapNode, ghost root: MapNode?, ghost fs: Path<MapNode>,
                         ghost t: Tree<MapNode>)
    returns (p: nat, ghost gs: Path<MapNode>)
    requires t.Node? && t.elem == node && Shape(t, node)
    requires d == |fs| && Records(path, fs) && path[d].node == node && Chain(fs, root, node)
    requires Balanced(t) && |fs| + Height(t) < path.Length - 1 && Fits(fs, BlackHeight(t), IsRed(t))
    modifies path
    ensures AllLeft(gs) && p == d + |gs| && (gs == [] <==> t.right.Leaf?)
    ensures
      var up := SuccessorPath(fs, t, gs);
      && Records(path, up)
      && Chain(up, root, null)
      && Plug(up, Leaf) == Plug(fs, t)
      && Fits(up, 0, false)
  {
    ghost var up := fs + [FrameAt(t, ToRight)];
    Descend(fs, t, ToRight);
    ChainStep(fs, t, root, ToRight);
    assert Front(up) == fs && Last(up) == FrameAt(t, ToRight);
    PathDown(path, d, Greater, node.right, up, t.right, root);
    gs := LeftSpine(t.right);
    LeftSpineFits(up, t.right);
    p := RecordLeftSpine(path, d + 1, root, up, t.right);
    p := p - 1;
  }

  // ----- removal: swapping with the successor, and pruning

  method SetLink(cnode: MapNode, cmp: Cmp, child: MapNode?, ghost f: Frame<MapNode>)
    requires f.elem == cnode && FrameShape(f) && cnode !in Nodes(f.sibling)
    requires (cmp == Less) == f.side.ToLeft?
    modifies cnode`left, cnode`right
    ensures FrameShape(f) && (if f.side.ToLeft? then cnode.left else cnode.right) == child
  {
    if cmp == Less {
      cnode.left := child;
    } else {
      cnode.right := child;
    }
  }

  /** Makes the parent, or the root, point to `child` instead of the node found. */
  method RelinkParent(path: array<PathEntry>, d: nat, root: MapNode?, child: MapNode, ghost fs: Path<MapNode>,
                      ghost node: MapNode)
    returns (newRoot: MapNode?)
    requires d == |fs| && Records(path, fs) && Chain(fs, root, node) && PathSeparate(fs)
    modifies PathNodes(fs)`left, PathNodes(fs)`right
    ensures Chain(fs, newRoot, child)
  {
    newRoot := root;
    if d == 0 {
      newRoot := child;
    } else {
      PathAllocated(Front(fs));
      SetLink(path[d - 1].node, path[d - 1].cmp, child, Last(fs));
    }
  }

  /** The successor takes the node's colour and links.  When it is the node's right child
      its right link then points to itself, until the pruning below overwrites it. */
  method TakePlace(node: MapNode, succ: MapNode, ghost l: Tree<MapNode>, ghost hs: Path<MapNode>)
    requires node != succ && node !in Nodes(l) && succ !in Nodes(l) && node !in PathNodes(hs) && succ !in PathNodes(hs)
    requires Shape(l, node.left) && Chain(hs, node.right, succ)
    modifies succ`left, succ`right, succ`red, node`red
    ensures node.red == old(succ.red) && succ.red == old(node.red)
    ensures Shape(l, succ.left) && Chain(hs, succ.right, succ)
  {
    var tcolor := succ.red;
    succ.red := node.red;
    succ.left := node.left;
    succ.right := node.right;
    node.red := tcolor;
  }

  lemma ChainThrough(fs: Path<MapNode>, f: Frame<MapNode>, hs: Path<MapNode>, root: MapNode?, hole: MapNode?)
    requires f.side.ToRight? && FrameShape(f) && Chain(fs, root, f.elem) && Chain(hs, f.elem.right, hole)
    ensures Chain(fs + [f] + hs, root, hole)
  {
    ChainConcat(fs, [f], root, f.elem, f.elem.right);
    ChainConcat(fs + [f], hs, root, f.elem.right, hole);
  }

  lemma ThreeParts<E>(fs: Path<E>, f: Frame<E>, hs: Path<E>)
    ensures PathNodes(fs + [f] + hs) == PathNodes(fs) + ({f.elem} + Nodes(f.sibling)) + PathNodes(hs)
    ensures PathSeparate(fs + [f] + hs) ==>
      && PathSeparate(fs)
      && f.elem !in Nodes(f.sibling)
      && PathNodes(fs) !! ({f.elem} + Nodes(f.sibling))
      && PathNodes(hs) !! ({f.elem} + Nodes(f.sibling))
      && PathNodes(hs) !! PathNodes(fs)
  {
    PathConcat(fs + [f], hs);
    PathConcat(fs, [f]);
  }

  method SwapSuccessor(path: array<PathEntry>, d: nat, node: MapNode, succ: MapNode, root: MapNode?,
                       ghost fs: Path<MapNode>, ghost f: Frame<MapNode>, ghost hs: Path<MapNode>)
    returns (newRoot: MapNode?)
    requires d == |fs| && Records(path, fs)
    requires f.elem == node && f.side.ToRight?
    requires FrameShape(f) && Chain(fs, root, node) && Chain(hs, node.right, succ)
    requires PathSeparate(fs + [f] + hs) && succ !in PathNodes(fs + [f] + hs)
    modifies succ`left, succ`right, succ`red, node`red, PathNodes(fs)`left, PathNodes(fs)`right
    ensures node.red == old(succ.red)
    ensures Chain(fs + [f.(elem := succ)] + hs, newRoot, succ)
  {
    ghost var f' := f.(elem := succ);
    ThreeParts(fs, f, hs);
    PathAllocated(fs);
    PathAllocated(hs);
    TreeAllocated(f.sibling);
    TakePlace(node, succ, f.sibling, hs);
    newRoot := RelinkParent(path, d, root, succ, fs, node);
    assert FrameShape(f') && Chain(hs, succ.right, succ);
    ChainThrough(fs, f', hs, newRoot, succ);
  }

  method SwapEntries(path: array<PathEntry>, d: nat, p: nat, node: MapNode, succ: MapNode, ghost root: MapNode?,
                     ghost fs: Path<MapNode>, ghost f: Frame<MapNode>, ghost hs: Path<MapNode>)
    requires d == |fs| && p == d + 1 + |hs| && p < path.Length && Records(path, fs + [f] + hs)
    requires Chain(fs + [f.(elem := succ)] + hs, root, succ)
    modifies path
    ensures Records(path, fs + [f.(elem := succ)] + hs) && path[p].node == node
    ensures Chain(fs + [f.(elem := succ)] + hs, root, succ)
  {
    ghost var us := fs + [f.(elem := succ)] + hs;
    assert forall n <- PathNodes(us) :: n as object != path;
    path[d], path[p] := PathEntry(succ, path[d].cmp), PathEntry(node, path[p].cmp);
    assert Chain(us, root, succ);
  }

  /** Cuts off the leaf at the end of the path, and restores the balance if it is black. */
  method Prune(path: array<PathEntry>, p: nat, node: MapNode, root: MapNode?, ghost fs: Path<MapNode>,
               ghost hole: MapNode?)
    returns (newRoot: MapNode?)
    requires fs != [] && p == |fs| < path.Length && Records(path, fs) && Chain(fs, root, hole)
    requires PathSeparate(fs) && Fits(fs, if node.red then 0 else 1, node.red)
    modifies path, PathNodes(fs)`left, PathNodes(fs)`right, PathNodes(fs)`red
    ensures (forall f <- fs :: Unwindable(f) || old(node.red)) && Shape(Pruned(fs, old(node.red)), newRoot)
  {
    PrunedWellFormed(fs, node.red);
    PlugSeparate<MapNode>(fs, Leaf);
    if node.red {
      FillSeparate<MapNode>(Last(fs), Leaf);
      PathAllocated(Front(fs));
      Attach(path[p - 1].node, path[p - 1].cmp, null, Last(fs), Leaf);
      PlugShape(fs, Leaf, root, null);
      newRoot := root;
    } else {
      FitsUnwindable(fs, 0, false);
      SetNode(path, p, null, fs, Leaf, root, hole);
      newRoot := RemoveFixup(path, p, root, fs, Leaf);
    }
  }

  // ----- removal of a node

  lemma NoDupWithout<E>(a: seq<E>, e: E, b: seq<E>)
    requires NoDup(a + [e] + b)
    ensures NoDup(a + b) && SetOf(a + b) == SetOf(a + [e] + b) - {e}
  {
    NoDupThree(a, e, b);
    NoDupConcat(a, b);
    NoDupConcat(a + [e], b);
    NoDupConcat(a, [e]);
    assert SetOf([e]) == {e};
  }

  lemma {:induction false} PlugLeaf<E>(fs: Path<E>)
    ensures Elems(Plug(fs, Leaf)) == Before(fs) + After(fs)
  {
    PlugElems<E>(fs, Leaf);
    assert Before(fs) + [] == Before(fs);
  }

  /** The path to the hole after the swap: the successor stands where the node was. */
  ghost function SwappedPath(fs: Path<MapNode>, t: Tree<MapNode>, gs: Path<MapNode>): Path<MapNode>
    requires t.Node? && gs != []
  {
    fs + [FrameAt(t, ToRight).(elem := Last(gs).elem)] + Front(gs)
  }

  lemma SuccessorFits(fs: Path<MapNode>, t: Tree<MapNode>, gs: Path<MapNode>)
    requires t.Node? && gs != [] && AllLeft(gs) && Fits(SuccessorPath(fs, t, gs), 0, false)
    ensures
      var s, us' := Last(gs), SwappedPath(fs, t, gs);
      && Fits(us', if s.red then 0 else 1, s.red)
      && (s.red ==> Front(gs) != [])
      && Last(SuccessorPath(fs, t, gs)) == s && s.sibling == Leaf && s.side.ToLeft?
      && Front(SuccessorPath(fs, t, gs)) == SuccessorPath(fs, t, Front(gs))
      && Before(SuccessorPath(fs, t, Front(gs))) == Before(fs) + Elems(t.left) + [t.elem]
      && Before(us') == Before(fs) + Elems(t.left) + [s.elem]
      && After(us') == After(SuccessorPath(fs, t, Front(gs)))
  {
    var f, s, hs := FrameAt(t, ToRight), Last(gs), Front(gs);
    var us, up := SuccessorPath(fs, t, hs), SuccessorPath(fs, t, gs);
    assert Front(up) == us && Last(up) == s && s in gs;
    ReplaceElem(fs, f, s.elem, hs, if s.red then 0 else 1, s.red);
    if hs == [] {
      assert us == fs + [f] && Last(us) == f;
    }
  }

  lemma SuccessorElems(tree: Tree<MapNode>, fs: Path<MapNode>, t: Tree<MapNode>, gs: Path<MapNode>)
    returns (a: seq<MapNode>, b: seq<MapNode>)
    requires t.Node? && gs != [] && AllLeft(gs) && Separate(tree)
    requires Plug(SuccessorPath(fs, t, gs), Leaf) == tree && Fits(SuccessorPath(fs, t, gs), 0, false)
    ensures Elems(tree) == a + [t.elem] + b
    ensures Before(SwappedPath(fs, t, gs)) + After(SwappedPath(fs, t, gs)) == a + b
    ensures PathSeparate(SwappedPath(fs, t, gs))
    ensures PathSeparate(SuccessorPath(fs, t, Front(gs)))
      && Last(gs).elem !in PathNodes(SuccessorPath(fs, t, Front(gs)))
  {
    a, b := AroundSuccessor(tree, fs, t, gs);
    SeparateNoDup(tree);
    SwappedSeparate(SwappedPath(fs, t, gs), a, t.elem, b);
    SuccessorFits(fs, t, gs);
    PlugSeparate<MapNode>(SuccessorPath(fs, t, gs), Leaf);
  }

  lemma AroundSuccessor(tree: Tree<MapNode>, fs: Path<MapNode>, t: Tree<MapNode>, gs: Path<MapNode>)
    returns (a: seq<MapNode>, b: seq<MapNode>)
    requires t.Node? && gs != [] && AllLeft(gs)
    requires Plug(SuccessorPath(fs, t, gs), Leaf) == tree && Fits(SuccessorPath(fs, t, gs), 0, false)
    ensures Elems(tree) == a + [t.elem] + b
    ensures Before(SwappedPath(fs, t, gs)) + After(SwappedPath(fs, t, gs)) == a + b
  {
    var s, up, us' := Last(gs), SuccessorPath(fs, t, gs), SwappedPath(fs, t, gs);
    SuccessorFits(fs, t, gs);
    PlugLeaf(up);
    PlugLeaf(us');
    a, b := Before(fs) + Elems(t.left), [s.elem] + After(us');
    assert After(up) == [s.elem] + [] + After(us');
  }

  lemma SwappedSeparate(us: Path<MapNode>, a: seq<MapNode>, e: MapNode, b: seq<MapNode>)
    requires NoDup(a + [e] + b) && Before(us) + After(us) == a + b
    ensures PathSeparate(us)
  {
    NoDupWithout(a, e, b);
    PlugLeaf(us);
    SeparateNoDup(Plug(us, Leaf));
    PlugSeparate<MapNode>(us, Leaf);
  }

  method SwapNodes(path: array<PathEntry>, d: nat, p: nat, node: MapNode, root: MapNode?,
                   ghost fs: Path<MapNode>, ghost t: Tree<MapNode>, ghost gs: Path<MapNode>)
    returns (newRoot: MapNode?)
    requires t.Node? && t.elem == node && gs != []
    requires PathSeparate(SuccessorPath(fs, t, Front(gs)))
      && Last(gs).elem !in PathNodes(SuccessorPath(fs, t, Front(gs)))
    requires Front(SuccessorPath(fs, t, gs)) == SuccessorPath(fs, t, Front(gs)) && Last(gs).side.ToLeft?
    requires d == |fs| && p == d + |gs| && Records(path, SuccessorPath(fs, t, gs))
      && Chain(SuccessorPath(fs, t, gs), root, null)
    modifies path, PathNodes(SuccessorPath(fs, t, gs))`left, PathNodes(SuccessorPath(fs, t, gs))`right,
        PathNodes(SuccessorPath(fs, t, gs))`red
    ensures node.red == Last(gs).red
    ensures Records(path, SwappedPath(fs, t, gs)) && Chain(SwappedPath(fs, t, gs), newRoot, Last(gs).elem)
  {
    ghost var f, s, hs := FrameAt(t, ToRight), Last(gs), Front(gs);
    assert Last(SuccessorPath(fs, t, gs)) == s;
    ChainSplit(fs, t, hs, root, s.elem);
    ThreeParts(fs, f, hs);
    newRoot := SwapSuccessor(path, d, node, path[p].node, root, fs, f, hs);
    SwapEntries(path, d, p, node, path[p].node, newRoot, fs, f, hs);
  }

  lemma SwappedNodes(fs: Path<MapNode>, t: Tree<MapNode>, gs: Path<MapNode>)
    requires t.Node? && gs != [] && Front(SuccessorPath(fs, t, gs)) == SuccessorPath(fs, t, Front(gs))
    ensures PathNodes(SwappedPath(fs, t, gs)) <= PathNodes(SuccessorPath(fs, t, gs))
  {
    var f, hs := FrameAt(t, ToRight), Front(gs);
    ThreeParts(fs, f, hs);
    ThreeParts(fs, f.(elem := Last(gs).elem), hs);
  }

  method RemoveWithSuccessor(path: array<PathEntry>, d: nat, p: nat, node: MapNode, root: MapNode?,
                             ghost tree: Tree<MapNode>, ghost fs: Path<MapNode>, ghost t: Tree<MapNode>,
                             ghost gs: Path<MapNode>)
    returns (newRoot: MapNode?, ghost t': Tree<MapNode>, ghost a: seq<MapNode>, ghost b: seq<MapNode>)
    requires t.Node? && t.elem == node && gs != [] && AllLeft(gs) && Separate(tree)
    requires Plug(SuccessorPath(fs, t, gs), Leaf) == tree && Fits(SuccessorPath(fs, t, gs), 0, false)
    requires d == |fs| && p == d + |gs| && Records(path, SuccessorPath(fs, t, gs))
      && Chain(SuccessorPath(fs, t, gs), root, null)
    modifies path, Nodes(tree)`left, Nodes(tree)`right, Nodes(tree)`red
    ensures Shape(t', newRoot) && WellFormed(t') && Elems(t') == a + b && Elems(tree) == a + [node] + b
  {
    ghost var red, us' := Last(gs).red, SwappedPath(fs, t, gs);
    a, b := SuccessorElems(tree, fs, t, gs);
    SuccessorFits(fs, t, gs);
    SwappedNodes(fs, t, gs);
    PlugSeparate<MapNode>(SuccessorPath(fs, t, gs), Leaf);
    var r := SwapNodes(path, d, p, node, root, fs, t, gs);
    newRoot := Prune(path, p, node, r, us', Last(gs).elem);
    t' := Pruned(us', red);
    PrunedWellFormed(us', red);
  }

  lemma InPlaceElems(tree: Tree<MapNode>, fs: Path<MapNode>, t: Tree<MapNode>)
    requires t.Node? && t.right.Leaf? && Balanced(t) && Separate(tree)
    requires Plug(fs, t) == tree && Fits(fs, BlackHeight(t), IsRed(t))
    ensures Elems(tree) == (Before(fs) + Elems(t.left)) + [t.elem] + After(fs)
    ensures
      var t' := Plug(fs, Blacken(t.left));
      && Separate(t') && Elems(t') == (Before(fs) + Elems(t.left)) + After(fs)
      && Nodes(t') <= Nodes(tree) && t.elem !in Nodes(t')
    ensures t.left.Node? ==> IsRed(t.left) && WellFormed(Plug(fs, Blacken(t.left)))
    ensures t.left.Leaf? ==> BlackHeight(t) == if t.red then 0 else 1
  {
    PlugElems(fs, t);
    PlugElems(fs, Blacken(t.left));
    assert Elems(Blacken(t.left)) == Elems(t.left);
    ghost var a := Before(fs) + Elems(t.left);
    assert Elems(t) == Elems(t.left) + [t.elem] + [];
    assert Elems(tree) == a + [t.elem] + After(fs);
    SeparateNoDup(tree);
    NoDupWithout(a, t.elem, After(fs));
    SeparateNoDup(Plug(fs, Blacken(t.left)));
    NodesSet(tree);
    NodesSet(Plug(fs, Blacken(t.left)));
    if t.left.Node? {
      PlugWellFormed(fs, Blacken(t.left));
    }
  }

  /** Removes a node that has no right child. */
  method RemoveInPlace(path: array<PathEntry>, d: nat, node: MapNode, root: MapNode?,
                       ghost tree: Tree<MapNode>, ghost fs: Path<MapNode>, ghost t: Tree<MapNode>)
    returns (newRoot: MapNode?, ghost t': Tree<MapNode>)
    requires t.Node? && t.elem == node && t.right.Leaf? && Balanced(t) && Separate(tree)
    requires Plug(fs, t) == tree && Fits(fs, BlackHeight(t), IsRed(t))
    requires d == |fs| < path.Length && Records(path, fs) && Chain(fs, root, node) && Shape(t, node)
    modifies path, Nodes(tree)`left, Nodes(tree)`right, Nodes(tree)`red
    ensures Shape(t', newRoot) && WellFormed(t')
    ensures Elems(t') == (Before(fs) + Elems(t.left)) + After(fs)
    ensures Elems(tree) == (Before(fs) + Elems(t.left)) + [node] + After(fs)
  {
    var left := node.left;
    assert Elems(tree) == (Before(fs) + Elems(t.left)) + [node] + After(fs) by {
      InPlaceElems(tree, fs, t);
    }
    if left != null {
      newRoot, t' := SpliceIn(path, d, node, left, root, tree, fs, t);
    } else if d == 0 {
      newRoot, t' := null, Leaf;
    } else {
      newRoot, t' := PruneIn(path, d, node, root, tree, fs, t);
    }
  }

  /** Splices the node out if it has a left child. */
  method SpliceIn(path: array<PathEntry>, d: nat, node: MapNode, left: MapNode, root: MapNode?,
                  ghost tree: Tree<MapNode>, ghost fs: Path<MapNode>, ghost t: Tree<MapNode>)
    returns (newRoot: MapNode?, ghost t': Tree<MapNode>)
    requires t.Node? && t.elem == node && t.right.Leaf? && Balanced(t) && Separate(tree) && left == node.left
    requires Plug(fs, t) == tree && Fits(fs, BlackHeight(t), IsRed(t))
    requires d == |fs| < path.Length && Records(path, fs) && Chain(fs, root, node) && Shape(t, node)
    modifies path, Nodes(tree)`left, Nodes(tree)`right, Nodes(tree)`red
    ensures Shape(t', newRoot) && WellFormed(t') && Elems(t') == (Before(fs) + Elems(t.left)) + After(fs)
  {
    InPlaceElems(tree, fs, t);
    newRoot := Splice(path, d, node, left, root, tree, fs, t);
    t' := Plug(fs, Blacken(t.left));
  }

  /** Prunes the node if it is a leaf. */
  method PruneIn(path: array<PathEntry>, d: nat, node: MapNode, root: MapNode?,
                 ghost tree: Tree<MapNode>, ghost fs: Path<MapNode>, ghost t: Tree<MapNode>)
    returns (newRoot: MapNode?, ghost t': Tree<MapNode>)
    requires t.Node? && t.elem == node && t.left.Leaf? && t.right.Leaf? && Separate(tree) && Plug(fs, t) == tree
    requires Fits(fs, BlackHeight(t), IsRed(t)) && fs != []
    requires d == |fs| < path.Length && Records(path, fs) && Chain(fs, root, node) && Shape(t, node)
    modifies path, Nodes(tree)`left, Nodes(tree)`right, Nodes(tree)`red
    ensures Shape(t', newRoot) && WellFormed(t') && Elems(t') == (Before(fs) + Elems(t.left)) + After(fs)
  {
    assert BlackHeight(t.left) == 0 && BlackHeight(t) == (if t.red then 0 else 1);
    PlugSeparate(fs, t);
    newRoot := Prune(path, d, node, root, fs, node);
    PrunedWellFormed(fs, t.red);
    t' := Pruned(fs, t.red);
  }

  /** Splices the node out without losing its left child. */
  method Splice(path: array<PathEntry>, d: nat, node: MapNode, left: MapNode, root: MapNode?,
                ghost tree: Tree<MapNode>, ghost fs: Path<MapNode>, ghost t: Tree<MapNode>)
    returns (newRoot: MapNode?)
    requires t.Node? && t.elem == node && left == node.left && Separate(tree) && Plug(fs, t) == tree
    requires Separate(Plug(fs, Blacken(t.left)))
    requires d == |fs| < path.Length && Records(path, fs) && Chain(fs, root, node) && Shape(t, node)
    modifies path, Nodes(tree)`left, Nodes(tree)`right, Nodes(tree)`red
    ensures Shape(Plug(fs, Blacken(t.left)), newRoot)
  {
    PlugSeparate(fs, t);
    SeparateParts(t);
    PathAllocated(fs);
    BlackenRoot(t.left, left);
    newRoot := Reattach(path, d, left, root, fs, Blacken(t.left), node);
  }

  /** Unlinks `node` from the tree; its neighbours in key order stay as they were. */
  method RbRemove(compare: (Key, Key) -> Cmp, root: MapNode?, ghost tree: Tree<MapNode>, node: MapNode)
    returns (newRoot: MapNode?, ghost t': Tree<MapNode>, ghost a: seq<MapNode>, ghost b: seq<MapNode>)
    requires TotalOrder(compare) && Sorted(compare, Elems(tree)) && WellFormed(tree) && Shape(tree, root)
    requires node in Nodes(tree) && Height(tree) < RB_MAX_DEPTH - 1
    modifies Nodes(tree)`left, Nodes(tree)`right, Nodes(tree)`red
    ensures Shape(t', newRoot) && WellFormed(t')
    ensures Elems(tree) == a + [node] + b && Elems(t') == a + b
  {
    SortedNoDup(compare, Elems(tree));
    SeparateNoDup(tree);
    TreeAllocated(tree);
    var path := new PathEntry[RB_MAX_DEPTH](_ => PathEntry(null, Equal));
    newRoot, t', a, b := RbRemoveVia(compare, root, tree, node, path);
  }

  /** The last recorded node is the successor, or the node itself if it has no right child. */
  lemma SuccessorOrSelf(path: array<PathEntry>, d: nat, p: nat, node: MapNode, root: MapNode?,
                        tree: Tree<MapNode>, fs: Path<MapNode>, t: Tree<MapNode>, gs: Path<MapNode>)
    requires t.Node? && t.elem == node && Separate(tree) && Plug(SuccessorPath(fs, t, gs), Leaf) == tree
    requires (gs == [] <==> t.right.Leaf?) && d == |fs| && p == d + |gs|
    requires Records(path, SuccessorPath(fs, t, gs)) && Chain(SuccessorPath(fs, t, gs), root, null)
    ensures path[p].node == node <==> gs == []
    ensures gs == [] ==> Records(path, fs) && Chain(fs, root, node) && Shape(t, node)
  {
    var f, up := FrameAt(t, ToRight), SuccessorPath(fs, t, gs);
    if gs == [] {
      ChainSplit(fs, t, gs, root, null);
      assert up[d] == f && forall i :: 0 <= i < d ==> up[i] == fs[i];
    } else {
      PlugSeparate<MapNode>(up, Leaf);
      ThreeParts(fs, f, gs);
      assert up[p] == Last(gs);
    }
  }

  method RbRemoveVia(compare: (Key, Key) -> Cmp, root: MapNode?, ghost tree: Tree<MapNode>, node: MapNode,
                     path: array<PathEntry>)
    returns (newRoot: MapNode?, ghost t': Tree<MapNode>, ghost a: seq<MapNode>, ghost b: seq<MapNode>)
    requires TotalOrder(compare) && Sorted(compare, Elems(tree)) && WellFormed(tree) && Shape(tree, root)
      && Separate(tree)
    requires node in Nodes(tree) && Height(tree) < RB_MAX_DEPTH - 1 && path.Length == RB_MAX_DEPTH
    modifies path, Nodes(tree)`left, Nodes(tree)`right, Nodes(tree)`red
    ensures Shape(t', newRoot) && WellFormed(t')
    ensures Elems(tree) == a + [node] + b && Elems(t') == a + b
  {
    var d, fs, t := RecordPathTo(compare, root, tree, node, path);
    var p, gs := RecordSuccessor(path, d, node, root, fs, t);
    SuccessorOrSelf(path, d, p, node, root, tree, fs, t, gs);
    if path[p].node != node {
      newRoot, t', a, b := RemoveWithSuccessor(path, d, p, node, root, tree, fs, t, gs);
    } else {
      newRoot, t' := RemoveInPlace(path, d, node, root, tree, fs, t);
      a, b := Before(fs) + Elems(t.left), After(fs);
    }
  }

  class Map {
    const compare: (Key, Key) -> Cmp
    var root: MapNode?
    var size: nat
    ghost var tree: Tree<MapNode>

    ghost predicate Valid()
      reads this, Nodes(tree)
    {
      && TotalOrder(compare)
      && WellFormed(tree)
      && Shape(tree, root)
      && Sorted(compare, Elems(tree))
      && size == |Elems(tree)|
    }

    /** The key/value bindings. */
    ghost function Contents(): map<Key, Value>
      reads this
    {
      Bindings(Elems(tree))
    }

    constructor (compare: (Key, Key) -> Cmp)
      requires TotalOrder(compare)
      ensures Valid() && Contents() == map[] && this.compare == compare
    {
      this.compare := compare;
      root, size, tree := null, 0, Leaf;
    }

    /** The single traversal of an insertion, which also records the path. */
    method InsertUnique(key: Key, path: array<PathEntry>) returns (r: Search, p: nat, ghost fs: Path<MapNode>)
      requires Valid() && path.Length == RB_MAX_DEPTH
      modifies path
      ensures Valid() && Contents() == old(Contents())
      ensures r.Present? ==> key in Contents()
      ensures r.TooDeep? ==> size + 1 >= Pow2(64)
      ensures r.Absent? ==>
        && p == |fs|
        && Records(path, fs)
        && Chain(fs, root, null)
        && Descending(compare, key, tree, fs, Leaf)
        && key !in Contents()
    {
      r, p, fs := RecordPath(compare, root, tree, key, path);
      if r.Present? {
        Lookup(key, r.node);
      } else if r.TooDeep? {
        if size + 1 < Pow2(64) {
          HeightBelow(tree, 63);
        }
      } else {
        LookupAbsent(key, fs);
      }
    }

    lemma Lookup(key: Key, n: MapNode)
      requires Valid() && n in Nodes(tree) && n.key == key
      ensures key in Contents() && Contents()[key] == n.data
    {
      NodesSet(tree);
      BindingsOf(compare, Elems(tree));
    }

    lemma LookupAbsent(key: Key, fs: Path<MapNode>)
      requires Valid() && Descending(compare, key, tree, fs, Leaf)
      ensures key !in Contents() && Elems(tree) == Before(fs) + After(fs)
    {
      PlugElems(fs, Leaf);
      assert Before(fs) + [] + After(fs) == Before(fs) + After(fs);
      NodesSet(tree);
      BindingsAbsent(Elems(tree), key);
    }

    lemma InsertedTree(fs: Path<MapNode>, node: MapNode)
      requires Valid() && Descending(compare, node.key, tree, fs, Leaf) && node.key !in Contents()
      ensures
        var t := InsertUp(fs, Node(true, Leaf, node, Leaf));
        && t.Node? && Separate(Plug(fs, Node(true, Leaf, node, Leaf)))
        && Nodes(Plug(fs, Node(true, Leaf, node, Leaf))) == Nodes(tree) + {node}
        && Nodes(t) == Nodes(tree) + {node} && Separate(t)
        && WellFormed(Blacken(t)) && Elems(Blacken(t)) == Before(fs) + [node] + After(fs)
        && Sorted(compare, Elems(Blacken(t)))
    {
      ghost var t0, b, a := Node(true, Leaf, node, Leaf), Before(fs), After(fs);
      LookupAbsent(node.key, fs);
      InsertUpWellFormed(fs, t0);
      PlugElems(fs, t0);
      assert [] + [node] + [] == [node];
      SortedParts(compare, b, a);
      SortedConcat(compare, b, node, a);
      SortedNoDup(compare, b + [node] + a);
      var t := InsertUp(fs, t0);
      assert Elems(t) == Elems(Blacken(t));
      SeparateNoDup(t);
      SameElems(t, Plug(fs, t0));
      PlugSeparate(fs, t0);
      PlugSeparate(fs, Leaf);
    }

    method InsertAbsent(key: Key, val: Value, path: array<PathEntry>, p: nat, ghost fs: Path<MapNode>)
      returns (node: MapNode)
      requires Valid() && path.Length == RB_MAX_DEPTH && p == |fs| && Records(path, fs)
      requires Chain(fs, root, null) && Descending(compare, key, tree, fs, Leaf) && key !in Contents()
      modifies this, path, Nodes(tree)`left, Nodes(tree)`right, Nodes(tree)`red
      ensures Valid() && fresh(node) && Nodes(tree) == old(Nodes(tree)) + {node}
      ensures Contents() == old(Contents())[key := val] && size == old(size) + 1
    {
      TreeAllocated(tree);
      LookupAbsent(key, fs);
      node := new MapNode(key, val);
      ghost var t := InsertUp(fs, Node(true, Leaf, node, Leaf));
      InsertedTree(fs, node);
      PlugSeparate(fs, Leaf);
      var top := LinkAtEnd(path, p, node, root, fs);
      BindingsInsert(Before(fs), node, After(fs));
      assert |Elems(Blacken(t))| == size + 1;
      Adopt(top, size + 1, Blacken(t));
    }

    /** Stores the new root and size. */
    method Adopt(top: MapNode?, n: nat, ghost t: Tree<MapNode>)
      requires TotalOrder(compare) && WellFormed(t) && Shape(t, top) && Sorted(compare, Elems(t)) && n == |Elems(t)|
      modifies this
      ensures Valid() && tree == t && root == top && size == n
    {
      assert forall node <- Nodes(t) :: node as object != this;
      root, size, tree := top, n, t;
      assert Shape(t, root);
    }

    /** Inserts a fresh key; a present key, a failed allocation or a tree too deep for the
        path array changes nothing. */
    method Insert(key: Key, val: Value, allocates: bool) returns (ok: bool)
      requires Valid()
      modifies this, Nodes(tree)`left, Nodes(tree)`right, Nodes(tree)`red
      ensures Valid()
      ensures fresh(Nodes(tree) - old(Nodes(tree))) && old(Nodes(tree)) <= Nodes(tree)
      ensures key in old(Contents()) ==> !ok
      ensures key !in old(Contents()) && allocates && old(size) + 1 < Pow2(64) ==> ok
      ensures ok ==> Contents() == old(Contents())[key := val] && size == old(size) + 1
      ensures !ok ==> tree == old(tree) && Contents() == old(Contents()) && size == old(size)
    {
      TreeAllocated(tree);
      var path := new PathEntry[RB_MAX_DEPTH](_ => PathEntry(null, Equal));
      var r, p, fs := InsertUnique(key, path);
      ok := r.Absent? && allocates;
      if ok {
        var node := InsertAbsent(key, val, path, p, fs);
      }
    }

    /** Removes exactly the binding of `node`, a node of the map. */
    method Erase(node: MapNode?) returns (ghost i: nat)
      requires Valid() && size + 1 < Pow2(64)
      requires node != null ==> node in Nodes(tree)
      modifies this, Nodes(tree)`left, Nodes(tree)`right, Nodes(tree)`red
      ensures Valid()
      ensures node == null ==> tree == old(tree) && size == old(size)
      ensures node != null ==>
        && i < |old(Elems(tree))| && old(Elems(tree))[i] == node
        && Elems(tree) == old(Elems(tree))[..i] + old(Elems(tree))[i + 1..]
        && Contents() == old(Contents()) - {node.key}
        && size == old(size) - 1
    {
      if node == null || size == 0 {
        return 0;
      }
      HeightBelow(tree, 63);
      var newRoot, t', a, b := RbRemove(compare, root, tree, node);
      i := |a|;
      SortedConcat(compare, a, node, b);
      SortedWithout(compare, a, b, node.key);
      BindingsInsert(a, node, b);
      assert (a + [node] + b)[..i] == a && (a + [node] + b)[i + 1..] == b;
      Adopt(newRoot, size - 1, t');
    }

    // ----- lookup and iteration; the map is not changed

    method Find(key: Key) returns (it: MapNode?)
      requires Valid()
      ensures it == null <==> key !in Contents()
      ensures it != null ==> it in Nodes(tree) && it.key == key && Contents()[key] == it.data
    {
      TreeAllocated(tree);
      ghost var fs, t;
      it, fs, t := Descent(compare, root, tree, key);
      if it == null {
        LookupAbsent(key, fs);
      } else {
        PlugSeparate(fs, t);
        Lookup(key, it);
      }
    }

    method Size() returns (n: nat)
      requires Valid()
      ensures n == |Contents()|
    {
      BindingsOf(compare, Elems(tree));
      n := size;
    }

    method Empty() returns (empty: bool)
      requires Valid()
      ensures empty <==> Contents() == map[]
    {
      BindingsOf(compare, Elems(tree));
      empty := root == null;
    }

    method First() returns (it: MapNode?)
      requires Valid()
      ensures it == if Elems(tree) == [] then null else Elems(tree)[0]
    {
      it := root;
      if it != null {
        it := Leftmost(it, tree);
      }
    }

    method Last() returns (it: MapNode?)
      requires Valid()
      ensures it == if Elems(tree) == [] then null else RbTree.Last(Elems(tree))
    {
      it := root;
      if it != null {
        it := Rightmost(it, tree);
      }
    }

    /** In key order, the node after the `i`-th. */
    method Next(node: MapNode, ghost i: nat) returns (it: MapNode?)
      requires Valid() && i < |Elems(tree)| && Elems(tree)[i] == node
      ensures it == if i + 1 < |Elems(tree)| then Elems(tree)[i + 1] else null
    {
      TreeAllocated(tree);
      if node.right != null {
        ghost var fs, t := Locate(node, i);
        it := Leftmost(node.right, t.right);
        Successor(Elems(tree), i, Elems(t.right) + After(fs));
      } else {
        it := NextAbove(node, i);
      }
    }

    /** Without a right child, it is above. */
    method NextAbove(node: MapNode, ghost i: nat) returns (it: MapNode?)
      requires Valid() && i < |Elems(tree)| && Elems(tree)[i] == node && node.right == null
      ensures it == if i + 1 < |Elems(tree)| then Elems(tree)[i + 1] else null
    {
      TreeAllocated(tree);
      NodesSet(tree);
      ghost var fs, t;
      it, fs, t := NextFromRoot(compare, root, tree, node);
      AfterAbove(node, i, fs, t);
    }

    lemma AfterAbove(node: MapNode, i: nat, fs: Path<MapNode>, t: Tree<MapNode>)
      requires Valid() && i < |Elems(tree)| && Elems(tree)[i] == node && node.right == null
      requires Descending(compare, node.key, tree, fs, t) && t.Node? && t.elem == node && Shape(t, node)
      ensures if i + 1 < |Elems(tree)| then After(fs) != [] && After(fs)[0] == Elems(tree)[i + 1] else After(fs) == []
    {
      Arrive(node, i, fs, t);
      assert Elems(t.right) == [] && [] + After(fs) == After(fs);
      Successor(Elems(tree), i, After(fs));
    }

    /** In key order, the node before the `i`-th. */
    method Prev(node: MapNode, ghost i: nat) returns (it: MapNode?)
      requires Valid() && i < |Elems(tree)| && Elems(tree)[i] == node
      ensures it == if i > 0 then Elems(tree)[i - 1] else null
    {
      TreeAllocated(tree);
      if node.left != null {
        ghost var fs, t := Locate(node, i);
        it := Rightmost(node.left, t.left);
        Predecessor(Elems(tree), i, Before(fs) + Elems(t.left));
      } else {
        it := PrevAbove(node, i);
      }
    }

    /** Without a left child, it is above. */
    method PrevAbove(node: MapNode, ghost i: nat) returns (it: MapNode?)
      requires Valid() && i < |Elems(tree)| && Elems(tree)[i] == node && node.left == null
      ensures it == if i > 0 then Elems(tree)[i - 1] else null
    {
      TreeAllocated(tree);
      NodesSet(tree);
      ghost var fs, t;
      it, fs, t := PrevFromRoot(compare, root, tree, node);
      BeforeAbove(node, i, fs, t);
    }

    lemma BeforeAbove(node: MapNode, i: nat, fs: Path<MapNode>, t: Tree<MapNode>)
      requires Valid() && i < |Elems(tree)| && Elems(tree)[i] == node && node.left == null
      requires Descending(compare, node.key, tree, fs, t) && t.Node? && t.elem == node && Shape(t, node)
      ensures if i > 0 then Before(fs) != [] && RbTree.Last(Before(fs)) == Elems(tree)[i - 1] else Before(fs) == []
    {
      Arrive(node, i, fs, t);
      assert Elems(t.left) == [] && Before(fs) + [] == Before(fs);
      Predecessor(Elems(tree), i, Before(fs));
    }

    /** A descent by the key of the `i`-th node ends there, and `i` splits the tree. */
    lemma Arrive(node: MapNode, i: nat, fs: Path<MapNode>, t: Tree<MapNode>)
      requires Valid() && i < |Elems(tree)| && Elems(tree)[i] == node
      requires Descending(compare, node.key, tree, fs, t)
      ensures t.Node?
      ensures t.elem == node ==>
        && Elems(tree)[..i] == Before(fs) + Elems(t.left)
        && Elems(tree)[i + 1..] == Elems(t.right) + After(fs)
    {
      NodesSet(tree);
      FoundNode(compare, tree, fs, t, node);
      PlugElems(fs, t);
      if t.elem == node {
        SortedNoDup(compare, Elems(tree));
        AroundNode(Elems(tree), i, Before(fs), Elems(t.left), node, Elems(t.right), After(fs));
      }
    }

    lemma Locate(node: MapNode, i: nat) returns (fs: Path<MapNode>, t: Tree<MapNode>)
      requires Valid() && i < |Elems(tree)| && Elems(tree)[i] == node
      ensures t.Node? && t.elem == node && Shape(t, node)
      ensures Elems(tree)[..i] == Before(fs) + Elems(t.left)
      ensures Elems(tree)[i + 1..] == Elems(t.right) + After(fs)
    {
      NodesSet(tree);
      fs, t := LocateFrom(node, [], tree);
      Arrive(node, i, fs, t);
    }

    lemma {:induction false} LocateFrom(node: MapNode, fs0: Path<MapNode>, t0: Tree<MapNode>)
      returns (fs: Path<MapNode>, t: Tree<MapNode>)
      requires Valid() && node in Nodes(tree)
      requires Descending(compare, node.key, tree, fs0, t0) && Shape(t0, Root(t0))
      ensures t.Node? && t.elem == node && Shape(t, node)
      ensures Descending(compare, node.key, tree, fs, t)
      decreases t0
    {
      FoundNode(compare, tree, fs0, t0, node);
      var cmp := compare(node.key, t0.elem.key);
      if cmp == Equal {
        fs, t := fs0, t0;
      } else {
        var side := if cmp == Less then ToLeft else ToRight;
        DescendStep(compare, node.key, tree, fs0, t0, side);
        fs, t := LocateFrom(node, fs0 + [FrameAt(t0, side)], Child(t0, side));
      }
    }
  }

  lemma Successor(es: seq<MapNode>, i: nat, s: seq<MapNode>)
    requires i < |es| && es[i + 1..] == s
    ensures if i + 1 < |es| then s != [] && s[0] == es[i + 1] else s == []
  {
  }

  lemma Predecessor(es: seq<MapNode>, i: nat, s: seq<MapNode>)
    requires i < |es| && es[..i] == s
    ensures if i > 0 then s != [] && RbTree.Last(s) == es[i - 1] else s == []
  {
  }

  lemma OnePlace(es: seq<MapNode>, i: nat, b: seq<MapNode>, node: MapNode, a: seq<MapNode>)
    requires NoDup(es) && i < |es| && es[i] == node && es == b + [node] + a
    ensures es[..i] == b && es[i + 1..] == a
  {
    assert es[|b|] == node;
    assert i == |b|;
  }

  lemma AroundNode(es: seq<MapNode>, i: nat, b: seq<MapNode>, l: seq<MapNode>, node: MapNode, r: seq<MapNode>,
                   a: seq<MapNode>)
    requires NoDup(es) && i < |es| && es[i] == node && es == b + (l + [node] + r) + a
    ensures es[..i] == b + l && es[i + 1..] == r + a
  {
    assert es == (b + l) + [node] + (r + a);
    OnePlace(es, i, b + l, node, r + a);
  }

  ghost function Root(t: Tree<MapNode>): MapNode? {
    if t.Node? then t.elem else null
  }

  /** The search loop of a lookup. */
  method Descent(compare: (Key, Key) -> Cmp, root: MapNode?, ghost tree: Tree<MapNode>, key: Key)
    returns (it: MapNode?, ghost fs: Path<MapNode>, ghost t: Tree<MapNode>)
    requires TotalOrder(compare) && Sorted(compare, Elems(tree)) && WellFormed(tree) && Shape(tree, root)
    ensures Descending(compare, key, tree, fs, t) && it == Root(t)
    ensures it != null ==> it.key == key
  {
    it, fs, t := root, [], tree;
    while it != null
      invariant Descending(compare, key, tree, fs, t) && Shape(t, it)
      decreases t
    {
      var cmp := compare(key, it.key);
      if cmp == Equal {
        return;
      }
      ghost var side := if cmp == Less then ToLeft else ToRight;
      DescendStep(compare, key, tree, fs, t, side);
      it := if cmp == Less then it.left else it.right;
      fs, t := fs + [FrameAt(t, side)], Child(t, side);
    }
  }

  lemma AfterStep(compare: (Key, Key) -> Cmp, key: Key, tree: Tree<MapNode>, fs: Path<MapNode>, t: Tree<MapNode>,
                  side: Side)
    requires TotalOrder(compare) && Sorted(compare, Elems(tree))
    requires Descending(compare, key, tree, fs, t) && t.Node?
    requires compare(key, t.elem.key) == if side.ToLeft? then Less else Greater
    ensures Descending(compare, key, tree, fs + [FrameAt(t, side)], Child(t, side))
    ensures
      var up := fs + [FrameAt(t, side)];
      if side.ToLeft? then Before(up) == Before(fs) && After(up) != [] && After(up)[0] == t.elem
      else After(up) == After(fs) && Before(up) != [] && Last(Before(up)) == t.elem
  {
    DescendStep(compare, key, tree, fs, t, side);
    Descend(fs, t, side);
  }

  /** The successor of a node without right child, searched for from the root. */
  method NextFromRoot(compare: (Key, Key) -> Cmp, root: MapNode?, ghost tree: Tree<MapNode>, node: MapNode)
    returns (succ: MapNode?, ghost fs: Path<MapNode>, ghost t: Tree<MapNode>)
    requires TotalOrder(compare) && Sorted(compare, Elems(tree)) && WellFormed(tree) && Shape(tree, root)
    requires node in Nodes(tree)
    ensures Descending(compare, node.key, tree, fs, t) && t.Node? && t.elem == node && Shape(t, node)
    ensures succ == if After(fs) == [] then null else After(fs)[0]
  {
    succ, fs, t := null, [], tree;
    var curr := root;
    while curr != null
      invariant Descending(compare, node.key, tree, fs, t) && Shape(t, curr)
      invariant succ == if After(fs) == [] then null else After(fs)[0]
      decreases t
    {
      var cmp := compare(node.key, curr.key);
      if cmp == Equal {
        break;
      }
      ghost var side := if cmp == Less then ToLeft else ToRight;
      AfterStep(compare, node.key, tree, fs, t, side);
      if cmp == Less {
        succ := curr;
        curr := curr.left;
      } else {
        curr := curr.right;
      }
      fs, t := fs + [FrameAt(t, side)], Child(t, side);
    }
    FoundNode(compare, tree, fs, t, node);
  }

  /** The predecessor of a node without left child, searched for from the root. */
  method PrevFromRoot(compare: (Key, Key) -> Cmp, root: MapNode?, ghost tree: Tree<MapNode>, node: MapNode)
    returns (pred: MapNode?, ghost fs: Path<MapNode>, ghost t: Tree<MapNode>)
    requires TotalOrder(compare) && Sorted(compare, Elems(tree)) && WellFormed(tree) && Shape(tree, root)
    requires node in Nodes(tree)
    ensures Descending(compare, node.key, tree, fs, t) && t.Node? && t.elem == node && Shape(t, node)
    ensures pred == if Before(fs) == [] then null else Last(Before(fs))
  {
    pred, fs, t := null, [], tree;
    var curr := root;
    while curr != null
      invariant Descending(compare, node.key, tree, fs, t) && Shape(t, curr)
      invariant pred == if Before(fs) == [] then null else Last(Before(fs))
      decreases t
    {
      var cmp := compare(node.key, curr.key);
      if cmp == Equal {
        break;
      }
      ghost var side := if cmp == Less then ToLeft else ToRight;
      AfterStep(compare, node.key, tree, fs, t, side);
      if cmp == Greater {
        pred := curr;
        curr := curr.right;
      } else {
        curr := curr.left;
      }
      fs, t := fs + [FrameAt(t, side)], Child(t, side);
    }
    FoundNode(compare, tree, fs, t, node);
  }

  method Leftmost(from: MapNode, ghost t0: Tree<MapNode>) returns (it: MapNode)
    requires Shape(t0, from)
    ensures Elems(t0) != [] && it == Elems(t0)[0]
  {
    it := from;
    ghost var t := t0;
    while it.left != null
      invariant Shape(t, it) && Elems(t) != [] && Elems(t0) != [] && Elems(t)[0] == Elems(t0)[0]
      decreases t
    {
      it, t := it.left, t.left;
    }
  }

  method Rightmost(from: MapNode, ghost t0: Tree<MapNode>) returns (it: MapNode)
    requires Shape(t0, from)
    ensures Elems(t0) != [] && it == Last(Elems(t0))
  {
    it := from;
    ghost var t := t0;
    while it.right != null
      invariant Shape(t, it) && Elems(t) != [] && Elems(t0) != [] && Last(Elems(t)) == Last(Elems(t0))
      decreases t
    {
      it, t := it.right, t.right;
    }
  }

  /** From the first node, following `Next` visits every node once, in ascending key order,
      and then ends. */
  method Traverse(m: Map) returns (visited: seq<MapNode>)
    requires m.Valid()
    ensures visited == Elems(m.tree) && Sorted(m.compare, visited)
  {
    visited := [];
    TreeAllocated(m.tree);
    var it := m.First();
    while it != null
      invariant |visited| <= |Elems(m.tree)| && visited == Elems(m.tree)[..|visited|]
      invariant m.Valid()
      invariant it == if |visited| < |Elems(m.tree)| then Elems(m.tree)[|visited|] else null
      decreases |Elems(m.tree)| - |visited|
    {
      ghost var i := |visited|;
      TreeAllocated(m.tree);
      visited := visited + [it];
      it := m.Next(it, i);
    }
  }

  /** `Prev` undoes `Next`. */
  method NextThenPrev(m: Map, node: MapNode, ghost i: nat) returns (next: MapNode?, back: MapNode?)
    requires m.Valid() && i < |Elems(m.tree)| && Elems(m.tree)[i] == node
    ensures next == if i + 1 < |Elems(m.tree)| then Elems(m.tree)[i + 1] else null
    ensures next != null ==> back == node
  {
    back := null;
    TreeAllocated(m.tree);
    next := m.Next(node, i);
    if next != null {
      back := m.Prev(next, i + 1);
    }
  }
}
