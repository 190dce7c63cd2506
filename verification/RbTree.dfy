/** Left-leaning red-black trees as values, and the two unwinding passes of src/map.c
    as functions on them.  A `Frame` is one step of the recorded root-to-leaf path: the
    node passed through, the side taken, and the subtree on the other side.  Module RbMap
    ties the mutable nodes of the map to these values. */
module RbTree {
  import opened Arith

  datatype Tree<E> = Leaf | Node(red: bool, left: Tree<E>, elem: E, right: Tree<E>)

  datatype Side = ToLeft | ToRight

  datatype Frame<E> = Frame(red: bool, elem: E, side: Side, sibling: Tree<E>)

  type Path<E> = seq<Frame<E>>

  predicate IsRed<E>(t: Tree<E>) {
    t.Node? && t.red
  }

  function Blacken<E>(t: Tree<E>): Tree<E> {
    if t.Node? then t.(red := false) else t
  }

  /** The elements in key order. */
  function Elems<E>(t: Tree<E>): seq<E> {
    match t
    case Leaf => []
    case Node(_, l, e, r) => Elems(l) + [e] + Elems(r)
  }

  function Height<E>(t: Tree<E>): nat {
    match t
    case Leaf => 0
    case Node(_, l, _, r) => 1 + if Height(l) < Height(r) then Height(r) else Height(l)
  }

  /** The number of black nodes on the leftmost path; `Balanced` makes it the number on every path. */
  function BlackHeight<E>(t: Tree<E>): nat {
    match t
    case Leaf => 0
    case Node(red, l, _, _) => BlackHeight(l) + if red then 0 else 1
  }

  /** No red right link, no two reds in a row, the same black height on every path. */
  ghost predicate Balanced<E>(t: Tree<E>) {
    match t
    case Leaf => true
    case Node(red, l, _, r) =>
      && Balanced(l)
      && Balanced(r)
      && !IsRed(r)
      && (red ==> !IsRed(l))
      && BlackHeight(l) == BlackHeight(r)
  }

  ghost predicate WellFormed<E>(t: Tree<E>) {
    Balanced(t) && !IsRed(t)
  }

  // ----- paths

  function Last<T>(s: seq<T>): T
    requires s != []
  {
    s[|s| - 1]
  }

  function Front<T>(s: seq<T>): seq<T>
    requires s != []
  {
    s[..|s| - 1]
  }

  function Fill<E>(f: Frame<E>, t: Tree<E>): Tree<E> {
    if f.side.ToLeft? then Node(f.red, t, f.elem, f.sibling) else Node(f.red, f.sibling, f.elem, t)
  }

  /** The whole tree whose hole at the end of path `fs` is filled with `t`. */
  function Plug<E>(fs: Path<E>, t: Tree<E>): Tree<E>
    decreases |fs|
  {
    if fs == [] then t else Plug(Front(fs), Fill(Last(fs), t))
  }

  /** Elements before, and after, the hole in key order. */
  function Before<E>(fs: Path<E>): seq<E>
    decreases |fs|
  {
    if fs == [] then []
    else if Last(fs).side.ToLeft? then Before(Front(fs))
    else Before(Front(fs)) + (Elems(Last(fs).sibling) + [Last(fs).elem])
  }

  function After<E>(fs: Path<E>): seq<E>
    decreases |fs|
  {
    if fs == [] then []
    else if Last(fs).side.ToRight? then After(Front(fs))
    else ([Last(fs).elem] + Elems(Last(fs).sibling)) + After(Front(fs))
  }

  lemma {:induction false} PlugElems<E>(fs: Path<E>, t: Tree<E>)
    ensures Elems(Plug(fs, t)) == Before(fs) + Elems(t) + After(fs)
    decreases |fs|
  {
    if fs != [] {
      PlugElems(Front(fs), Fill(Last(fs), t));
    }
  }

  lemma FillElems<E>(fs: Path<E>, t: Tree<E>)
    requires fs != []
    ensures Before(Front(fs)) + Elems(Fill(Last(fs), t)) + After(Front(fs)) == Before(fs) + Elems(t) + After(fs)
  {
  }

  /** A balanced tree of black height `h`, red only if `red`, may stand in the hole. */
  ghost predicate Fits<E>(fs: Path<E>, h: nat, red: bool)
    decreases |fs|
  {
    if fs == [] then !red
    else
      var f := Last(fs);
      && Balanced(f.sibling)
      && BlackHeight(f.sibling) == h
      && (f.side.ToLeft? ==> !IsRed(f.sibling) && (red ==> !f.red))
      && (f.side.ToRight? ==> !red && (f.red ==> !IsRed(f.sibling)))
      && Fits(Front(fs), h + (if f.red then 0 else 1), f.red)
  }

  lemma {:induction false} PlugWellFormed<E>(fs: Path<E>, t: Tree<E>)
    requires Balanced(t) && Fits(fs, BlackHeight(t), IsRed(t))
    ensures WellFormed(Plug(fs, t))
    decreases |fs|
  {
    if fs != [] {
      PlugWellFormed(Front(fs), Fill(Last(fs), t));
    }
  }

  lemma FitsBlack<E>(fs: Path<E>, h: nat)
    requires Fits(fs, h, true)
    ensures Fits(fs, h, false)
  {
  }

  /** Going down one step keeps the picture. */
  lemma Descend<E>(fs: Path<E>, t: Tree<E>, side: Side)
    requires t.Node? && Balanced(t) && Fits(fs, BlackHeight(t), IsRed(t))
    ensures
      var f := Frame(t.red, t.elem, side, if side.ToLeft? then t.right else t.left);
      var child := if side.ToLeft? then t.left else t.right;
      && Fits(fs + [f], BlackHeight(child), IsRed(child))
      && Plug(fs + [f], child) == Plug(fs, t)
      && Before(fs + [f]) == (if side.ToLeft? then Before(fs) else Before(fs) + (Elems(t.left) + [t.elem]))
      && After(fs + [f]) == (if side.ToRight? then After(fs) else ([t.elem] + Elems(t.right)) + After(fs))
  {
    var f := Frame(t.red, t.elem, side, if side.ToLeft? then t.right else t.left);
    assert Front(fs + [f]) == fs;
  }

  // ----- insertion

  /** One turn of the fix-up loop after an insertion: `t` is the red subtree below `f`. */
  function InsertStep<E>(f: Frame<E>, t: Tree<E>): Tree<E>
    requires IsRed(t)
  {
    if f.side.ToLeft? then
      if IsRed(t.left) then
        Node(true, Blacken(t.left), t.elem, Node(f.red, t.right, f.elem, f.sibling))
      else
        Fill(f, t)
    else if IsRed(f.sibling) then
      Node(true, Blacken(f.sibling), f.elem, Blacken(t))
    else
      Node(f.red, Node(true, f.sibling, f.elem, t.left), t.elem, t.right)
  }

  function InsertUp<E>(fs: Path<E>, t: Tree<E>): Tree<E>
    decreases |fs|
  {
    if fs == [] then t
    else if !IsRed(t) then Plug(fs, t)
    else InsertUp(Front(fs), InsertStep(Last(fs), t))
  }

  /** What holds of the subtree under repair: it fits, or it is a red node with a red left
      child standing where a red node used to be. */
  ghost predicate InsertPending<E>(fs: Path<E>, t: Tree<E>) {
    || (Balanced(t) && Fits(fs, BlackHeight(t), false))
    || (&& IsRed(t)
        && Balanced(t.left)
        && Balanced(t.right)
        && IsRed(t.left)
        && !IsRed(t.right)
        && BlackHeight(t.left) == BlackHeight(t.right)
        && Fits(fs, BlackHeight(t), true))
  }

  lemma InsertStepPending<E>(fs: Path<E>, t: Tree<E>)
    requires fs != [] && IsRed(t) && InsertPending(fs, t)
    ensures InsertPending(Front(fs), InsertStep(Last(fs), t))
    ensures Elems(InsertStep(Last(fs), t)) == Elems(Fill(Last(fs), t))
  {
    var f := Last(fs);
    if f.side.ToLeft? && IsRed(t.left) {
      var low := Node(f.red, t.right, f.elem, f.sibling);
      assert !f.red && Balanced(low) && BlackHeight(low) == BlackHeight(Blacken(t.left));
    } else if f.side.ToRight? && IsRed(f.sibling) {
      assert Balanced(Blacken(f.sibling)) && Balanced(Blacken(t));
      assert BlackHeight(Blacken(f.sibling)) == BlackHeight(t) + 1 == BlackHeight(Blacken(t));
    } else if f.side.ToRight? {
      var low := Node(true, f.sibling, f.elem, t.left);
      assert Balanced(low) && BlackHeight(low) == BlackHeight(t);
    }
    InsertStepElems(f, t);
  }

  lemma InsertStepElems<E>(f: Frame<E>, t: Tree<E>)
    requires IsRed(t)
    ensures Elems(InsertStep(f, t)) == Elems(Fill(f, t))
  {
    if f.side.ToLeft? {
      if IsRed(t.left) {
        var low := Node(f.red, t.right, f.elem, f.sibling);
        assert Elems(low) == Elems(t.right) + [f.elem] + Elems(f.sibling);
        assert Elems(InsertStep(f, t)) == Elems(t.left) + [t.elem] + Elems(low);
      }
    } else if !IsRed(f.sibling) {
      var low := Node(true, f.sibling, f.elem, t.left);
      assert Elems(low) == Elems(f.sibling) + [f.elem] + Elems(t.left);
      assert Elems(InsertStep(f, t)) == Elems(low) + [t.elem] + Elems(t.right);
    }
  }

  lemma {:induction false} InsertUpWellFormed<E>(fs: Path<E>, t: Tree<E>)
    requires InsertPending(fs, t)
    ensures WellFormed(Blacken(InsertUp(fs, t)))
    ensures Elems(Blacken(InsertUp(fs, t))) == Before(fs) + Elems(t) + After(fs)
    ensures fs != [] && !IsRed(t) ==> Blacken(InsertUp(fs, t)) == InsertUp(fs, t)
    decreases |fs|
  {
    if fs == [] {
    } else if !IsRed(t) {
      PlugWellFormed(fs, t);
      PlugElems(fs, t);
    } else {
      var t' := InsertStep(Last(fs), t);
      InsertStepPending(fs, t);
      InsertUpWellFormed(Front(fs), t');
      FillElems(fs, t);
    }
  }

  // ----- removal

  /** Result of one turn of the unwinding loop: balance is restored, or the deficit moves up. */
  datatype Unwound<E> = Restored(tree: Tree<E>) | Deficient(tree: Tree<E>)

  /** Frames whose sibling is tall enough for the rotations below to be defined. */
  ghost predicate Unwindable<E>(f: Frame<E>) {
    && f.sibling.Node?
    && (f.side.ToRight? && f.sibling.red ==> f.sibling.right.Node?)
  }

  /** One turn of the unwinding loop after a removal: `t`, below `f`, is one black node short. */
  ghost function RemoveStep<E>(f: Frame<E>, t: Tree<E>): Unwound<E>
    requires Unwindable(f)
  {
    var s := f.sibling;
    if f.side.ToLeft? then
      if IsRed(s.left) then
        var rl := s.left;
        var low := Node(false, t, f.elem, rl.left);
        Restored(Node(f.red, low, rl.elem, Node(s.red, rl.right, s.elem, s.right)))
      else if f.red then
        Restored(Node(s.red, Node(true, t, f.elem, s.left), s.elem, s.right))
      else
        Deficient(Node(s.red, Node(true, t, f.elem, s.left), s.elem, s.right))
    else if s.red then
      var lr := s.right;
      if IsRed(lr.left) then
        var lrl := lr.left;
        Restored(Node(lr.red, Node(s.red, s.left, s.elem, Blacken(lrl)), lr.elem,
                      Node(f.red, lr.right, f.elem, t)))
      else
        Restored(Node(false, s.left, s.elem, Node(f.red, lr.(red := true), f.elem, t)))
    else if f.red then
      if IsRed(s.left) then
        Restored(Node(true, Blacken(s.left), s.elem, Node(false, s.right, f.elem, t)))
      else
        Restored(Node(false, s.(red := true), f.elem, t))
    else if IsRed(s.left) then
      Restored(Node(s.red, Blacken(s.left), s.elem, Node(false, s.right, f.elem, t)))
    else
      Deficient(Node(false, s.(red := true), f.elem, t))
  }

  ghost function RemoveUp<E>(fs: Path<E>, t: Tree<E>): Tree<E>
    requires forall f <- fs :: Unwindable(f)
    decreases |fs|
  {
    if fs == [] then t
    else
      match RemoveStep(Last(fs), t)
      case Restored(t') => Plug(Front(fs), t')
      case Deficient(t') => RemoveUp(Front(fs), t')
  }

  /** Regrouping four subtrees around three elements keeps the order. */
  lemma RegroupElems<E>(a: Tree<E>, x: E, b: Tree<E>, y: E, c: Tree<E>, z: E, d: Tree<E>, red: bool, red': bool,
                        red'': bool)
    ensures Elems(Node(red, Node(red', a, x, b), y, Node(red'', c, z, d)))
         == Elems(a) + [x] + Elems(b) + [y] + Elems(c) + [z] + Elems(d)
    ensures Elems(Node(red, a, x, Node(red', Node(red'', b, y, c), z, d)))
         == Elems(a) + [x] + Elems(b) + [y] + Elems(c) + [z] + Elems(d)
    ensures Elems(Node(red, Node(red', a, x, Node(red'', b, y, c)), z, d))
         == Elems(a) + [x] + Elems(b) + [y] + Elems(c) + [z] + Elems(d)
  {
    ghost var p, q := Elems(a) + [x], [z] + Elems(d);
    Regroup(p, Elems(b), [y], Elems(c), q);
    assert Elems(Node(red', a, x, b)) == p + Elems(b);
    assert Elems(Node(red'', b, y, c)) == Elems(b) + [y] + Elems(c);
    assert Elems(Node(red'', c, z, d)) == Elems(c) + q by { Assoc(Elems(c), [z], Elems(d)); }
    Assoc(Elems(b) + [y] + Elems(c), [z], Elems(d));
    Assoc(Elems(a), [x], Elems(b) + [y] + Elems(c) + q);
    Assoc(p + Elems(b) + [y] + Elems(c), [z], Elems(d));
  }

  lemma Assoc<T>(a: seq<T>, b: seq<T>, c: seq<T>)
    ensures a + b + c == a + (b + c)
  {
  }

  lemma Regroup<T>(p: seq<T>, b: seq<T>, y: seq<T>, c: seq<T>, q: seq<T>)
    ensures p + (b + y + c) + q == p + b + y + c + q
    ensures p + (b + y + c + q) == p + b + y + c + q
    ensures p + b + y + (c + q) == p + b + y + c + q
  {
    Assoc(p, b, y);
    Assoc(p, b + y, c);
    Assoc(p, b + y + c, q);
    Assoc(p + b + y, c, q);
  }

  lemma RotateElems<E>(a: Tree<E>, x: E, b: Tree<E>, y: E, c: Tree<E>, red: bool, red': bool)
    ensures Elems(Node(red, Node(red', a, x, b), y, c)) == Elems(a) + [x] + Elems(b) + [y] + Elems(c)
    ensures Elems(Node(red, a, x, Node(red', b, y, c))) == Elems(a) + [x] + Elems(b) + [y] + Elems(c)
  {
    assert Elems(Node(red', b, y, c)) == Elems(b) + [y] + Elems(c);
    assert Elems(Node(red', a, x, b)) == Elems(a) + [x] + Elems(b);
  }

  lemma RemoveStepElems<E>(f: Frame<E>, t: Tree<E>)
    requires Unwindable(f)
    ensures Elems(RemoveStep(f, t).tree) == Elems(Fill(f, t))
  {
    var s := f.sibling;
    if f.side.ToLeft? {
      if IsRed(s.left) {
        RegroupElems(t, f.elem, s.left.left, s.left.elem, s.left.right, s.elem, s.right, f.red, false, s.red);
        RegroupElems(t, f.elem, s.left.left, s.left.elem, s.left.right, s.elem, s.right, f.red, s.red, s.left.red);
      } else {
        RotateElems(t, f.elem, s.left, s.elem, s.right, f.red, s.red);
        RotateElems(t, f.elem, s.left, s.elem, s.right, s.red, true);
      }
    } else if s.red && IsRed(s.right.left) {
      var lr := s.right;
      assert Elems(Blacken(lr.left)) == Elems(lr.left);
      RemoveDoubleElems(f, t, s, lr);
    } else {
      RemoveSingleElems(f, t);
    }
  }

  lemma RemoveDoubleElems<E>(f: Frame<E>, t: Tree<E>, s: Tree<E>, lr: Tree<E>)
    requires s == f.sibling && s.Node? && lr == s.right && lr.Node? && f.side.ToRight?
    ensures Elems(Node(lr.red, Node(s.red, s.left, s.elem, Blacken(lr.left)), lr.elem,
                       Node(f.red, lr.right, f.elem, t)))
         == Elems(Fill(f, t))
  {
    assert Elems(Blacken(lr.left)) == Elems(lr.left);
    RegroupElems(s.left, s.elem, Blacken(lr.left), lr.elem, lr.right, f.elem, t, lr.red, s.red, f.red);
    RegroupElems(s.left, s.elem, lr.left, lr.elem, lr.right, f.elem, t, f.red, s.red, lr.red);
  }

  lemma RemoveSingleElems<E>(f: Frame<E>, t: Tree<E>)
    requires Unwindable(f) && f.side.ToRight?
    requires !(f.sibling.red && IsRed(f.sibling.right.left))
    ensures Elems(RemoveStep(f, t).tree) == Elems(Fill(f, t))
  {
    var s := f.sibling;
    RotateElems(s.left, s.elem, s.right, f.elem, t, f.red, s.red);
    if s.red {
      assert Elems(s.right.(red := true)) == Elems(s.right);
      RotateElems(s.left, s.elem, s.right.(red := true), f.elem, t, false, f.red);
    } else if IsRed(s.left) {
      assert Elems(Blacken(s.left)) == Elems(s.left);
      RotateElems(Blacken(s.left), s.elem, s.right, f.elem, t, f.red, false);
    } else {
      assert Elems(s.(red := true)) == Elems(s);
    }
  }

  /** A turn of the loop repairs the deficit, or passes it up unchanged from a black node. */
  lemma RemoveStepSound<E>(fs: Path<E>, t: Tree<E>)
    requires fs != [] && Balanced(t) && !IsRed(t) && Fits(fs, BlackHeight(t) + 1, false)
    ensures Unwindable(Last(fs))
    ensures
      var h := BlackHeight(t) + 1 + if Last(fs).red then 0 else 1;
      match RemoveStep(Last(fs), t)
      case Restored(t') => Balanced(t') && BlackHeight(t') == h && (IsRed(t') ==> Last(fs).red)
      case Deficient(t') => Balanced(t') && BlackHeight(t') + 1 == h && !IsRed(t') && !Last(fs).red
  {
    var f := Last(fs);
    var s := f.sibling;
    assert BlackHeight(s) == BlackHeight(t) + 1 && Balanced(s);
    assert s.Node? && Balanced(s.left) && Balanced(s.right);
    var t' := RemoveStep(f, t).tree;
    if f.side.ToLeft? && IsRed(s.left) {
      assert Balanced(t'.left) && Balanced(t'.right);
    } else if f.side.ToLeft? {
      assert Balanced(t'.left);
    } else if s.red && IsRed(s.right.left) {
      assert Balanced(s.right.left) && Balanced(s.right.right) && Balanced(Blacken(s.right.left));
      assert Balanced(t'.left) && Balanced(t'.right);
    } else if s.red {
      assert Balanced(s.right.(red := true)) && BlackHeight(s.right.(red := true)) == BlackHeight(t);
      assert Balanced(t'.right);
    } else if IsRed(s.left) {
      assert Balanced(Blacken(s.left)) && BlackHeight(Blacken(s.left)) == BlackHeight(s);
      assert Balanced(t'.right);
    } else {
      assert Balanced(s.(red := true)) && BlackHeight(s.(red := true)) == BlackHeight(t);
    }
  }

  lemma {:induction false} RemoveUpWellFormed<E>(fs: Path<E>, t: Tree<E>)
    requires Balanced(t) && !IsRed(t) && Fits(fs, BlackHeight(t) + 1, false)
    ensures forall f <- fs :: Unwindable(f)
    ensures WellFormed(RemoveUp(fs, t))
    ensures Elems(RemoveUp(fs, t)) == Before(fs) + Elems(t) + After(fs)
    decreases |fs|
  {
    if fs != [] {
      FitsUnwindable(fs, BlackHeight(t), false);
      RemoveStepSound(fs, t);
      RemoveStepElems(Last(fs), t);
      FillElems(fs, t);
      match RemoveStep(Last(fs), t)
      case Restored(t') =>
        PlugWellFormed(Front(fs), t');
        PlugElems(Front(fs), t');
      case Deficient(t') =>
        RemoveUpWellFormed(Front(fs), t');
    }
  }

  lemma {:induction false} FitsUnwindable<E>(fs: Path<E>, h: nat, red: bool)
    requires Fits(fs, h + 1, red)
    ensures forall f <- fs :: Unwindable(f)
    decreases |fs|
  {
    if fs != [] {
      FitsUnwindable(Front(fs), h + if Last(fs).red then 0 else 1, Last(fs).red);
      assert fs == Front(fs) + [Last(fs)];
    }
  }

  // ----- height

  lemma {:induction false} Pow2Monotone(a: nat, b: nat)
    requires a <= b
    ensures Pow2(a) <= Pow2(b)
    decreases b
  {
    if a < b {
      Pow2Monotone(a, b - 1);
    }
  }

  lemma {:induction false} Pow2Double(n: nat)
    ensures Pow2(2 * n) == Pow2(n) * Pow2(n)
  {
    if n > 0 {
      Pow2Double(n - 1);
      var p := Pow2(n - 1);
      assert Pow2(2 * n) == 4 * Pow2(2 * (n - 1));
      assert (2 * p) * (2 * p) == 4 * (p * p);
    }
  }

  lemma {:induction false} BlackHeightBounds<E>(t: Tree<E>)
    requires Balanced(t)
    ensures Height(t) <= 2 * BlackHeight(t) + if IsRed(t) then 1 else 0
    ensures Pow2(BlackHeight(t)) <= |Elems(t)| + 1
  {
    if t.Node? {
      BlackHeightBounds(t.left);
      BlackHeightBounds(t.right);
    }
  }

  /** Height at most 2 * log2(n + 1), written without logarithms. */
  lemma HeightBound<E>(t: Tree<E>)
    requires WellFormed(t)
    ensures Pow2(Height(t)) <= (|Elems(t)| + 1) * (|Elems(t)| + 1)
  {
    BlackHeightBounds(t);
    var p, n := Pow2(BlackHeight(t)), |Elems(t)| + 1;
    Pow2Monotone(Height(t), 2 * BlackHeight(t));
    Pow2Double(BlackHeight(t));
    SquareMonotone(p, n);
  }

  lemma SquareMonotone(p: nat, n: nat)
    requires p <= n
    ensures p * p <= n * n
  {
    assert n * n == p * p + (n - p) * (n + p);
  }

  /** Fewer than 2^(k+1) - 1 nodes: no path is longer than 2k. */
  lemma HeightBelow<E>(t: Tree<E>, k: nat)
    requires WellFormed(t) && |Elems(t)| + 1 < Pow2(k + 1)
    ensures Height(t) <= 2 * k
  {
    BlackHeightBounds(t);
    if BlackHeight(t) > k {
      Pow2Monotone(k + 1, BlackHeight(t));
    }
  }

  // ----- sets of nodes and separation

  ghost function Nodes<E>(t: Tree<E>): set<E> {
    match t
    case Leaf => {}
    case Node(_, l, e, r) => Nodes(l) + {e} + Nodes(r)
  }

  /** The non-empty subtrees. */
  ghost function Subtrees<E>(t: Tree<E>): (ss: set<Tree<E>>)
    ensures forall s <- ss :: s.Node? && s.elem in Nodes(t)
  {
    match t
    case Leaf => {}
    case Node(_, l, e, r) => Subtrees(l) + {t} + Subtrees(r)
  }

  /** No element occurs twice. */
  ghost predicate Separate<E>(t: Tree<E>) {
    match t
    case Leaf => true
    case Node(_, l, e, r) =>
      && Separate(l)
      && Separate(r)
      && e !in Nodes(l)
      && e !in Nodes(r)
      && Nodes(l) !! Nodes(r)
  }

  lemma SeparateParts<E>(t: Tree<E>)
    requires t.Node? && Separate(t)
    ensures Nodes(t) == Nodes(t.left) + {t.elem} + Nodes(t.right)
    ensures Separate(t.left) && Separate(t.right)
    ensures t.elem !in Nodes(t.left) && t.elem !in Nodes(t.right)
    ensures forall e <- Nodes(t.left) :: e !in Nodes(t.right)
    ensures forall e <- Nodes(t.right) :: e !in Nodes(t.left)
  {
  }

  ghost function PathNodes<E>(fs: Path<E>): set<E>
    decreases |fs|
  {
    if fs == [] then {} else PathNodes(Front(fs)) + {Last(fs).elem} + Nodes(Last(fs).sibling)
  }

  ghost predicate PathSeparate<E>(fs: Path<E>)
    decreases |fs|
  {
    if fs == [] then true
    else
      var f := Last(fs);
      && PathSeparate(Front(fs))
      && Separate(f.sibling)
      && f.elem !in Nodes(f.sibling)
      && f.elem !in PathNodes(Front(fs))
      && Nodes(f.sibling) !! PathNodes(Front(fs))
  }

  lemma FillSeparate<E>(f: Frame<E>, t: Tree<E>)
    ensures Nodes(Fill(f, t)) == {f.elem} + Nodes(f.sibling) + Nodes(t)
    ensures Separate(Fill(f, t)) <==>
      && Separate(f.sibling)
      && Separate(t)
      && f.elem !in Nodes(f.sibling)
      && f.elem !in Nodes(t)
      && Nodes(f.sibling) !! Nodes(t)
  {
  }

  lemma DisjointUnion<T>(a: set<T>, b: set<T>, c: set<T>, d: set<T>)
    ensures a !! (b + c + d) <==> a !! b && a !! c && a !! d
    ensures (a + b + c) !! d <==> a !! d && b !! d && c !! d
  {
    assert a * (b + c + d) == a * b + a * c + a * d;
    assert (a + b + c) * d == a * d + b * d + c * d;
  }

  lemma {:induction false} PlugSeparate<E>(fs: Path<E>, t: Tree<E>)
    ensures Nodes(Plug(fs, t)) == PathNodes(fs) + Nodes(t)
    ensures Separate(Plug(fs, t)) <==> PathSeparate(fs) && Separate(t) && PathNodes(fs) !! Nodes(t)
    decreases |fs|
  {
    if fs != [] {
      var f := Last(fs);
      PlugSeparate(Front(fs), Fill(f, t));
      assert Nodes(Fill(f, t)) == {f.elem} + Nodes(f.sibling) + Nodes(t);
      assert PathNodes(fs) == PathNodes(Front(fs)) + {f.elem} + Nodes(f.sibling);
      FillSeparate(f, t);
      DisjointUnion(PathNodes(Front(fs)), {f.elem}, Nodes(f.sibling), Nodes(t));
    }
  }

  ghost predicate NoDup<E>(s: seq<E>) {
    forall i, j :: 0 <= i < j < |s| ==> s[i] != s[j]
  }

  ghost function SetOf<E>(s: seq<E>): set<E> {
    set e | e in s
  }

  lemma NoDupConcat<E>(a: seq<E>, b: seq<E>)
    ensures NoDup(a + b) <==> NoDup(a) && NoDup(b) && SetOf(a) !! SetOf(b)
    ensures SetOf(a + b) == SetOf(a) + SetOf(b)
  {
    if NoDup(a + b) {
      forall i, j | 0 <= i < j < |a| ensures a[i] != a[j] {
        assert (a + b)[i] == a[i] && (a + b)[j] == a[j];
      }
      forall i, j | 0 <= i < j < |b| ensures b[i] != b[j] {
        assert (a + b)[|a| + i] == b[i] && (a + b)[|a| + j] == b[j];
      }
      forall i, j | 0 <= i < |a| && 0 <= j < |b| ensures a[i] != b[j] {
        assert (a + b)[i] == a[i] && (a + b)[|a| + j] == b[j];
      }
    } else if NoDup(a) && NoDup(b) {
      var i, j :| 0 <= i < j < |a + b| && (a + b)[i] == (a + b)[j];
      assert (a + b)[i] in SetOf(a) && (a + b)[i] in SetOf(b);
    }
  }

  lemma {:induction false} NodesAreElems<E>(t: Tree<E>, e: E)
    ensures e in Nodes(t) <==> e in Elems(t)
  {
    if t.Node? {
      NodesAreElems(t.left, e);
      NodesAreElems(t.right, e);
    }
  }

  lemma {:induction false} SeparateNoDup<E>(t: Tree<E>)
    ensures Separate(t) <==> NoDup(Elems(t))
  {
    if t.Node? {
      SeparateNoDup(t.left);
      SeparateNoDup(t.right);
      NodesSet(t.left);
      NodesSet(t.right);
      NoDupThree(Elems(t.left), t.elem, Elems(t.right));
    }
  }

  lemma NoDupThree<E>(a: seq<E>, e: E, b: seq<E>)
    ensures NoDup(a + [e] + b) <==> NoDup(a) && NoDup(b) && e !in SetOf(a) && e !in SetOf(b) && SetOf(a) !! SetOf(b)
  {
    NoDupConcat(a + [e], b);
    NoDupConcat(a, [e]);
    assert SetOf([e]) == {e};
  }

  lemma NodesSet<E>(t: Tree<E>)
    ensures Nodes(t) == SetOf(Elems(t))
  {
    forall e | e in Nodes(t) ensures e in Elems(t) {
      NodesAreElems(t, e);
    }
    forall e | e in Elems(t) ensures e in Nodes(t) {
      NodesAreElems(t, e);
    }
  }

  lemma SameElems<E>(t: Tree<E>, t': Tree<E>)
    requires Elems(t) == Elems(t')
    ensures Nodes(t) == Nodes(t')
    ensures Separate(t) <==> Separate(t')
  {
    NodesSet(t);
    NodesSet(t');
    SeparateNoDup(t);
    SeparateNoDup(t');
  }

  lemma {:induction false} PathConcat<E>(fs: Path<E>, gs: Path<E>)
    ensures PathNodes(fs + gs) == PathNodes(fs) + PathNodes(gs)
    ensures PathSeparate(fs + gs) <==> PathSeparate(fs) && PathSeparate(gs) && PathNodes(fs) !! PathNodes(gs)
    decreases |gs|
  {
    if gs == [] {
      assert fs + gs == fs;
    } else {
      var f := Last(gs);
      assert Front(fs + gs) == fs + Front(gs);
      PathConcat(fs, Front(gs));
      DisjointUnion(PathNodes(fs), PathNodes(Front(gs)), {f.elem}, Nodes(f.sibling));
    }
  }

  // ----- pruning a leaf

  /** The tree after the leaf at the end of `fs`, of the given colour, is cut off. */
  ghost function Pruned<E>(fs: Path<E>, red: bool): Tree<E>
    requires forall f <- fs :: Unwindable(f) || red
  {
    if red then Plug(fs, Leaf) else RemoveUp(fs, Leaf)
  }

  lemma PrunedWellFormed<E>(fs: Path<E>, red: bool)
    requires Fits(fs, if red then 0 else 1, red)
    ensures forall f <- fs :: Unwindable(f) || red
    ensures WellFormed(Pruned(fs, red)) && Elems(Pruned(fs, red)) == Before(fs) + After(fs)
  {
    assert Before(fs) + Elems<E>(Leaf) + After(fs) == Before(fs) + After(fs);
    if red {
      FitsBlack(fs, 0);
      PlugWellFormed<E>(fs, Leaf);
      PlugElems<E>(fs, Leaf);
    } else {
      RemoveUpWellFormed<E>(fs, Leaf);
    }
  }

  ghost predicate AllLeft<E>(gs: Path<E>) {
    forall g <- gs :: g.side.ToLeft?
  }

  /** Another element in a frame whose hole is on the right, followed by left turns only. */
  lemma {:induction false} ReplaceElem<E>(fs: Path<E>, f: Frame<E>, e: E, gs: Path<E>, h: nat, red: bool)
    requires f.side.ToRight? && AllLeft(gs)
    requires Fits(fs + [f] + gs, h, red)
    ensures Fits(fs + [f.(elem := e)] + gs, h, red)
    ensures Before(fs + [f] + gs) == Before(fs) + Elems(f.sibling) + [f.elem]
    ensures Before(fs + [f.(elem := e)] + gs) == Before(fs) + Elems(f.sibling) + [e]
    ensures After(fs + [f.(elem := e)] + gs) == After(fs + [f] + gs)
    decreases |gs|
  {
    var p, p' := fs + [f] + gs, fs + [f.(elem := e)] + gs;
    if gs == [] {
      assert Front(p) == fs && Front(p') == fs;
    } else {
      assert Front(p) == fs + [f] + Front(gs) && Front(p') == fs + [f.(elem := e)] + Front(gs);
      assert Last(p) == Last(gs) == Last(p') && Last(gs) in gs;
      ReplaceElem(fs, f, e, Front(gs), h + if Last(gs).red then 0 else 1, Last(gs).red);
    }
  }
}
