/** The linked instruction list of a block, and the pass of src/emulate.c that rewrites it in
    place.  `insns` is the list as a value; the pass makes it `Fuse` of what it was. */
module FusionBlock {
  import opened Common
  import opened Fusion

  /** A node of the list: the decoded fields, updated one by one, and the link. */
  class IrNode {
    var insn: Insn
    var next: IrNode?

    constructor (insn: Insn)
      ensures this.insn == insn && next == null
    {
      this.insn, next := insn, null;
    }
  }

  ghost function NodeAt(nodes: seq<IrNode>, k: nat): IrNode? {
    if k < |nodes| then nodes[k] else null
  }

  /** Each node points to the one after it, the last to none. */
  ghost predicate Linked(nodes: seq<IrNode>)
    reads nodes
  {
    forall k {:trigger nodes[k].next} :: 0 <= k < |nodes| ==> nodes[k].next == NodeAt(nodes, k + 1)
  }

  /** So does each but the one at position `p`. */
  ghost predicate LinkedBut(nodes: seq<IrNode>, p: nat)
    reads nodes
  {
    forall k {:trigger nodes[k].next} :: 0 <= k < |nodes| && k != p ==> nodes[k].next == NodeAt(nodes, k + 1)
  }

  /** A list that ends visits no node twice. */
  lemma {:induction false} LinkedDistinct(nodes: seq<IrNode>, j: nat, k: nat)
    requires Linked(nodes) && j < k < |nodes|
    ensures nodes[j] != nodes[k]
    decreases |nodes| - k
  {
    if k + 1 < |nodes| {
      LinkedDistinct(nodes, j + 1, k + 1);
    }
    assert nodes[j].next != nodes[k].next;
  }

  lemma OneOfAKind(nodes: seq<IrNode>, p: nat)
    requires Linked(nodes) && p < |nodes|
    ensures forall k :: 0 <= k < |nodes| && k != p ==> nodes[k] != nodes[p]
  {
    forall k | 0 <= k < |nodes| && k != p ensures nodes[k] != nodes[p] {
      if k < p {
        LinkedDistinct(nodes, k, p);
      } else {
        LinkedDistinct(nodes, p, k);
      }
    }
  }

  ghost predicate Values(nodes: seq<IrNode>, s: seq<Insn>)
    reads nodes
  {
    |nodes| == |s| && forall k :: 0 <= k < |nodes| ==> nodes[k].insn == s[k]
  }

  /** `s` without the `n` elements after position `p`. */
  ghost function Cut<T>(s: seq<T>, p: nat, n: nat): (r: seq<T>)
    requires p + n < |s|
    ensures |r| == |s| - n && r[p] == s[p]
  {
    s[..p + 1] + s[p + 1 + n..]
  }

  lemma CutFront<T>(s: seq<T>, p: nat, n: nat)
    requires p + n < |s|
    ensures Cut(s, p, n)[..p + 1] == s[..p + 1]
  {
  }

  lemma CutAt<T>(s: seq<T>, p: nat, n: nat)
    requires p + n < |s|
    ensures forall k :: 0 <= k < |s| - n ==> Cut(s, p, n)[k] == s[if k <= p then k else k + n]
  {
  }

  lemma CutWithin(nodes: seq<IrNode>, p: nat, n: nat, all: set<IrNode>)
    requires p + n < |nodes| && forall k :: 0 <= k < |nodes| ==> nodes[k] in all
    ensures forall k :: 0 <= k < |Cut(nodes, p, n)| ==> Cut(nodes, p, n)[k] in all
  {
    CutAt(nodes, p, n);
  }

  lemma CutList(nodes: seq<IrNode>, s: seq<Insn>, p: nat, n: nat)
    requires p + n < |nodes| && Values(nodes, s)
    requires LinkedBut(nodes, p)
    requires nodes[p].next == NodeAt(nodes, p + n + 1)
    ensures Linked(Cut(nodes, p, n)) && Values(Cut(nodes, p, n), Cut(s, p, n))
  {
    CutAt(nodes, p, n);
    CutAt(s, p, n);
  }

  class Block {
    var irHead: IrNode
    var irTail: IrNode
    var nInsn: nat
    const cycleCost: nat
    ghost var nodes: seq<IrNode>
    ghost var insns: seq<Insn>

    ghost predicate Valid()
      reads this, nodes
    {
      && nInsn == |nodes| == |insns| > 0
      && irHead == nodes[0]
      && irTail == nodes[nInsn - 1]
      && Linked(nodes)
      && Values(nodes, insns)
    }

    /** A freshly translated block: its cost is its number of instructions. */
    constructor (head: IrNode, tail: IrNode, n: nat, ghost ns: seq<IrNode>, ghost s: seq<Insn>)
      requires n == |ns| == |s| > 0 && head == ns[0] && tail == ns[n - 1]
      requires Linked(ns) && Values(ns, s)
      ensures Valid() && nodes == ns && insns == s && cycleCost == |s|
    {
      assert forall k :: 0 <= k < n ==> allocated(ns[k]);
      irHead, irTail, nInsn, cycleCost := head, tail, n, n;
      nodes, insns := ns, s;
    }

    /** Every node of the list is one of `all`. */
    ghost predicate Within(all: set<IrNode>)
      reads this
    {
      forall k :: 0 <= k < |nodes| ==> nodes[k] in all
    }

    /** Unlinks the `n` nodes after `ir`. */
    method RemoveNextNthIr(ir: IrNode, n: nat, ghost p: nat, ghost all: set<IrNode>)
      requires Valid() && Within(all) && p + n < |nodes| && ir == nodes[p] && n < 256
      modifies this`irTail, this`nInsn, this`nodes, this`insns, ir`next
      ensures Valid() && Within(all) && p < |nodes| && nodes[p] == ir
      ensures insns == Cut(old(insns), p, n) && nodes == Cut(old(nodes), p, n)
    {
      CutWithin(nodes, p, n, all);
      DropAfter(ir, n, p);
    }

    method DropAfter(ir: IrNode, n: nat, ghost p: nat)
      requires Valid() && p + n < |nodes| && ir == nodes[p] && n < 256
      modifies this`irTail, this`nInsn, this`nodes, this`insns, ir`next
      ensures Valid()
      ensures nodes == Cut(old(nodes), p, n) && insns == Cut(old(insns), p, n)
      ensures nodes[p] == ir
    {
      ghost var ns, s := nodes, insns;
      assert forall k :: 0 <= k < |ns| ==> ns[k] as object != this;
      Unlink(ir, n, ns, s, p);
      CutList(ns, s, p, n);
      Shorten(ir, n, Cut(ns, p, n), Cut(s, p, n), p);
    }

    /** Records that the list is now `ns`. */
    method Shorten(ir: IrNode, n: nat, ghost ns: seq<IrNode>, ghost s: seq<Insn>, ghost p: nat)
      requires n <= nInsn && |ns| == |s| == nInsn - n > 0 && Linked(ns) && Values(ns, s)
      requires p < |ns| && ns[p] == ir && irHead == ns[0]
      requires irTail == ns[|ns| - 1] || p == |ns| - 1
      modifies this`irTail, this`nInsn, this`nodes, this`insns
      ensures Valid() && nodes == ns && insns == s
    {
      assert forall k :: 0 <= k < |ns| ==> ns[k] as object != this;
      assert ir.next == NodeAt(ns, p + 1);
      if ir.next == null {
        irTail := ir;
      }
      nInsn := nInsn - n;
      nodes, insns := ns, s;
    }

    /** Number of consecutive instructions with an opcode in `ops`, from `ir` on. */
    method CountConsecutive(ir: IrNode, ops: set<Op>, ghost p: nat) returns (count: nat)
      requires Valid() && p < |nodes| && ir == nodes[p] && ir.insn.op in ops
      ensures count == RunLengthAt(insns[p..], ops)
    {
      count := 1;
      var next := ir.next;
      while next != null && next.insn.op in ops
        invariant 1 <= count <= |nodes| - p
        invariant next == NodeAt(nodes, p + count)
        invariant forall k :: p <= k < p + count ==> insns[k].op in ops
        decreases |nodes| - count
      {
        count := count + 1;
        next := next.next;
      }
      RunLengthIs(insns[p..], ops, count);
    }

    /** The position `p` now holds `h`, which stands for `k` instructions. */
    ghost predicate Holds(before: seq<Insn>, p: nat, h: Insn, k: nat)
      reads this, nodes
    {
      Valid() && 1 <= k && p + k <= |before| && insns == before[..p] + [h] + before[p + k..]
    }

    /** Batches `count` instructions into one, if there are two and a slot takes them. */
    method TryFuseSequence(ir: IrNode, count: nat, op: Op, slot: bool, cfg: Config, ghost p: nat,
                           ghost all: set<IrNode>)
      returns (fused: bool)
      requires Valid() && Within(all) && p < |nodes| && ir == nodes[p] && count <= |nodes| - p && cfg.maxEntries <= 256
      modifies this`irTail, this`nInsn, this`nodes, this`insns, ir`next, ir`insn
      ensures fused <==> 1 < count <= cfg.maxEntries && slot
      ensures fused ==>
        Holds(old(insns), p, Batched(old(insns)[p..], count, op), count) && nodes == Cut(old(nodes), p, count - 1)
      ensures !fused ==> Valid() && insns == old(insns) && nodes == old(nodes)
      ensures p < |nodes| && nodes[p] == ir && Within(all)
    {
      fused := count > 1 && count <= cfg.maxEntries && slot;
      if fused {
        FuseSequence(ir, count, op, p, all);
      }
    }

    method FuseSequence(ir: IrNode, count: nat, op: Op, ghost p: nat, ghost all: set<IrNode>)
      requires Valid() && Within(all) && p < |nodes| && ir == nodes[p] && 1 < count <= |nodes| - p && count <= 256
      modifies this`irTail, this`nInsn, this`nodes, this`insns, ir`next, ir`insn
      ensures Holds(old(insns), p, Batched(old(insns)[p..], count, op), count) && nodes == Cut(old(nodes), p, count - 1)
      ensures p < |nodes| && nodes[p] == ir && Within(all)
    {
      var entries := CopyEntries(ir, count, p);
      assert ir.insn == insns[p..][0];
      FuseInto(ir, ir.insn.(fuse := entries).(op := op).(imm2 := count), count, p, all);
    }

    method SetInsn(ir: IrNode, insn: Insn, ghost p: nat)
      requires Valid() && p < |nodes| && ir == nodes[p]
      modifies this`insns, ir`insn
      ensures Valid() && insns == old(insns)[p := insn] && ir.insn == insn
    {
      assert forall k :: 0 <= k < |nodes| ==> nodes[k] as object != this;
      OneOfAKind(nodes, p);
      ir.insn := insn;
      insns := insns[p := insn];
    }

    /** Rewrites `ir` to stand for `k` instructions and drops the others. */
    method FuseInto(ir: IrNode, h: Insn, k: nat, ghost p: nat, ghost all: set<IrNode>)
      requires Valid() && Within(all) && 1 < k <= 256 && p + k <= |nodes| && ir == nodes[p]
      modifies this`irTail, this`nInsn, this`nodes, this`insns, ir`next, ir`insn
      ensures Holds(old(insns), p, h, k) && nodes == Cut(old(nodes), p, k - 1)
      ensures p < |nodes| && nodes[p] == ir && Within(all) && nodes[..p + 1] == old(nodes)[..p + 1]
    {
      CutFront(nodes, p, k - 1);
      RewriteSeq(insns, p, k, h);
      SetInsn(ir, h, p);
      RemoveNextNthIr(ir, k - 1, p, all);
    }

    /** The batch of a run, or the instruction as it is. */
    method FuseRunAt(ir: IrNode, count: nat, op: Op, slot: bool, cfg: Config, ghost p: nat, ghost all: set<IrNode>)
      requires Valid() && Within(all) && p < |nodes| && ir == nodes[p] && 1 <= count <= |nodes| - p
        && cfg.maxEntries <= 256
      modifies this`irTail, this`nInsn, this`nodes, this`insns, ir`next, ir`insn
      ensures var (h, k) := FuseRun(old(insns)[p..], count, op, slot, cfg); Holds(old(insns), p, h, k)
      ensures p < |nodes| && nodes[p] == ir && Within(all) && nodes[..p + 1] == old(nodes)[..p + 1]
    {
      RewriteNone(insns, p);
      CutFront(nodes, p, count - 1);
      var _ := TryFuseSequence(ir, count, op, slot, cfg, p, all);
    }

    /** One turn of the pass, at an instruction that has a next one. */
    method FuseAt(ir: IrNode, slot: bool, cfg: Config, ghost p: nat, ghost all: set<IrNode>)
      requires Valid() && Within(all) && p + 1 < |nodes| && ir == nodes[p] && cfg.maxEntries <= 256
      modifies this`irTail, this`nInsn, this`nodes, this`insns, ir`next, ir`insn
      ensures var (h, k) := FuseHead(old(insns)[p..], slot, cfg); Holds(old(insns), p, h, k)
      ensures nodes[p] == ir && Within(all)
    {
      assert ir.next.insn == insns[p..][1] && ir.insn == insns[p..][0];
      match Pair(ir.insn, ir.next.insn, cfg) {
        case Some(h) => FuseInto(ir, h, 2, p, all);
        case None =>
          match Batch(ir.insn.op) {
            case Some((ops, op)) =>
              var count := CountConsecutive(ir, ops, p);
              FuseRunAt(ir, count, op, slot, cfg, p, all);
            case None => RewriteNone(insns, p);
          }
      }
    }

    /** The pass over the whole list; `slot(i)` says whether the fuse pool has a slot at turn
        `i`.  The number of instructions stays the length of the list and the tail its last
        node, as `Valid` says; the weights still add up to the cost. */
    method MatchPattern(slot: nat -> bool, cfg: Config)
      requires Valid() && cfg.maxEntries <= 256
      modifies this`irTail, this`nInsn, this`nodes, this`insns, nodes`next, nodes`insn
      ensures Valid() && insns == Fuse(old(insns), 0, slot, cfg)
      ensures cycleCost == |old(insns)| && (forall x <- old(insns) :: !IsFused(x.op)) ==> Weights(insns) == cycleCost
    {
      ghost var s := insns;
      PassStarts(s, slot, cfg);
      RewriteAll(slot, cfg, Fuse(s, 0, slot, cfg));
      if forall x <- s :: !IsFused(x.op) {
        FuseWeights(s, 0, slot, cfg);
      }
    }

    method RewriteAll(slot: nat -> bool, cfg: Config, ghost fused: seq<Insn>)
      requires Valid() && cfg.maxEntries <= 256 && OnTrack(insns, 0, slot, cfg, fused)
      modifies this`irTail, this`nInsn, this`nodes, this`insns, nodes`next, nodes`insn
      ensures Valid() && insns == fused
    {
      var i := 0;
      var ir: IrNode? := irHead;
      ghost var all := set n | n in nodes;
      while i < nInsn - 1
        invariant Valid() && i <= nInsn && ir == NodeAt(nodes, i) && Within(all)
        invariant OnTrack(insns, i, slot, cfg, fused)
        decreases nInsn - i
      {
        Turn(ir, i, slot, cfg, all, fused);
        i := i + 1;
        ir := ir.next;
      }
      PassEnds(insns, i, slot, cfg, fused);
    }

    /** Turn `i` of the pass, at an instruction that has a next one. */
    method Turn(ir: IrNode, i: nat, slot: nat -> bool, cfg: Config, ghost all: set<IrNode>, ghost fused: seq<Insn>)
      requires Valid() && Within(all) && i + 1 < |nodes| && ir == nodes[i] && cfg.maxEntries <= 256
      requires OnTrack(insns, i, slot, cfg, fused)
      modifies this`irTail, this`nInsn, this`nodes, this`insns, ir`next, ir`insn
      ensures Valid() && i < |nodes| && ir == nodes[i] && Within(all) && nInsn <= old(nInsn)
      ensures OnTrack(insns, i + 1, slot, cfg, fused)
    {
      FuseAt(ir, slot(i), cfg, i, all);
      assert TurnOf(old(insns), i, slot, cfg, insns);
      PassTurns(old(insns), i, slot, cfg, insns, fused);
    }

    /** The leading parts of `count` instructions from `ir` on, first to last. */
    method CopyEntries(ir: IrNode, count: nat, ghost p: nat) returns (entries: seq<Entry>)
      requires Valid() && p < |nodes| && ir == nodes[p] && 1 <= count <= |nodes| - p
      ensures entries == Entries(insns[p..], count)
    {
      entries := [EntryOf(ir.insn)];
      var nextIr := ir.next;
      var j := 1;
      while j < count
        invariant 1 <= j <= count && |entries| == j
        invariant nextIr == NodeAt(nodes, p + j)
        invariant forall k :: 0 <= k < j ==> entries[k] == EntryOf(insns[p + k])
      {
        entries := entries + [EntryOf(nextIr.insn)];
        nextIr := nextIr.next;
        j := j + 1;
      }
    }
  }

  lemma RewriteSeq(s: seq<Insn>, p: nat, k: nat, h: Insn)
    requires 1 <= k && p + k <= |s|
    ensures Cut(s[p := h], p, k - 1) == s[..p] + [h] + s[p + k..]
  {
  }

  lemma RewriteNone(s: seq<Insn>, p: nat)
    requires p < |s|
    ensures s[p..][0] == s[p] && s == s[..p] + [s[p]] + s[p + 1..]
  {
  }

  /** Turn `i` of the pass takes the list `s` to `t`. */
  ghost predicate TurnOf(s: seq<Insn>, i: nat, slot: nat -> bool, cfg: Config, t: seq<Insn>) {
    && i + 1 < |s|
    && var (h, k) := FuseHead(s[i..], slot(i), cfg);
       1 <= k && i + k <= |s| && t == s[..i] + [h] + s[i + k..]
  }

  /** The list as it will be when the pass, now at position `i`, is over. */
  ghost function Progress(s: seq<Insn>, i: nat, slot: nat -> bool, cfg: Config): seq<Insn>
    requires i <= |s|
  {
    s[..i] + Fuse(s[i..], i, slot, cfg)
  }

  lemma TurnProgress(s: seq<Insn>, i: nat, slot: nat -> bool, cfg: Config, t: seq<Insn>)
    requires TurnOf(s, i, slot, cfg, t)
    ensures i + 1 <= |t| && Progress(t, i + 1, slot, cfg) == Progress(s, i, slot, cfg)
  {
    var (h, k) := FuseHead(s[i..], slot(i), cfg);
    assert t[..i + 1] == s[..i] + [h] && t[i + 1..] == s[i..][k..];
    assert Fuse(s[i..], i, slot, cfg) == [h] + Fuse(t[i + 1..], i + 1, slot, cfg);
  }

  /** The pass, now at position `i`, is on its way to `fused`.  The detour over `u` keeps the
      recursive function out of the proofs that only pass the fact on. */
  ghost predicate OnTrack(s: seq<Insn>, i: nat, slot: nat -> bool, cfg: Config, fused: seq<Insn>) {
    forall u :: u == s ==> Leads(u, i, slot, cfg, fused)
  }

  ghost predicate Leads(s: seq<Insn>, i: nat, slot: nat -> bool, cfg: Config, fused: seq<Insn>) {
    i <= |s| && Progress(s, i, slot, cfg) == fused
  }

  lemma PassStarts(s: seq<Insn>, slot: nat -> bool, cfg: Config)
    ensures OnTrack(s, 0, slot, cfg, Fuse(s, 0, slot, cfg))
  {
    assert s[0..] == s && s[..0] == [];
  }

  lemma PassTurns(s: seq<Insn>, i: nat, slot: nat -> bool, cfg: Config, t: seq<Insn>, fused: seq<Insn>)
    requires OnTrack(s, i, slot, cfg, fused) && TurnOf(s, i, slot, cfg, t)
    ensures OnTrack(t, i + 1, slot, cfg, fused)
  {
    assert Leads(s, i, slot, cfg, fused);
    TurnProgress(s, i, slot, cfg, t);
  }

  lemma PassEnds(s: seq<Insn>, i: nat, slot: nat -> bool, cfg: Config, fused: seq<Insn>)
    requires OnTrack(s, i, slot, cfg, fused) && i + 1 >= |s|
    ensures s == fused
  {
    assert Leads(s, i, slot, cfg, fused);
    assert s[..i] + s[i..] == s && Fuse(s[i..], i, slot, cfg) == s[i..];
  }

  method Unlink(ir: IrNode, n: nat, ghost nodes: seq<IrNode>, ghost s: seq<Insn>, ghost p: nat)
    requires p + n < |nodes| && ir == nodes[p] && Linked(nodes) && Values(nodes, s)
    modifies ir`next
    ensures ir.next == NodeAt(nodes, p + n + 1) && Values(nodes, s)
    ensures LinkedBut(nodes, p)
  {
    OneOfAKind(nodes, p);
    var i := 0;
    while i < n
      invariant i <= n
      invariant ir.next == NodeAt(nodes, p + i + 1) && Values(nodes, s)
      invariant LinkedBut(nodes, p)
    {
      ir.next := ir.next.next;
      i := i + 1;
    }
  }

  lemma {:induction false} RunLengthIs(s: seq<Insn>, ops: set<Op>, n: nat)
    requires 1 <= n <= |s| && (forall k :: 0 <= k < n ==> s[k].op in ops) && (n == |s| || s[n].op !in ops)
    ensures RunLengthAt(s, ops) == n
    decreases |s|
  {
    if n > 1 {
      RunLengthIs(s[1..], ops, n - 1);
    }
  }
}
