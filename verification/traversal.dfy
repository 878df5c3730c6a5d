/** The read-only walk of BasePassthroughCustomAstVisitor: which children each Visit method
    hands to VisitElement / VisitElements / VisitStatements, and in which order, together
    with the generic fold a subclass inherits when it overrides only some Visit methods. */
module Traversal {
  import opened Wrappers
  import opened Syntax

  /** VisitElement: an absent child is skipped. */
  function OptList(o: Option<Ast>): (r: seq<Ast>)
    ensures forall c | c in r :: c < o
  {
    if o.Some? then [o.value] else []
  }

  /** VisitElements: an absent collection is skipped; a present one is visited in order. */
  function CollectionList(e: Collection): (r: seq<Ast>)
    ensures forall c | c in r :: c < e
  {
    if e.Present? then e.items else []
  }

  /** The loops over tuple clauses, which visit each clause's first item, then its second. */
  function PairList(ps: seq<Pair>): (r: seq<Ast>)
    ensures |r| == 2 * |ps|
  {
    if |ps| == 0 then [] else [ps[0].first, ps[0].second] + PairList(ps[1..])
  }

  /** Each clause contributes its test, then its body, at positions 2i and 2i+1. */
  lemma {:induction false} PairListIndex(ps: seq<Pair>)
    ensures forall i | 0 <= i < |ps| :: PairList(ps)[2 * i] == ps[i].first && PairList(ps)[2 * i + 1] == ps[i].second
    decreases |ps|
  {
    if |ps| > 0 {
      PairListIndex(ps[1..]);
      forall i | 1 <= i < |ps|
        ensures PairList(ps)[2 * i] == ps[i].first && PairList(ps)[2 * i + 1] == ps[i].second
      {
        assert ps[i] == ps[1..][i - 1];
      }
    }
  }

  /** Every element of PairList(ps) is the first or second component of one of the pairs. */
  lemma {:induction false} PairListMember(ps: seq<Pair>, c: Ast)
    requires c in PairList(ps)
    ensures exists i | 0 <= i < |ps| :: c == ps[i].first || c == ps[i].second
    decreases |ps|
  {
    if c != ps[0].first && c != ps[0].second {
      PairListMember(ps[1..], c);
      var i :| 0 <= i < |ps[1..]| && (c == ps[1..][i].first || c == ps[1..][i].second);
      assert ps[1..][i] == ps[i + 1];
    }
  }

  /** The children one slot hands to VisitElement, in visiting order; kept nodes are not visited. */
  function SlotChildren(s: Slot): (r: seq<Ast>)
    ensures forall c | c in r :: c < s
  {
    match s
    case One(o) => OptList(o)
    case Many(e) => CollectionList(e)
    case Statements(ss) => ss
    case Clauses(ps) =>
      assert forall c | c in PairList(ps) :: c < s by {
        forall c | c in PairList(ps) ensures c < s {
          PairListMember(ps, c);
        }
      }
      PairList(ps)
    case Kept(_) => []
  }

  /** The children of a run of slots, slot after slot. */
  function Flatten(ss: seq<Slot>): seq<Ast> {
    if |ss| == 0 then [] else SlotChildren(ss[0]) + Flatten(ss[1..])
  }

  /** Flatten over two and three slots, spelled out. */
  lemma Flatten2(a: Slot, b: Slot)
    ensures Flatten([a, b]) == SlotChildren(a) + SlotChildren(b)
  {
    assert [a, b][1..] == [b];
    assert [b][1..] == [];
    assert Flatten([b]) == SlotChildren(b) + Flatten([]);
  }

  lemma Flatten3(a: Slot, b: Slot, c: Slot)
    ensures Flatten([a, b, c]) == SlotChildren(a) + SlotChildren(b) + SlotChildren(c)
  {
    assert [a, b, c][1..] == [b, c];
    Flatten2(b, c);
  }

  lemma {:induction false} FlattenMember(ss: seq<Slot>, c: Ast)
    ensures c in Flatten(ss) <==> exists i | 0 <= i < |ss| :: c in SlotChildren(ss[i])
    decreases |ss|
  {
    if |ss| > 0 {
      FlattenMember(ss[1..], c);
      if exists i | 0 <= i < |ss| :: c in SlotChildren(ss[i]) {
        var i :| 0 <= i < |ss| && c in SlotChildren(ss[i]);
        if i > 0 {
          assert ss[i] == ss[1..][i - 1];
        }
      }
    }
  }

  lemma FlattenAppend(a: seq<Slot>, b: seq<Slot>)
    ensures Flatten(a + b) == Flatten(a) + Flatten(b)
    decreases |a|
  {
    if |a| == 0 {
      assert a + b == b;
    } else {
      assert (a + b)[1..] == a[1..] + b;
      FlattenAppend(a[1..], b);
    }
  }

  /** The children BasePassthroughCustomAstVisitor visits, in visiting order. */
  function PassChildren(n: Ast): (r: seq<Ast>)
    ensures forall c | c in r :: c < n
  {
    assert forall c | c in Flatten(n.slots) :: c < n by {
      forall c | c in Flatten(n.slots) ensures c < n {
        FlattenMember(n.slots, c);
        var i :| 0 <= i < |n.slots| && c in SlotChildren(n.slots[i]);
        assert n.slots[i] < n;
      }
    }
    Flatten(n.slots)
  }

  /** Only kept nodes, never visited: the slots of a leaf kind. */
  lemma {:induction false} KeptOnly(ss: seq<Slot>)
    requires forall i | 0 <= i < |ss| :: KindOf(ss[i]) == KeptSlot
    ensures Flatten(ss) == []
    decreases |ss|
  {
    if |ss| > 0 {
      KeptOnly(ss[1..]);
    }
  }

  /** Error nodes, type constraints and expressions, constants, strings, variables and
      merging redirections visit nothing. */
  lemma LeafKindsVisitNothing(n: Ast)
    requires Conforms(n) && IsLeafKind(n.head)
    ensures PassChildren(n) == []
  {
    LeafSchema(n.head);
    assert forall i | 0 <= i < |n.slots| :: Schema(n.head)[i] in Schema(n.head);
    KeptOnly(n.slots);
  }

  lemma LeafSchema(h: Head)
    requires IsLeafKind(h)
    ensures forall k | k in Schema(h) :: k == KeptSlot
  {
    if h.ErrorStatement? || h.ErrorExpression? {
      assert Schema(h) == [KeptSlot];
    } else {
      assert Schema(h) == [];
    }
  }

  /** The nodes the read-only walk reaches from `n`, including `n`. When `stop` holds of a
      node the walk does not descend below it (an overriding Visit method that never calls
      VisitElement on its children). */
  function Reach(n: Ast, stop: Ast -> bool): (r: set<Ast>)
    ensures n in r
    decreases n, 1
  {
    {n} + (if stop(n) then {} else ReachAll(n, PassChildren(n), stop))
  }

  function ReachAll(parent: Ast, cs: seq<Ast>, stop: Ast -> bool): (r: set<Ast>)
    requires forall c | c in cs :: c < parent
    ensures forall i | 0 <= i < |cs| :: cs[i] in r
    decreases parent, 0, |cs|
  {
    if |cs| == 0 then {}
    else
      assert cs[0] in cs;
      assert forall c | c in cs[1..] :: c in cs;
      Reach(cs[0], stop) + ReachAll(parent, cs[1..], stop)
  }

  /** Never stop: the full walk, which also reaches every node the copy walk rebuilds. */
  function Everywhere(n: Ast): bool { false }

  /** A reached node's reached nodes are reached: the walk is closed under children. */
  lemma {:induction false} ReachAllMember(parent: Ast, cs: seq<Ast>, stop: Ast -> bool, m: Ast)
    requires forall c | c in cs :: c < parent
    ensures m in ReachAll(parent, cs, stop) <==> exists i | 0 <= i < |cs| :: m in Reach(cs[i], stop)
    decreases |cs|
  {
    if |cs| > 0 {
      assert forall c | c in cs[1..] :: c in cs;
      ReachAllMember(parent, cs[1..], stop, m);
      if m in ReachAll(parent, cs[1..], stop) {
        var i :| 0 <= i < |cs[1..]| && m in Reach(cs[1..][i], stop);
        assert m in Reach(cs[i + 1], stop);
      }
      if exists i | 0 <= i < |cs| :: m in Reach(cs[i], stop) {
        var i :| 0 <= i < |cs| && m in Reach(cs[i], stop);
        if i > 0 {
          assert cs[i] == cs[1..][i - 1];
        }
      }
    }
  }

  /** The reached set is the node plus, unless the walk stops there, the reached sets of the
      visited children. */
  lemma ReachUnfold(n: Ast, stop: Ast -> bool, m: Ast)
    ensures m in Reach(n, stop) <==>
              m == n || (!stop(n) && exists c | c in PassChildren(n) :: m in Reach(c, stop))
  {
    ReachAllMember(n, PassChildren(n), stop, m);
    if !stop(n) && exists c | c in PassChildren(n) :: m in Reach(c, stop) {
      var c :| c in PassChildren(n) && m in Reach(c, stop);
      var i :| 0 <= i < |PassChildren(n)| && PassChildren(n)[i] == c;
    }
  }

  /** A catch clause visits only its body, so the walk reaches a catch type only when the
      same node also occurs under the body. */
  lemma CatchTypesNotTraversed(n: Ast, stop: Ast -> bool, m: Ast)
    requires n.head.CatchClause? && Conforms(n)
    ensures m in Reach(n, stop) <==>
              m == n || (!stop(n) && n.slots[1].element.Some? && m in Reach(n.slots[1].element.value, stop))
  {
    ReachUnfold(n, stop, m);
    assert PassChildren(n) == OptList(n.slots[1].element) by {
      var rest := n.slots[1..];
      assert Flatten(n.slots) == SlotChildren(n.slots[0]) + Flatten(rest);
      assert Flatten(rest) == SlotChildren(rest[0]) + Flatten(rest[1..]);
      assert rest[1..] == [];
    }
  }

  /** The generic read-only fold. `visit(n, acc)` is `Some(acc')` when the subclass
      overrides the Visit method of n's kind (and returns without visiting children), and
      `None` when the base method runs, which visits the children in order. */
  function Walk<S>(visit: (Ast, S) -> Option<S>, n: Ast, acc: S): S
    decreases n, 1
  {
    match visit(n, acc)
    case Some(acc') => acc'
    case None =>
        WalkAll(visit, n, PassChildren(n), acc)
  }

  function WalkAll<S>(visit: (Ast, S) -> Option<S>, parent: Ast, cs: seq<Ast>, acc: S): S
    requires forall c | c in cs :: c < parent
    decreases parent, 0, |cs|
  {
    if |cs| == 0 then acc
    else
      assert cs[0] in cs;
      assert forall c | c in cs[1..] :: c in cs;
      WalkAll(visit, parent, cs[1..], Walk(visit, cs[0], acc))
  }
}
