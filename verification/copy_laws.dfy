/** What the copy walk promises as a whole: when it fails, that a plain copy is the identity
    on normalised trees and normalises every tree, and that a renaming copy is the plain copy
    with identifiers replaced and nothing else changed. */
module CopyLaws {
  import opened Wrappers
  import opened Syntax
  import opened Traversal
  import opened CopyWalk

  /** Every node the walk reaches passes the rewriter's name check. */
  predicate AllKnown(rw: Rewriter, n: Ast) {
    forall m | m in Reach(n, Everywhere) :: KnownName(rw, m)
  }

  /** No node the walk reaches would make its rebuilt form adopt a node that has a parent. */
  predicate Adoptable(n: Ast) {
    forall m | m in Reach(n, Everywhere) :: !Reparents(m)
  }

  /** Every node of the tree is already in the form a copy produces: normalised fields, and
      nothing a constructor would refuse to adopt. */
  predicate Normal(n: Ast) {
    forall m | m in Reach(n, Everywhere) :: LocallyNormal(m) && !Reparents(m)
  }

  /** The children a copy visits, as the read-only walk lists them. */
  lemma CopyAllOfChildren(rw: Rewriter, n: Ast)
    ensures CopyAll(rw, n, CopyChildren(n)).Success? <==> forall c | c in PassChildren(n) :: Copy(rw, c).Success?
    ensures forall c | c in PassChildren(n) :: c in CopyChildren(n)
  {
    CopyAllElementwise(rw, n, CopyChildren(n));
    forall c | c in PassChildren(n) ensures c in CopyChildren(n) {
      CopyChildrenMember(n, c);
    }
    if !CopyAll(rw, n, CopyChildren(n)).Success? {
      var c :| c in CopyChildren(n) && !Copy(rw, c).Success?;
      CopyChildrenMember(n, c);
    }
  }

  /** One step of the walk: the node's own check, then its children's copies, then the
      constructor's parent check; on success the node is rebuilt around exactly those copies. */
  lemma CopyUnfold(rw: Rewriter, n: Ast)
    ensures Copy(rw, n).Success? <==>
              KnownName(rw, n) && !Reparents(n) && forall c | c in PassChildren(n) :: Copy(rw, c).Success?
    ensures Copy(rw, n).Success? ==>
              && Copy(rw, n).value == Relabel(rw, Rebuild(n, c => CopyOf(rw, n, c)))
              && forall c | c in PassChildren(n) :: Copy(rw, c) == Success(CopyOf(rw, n, c))
  {
    CopyAllOfChildren(rw, n);
  }

  /** Which exception a failing copy ends with: the node's own name check comes first, then
      the first child in copy order whose copy throws, and only when every child's copy
      succeeded the constructor's parent check. */
  lemma CopyFailureOrder(rw: Rewriter, n: Ast, i: nat)
    ensures !KnownName(rw, n) ==> Copy(rw, n) == Failure(UnknownNameError(rw))
    ensures && KnownName(rw, n) && i < |CopyChildren(n)| && Copy(rw, CopyChildren(n)[i]).Failure?
            && (forall j | 0 <= j < i :: Copy(rw, CopyChildren(n)[j]).Success?)
            ==> Copy(rw, n) == Copy(rw, CopyChildren(n)[i])
    ensures && KnownName(rw, n) && Reparents(n) && (forall c | c in CopyChildren(n) :: Copy(rw, c).Success?)
            ==> Copy(rw, n) == Failure(AstIsReused)
  {
    var cs := CopyChildren(n);
    assert forall j | 0 <= j < |cs| :: cs[j] in cs;
    var rs := Copies(rw, n, cs);
    assert CopyAll(rw, n, cs) == Sequence(rs);
    assert forall j | 0 <= j < |cs| :: rs[j] == Copy(rw, cs[j]);
    if KnownName(rw, n) && i < |cs| && rs[i].Failure? && forall j | 0 <= j < i :: rs[j].Success? {
      var k :| 0 <= k < |rs| && rs[k] == Failure(Sequence(rs).error) && forall j | 0 <= j < k :: rs[j].Success?;
      assert k == i;
    }
    if KnownName(rw, n) && forall c | c in cs :: Copy(rw, c).Success? {
      CopyAllElementwise(rw, n, cs);
    }
  }

  /** The children of a copy are the copies of the children, slot for slot and in order, and
      the copy keeps the extent and the node's own fields, foreach flags aside. */
  lemma ChildrenOfCopy(rw: Rewriter, n: Ast, x: Ast)
    requires Copy(rw, n) == Success(x)
    ensures x.extent == n.extent
    ensures x.head == RelabelHead(rw, ResetFlags(n.head))
    ensures |PassChildren(x)| == |PassChildren(n)|
    ensures forall i | 0 <= i < |PassChildren(n)| :: Copy(rw, PassChildren(n)[i]) == Success(PassChildren(x)[i])
  {
    CopyUnfold(rw, n);
  }

  /** The walk reaches the node and, below it, whatever its children's walks reach. */
  lemma ReachChild(n: Ast, c: Ast, m: Ast)
    requires c in PassChildren(n) && m in Reach(c, Everywhere)
    ensures m in Reach(n, Everywhere)
  {
    ReachUnfold(n, Everywhere, m);
  }

  /** A copy fails exactly when some node of the tree carries a name the table does not know
      or would make its rebuilt form adopt a node that has a parent; the plain copy fails only
      for the second reason. */
  lemma {:induction false} CopySucceedsIff(rw: Rewriter, n: Ast)
    ensures Copy(rw, n).Success? <==> AllKnown(rw, n) && Adoptable(n)
    ensures rw.BaseCopy? ==> (Copy(rw, n).Success? <==> Adoptable(n))
    decreases n
  {
    CopyUnfold(rw, n);
    forall c | c in PassChildren(n) ensures Copy(rw, c).Success? <==> AllKnown(rw, c) && Adoptable(c) {
      CopySucceedsIff(rw, c);
    }
    if AllKnown(rw, n) && Adoptable(n) {
      assert KnownName(rw, n) && !Reparents(n);
      forall c | c in PassChildren(n) ensures AllKnown(rw, c) && Adoptable(c) {
        forall m | m in Reach(c, Everywhere) ensures KnownName(rw, m) && !Reparents(m) {
          ReachChild(n, c, m);
        }
      }
    } else {
      var m :| m in Reach(n, Everywhere) && !(KnownName(rw, m) && !Reparents(m));
      ReachUnfold(n, Everywhere, m);
    }
    if rw.BaseCopy? {
      assert AllKnown(rw, n);
    }
  }

  /** A catch clause that names its exception types cannot be copied: its constructor is
      handed the original type constraints, which belong to the original clause. */
  lemma TypedCatchIsReused(rw: Rewriter, e: Extent, types: seq<Ast>, body: Ast)
    requires types != [] && Copy(rw, body).Success?
    ensures Copy(rw, Node(e, CatchClause, [Kept(types), One(Some(body))])) == Failure(AstIsReused)
  {
    var n := Node(e, CatchClause, [Kept(types), One(Some(body))]);
    assert CopyChildren(n) == [body] by {
      Flatten2(Kept(types), One(Some(body)));
    }
    assert CopyAll(rw, n, CopyChildren(n)).Success? by {
      CopyAllElementwise(rw, n, [body]);
    }
    assert Reparents(n) by {
      assert n.slots[0].Kept? && n.slots[0].nodes != [];
    }
    assert KnownName(rw, n);
  }

  /** Every node below a normalised node is normalised. */
  lemma NormalChild(n: Ast, c: Ast)
    requires Normal(n) && c in PassChildren(n)
    ensures Normal(c)
  {
    forall m | m in Reach(c, Everywhere) ensures LocallyNormal(m) && !Reparents(m) {
      ReachChild(n, c, m);
    }
  }

  /** The plain copy of a normalised tree is the tree itself. */
  lemma {:induction false} CopyNormalIdentity(n: Ast)
    requires Normal(n)
    ensures Copy(BaseCopy, n) == Success(n)
    decreases n
  {
    CopySucceedsIff(BaseCopy, n);
    CopyUnfold(BaseCopy, n);
    var f := c => CopyOf(BaseCopy, n, c);
    forall c | c in PassChildren(n) ensures f(c) == c {
      NormalChild(n, c);
      CopyNormalIdentity(c);
    }
    RebuildFix(n, f);
  }

  /** A copy keeps every node's kind apart from its identifier: an error node stays one, and
      nothing else becomes one. */
  lemma CopyKeepsErrorKind(rw: Rewriter, n: Ast, x: Ast)
    requires Copy(rw, n) == Success(x)
    ensures IsErrorKind(x.head) <==> IsErrorKind(n.head)
  {
    ChildrenOfCopy(rw, n, x);
  }

  /** A copy keeps the original's catch types, slot for slot. */
  lemma CopyKeepsKept(rw: Rewriter, n: Ast, x: Ast)
    requires Copy(rw, n) == Success(x)
    ensures |x.slots| == |n.slots|
    ensures forall i | 0 <= i < |x.slots| :: x.slots[i].Kept? ==> x.slots[i] == n.slots[i]
  {
    CopyUnfold(rw, n);
    var f := c => CopyOf(rw, n, c);
    assert x.slots == MapSlots(f, n.slots);
    forall i | 0 <= i < |x.slots| && x.slots[i].Kept? ensures x.slots[i] == n.slots[i] {
      assert x.slots[i] == MapSlot(f, n.slots[i]);
      assert KindOf(x.slots[i]) == KindOf(n.slots[i]);
    }
  }

  /** The children of a copy are error nodes exactly where the original's are. */
  lemma CopyErrorChildren(rw: Rewriter, n: Ast, x: Ast)
    requires Copy(rw, n) == Success(x)
    ensures (exists c | c in PassChildren(x) :: IsErrorKind(c.head)) ==>
              exists c | c in PassChildren(n) :: IsErrorKind(c.head)
  {
    ChildrenOfCopy(rw, n, x);
    if exists c' | c' in PassChildren(x) :: IsErrorKind(c'.head) {
      var c' :| c' in PassChildren(x) && IsErrorKind(c'.head);
      var i :| 0 <= i < |PassChildren(x)| && PassChildren(x)[i] == c';
      var c := PassChildren(n)[i];
      assert c in PassChildren(n);
      CopyKeepsErrorKind(rw, c, c');
    }
  }

  /** The root of a copy is normalised, and its own rebuild would adopt nothing either: its
      catch types are the original's (none, or the copy would have failed) and its children
      are error nodes exactly where the original's are. */
  lemma CopyLocallyNormal(rw: Rewriter, n: Ast, x: Ast)
    requires Copy(rw, n) == Success(x)
    ensures LocallyNormal(x) && !Reparents(x)
  {
    CopyUnfold(rw, n);
    CopyKeepsErrorKind(rw, n, x);
    CopyKeepsKept(rw, n, x);
    CopyErrorChildren(rw, n, x);
  }

  /** A tree is normalised when its root is and the trees below its children are. */
  lemma NormalFromChildren(x: Ast)
    requires LocallyNormal(x) && !Reparents(x)
    requires forall i | 0 <= i < |PassChildren(x)| :: Normal(PassChildren(x)[i])
    ensures Normal(x)
  {
    forall m | m in Reach(x, Everywhere) ensures LocallyNormal(m) && !Reparents(m) {
      ReachUnfold(x, Everywhere, m);
    }
  }

  /** Every copy is normalised: no null collection, no foreach flag and no catch type
      survives, and no error node sits below a rebuilt node. */
  lemma {:induction false} CopyIsNormal(rw: Rewriter, n: Ast, x: Ast)
    requires Copy(rw, n) == Success(x)
    ensures Normal(x)
    decreases n
  {
    ChildrenOfCopy(rw, n, x);
    CopyLocallyNormal(rw, n, x);
    var cs, cs' := PassChildren(n), PassChildren(x);
    forall i | 0 <= i < |cs'| ensures Normal(cs'[i]) {
      assert cs[i] in cs;
      CopyIsNormal(rw, cs[i], cs'[i]);
    }
    NormalFromChildren(x);
  }

  /** Copying a copy with the plain visitor changes nothing. */
  lemma CopyIdempotent(rw: Rewriter, n: Ast, x: Ast)
    requires Copy(rw, n) == Success(x)
    ensures Copy(BaseCopy, x) == Success(x)
  {
    CopyIsNormal(rw, n, x);
    CopyNormalIdentity(x);
  }

  /** Replace the head of every node the walk reaches by `g` of it, keeping everything else
      (collections come out as arrays, as in a copy). */
  function MapHeads(g: Head -> Head, x: Ast): (r: Ast)
    ensures r.extent == x.extent && r.head == g(x.head)
    decreases x
  {
    Node(x.extent, g(x.head), MapSlots(c => if c in PassChildren(x) then MapHeads(g, c) else c, x.slots))
  }

  /** The children of MapHeads(g, x) are MapHeads(g, ·) of x's children. */
  lemma MapHeadsChildren(g: Head -> Head, x: Ast)
    ensures |PassChildren(MapHeads(g, x))| == |PassChildren(x)|
    ensures forall i | 0 <= i < |PassChildren(x)| :: PassChildren(MapHeads(g, x))[i] == MapHeads(g, PassChildren(x)[i])
  {
    var f := c => if c in PassChildren(x) then MapHeads(g, c) else c;
    FlattenMapSlots(f, x.slots);
    assert forall i | 0 <= i < |PassChildren(x)| :: PassChildren(x)[i] in PassChildren(x);
  }

  /** A head map that `e` cannot see through disappears under `e`. */
  lemma {:induction false} MapHeadsAbsorb(e: Head -> Head, r: Head -> Head, y: Ast)
    requires forall h :: e(r(h)) == e(h)
    ensures MapHeads(e, MapHeads(r, y)) == MapHeads(e, y)
    decreases y
  {
    var ry := MapHeads(r, y);
    var fr := c => if c in PassChildren(y) then MapHeads(r, c) else c;
    var fe := c => if c in PassChildren(ry) then MapHeads(e, c) else c;
    var k := c => if c in PassChildren(y) then MapHeads(e, c) else c;
    MapHeadsChildren(r, y);
    forall c | c in Flatten(y.slots) ensures fe(fr(c)) == k(c) {
      var i :| 0 <= i < |PassChildren(y)| && PassChildren(y)[i] == c;
      assert PassChildren(ry)[i] == MapHeads(r, c);
      MapHeadsAbsorb(e, r, c);
    }
    MapSlotsCompose(fr, fe, k, y.slots);
  }

  /** A renaming copy is the plain copy with the table applied to every identifier: it
      changes nothing the plain copy keeps. */
  lemma {:induction false} CopyFactors(rw: Rewriter, n: Ast)
    requires AllKnown(rw, n)
    ensures Copy(rw, n).Success? <==> Copy(BaseCopy, n).Success?
    ensures Copy(BaseCopy, n).Success? ==>
              Copy(rw, n) == Success(MapHeads(h => RelabelHead(rw, h), Copy(BaseCopy, n).value))
    decreases n
  {
    CopySucceedsIff(rw, n);
    CopySucceedsIff(BaseCopy, n);
    if Copy(BaseCopy, n).Failure? {
      return;
    }
    CopyUnfold(rw, n);
    CopyUnfold(BaseCopy, n);
    var R := h => RelabelHead(rw, h);
    var b := Copy(BaseCopy, n).value;
    var x := Copy(rw, n).value;
    var fb := c => CopyOf(BaseCopy, n, c);
    var fr := c => CopyOf(rw, n, c);
    var h := c => if c in PassChildren(b) then MapHeads(R, c) else c;
    assert b == Rebuild(n, fb);
    assert x == Relabel(rw, Rebuild(n, fr));
    ChildrenOfCopy(BaseCopy, n, b);
    forall c | c in Flatten(n.slots) ensures h(fb(c)) == fr(c) {
      assert c in PassChildren(n);
      var i :| 0 <= i < |PassChildren(n)| && PassChildren(n)[i] == c;
      assert fb(c) == PassChildren(b)[i];
      forall m | m in Reach(c, Everywhere) ensures KnownName(rw, m) {
        ReachChild(n, c, m);
      }
      CopyFactors(rw, c);
    }
    MapSlotsCompose(fb, h, fr, n.slots);
  }

  /** Variable renaming changes only variable paths, and function renaming only function
      names and string values: blank those out and the renamed copy is the plain copy. */
  lemma CopyChangesOnlyNames(rw: Rewriter, n: Ast, x: Ast)
    requires Copy(rw, n) == Success(x)
    ensures Copy(BaseCopy, n).Success?
    ensures MapHeads(h => Erase(rw, h), x) == MapHeads(h => Erase(rw, h), Copy(BaseCopy, n).value)
  {
    CopySucceedsIff(rw, n);
    CopyFactors(rw, n);
    var E := h => Erase(rw, h);
    var R := h => RelabelHead(rw, h);
    forall h ensures E(R(h)) == E(h) {
      assert Erase(rw, RelabelHead(rw, h)) == Erase(rw, h);
    }
    MapHeadsAbsorb(E, R, Copy(BaseCopy, n).value);
  }

  /** On a normalised tree the renaming copy is the tree with its identifiers renamed. */
  lemma CopyRenamesNormal(rw: Rewriter, n: Ast)
    requires Normal(n) && AllKnown(rw, n)
    ensures Copy(rw, n) == Success(MapHeads(h => RelabelHead(rw, h), n))
  {
    CopyNormalIdentity(n);
    CopyFactors(rw, n);
  }
}
