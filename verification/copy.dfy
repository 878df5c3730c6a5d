/** The copy walk of BaseCopyCustomAstVisitor and the two overriding visitors built on it.
    Each Visit method copies the children it visits (VisitElement / VisitElements /
    VisitStatements, in its own order) and hands the copies to the node's constructor
    together with the node's own fields. The model splits that into `CopyChildren` (which
    children, in which order), `Rebuild` (the base constructor call) and `Relabel` (the
    identifier an overriding Visit method substitutes). */
module CopyWalk {
  import opened Wrappers
  import opened Syntax
  import opened Text
  import opened Traversal

  /** The three copy visitors: the base class, and the subclasses that override
      VisitVariableExpression (variable renaming) or VisitFunctionDefinition and
      VisitStringConstantExpression (function renaming), each with its name table. */
  datatype Rewriter =
    | BaseCopy
    | AlterVariables(table: map<string, string>)
    | AlterFunctions(table: map<string, string>)

  const GlobalPrefix: string := "global:"

  /** The substitution both alter visitors apply: the table entry of the lowercased name
      (prefix included), with the `global:` qualifier put back when the original has it. */
  function Rename(table: map<string, string>, name: string): (r: string)
    requires Lower(name) in table
    ensures StartsWith(name, GlobalPrefix) ==> StartsWith(r, GlobalPrefix) && r[|GlobalPrefix|..] == table[Lower(name)]
    ensures !StartsWith(name, GlobalPrefix) ==> r == table[Lower(name)]
  {
    if StartsWith(name, GlobalPrefix) then GlobalPrefix + table[Lower(name)] else table[Lower(name)]
  }

  /** Whether an overriding Visit method accepts the node: a renamed variable or function
      must have its lowercased name in the table. */
  predicate KnownName(rw: Rewriter, n: Ast) {
    match rw
    case BaseCopy => true
    case AlterVariables(table) => n.head.VariableExpression? ==> Lower(n.head.userPath) in table
    case AlterFunctions(table) => n.head.FunctionDefinition? ==> Lower(n.head.name) in table
  }

  /** The exception an overriding Visit method throws on an unknown name. */
  function UnknownNameError(rw: Rewriter): Error
    requires !rw.BaseCopy?
  {
    if rw.AlterVariables? then VariableNotGenerated else FunctionNotGenerated
  }

  /** The children the copy walk visits, in copy order. It is the read-only walk's order
      except for if and switch statements: their clauses go through a lazy LINQ query that
      only runs inside the constructor, after the else clause / default block was copied. */
  function CopyChildren(n: Ast): (r: seq<Ast>)
    ensures forall c | c in r :: c < n
  {
    if n.head.IfStatement? && |n.slots| == 2 then
      Flatten2(n.slots[1], n.slots[0]);
      SlotChildren(n.slots[1]) + SlotChildren(n.slots[0])
    else if n.head.SwitchStatement? && |n.slots| == 3 then
      SlotChildren(n.slots[0]) + SlotChildren(n.slots[2]) + SlotChildren(n.slots[1])
    else PassChildren(n)
  }

  /** Both walks visit the same children, each as often: only the order differs. */
  lemma CopyChildrenPermutesPassChildren(n: Ast)
    ensures multiset(CopyChildren(n)) == multiset(PassChildren(n))
  {
    var cs, ps := CopyChildren(n), PassChildren(n);
    if n.head.IfStatement? && |n.slots| == 2 {
      assert n.slots == [n.slots[0], n.slots[1]];
      Flatten2(n.slots[0], n.slots[1]);
      var a, b := SlotChildren(n.slots[0]), SlotChildren(n.slots[1]);
      assert cs == b + a && ps == a + b;
      assert multiset(cs) == multiset(b) + multiset(a) == multiset(ps);
    } else if n.head.SwitchStatement? && |n.slots| == 3 {
      assert n.slots == [n.slots[0], n.slots[1], n.slots[2]];
      Flatten3(n.slots[0], n.slots[1], n.slots[2]);
      var a, b, d := SlotChildren(n.slots[0]), SlotChildren(n.slots[1]), SlotChildren(n.slots[2]);
      assert cs == a + d + b && ps == a + b + d;
      assert multiset(cs) == multiset(a) + multiset(d) + multiset(b) == multiset(ps);
    }
  }

  lemma CopyChildrenMember(n: Ast, c: Ast)
    ensures c in CopyChildren(n) <==> c in PassChildren(n)
  {
    CopyChildrenPermutesPassChildren(n);
    assert c in CopyChildren(n) <==> c in multiset(CopyChildren(n));
    assert c in PassChildren(n) <==> c in multiset(PassChildren(n));
  }

  /** VisitElement: an absent child stays absent, a present one is replaced by its copy. */
  function MapOpt(f: Ast -> Ast, o: Option<Ast>): (r: Option<Ast>)
    ensures OptList(r) == MapSeq(f, OptList(o))
  {
    if o.Some? then Some(f(o.value)) else None
  }

  /** VisitStatements: the copies, in order. */
  function MapSeq(f: Ast -> Ast, s: seq<Ast>): (r: seq<Ast>)
    ensures |r| == |s|
    ensures forall i | 0 <= i < |s| :: r[i] == f(s[i])
  {
    seq(|s|, i requires 0 <= i < |s| => f(s[i]))
  }

  lemma MapSeqAppend(f: Ast -> Ast, a: seq<Ast>, b: seq<Ast>)
    ensures MapSeq(f, a + b) == MapSeq(f, a) + MapSeq(f, b)
  {
  }

  /** VisitElements: an absent collection becomes an empty array. */
  function MapCollection(f: Ast -> Ast, e: Collection): (r: Collection)
    ensures r.Present?
    ensures CollectionList(r) == MapSeq(f, CollectionList(e))
  {
    Present(MapSeq(f, CollectionList(e)))
  }

  /** The copied (test, body) clauses or (key, value) entries. */
  function MapPairs(f: Ast -> Ast, ps: seq<Pair>): (r: seq<Pair>)
    ensures |r| == |ps|
    ensures forall i | 0 <= i < |ps| :: r[i] == Pair(f(ps[i].first), f(ps[i].second))
    ensures PairList(r) == MapSeq(f, PairList(ps))
    decreases |ps|
  {
    if |ps| == 0 then []
    else
      var rest := MapPairs(f, ps[1..]);
      var r := [Pair(f(ps[0].first), f(ps[0].second))] + rest;
      assert r[1..] == rest;
      MapSeqAppend(f, [ps[0].first, ps[0].second], PairList(ps[1..]));
      r
  }

  /** One slot with every visited child replaced by its copy; kept nodes are handed over. */
  function MapSlot(f: Ast -> Ast, s: Slot): (r: Slot)
    ensures KindOf(r) == KindOf(s)
    ensures SlotChildren(r) == MapSeq(f, SlotChildren(s))
  {
    match s
    case One(o) => One(MapOpt(f, o))
    case Many(e) => Many(MapCollection(f, e))
    case Statements(ss) => Statements(MapSeq(f, ss))
    case Clauses(ps) => Clauses(MapPairs(f, ps))
    case Kept(ns) => Kept(ns)
  }

  function MapSlots(f: Ast -> Ast, ss: seq<Slot>): (r: seq<Slot>)
    ensures |r| == |ss|
    ensures forall i | 0 <= i < |ss| :: r[i] == MapSlot(f, ss[i])
  {
    seq(|ss|, i requires 0 <= i < |ss| => MapSlot(f, ss[i]))
  }

  lemma {:induction false} FlattenMapSlots(f: Ast -> Ast, ss: seq<Slot>)
    ensures Flatten(MapSlots(f, ss)) == MapSeq(f, Flatten(ss))
    decreases |ss|
  {
    if |ss| > 0 {
      FlattenMapSlots(f, ss[1..]);
      assert MapSlots(f, ss)[1..] == MapSlots(f, ss[1..]);
      MapSeqAppend(f, SlotChildren(ss[0]), Flatten(ss[1..]));
    }
  }

  /** Every child of a slot is a child of the run of slots it sits in. */
  lemma SlotChildInFlatten(ss: seq<Slot>, i: int)
    requires 0 <= i < |ss|
    ensures forall c | c in SlotChildren(ss[i]) :: c in Flatten(ss)
  {
    forall c | c in SlotChildren(ss[i]) ensures c in Flatten(ss) {
      FlattenMember(ss, c);
    }
  }

  /** A copy function that fixes the visited children fixes a slot with no null collection. */
  lemma MapSlotFix(f: Ast -> Ast, s: Slot)
    requires forall c | c in SlotChildren(s) :: f(c) == c
    requires s != Many(Absent)
    ensures MapSlot(f, s) == s
  {
    match s
    case One(_) =>
    case Many(e) =>
      assert forall i | 0 <= i < |e.items| :: e.items[i] in SlotChildren(s);
    case Statements(ss) =>
      assert forall i | 0 <= i < |ss| :: ss[i] in SlotChildren(s);
    case Clauses(ps) =>
      MapPairsFix(f, ps);
    case Kept(_) =>
  }

  lemma MapPairsFix(f: Ast -> Ast, ps: seq<Pair>)
    requires forall c | c in PairList(ps) :: f(c) == c
    ensures MapPairs(f, ps) == ps
  {
    PairListIndex(ps);
    forall i | 0 <= i < |ps| ensures MapPairs(f, ps)[i] == ps[i] {
      assert PairList(ps)[2 * i] in PairList(ps) && PairList(ps)[2 * i + 1] in PairList(ps);
    }
  }

  lemma MapSeqCompose(f: Ast -> Ast, g: Ast -> Ast, k: Ast -> Ast, xs: seq<Ast>)
    requires forall c | c in xs :: g(f(c)) == k(c)
    ensures MapSeq(g, MapSeq(f, xs)) == MapSeq(k, xs)
  {
    assert forall i | 0 <= i < |xs| :: xs[i] in xs;
  }

  lemma MapPairsCompose(f: Ast -> Ast, g: Ast -> Ast, k: Ast -> Ast, ps: seq<Pair>)
    requires forall c | c in PairList(ps) :: g(f(c)) == k(c)
    ensures MapPairs(g, MapPairs(f, ps)) == MapPairs(k, ps)
  {
    PairListIndex(ps);
    assert forall i | 0 <= i < |ps| :: ps[i].first in PairList(ps) && ps[i].second in PairList(ps);
  }

  /** Mapping twice is mapping once with any function that agrees with the composition on
      the visited children. */
  lemma MapSlotCompose(f: Ast -> Ast, g: Ast -> Ast, k: Ast -> Ast, s: Slot)
    requires forall c | c in SlotChildren(s) :: g(f(c)) == k(c)
    ensures MapSlot(g, MapSlot(f, s)) == MapSlot(k, s)
  {
    match s
    case One(_) =>
    case Many(e) =>
      MapSeqCompose(f, g, k, CollectionList(e));
    case Statements(ss) =>
      MapSeqCompose(f, g, k, ss);
    case Clauses(ps) =>
      MapPairsCompose(f, g, k, ps);
    case Kept(_) =>
  }

  lemma MapSlotsFix(f: Ast -> Ast, ss: seq<Slot>)
    requires forall c | c in Flatten(ss) :: f(c) == c
    requires forall i | 0 <= i < |ss| :: ss[i] != Many(Absent)
    ensures MapSlots(f, ss) == ss
  {
    forall i | 0 <= i < |ss| ensures MapSlot(f, ss[i]) == ss[i] {
      SlotChildInFlatten(ss, i);
      MapSlotFix(f, ss[i]);
    }
  }

  lemma MapSlotsCompose(f: Ast -> Ast, g: Ast -> Ast, k: Ast -> Ast, ss: seq<Slot>)
    requires forall c | c in Flatten(ss) :: g(f(c)) == k(c)
    ensures MapSlots(g, MapSlots(f, ss)) == MapSlots(k, ss)
  {
    forall i | 0 <= i < |ss| ensures MapSlot(g, MapSlot(f, ss[i])) == MapSlot(k, ss[i]) {
      SlotChildInFlatten(ss, i);
      MapSlotCompose(f, g, k, ss[i]);
    }
  }

  /** The copy visitor passes ForEachFlags.None instead of the original flags. */
  function ResetFlags(h: Head): (r: Head)
    ensures Schema(r) == Schema(h)
  {
    if h.ForEachStatement? then h.(forEachFlags := ForEachNone) else h
  }

  /** The fields a copy normalises: every visited collection is an array (never null) and a
      foreach statement's flags are None. */
  predicate LocallyNormal(n: Ast) {
    && (n.head.ForEachStatement? ==> n.head.forEachFlags == ForEachNone)
    && forall i | 0 <= i < |n.slots| :: n.slots[i] != Many(Absent)
  }

  /** The constructor call at the end of each Visit method of the base copy visitor, given
      the copy `f(c)` of each visited child `c`: the extent, the node's own fields, the
      copies in place of the children, every collection as an array, foreach flags reset
      to None. Catch types and error nodes' parts are handed over as they are. */
  function Rebuild(n: Ast, f: Ast -> Ast): (r: Ast)
    ensures r.extent == n.extent
    ensures r.head == ResetFlags(n.head)
    ensures Conforms(r) == Conforms(n)
    ensures PassChildren(r) == MapSeq(f, PassChildren(n))
    ensures LocallyNormal(r)
  {
    FlattenMapSlots(f, n.slots);
    Node(n.extent, ResetFlags(n.head), MapSlots(f, n.slots))
  }

  /** Rebuilding a normalised node around its own children gives the node back. */
  lemma RebuildFix(n: Ast, f: Ast -> Ast)
    requires LocallyNormal(n)
    requires forall c | c in PassChildren(n) :: f(c) == c
    ensures Rebuild(n, f) == n
  {
    MapSlotsFix(f, n.slots);
  }

  /** What an overriding Visit method hands its constructor in place of the identifier:
      the renamed variable path, the renamed function name, or the renamed string value when
      the lowercased string is a generated function name. Any other head is kept, and so is
      an identifier the table does not know (the walk has already failed on it). */
  function RelabelHead(rw: Rewriter, h: Head): (r: Head)
    ensures Schema(r) == Schema(h)
    ensures Erase(rw, r) == Erase(rw, h)
    ensures r.VariableExpression? <==> h.VariableExpression?
    ensures r.FunctionDefinition? <==> h.FunctionDefinition?
    ensures r.ForEachStatement? ==> r == h
  {
    match rw
    case BaseCopy => h
    case AlterVariables(table) =>
      if h.VariableExpression? && Lower(h.userPath) in table then
        VariableExpression(Rename(table, h.userPath), h.splatted)
      else h
    case AlterFunctions(table) =>
      if h.FunctionDefinition? && Lower(h.name) in table then
        FunctionDefinition(h.isFilter, h.isWorkflow, Rename(table, h.name))
      else if h.StringConstantExpression? && Lower(h.value) in table then
        StringConstantExpression(Rename(table, h.value), h.stringConstantType)
      else h
  }

  /** A head with the identifiers a rewriter may replace blanked out: variable paths for the
      variable renamer; function names and string constant values for the function renamer. */
  function Erase(rw: Rewriter, h: Head): Head {
    match rw
    case BaseCopy => h
    case AlterVariables(_) =>
      if h.VariableExpression? then VariableExpression("", h.splatted) else h
    case AlterFunctions(_) =>
      if h.FunctionDefinition? then FunctionDefinition(h.isFilter, h.isWorkflow, "")
      else if h.StringConstantExpression? then StringConstantExpression("", h.stringConstantType)
      else h
  }

  function Relabel(rw: Rewriter, m: Ast): (r: Ast)
    ensures r.extent == m.extent && r.slots == m.slots
  {
    Node(m.extent, RelabelHead(rw, m.head), m.slots)
  }

  /** Error statements and error expressions: the copy visitor returns them as they are. */
  predicate IsErrorKind(h: Head) {
    h.ErrorStatement? || h.ErrorExpression?
  }

  /** The constructor rebuilding `n` would be handed a node that already has a parent, and
      an AST node accepts only one parent (the constructor throws "AstIsReused"): a catch
      type, which the catch clause passes on without copying it, or an error node, which the
      copy returns as itself. An error node is returned, not rebuilt, so it adopts nothing. */
  predicate Reparents(n: Ast) {
    && !IsErrorKind(n.head)
    && ((exists i | 0 <= i < |n.slots| :: n.slots[i].Kept? && n.slots[i].nodes != [])
        || (exists c | c in PassChildren(n) :: IsErrorKind(c.head)))
  }

  /** The exceptions a copy can end with. */
  predicate CopyError(rw: Rewriter, e: Error) {
    e == AstIsReused || (!rw.BaseCopy? && e == UnknownNameError(rw))
  }

  /** `node.Visit(visitor)` for one of the copy visitors: an overriding method first rejects
      an unknown name; then the children are copied in copy order, the first exception
      ending the walk; then the node is rebuilt around the copies, which throws when the
      rebuilt node would adopt a node that has a parent already. */
  function Copy(rw: Rewriter, n: Ast): (r: Result<Ast>)
    ensures r.Success? ==> r.value.extent == n.extent
    ensures r.Failure? ==> CopyError(rw, r.error)
    ensures !KnownName(rw, n) ==> r == Failure(UnknownNameError(rw))
    ensures Reparents(n) ==> r.Failure?
    decreases n, 1
  {
    if !KnownName(rw, n) then Failure(UnknownNameError(rw))
    else
      var ks :- CopyAll(rw, n, CopyChildren(n));
      if Reparents(n) then Failure(AstIsReused)
      else Success(Relabel(rw, Rebuild(n, c => CopyOf(rw, n, c))))
  }

  /** The copy of child `c` of `n` once all of them were copied (a non-child is left as it is). */
  function CopyOf(rw: Rewriter, n: Ast, c: Ast): Ast
    decreases n, 0
  {
    if c in CopyChildren(n) && Copy(rw, c).Success? then Copy(rw, c).value else c
  }

  /** The copies of a run of children, in order, or the first exception. */
  function Sequence(rs: seq<Result<Ast>>): (r: Result<seq<Ast>>)
    ensures r.Success? <==> forall i | 0 <= i < |rs| :: rs[i].Success?
    ensures r.Success? ==> |r.value| == |rs| && forall i | 0 <= i < |rs| :: rs[i] == Success(r.value[i])
    ensures r.Failure? ==>
              exists i | 0 <= i < |rs| :: rs[i] == Failure(r.error) && forall j | 0 <= j < i :: rs[j].Success?
    decreases |rs|
  {
    if |rs| == 0 then Success([])
    else if rs[0].Failure? then Failure(rs[0].error)
    else
      match Sequence(rs[1..])
      case Failure(e) =>
        assert forall i | 1 <= i < |rs| :: rs[i] == rs[1..][i - 1];
        var k :| 0 <= k < |rs[1..]| && rs[1..][k] == Failure(e) && forall j | 0 <= j < k :: rs[1..][j].Success?;
        assert rs[k + 1] == Failure(e) && forall j | 0 <= j < k + 1 :: rs[j].Success?;
        Failure(e)
      case Success(tail) =>
        assert forall i | 1 <= i < |rs| :: rs[i] == rs[1..][i - 1];
        Success([rs[0].value] + tail)
  }

  /** VisitElement over each child in turn, stopping at the first exception. */
  function CopyAll(rw: Rewriter, parent: Ast, cs: seq<Ast>): (r: Result<seq<Ast>>)
    requires forall c | c in cs :: c < parent
    ensures r.Success? ==> |r.value| == |cs|
    ensures r.Failure? ==> CopyError(rw, r.error)
    decreases parent, 0, 1
  {
    assert forall i | 0 <= i < |cs| :: cs[i] in cs;
    Sequence(Copies(rw, parent, cs))
  }

  function Copies(rw: Rewriter, parent: Ast, cs: seq<Ast>): (r: seq<Result<Ast>>)
    requires forall i | 0 <= i < |cs| :: cs[i] < parent
    ensures |r| == |cs|
    decreases parent, 0, 0
  {
    seq(|cs|, i requires 0 <= i < |cs| => Copy(rw, cs[i]))
  }

  /** CopyAll copies each child in place: it succeeds exactly when every child's copy does,
      and then its i-th result is the copy of the i-th child. */
  lemma CopyAllElementwise(rw: Rewriter, parent: Ast, cs: seq<Ast>)
    requires forall c | c in cs :: c < parent
    ensures CopyAll(rw, parent, cs).Success? <==> forall c | c in cs :: Copy(rw, c).Success?
    ensures CopyAll(rw, parent, cs).Success? ==>
              forall i | 0 <= i < |cs| :: Copy(rw, cs[i]) == Success(CopyAll(rw, parent, cs).value[i])
  {
    assert forall i | 0 <= i < |cs| :: cs[i] in cs;
    var rs := Copies(rw, parent, cs);
    assert forall i | 0 <= i < |cs| :: rs[i] == Copy(rw, cs[i]);
    assert CopyAll(rw, parent, cs) == Sequence(rs);
    if Sequence(rs).Success? {
      forall c | c in cs ensures Copy(rw, c).Success? {
        var i :| 0 <= i < |cs| && cs[i] == c;
        assert rs[i].Success?;
      }
    } else {
      var i :| 0 <= i < |rs| && !rs[i].Success?;
      assert !Copy(rw, cs[i]).Success?;
    }
  }
}
