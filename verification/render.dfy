/** The minimal-script writer (_TextWriterVisitor): a read-only walk whose Visit methods write
    each node's text around its children. A Visit method is described by a `Frame`: for each
    slot it visits, in the order it visits them, the text written before the slot and the way
    the slot's children are joined, then the text written last. Node kinds the writer does
    not override keep the read-only walk's behaviour: no text, children in walk order. */
module TextWriter {
  import opened Wrappers
  import opened Syntax
  import opened Text
  import opened Traversal
  import opened Escape
  import opened Spelling
  import opened Harvest

  /** The .NET formatting the writer leans on, left uninterpreted: a constant's text, a type
      name's ToString, the SwitchFlags value's ToString, and the ToString of the catch-type
      collection. */
  datatype Host = Host(
    constantText: Constant -> string,
    typeNameText: TypeName -> string,
    flagsText: set<SwitchFlag> -> string,
    collectionText: seq<Ast> -> string)

  /** One step of a Visit method: write text, visit a child, or throw. */
  datatype Piece = Write(text: string) | Visit(node: Ast) | Throw(error: Error)

  /** The children a run of pieces visits, in order. */
  function Visited(ps: seq<Piece>): seq<Ast> {
    if |ps| == 0 then [] else (if ps[0].Visit? then [ps[0].node] else []) + Visited(ps[1..])
  }

  predicate NoThrow(ps: seq<Piece>) {
    forall p | p in ps :: !p.Throw?
  }

  /** Every child the pieces visit is smaller than the parent: the termination measure of
      the renderer. */
  ghost predicate Below(ps: seq<Piece>, parent: Ast) {
    forall p | p in ps && p.Visit? :: p.node < parent
  }

  lemma BelowAppend(a: seq<Piece>, b: seq<Piece>, parent: Ast)
    ensures Below(a + b, parent) <==> Below(a, parent) && Below(b, parent)
  {
    if Below(a, parent) && Below(b, parent) {
      forall p | p in a + b && p.Visit? ensures p.node < parent {
        assert p in a || p in b;
      }
    }
  }

  lemma ThrowsAppend(a: seq<Piece>, b: seq<Piece>)
    ensures NoThrow(a + b) <==> NoThrow(a) && NoThrow(b)
  {
    if NoThrow(a) && NoThrow(b) {
      forall p | p in a + b ensures !p.Throw? {
        assert p in a || p in b;
      }
    }
  }

  lemma VisitedCons(p: Piece, ps: seq<Piece>)
    ensures Visited([p] + ps) == (if p.Visit? then [p.node] else []) + Visited(ps)
  {
    assert ([p] + ps)[1..] == ps;
  }

  lemma {:induction false} VisitedAppend(a: seq<Piece>, b: seq<Piece>)
    ensures Visited(a + b) == Visited(a) + Visited(b)
    decreases |a|
  {
    if |a| == 0 {
      assert a + b == b;
    } else {
      VisitedCons(a[0], a[1..] + b);
      assert a + b == [a[0]] + (a[1..] + b);
      VisitedAppend(a[1..], b);
    }
  }

  lemma {:induction false} VisitedMembers(ps: seq<Piece>)
    ensures forall p | p in ps && p.Visit? :: p.node in Visited(ps)
    decreases |ps|
  {
    if |ps| > 0 {
      VisitedMembers(ps[1..]);
      forall p | p in ps && p.Visit? ensures p.node in Visited(ps) {
        if p != ps[0] {
          assert p in ps[1..];
        }
      }
    }
  }

  /** VisitElements(elements, separator) on a present collection, and VisitStatements: the
      first element, then the separator before each later one. */
  function Joined(cs: seq<Ast>, sep: string): seq<Piece> {
    if |cs| == 0 then [] else [Visit(cs[0])] + JoinedTail(cs[1..], sep)
  }

  function JoinedTail(cs: seq<Ast>, sep: string): seq<Piece>
    decreases |cs|
  {
    if |cs| == 0 then [] else [Write(sep), Visit(cs[0])] + JoinedTail(cs[1..], sep)
  }

  lemma {:induction false} JoinedTailVisits(cs: seq<Ast>, sep: string)
    ensures Visited(JoinedTail(cs, sep)) == cs && NoThrow(JoinedTail(cs, sep))
    decreases |cs|
  {
    if |cs| > 0 {
      JoinedTailVisits(cs[1..], sep);
      VisitedAppend([Write(sep), Visit(cs[0])], JoinedTail(cs[1..], sep));
      assert Visited([Write(sep), Visit(cs[0])]) == [cs[0]] by {
        assert [Write(sep), Visit(cs[0])][1..] == [Visit(cs[0])];
      }
    }
  }

  lemma JoinedVisits(cs: seq<Ast>, sep: string)
    ensures Visited(Joined(cs, sep)) == cs && NoThrow(Joined(cs, sep))
  {
    if |cs| > 0 {
      JoinedTailVisits(cs[1..], sep);
      VisitedAppend([Visit(cs[0])], JoinedTail(cs[1..], sep));
    }
  }

  /** One clause of an if statement: keyword, condition, body. */
  function Arm(keyword: string, p: Pair): seq<Piece> {
    [Write(keyword), Visit(p.first), Write("){"), Visit(p.second), Write("}")]
  }

  lemma ArmVisits(keyword: string, p: Pair)
    ensures Visited(Arm(keyword, p)) == [p.first, p.second] && NoThrow(Arm(keyword, p))
  {
    var a := Arm(keyword, p);
    VisitedCons(a[4], []);
    assert a[4..] == [a[4]] + [];
    VisitedCons(a[3], a[4..]);
    assert a[3..] == [a[3]] + a[4..];
    VisitedCons(a[2], a[3..]);
    assert a[2..] == [a[2]] + a[3..];
    VisitedCons(a[1], a[2..]);
    assert a[1..] == [a[1]] + a[2..];
    VisitedCons(a[0], a[1..]);
    assert a == [a[0]] + a[1..];
  }

  /** The if statement's clauses: `if(...)` for the first, `elseif(...)` for the others. */
  function IfPieces(ps: seq<Pair>): seq<Piece> {
    if |ps| == 0 then [] else Arm("if(", ps[0]) + ElseIfPieces(ps[1..])
  }

  function ElseIfPieces(ps: seq<Pair>): seq<Piece>
    decreases |ps|
  {
    if |ps| == 0 then [] else Arm("elseif(", ps[0]) + ElseIfPieces(ps[1..])
  }

  lemma {:induction false} ElseIfVisits(ps: seq<Pair>)
    ensures Visited(ElseIfPieces(ps)) == PairList(ps) && NoThrow(ElseIfPieces(ps))
    decreases |ps|
  {
    if |ps| > 0 {
      ElseIfVisits(ps[1..]);
      ArmVisits("elseif(", ps[0]);
      VisitedAppend(Arm("elseif(", ps[0]), ElseIfPieces(ps[1..]));
    }
  }

  lemma IfVisits(ps: seq<Pair>)
    ensures Visited(IfPieces(ps)) == PairList(ps) && NoThrow(IfPieces(ps))
  {
    if |ps| > 0 {
      ElseIfVisits(ps[1..]);
      ArmVisits("if(", ps[0]);
      VisitedAppend(Arm("if(", ps[0]), ElseIfPieces(ps[1..]));
    }
  }

  /** One clause of a switch statement: test, then body in braces. */
  function Case(p: Pair): seq<Piece> {
    [Visit(p.first), Write("{"), Visit(p.second), Write("}")]
  }

  lemma CaseVisits(p: Pair)
    ensures Visited(Case(p)) == [p.first, p.second] && NoThrow(Case(p))
  {
    var a := Case(p);
    VisitedCons(a[3], []);
    assert a[3..] == [a[3]] + [];
    VisitedCons(a[2], a[3..]);
    assert a[2..] == [a[2]] + a[3..];
    VisitedCons(a[1], a[2..]);
    assert a[1..] == [a[1]] + a[2..];
    VisitedCons(a[0], a[1..]);
    assert a == [a[0]] + a[1..];
  }

  /** The switch statement's clauses, one after the other. */
  function SwitchPieces(ps: seq<Pair>): seq<Piece>
    decreases |ps|
  {
    if |ps| == 0 then [] else Case(ps[0]) + SwitchPieces(ps[1..])
  }

  lemma {:induction false} SwitchVisits(ps: seq<Pair>)
    ensures Visited(SwitchPieces(ps)) == PairList(ps) && NoThrow(SwitchPieces(ps))
    decreases |ps|
  {
    if |ps| > 0 {
      SwitchVisits(ps[1..]);
      CaseVisits(ps[0]);
      VisitedAppend(Case(ps[0]), SwitchPieces(ps[1..]));
    }
  }

  /** One hashtable entry: key `=` value. */
  function Entry(p: Pair): seq<Piece> {
    [Visit(p.first), Write("="), Visit(p.second)]
  }

  lemma EntryVisits(p: Pair)
    ensures Visited(Entry(p)) == [p.first, p.second] && NoThrow(Entry(p))
  {
    var a := Entry(p);
    VisitedCons(a[2], []);
    assert a[2..] == [a[2]] + [];
    VisitedCons(a[1], a[2..]);
    assert a[1..] == [a[1]] + a[2..];
    VisitedCons(a[0], a[1..]);
    assert a == [a[0]] + a[1..];
  }

  /** The hashtable's entries, separated by `;`. */
  function HashPieces(ps: seq<Pair>): seq<Piece> {
    if |ps| == 0 then [] else Entry(ps[0]) + HashTail(ps[1..])
  }

  function HashTail(ps: seq<Pair>): seq<Piece>
    decreases |ps|
  {
    if |ps| == 0 then [] else [Write(";")] + Entry(ps[0]) + HashTail(ps[1..])
  }

  lemma {:induction false} HashTailVisits(ps: seq<Pair>)
    ensures Visited(HashTail(ps)) == PairList(ps) && NoThrow(HashTail(ps))
    decreases |ps|
  {
    if |ps| > 0 {
      HashTailVisits(ps[1..]);
      EntryVisits(ps[0]);
      VisitedAppend([Write(";")], Entry(ps[0]));
      VisitedAppend([Write(";")] + Entry(ps[0]), HashTail(ps[1..]));
    }
  }

  lemma HashVisits(ps: seq<Pair>)
    ensures Visited(HashPieces(ps)) == PairList(ps) && NoThrow(HashPieces(ps))
  {
    if |ps| > 0 {
      HashTailVisits(ps[1..]);
      EntryVisits(ps[0]);
      VisitedAppend(Entry(ps[0]), HashTail(ps[1..]));
    }
  }

  /** How a slot's children are written: joined by a separator, or as if / switch clauses or
      hashtable entries. A statement list is always joined by `;`. */
  datatype Style = Separated(separator: string) | IfArms | SwitchArms | HashEntries

  /** VisitElement, VisitElements with no separator, and the statement and clause loops. */
  const Plain: Style := Separated("")

  function SlotPieces(s: Slot, style: Style): seq<Piece> {
    match s
    case One(o) => if o.Some? then [Visit(o.value)] else []
    case Many(c) => if c.Present? then Joined(c.items, if style.Separated? then style.separator else "") else []
    case Statements(ss) => Joined(ss, ";")
    case Clauses(ps) =>
      (match style
       case IfArms => IfPieces(ps)
       case SwitchArms => SwitchPieces(ps)
       case HashEntries => HashPieces(ps)
       case Separated(sep) => Joined(PairList(ps), sep))
    case Kept(_) => []
  }

  /** Whatever the style, a slot's pieces visit exactly the slot's children, in walk order,
      and never throw. */
  lemma SlotPiecesVisit(s: Slot, style: Style)
    ensures Visited(SlotPieces(s, style)) == SlotChildren(s) && NoThrow(SlotPieces(s, style))
  {
    match s
    case One(o) =>
      if o.Some? {
        assert Visited([Visit(o.value)]) == [o.value];
      }
    case Many(c) =>
      if c.Present? {
        JoinedVisits(c.items, if style.Separated? then style.separator else "");
      }
    case Statements(ss) => JoinedVisits(ss, ";");
    case Clauses(ps) =>
      match style {
        case IfArms => IfVisits(ps);
        case SwitchArms => SwitchVisits(ps);
        case HashEntries => HashVisits(ps);
        case Separated(sep) => JoinedVisits(PairList(ps), sep);
      }
    case Kept(_) =>
  }

  /** Text written before one slot, the slot (by its walk-order index), and how its
      children are joined. */
  datatype Seg = Seg(before: Result<string>, slot: int, style: Style)

  /** A Visit method: one segment per slot it visits, in its own order, then the text it
      writes last. A Failure stands for a throw at that point. */
  datatype Frame = Frame(segs: seq<Seg>, after: Result<string>)

  function Emit(t: Result<string>): Piece {
    if t.Success? then Write(t.value) else Throw(t.error)
  }

  function W(s: string): Result<string> {
    Success(s)
  }

  function OneAt(n: Ast, i: nat): Option<Ast> {
    if i < |n.slots| && n.slots[i].One? then n.slots[i].element else None
  }

  function ManyAt(n: Ast, i: nat): Collection {
    if i < |n.slots| && n.slots[i].Many? then n.slots[i].collection else Absent
  }

  function ClausesAt(n: Ast, i: nat): seq<Pair> {
    if i < |n.slots| && n.slots[i].Clauses? then n.slots[i].clauses else []
  }

  function KeptAt(n: Ast, i: nat): seq<Ast> {
    if i < |n.slots| && n.slots[i].Kept? then n.slots[i].nodes else []
  }

  /** `":" + Label + " "` when a loop or switch has a label. */
  function LabelText(name: Option<string>): string {
    if name.Some? then ":" + name.value + " " else ""
  }

  /** What each Visit method of the writer writes, node kind by node kind. */
  function Shape(host: Host, n: Ast): Frame {
    match n.head
    case ScriptBlock =>
      Frame([Seg(W(""), 0, Plain), Seg(W(""), 1, Plain), Seg(W(""), 2, Plain), Seg(W(""), 3, Plain), Seg(W(""), 4, Plain)], W(""))
    case NamedBlock(_, _) => Frame([Seg(W(""), 0, Plain), Seg(W(""), 1, Plain)], W(""))
    case FunctionDefinition(_, _, name) => Frame([Seg(W("function " + name + "{"), 0, Plain), Seg(W("}"), 1, Plain)], W(""))
    case StatementBlock => Frame([Seg(W(""), 0, Plain), Seg(W(""), 1, Plain)], W(""))
    case IfStatement =>
      var hasElse := OneAt(n, 1).Some?;
      Frame([Seg(if |ClausesAt(n, 0)| == 0 then Failure(NoIfClauses) else W(""), 0, IfArms),
             Seg(W(if hasElse then "else{" else ""), 1, Plain)],
            W(if hasElse then "}" else ""))
    case Trap => Frame([Seg(W(""), 0, Plain), Seg(W("trap{"), 1, Plain)], W("}"))
    case SwitchStatement(loopLabel, flags) =>
      var flagText := if flags == {} then "" else " -" + Lower(host.flagsText(flags)) + " ";
      var hasDefault := OneAt(n, 2).Some?;
      Frame([Seg(W(LabelText(loopLabel) + "switch" + flagText + "("), 0, Plain),
             Seg(W("){"), 1, SwitchArms),
             Seg(W(if hasDefault then "default{" else ""), 2, Plain)],
            W((if hasDefault then "}" else "") + "}"))
    case DataStatement(_) =>
      Frame([Seg(W("data" + (if ManyAt(n, 1).Present? then " -supportedcommand " else "")), 1, Separated(",")),
             Seg(W("{"), 0, Plain)],
            W("}"))
    case ForEachStatement(loopLabel, _) =>
      Frame([Seg(W(LabelText(loopLabel) + "foreach("), 0, Plain), Seg(W(" in "), 1, Plain), Seg(W("){"), 2, Plain)], W("}"))
    case DoWhileStatement(loopLabel) =>
      Frame([Seg(W(LabelText(loopLabel) + "do{"), 1, Plain), Seg(W("}while("), 0, Plain)], W(")"))
    case ForStatement(loopLabel) =>
      Frame([Seg(W(LabelText(loopLabel) + "for("), 0, Plain), Seg(W(";"), 1, Plain), Seg(W(";"), 2, Plain), Seg(W("){"), 3, Plain)], W("}"))
    case WhileStatement(loopLabel) =>
      Frame([Seg(W(LabelText(loopLabel) + "while("), 0, Plain), Seg(W("){"), 1, Plain)], W("}"))
    case CatchClause =>
      var types := KeptAt(n, 0);
      Frame([Seg(W("catch" + (if |types| > 0 then " [" + host.collectionText(types) + "]" else "")), 0, Plain),
             Seg(W("{"), 1, Plain)],
            W("}"))
    case TryStatement =>
      var hasFinally := OneAt(n, 2).Some?;
      Frame([Seg(W("try{"), 0, Plain), Seg(W("}"), 1, Plain), Seg(W(if hasFinally then "finally{" else ""), 2, Plain)],
            W(if hasFinally then "}" else ""))
    case DoUntilStatement(_) => Frame([Seg(W("do{"), 1, Plain), Seg(W("}until("), 0, Plain)], W(")"))
    case ParamBlock => Frame([Seg(W(""), 0, Separated(",")), Seg(W("Param("), 1, Separated(","))], W(")"))
    case ErrorStatement => Frame([Seg(W(""), 0, Plain)], W(""))
    case ErrorExpression => Frame([Seg(W(""), 0, Plain)], W(""))
    case TypeConstraint(t) => Frame([], W("[" + host.typeNameText(t) + "]"))
    case Attribute(t) =>
      Frame([Seg(W("[" + host.typeNameText(t) + "("), 0, Separated(",")), Seg(W(""), 1, Separated(","))], W(")]"))
    case NamedAttributeArgument(name, omitted) => Frame([Seg(W(name + (if omitted then "" else "=")), 0, Plain)], W(""))
    case Parameter =>
      Frame([Seg(W(""), 1, Plain), Seg(W(""), 0, Plain), Seg(W(if OneAt(n, 2).Some? then "=" else ""), 2, Plain)], W(""))
    case BreakStatement => Frame([Seg(W(if OneAt(n, 0).Some? then "break " else "break"), 0, Plain)], W(""))
    case ContinueStatement => Frame([Seg(W(if OneAt(n, 0).Some? then "continue " else "continue"), 0, Plain)], W(""))
    case ReturnStatement => Frame([Seg(W("return "), 0, Plain)], W(""))
    case ExitStatement => Frame([Seg(W("exit"), 0, Plain)], W(""))
    case ThrowStatement => Frame([Seg(W("throw "), 0, Plain)], W(""))
    case AssignmentStatement(op, _) => Frame([Seg(W(""), 0, Plain), Seg(AssignmentOperator(op), 1, Plain)], W(""))
    case Pipeline => Frame([Seg(W(""), 0, Separated("|"))], W(""))
    case Command(_) => Frame([Seg(W(""), 0, Separated(" ")), Seg(W(""), 1, Separated(" "))], W(""))
    case CommandExpression => Frame([Seg(W(""), 0, Plain), Seg(W(""), 1, Separated(" "))], W(""))
    case CommandParameter(name, _) => Frame([Seg(W("-" + name), 0, Plain)], W(""))
    case FileRedirection(from, append) => Frame([Seg(FileRedirectionText(from, append), 0, Plain)], W(""))
    case MergingRedirection(from, to) => Frame([], MergingRedirectionText(from, to))
    case BinaryExpression(op, _) => Frame([Seg(W(""), 0, Plain), Seg(BinaryOperator(op), 1, Plain)], W(""))
    case UnaryExpression(t) => Frame([Seg(UnaryPrefix(t), 0, Plain)], W(UnarySuffix(t)))
    case ConvertExpression => Frame([Seg(W(""), 1, Plain), Seg(W(""), 0, Plain)], W(""))
    case TypeExpression(t) => Frame([], W("[" + host.typeNameText(t) + "]"))
    case ConstantExpression(c) => Frame([], W(host.constantText(c)))
    case StringConstantExpression(v, kind) => Frame([], Quote(kind, UnVerbatimString(v)))
    case SubExpression => Frame([Seg(W("$("), 0, Plain)], W(")"))
    case UsingExpression => Frame([Seg(W(""), 0, Plain)], W(""))
    case VariableExpression(path, _) => Frame([], W("$" + path))
    case MemberExpression(isStatic) =>
      Frame([Seg(W(""), 0, Plain), Seg(W(if isStatic then "::" else "."), 1, Plain)], W(""))
    case InvokeMemberExpression(isStatic) =>
      Frame([Seg(W(""), 0, Plain), Seg(W(if isStatic then "::" else "."), 1, Plain), Seg(W("("), 2, Separated(", "))], W(")"))
    case ArrayExpression => Frame([Seg(W("@("), 0, Plain)], W(")"))
    case ArrayLiteral => Frame([Seg(W(""), 0, Separated(", "))], W(""))
    case Hashtable => Frame([Seg(W("@{"), 0, HashEntries)], W("}"))
    case ScriptBlockExpression => Frame([Seg(W("{"), 0, Plain)], W("}"))
    case ParenExpression => Frame([Seg(W("("), 0, Plain)], W(")"))
    case ExpandableStringExpression(v, kind) => Frame([], Quote(kind, UnVerbatimString(v)))
    case IndexExpression => Frame([Seg(W(""), 0, Plain), Seg(W("["), 1, Plain)], W("]"))
    case AttributedExpression => Frame([Seg(W(""), 0, Plain), Seg(W(""), 1, Plain)], W(""))
    case BlockStatement(_) => Frame([Seg(W(""), 0, Plain)], W(""))
  }

  /** The children of the slot with walk-order index i, if there is one. */
  function SlotChildrenAt(n: Ast, i: int): seq<Ast> {
    if 0 <= i < |n.slots| then SlotChildren(n.slots[i]) else []
  }

  function SlotAt(n: Ast, i: int, style: Style): (r: seq<Piece>)
    ensures Below(r, n)
  {
    if 0 <= i < |n.slots| then
      var r := SlotPieces(n.slots[i], style);
      SlotPiecesVisit(n.slots[i], style);
      VisitedMembers(r);
      r
    else []
  }

  lemma SlotAtVisits(n: Ast, i: int, style: Style)
    ensures Visited(SlotAt(n, i, style)) == SlotChildrenAt(n, i) && NoThrow(SlotAt(n, i, style))
  {
    if 0 <= i < |n.slots| {
      SlotPiecesVisit(n.slots[i], style);
    }
  }

  /** The segments in turn: each one's text, then its slot's children. */
  function Expand(n: Ast, segs: seq<Seg>): (r: seq<Piece>)
    ensures Below(r, n)
  {
    if |segs| == 0 then []
    else
      var head := [Emit(segs[0].before)];
      var body := SlotAt(n, segs[0].slot, segs[0].style);
      var rest := Expand(n, segs[1..]);
      BelowAppend(head, body, n);
      BelowAppend(head + body, rest, n);
      head + body + rest
  }

  /** Everything the node's Visit method does, in order. */
  function Layout(host: Host, n: Ast): (r: seq<Piece>)
    ensures Below(r, n)
  {
    var f := Shape(host, n);
    BelowAppend(Expand(n, f.segs), [Emit(f.after)], n);
    Expand(n, f.segs) + [Emit(f.after)]
  }

  /** The walk-order indices of the slots the segments write, in writing order. */
  function Indices(segs: seq<Seg>): seq<int> {
    seq(|segs|, j requires 0 <= j < |segs| => segs[j].slot)
  }

  /** The kinds whose Visit method writes its children in another order than the read-only
      walk visits them: a parameter's attributes before its name, a data statement's allowed
      commands before its body, a do-loop's body before its condition, and a conversion's
      type before its operand. */
  predicate Reordered(h: Head) {
    h.Parameter? || h.DataStatement? || h.DoWhileStatement? || h.DoUntilStatement? || h.ConvertExpression?
  }

  function Count(k: nat): seq<int> {
    seq(k, i => i)
  }

  /** The writer throws at this node itself: an if statement without clauses (`First()` on
      an empty list), or an assignment operator, redirection stream, binary or unary operator
      or quoting kind it has no text for. */
  predicate Faults(n: Ast) {
    match n.head
    case IfStatement => |ClausesAt(n, 0)| == 0
    case AssignmentStatement(op, _) => !(op.Equals? || Arithmetic(op).Some?)
    case FileRedirection(from, _) => from.UndefinedStream?
    case MergingRedirection(from, to) => from.UndefinedStream? || to.UndefinedStream?
    case BinaryExpression(op, _) => !IsBinaryToken(op)
    case UnaryExpression(t) => !IsUnaryToken(t)
    case StringConstantExpression(_, kind) => kind.UndefinedQuoting?
    case ExpandableStringExpression(_, kind) => kind.UndefinedQuoting?
    case _ => false
  }

  /** Some step of the frame throws. */
  predicate FrameFails(f: Frame) {
    f.after.Failure? || exists j | 0 <= j < |f.segs| :: f.segs[j].before.Failure?
  }

  predicate GroupA(h: Head) {
    || h.ScriptBlock? || h.NamedBlock? || h.FunctionDefinition? || h.StatementBlock? || h.IfStatement?
    || h.Trap? || h.SwitchStatement? || h.ForEachStatement? || h.ForStatement? || h.WhileStatement?
    || h.CatchClause? || h.TryStatement? || h.ParamBlock? || h.ErrorStatement?
  }

  predicate GroupB(h: Head) {
    || h.ErrorExpression? || h.TypeConstraint? || h.Attribute? || h.NamedAttributeArgument?
    || h.BreakStatement? || h.ContinueStatement? || h.ReturnStatement? || h.ExitStatement?
    || h.ThrowStatement? || h.AssignmentStatement? || h.Pipeline? || h.Command? || h.CommandExpression?
    || h.CommandParameter?
  }

  predicate GroupC(h: Head) {
    h.FileRedirection? || h.MergingRedirection? || h.BinaryExpression? || h.UnaryExpression?
  }

  predicate IsString(h: Head) {
    h.StringConstantExpression? || h.ExpandableStringExpression?
  }

  predicate GroupD(h: Head) {
    || h.TypeExpression? || h.ConstantExpression? || h.SubExpression? || h.UsingExpression?
    || h.VariableExpression? || h.MemberExpression? || h.InvokeMemberExpression? || h.ArrayExpression?
  }

  predicate GroupE(h: Head) {
    || h.ArrayLiteral? || h.Hashtable? || h.ScriptBlockExpression? || h.ParenExpression?
    || h.IndexExpression? || h.AttributedExpression? || h.BlockStatement?
  }

  lemma ShapeA(host: Host, n: Ast)
    requires GroupA(n.head)
    ensures Indices(Shape(host, n).segs) == Count(|Schema(n.head)|)
    ensures FrameFails(Shape(host, n)) <==> Faults(n)
  {
    if Faults(n) {
      assert Shape(host, n).segs[0].before.Failure?;
    }
  }

  lemma ShapeB(host: Host, n: Ast)
    requires GroupB(n.head)
    ensures Indices(Shape(host, n).segs) == Count(|Schema(n.head)|)
    ensures FrameFails(Shape(host, n)) <==> Faults(n)
  {
    if n.head.AssignmentStatement? {
      AssignmentHandles(n.head.operator);
      if Faults(n) {
        assert Shape(host, n).segs[1].before.Failure?;
      }
    }
  }

  lemma ShapeC(host: Host, n: Ast)
    requires GroupC(n.head)
    ensures Indices(Shape(host, n).segs) == Count(|Schema(n.head)|)
    ensures FrameFails(Shape(host, n)) <==> Faults(n)
  {
    match n.head
    case BinaryExpression(op, _) =>
      BinaryOperatorHandles(op);
      if Faults(n) {
        assert Shape(host, n).segs[1].before.Failure?;
      }
    case UnaryExpression(t) =>
      UnaryPlacement(t);
      if Faults(n) {
        assert Shape(host, n).segs[0].before.Failure?;
      }
    case FileRedirection(_, _) =>
      if Faults(n) {
        assert Shape(host, n).segs[0].before.Failure?;
      }
    case MergingRedirection(_, _) =>
  }

  lemma ShapeString(host: Host, n: Ast)
    requires IsString(n.head)
    ensures Indices(Shape(host, n).segs) == Count(|Schema(n.head)|)
    ensures FrameFails(Shape(host, n)) <==> Faults(n)
  {
    QuoteEncloses(n.head.stringConstantType, UnVerbatimString(n.head.value));
  }

  lemma ShapeD(host: Host, n: Ast)
    requires GroupD(n.head)
    ensures Indices(Shape(host, n).segs) == Count(|Schema(n.head)|)
    ensures FrameFails(Shape(host, n)) <==> Faults(n)
  {
  }

  lemma ShapeE(host: Host, n: Ast)
    requires GroupE(n.head)
    ensures Indices(Shape(host, n).segs) == Count(|Schema(n.head)|)
    ensures FrameFails(Shape(host, n)) <==> Faults(n)
  {
  }

  lemma ShapeReordered(host: Host, n: Ast)
    requires Reordered(n.head)
    ensures Indices(Shape(host, n).segs) == if n.head.Parameter? then [1, 0, 2] else [1, 0]
    ensures !FrameFails(Shape(host, n)) && !Faults(n)
  {
  }

  /** Every Visit method writes each slot of its kind exactly once: in the read-only walk's
      order, or with the first two slots swapped for the reordered kinds; and it throws
      exactly when the node faults. */
  lemma ShapeOrder(host: Host, n: Ast)
    ensures !Reordered(n.head) ==> Indices(Shape(host, n).segs) == Count(|Schema(n.head)|)
    ensures n.head.Parameter? ==> Indices(Shape(host, n).segs) == [1, 0, 2]
    ensures Reordered(n.head) && !n.head.Parameter? ==> Indices(Shape(host, n).segs) == [1, 0]
    ensures FrameFails(Shape(host, n)) <==> Faults(n)
  {
    var h := n.head;
    if GroupA(h) {
      ShapeA(host, n);
    } else if GroupB(h) {
      ShapeB(host, n);
    } else if GroupC(h) {
      ShapeC(host, n);
    } else if IsString(h) {
      ShapeString(host, n);
    } else if GroupD(h) {
      ShapeD(host, n);
    } else if GroupE(h) {
      ShapeE(host, n);
    } else {
      ShapeReordered(host, n);
    }
  }

  /** The text the writer produces for a node, or the first exception it throws. */
  function Render(host: Host, n: Ast): Result<string>
    decreases n, 1
  {
    RenderPieces(host, n, Layout(host, n))
  }

  function RenderPieces(host: Host, parent: Ast, ps: seq<Piece>): Result<string>
    requires Below(ps, parent)
    decreases parent, 0, |ps|
  {
    if |ps| == 0 then Success("")
    else
      var first :- match ps[0]
                   case Write(t) => Success(t)
                   case Throw(e) => Failure(e)
                   case Visit(c) => Render(host, c);
      var rest :- RenderPieces(host, parent, ps[1..]);
      Success(first + rest)
  }

  /** The children of the slots at the given walk-order indices, slot after slot. */
  function Gather(n: Ast, idx: seq<int>): seq<Ast> {
    if |idx| == 0 then [] else SlotChildrenAt(n, idx[0]) + Gather(n, idx[1..])
  }

  /** The children of the slots the segments write, segment after segment. */
  function GatherSegs(n: Ast, segs: seq<Seg>): seq<Ast> {
    if |segs| == 0 then [] else SlotChildrenAt(n, segs[0].slot) + GatherSegs(n, segs[1..])
  }

  lemma {:induction false} GatherIndices(n: Ast, segs: seq<Seg>)
    ensures GatherSegs(n, segs) == Gather(n, Indices(segs))
    decreases |segs|
  {
    if |segs| > 0 {
      GatherIndices(n, segs[1..]);
      var idx := Indices(segs);
      assert idx[0] == segs[0].slot;
      assert idx[1..] == Indices(segs[1..]);
    }
  }

  lemma ExpandCons(n: Ast, segs: seq<Seg>)
    requires |segs| > 0
    ensures Expand(n, segs) == ([Emit(segs[0].before)] + SlotAt(n, segs[0].slot, segs[0].style)) + Expand(n, segs[1..])
  {
  }

  lemma {:induction false} ExpandVisits(n: Ast, segs: seq<Seg>)
    ensures Visited(Expand(n, segs)) == GatherSegs(n, segs)
    decreases |segs|
  {
    if |segs| > 0 {
      var s0 := segs[0];
      var body := SlotAt(n, s0.slot, s0.style);
      var rest := Expand(n, segs[1..]);
      var e := Emit(s0.before);
      assert !e.Visit?;
      ExpandCons(n, segs);
      ExpandVisits(n, segs[1..]);
      SlotAtVisits(n, s0.slot, s0.style);
      VisitedCons(e, body);
      VisitedAppend([e] + body, rest);
      assert Visited([e] + body) == SlotChildrenAt(n, s0.slot);
      assert GatherSegs(n, segs) == SlotChildrenAt(n, s0.slot) + GatherSegs(n, segs[1..]);
    }
  }

  lemma {:induction false} ExpandThrows(n: Ast, segs: seq<Seg>)
    ensures NoThrow(Expand(n, segs)) <==> forall j | 0 <= j < |segs| :: segs[j].before.Success?
    decreases |segs|
  {
    if |segs| > 0 {
      var s0 := segs[0];
      var body := SlotAt(n, s0.slot, s0.style);
      var rest := Expand(n, segs[1..]);
      ExpandCons(n, segs);
      ExpandThrows(n, segs[1..]);
      SlotAtVisits(n, s0.slot, s0.style);
      ThrowsAppend([Emit(s0.before)], body);
      ThrowsAppend([Emit(s0.before)] + body, rest);
      if NoThrow(Expand(n, segs)) {
        assert Emit(s0.before) in [Emit(s0.before)];
        forall j | 0 <= j < |segs| ensures segs[j].before.Success? {
          if j > 0 {
            assert segs[j] == segs[1..][j - 1];
          }
        }
      }
      if forall j | 0 <= j < |segs| :: segs[j].before.Success? {
        forall j | 0 <= j < |segs[1..]| ensures segs[1..][j].before.Success? {
          assert segs[1..][j] == segs[j + 1];
        }
        assert s0.before.Success?;
      }
    }
  }

  lemma {:induction false} GatherCount(n: Ast, j: nat)
    requires j <= |n.slots|
    ensures Gather(n, seq(|n.slots| - j, i => i + j)) == Flatten(n.slots[j..])
    decreases |n.slots| - j
  {
    var idx := seq(|n.slots| - j, i => i + j);
    if j < |n.slots| {
      GatherCount(n, j + 1);
      assert idx[1..] == seq(|n.slots| - (j + 1), i => i + (j + 1));
      assert n.slots[j..][1..] == n.slots[j + 1..];
    } else {
      assert n.slots[j..] == [];
    }
  }

  /** The children a node's pieces visit, slot by slot in writing order. */
  lemma LayoutVisits(host: Host, n: Ast)
    ensures Visited(Layout(host, n)) == Gather(n, Indices(Shape(host, n).segs))
  {
    var f := Shape(host, n);
    VisitedAppend(Expand(n, f.segs), [Emit(f.after)]);
    VisitedCons(Emit(f.after), []);
    ExpandVisits(n, f.segs);
    GatherIndices(n, f.segs);
  }

  lemma GatherParameter(n: Ast)
    requires Conforms(n) && n.head.Parameter?
    ensures multiset(Gather(n, [1, 0, 2])) == multiset(Flatten(n.slots))
  {
    assert |n.slots| == 3;
    GatherThree(n);
  }

  /** Writing the second of three slots first visits the same children. */
  lemma GatherThree(n: Ast)
    requires |n.slots| == 3
    ensures multiset(Gather(n, [1, 0, 2])) == multiset(Flatten(n.slots))
  {
    var idx := [1, 0, 2];
    var a, b, c := SlotChildren(n.slots[0]), SlotChildren(n.slots[1]), SlotChildren(n.slots[2]);
    assert Gather(n, idx[1..][1..]) == c by {
      assert idx[1..][1..] == [2] && [2][1..] == [];
    }
    assert Gather(n, idx[1..]) == a + c;
    assert Gather(n, idx) == b + (a + c);
    assert n.slots == [n.slots[0], n.slots[1], n.slots[2]];
    Flatten3(n.slots[0], n.slots[1], n.slots[2]);
    assert multiset(b + (a + c)) == multiset(a + b + c);
  }

  lemma GatherSwapped(n: Ast)
    requires Conforms(n) && Reordered(n.head) && !n.head.Parameter?
    ensures multiset(Gather(n, [1, 0])) == multiset(Flatten(n.slots))
  {
    assert |n.slots| == 2;
    GatherTwo(n);
  }

  /** Writing the second of two slots first visits the same children. */
  lemma GatherTwo(n: Ast)
    requires |n.slots| == 2
    ensures multiset(Gather(n, [1, 0])) == multiset(Flatten(n.slots))
  {
    var idx := [1, 0];
    assert Gather(n, idx[1..]) == SlotChildren(n.slots[0]) by {
      assert idx[1..] == [0] && [0][1..] == [];
    }
    assert Gather(n, idx) == SlotChildren(n.slots[1]) + SlotChildren(n.slots[0]);
    assert n.slots == [n.slots[0], n.slots[1]];
    Flatten2(n.slots[0], n.slots[1]);
  }

  /** The writer visits exactly the children the read-only walk visits, each as often, in
      the walk's order except for the reordered kinds. */
  lemma WrittenChildren(host: Host, n: Ast)
    requires Conforms(n)
    ensures !Reordered(n.head) ==> Visited(Layout(host, n)) == PassChildren(n)
    ensures multiset(Visited(Layout(host, n))) == multiset(PassChildren(n))
  {
    LayoutVisits(host, n);
    ShapeOrder(host, n);
    if !Reordered(n.head) {
      GatherCount(n, 0);
      assert seq(|n.slots| - 0, i => i + 0) == Count(|Schema(n.head)|);
      assert n.slots[0..] == n.slots;
    } else if n.head.Parameter? {
      GatherParameter(n);
    } else {
      GatherSwapped(n);
    }
  }

  /** The node's own pieces throw exactly when the node faults. */
  lemma LayoutThrows(host: Host, n: Ast)
    ensures !NoThrow(Layout(host, n)) <==> Faults(n)
  {
    var f := Shape(host, n);
    ExpandThrows(n, f.segs);
    ShapeOrder(host, n);
    ThrowsAppend(Expand(n, f.segs), [Emit(f.after)]);
    assert Emit(f.after) in [Emit(f.after)];
  }

  lemma {:induction false} VisitedSource(ps: seq<Piece>, c: Ast)
    requires c in Visited(ps)
    ensures exists p | p in ps :: p.Visit? && p.node == c
    decreases |ps|
  {
    VisitedCons(ps[0], ps[1..]);
    assert ps == [ps[0]] + ps[1..];
    if !(ps[0].Visit? && ps[0].node == c) {
      VisitedSource(ps[1..], c);
      var p :| p in ps[1..] && p.Visit? && p.node == c;
      assert p in ps;
    }
  }

  /** A run of pieces fails exactly when one of them throws or visits a child that fails. */
  lemma {:induction false} RenderPiecesFails(host: Host, parent: Ast, ps: seq<Piece>)
    requires Below(ps, parent)
    ensures RenderPieces(host, parent, ps).Failure? <==>
              exists p | p in ps :: p.Throw? || (p.Visit? && Render(host, p.node).Failure?)
    decreases |ps|
  {
    if |ps| > 0 {
      RenderPiecesFails(host, parent, ps[1..]);
      if exists p | p in ps[1..] :: p.Throw? || (p.Visit? && Render(host, p.node).Failure?) {
        var p :| p in ps[1..] && (p.Throw? || (p.Visit? && Render(host, p.node).Failure?));
        assert p in ps;
      }
      if exists p | p in ps :: p.Throw? || (p.Visit? && Render(host, p.node).Failure?) {
        var p :| p in ps && (p.Throw? || (p.Visit? && Render(host, p.node).Failure?));
        if p != ps[0] {
          assert p in ps[1..];
        }
      }
    }
  }

  lemma WellFormedChild(n: Ast, c: Ast)
    requires WellFormed(n) && c in PassChildren(n)
    ensures WellFormed(c)
  {
    forall m | m in Reach(c, Everywhere) ensures Conforms(m) {
      ReachUnfold(n, Everywhere, m);
    }
  }

  /** Rendering fails exactly when the writer meets, somewhere in the tree, a node it cannot
      write: an if without clauses, or an operator, stream or quoting kind outside its
      tables. */
  lemma {:induction false} RenderFailsIff(host: Host, n: Ast)
    requires WellFormed(n)
    ensures Render(host, n).Failure? <==> exists m | m in Reach(n, Everywhere) :: Faults(m)
    decreases n
  {
    var ps := Layout(host, n);
    assert Conforms(n);
    RenderPiecesFails(host, n, ps);
    WrittenChildren(host, n);
    LayoutThrows(host, n);
    VisitedMembers(ps);
    forall c | c in PassChildren(n)
      ensures Render(host, c).Failure? <==> exists m | m in Reach(c, Everywhere) :: Faults(m)
    {
      WellFormedChild(n, c);
      RenderFailsIff(host, c);
    }
    if Render(host, n).Failure? {
      var p :| p in ps && (p.Throw? || (p.Visit? && Render(host, p.node).Failure?));
      if p.Visit? {
        var c := p.node;
        assert c in multiset(Visited(ps));
        assert c in PassChildren(n);
        var m :| m in Reach(c, Everywhere) && Faults(m);
        ReachUnfold(n, Everywhere, m);
      }
    }
    if exists m | m in Reach(n, Everywhere) :: Faults(m) {
      var m :| m in Reach(n, Everywhere) && Faults(m);
      ReachUnfold(n, Everywhere, m);
      if m != n {
        var c :| c in PassChildren(n) && m in Reach(c, Everywhere);
        assert c in multiset(PassChildren(n));
        assert c in Visited(ps);
        VisitedSource(ps, c);
      }
    }
  }

  /** The texts of a list of nodes, or the first failure among them. */
  function RenderAll(host: Host, cs: seq<Ast>): (r: Result<seq<string>>)
    ensures r.Success? ==> |r.value| == |cs|
  {
    if |cs| == 0 then Success([])
    else
      var first :- Render(host, cs[0]);
      var rest :- RenderAll(host, cs[1..]);
      Success([first] + rest)
  }

  /** The texts of a list joined by a separator, or the first failure among them. */
  function JoinAll(host: Host, cs: seq<Ast>, sep: string): Result<string> {
    var texts :- RenderAll(host, cs);
    Success(Join(texts, sep))
  }

  /** Rendering two runs of pieces one after the other: the first failure wins, otherwise
      the texts are concatenated. */
  lemma {:induction false} RenderPiecesAppend(host: Host, parent: Ast, a: seq<Piece>, b: seq<Piece>)
    requires Below(a, parent) && Below(b, parent)
    ensures Below(a + b, parent)
    ensures RenderPieces(host, parent, a + b) ==
              (var x :- RenderPieces(host, parent, a); var y :- RenderPieces(host, parent, b); Success(x + y))
    decreases |a|
  {
    BelowAppend(a, b, parent);
    if |a| == 0 {
      assert a + b == b;
      assert RenderPieces(host, parent, a) == Success("");
      var y := RenderPieces(host, parent, b);
      if y.Success? {
        assert "" + y.value == y.value;
      }
    } else {
      assert (a + b)[0] == a[0];
      assert (a + b)[1..] == a[1..] + b;
      RenderPiecesAppend(host, parent, a[1..], b);
      var x' := RenderPieces(host, parent, a[1..]);
      var y := RenderPieces(host, parent, b);
      if x'.Success? && y.Success? {
        var first := match a[0]
                     case Write(t) => Success(t)
                     case Throw(e) => Failure(e)
                     case Visit(c) => Render(host, c);
        if first.Success? {
          assert first.value + (x'.value + y.value) == (first.value + x'.value) + y.value;
        }
      }
    }
  }

  lemma JoinedBelow(cs: seq<Ast>, sep: string, parent: Ast)
    requires forall c | c in cs :: c < parent
    ensures Below(Joined(cs, sep), parent) && Below(JoinedTail(cs, sep), parent)
  {
    JoinedVisits(cs, sep);
    JoinedTailVisits(cs, sep);
    VisitedMembers(Joined(cs, sep));
    VisitedMembers(JoinedTail(cs, sep));
  }

  /** A written text followed by one visited child. */
  lemma RenderWriteVisit(host: Host, parent: Ast, t: string, c: Ast)
    requires c < parent
    ensures Below([Write(t), Visit(c)], parent)
    ensures RenderPieces(host, parent, [Write(t), Visit(c)]) == (var x :- Render(host, c); Success(t + x))
  {
    var ps := [Write(t), Visit(c)];
    assert ps[1..] == [Visit(c)] && ps[1..][1..] == [];
    var x := Render(host, c);
    if x.Success? {
      assert RenderPieces(host, parent, [Visit(c)]) == Success(x.value + "");
      assert x.value + "" == x.value;
    }
  }

  lemma {:induction false} JoinedTailRender(host: Host, parent: Ast, cs: seq<Ast>, sep: string)
    requires forall c | c in cs :: c < parent
    ensures Below(JoinedTail(cs, sep), parent)
    ensures RenderPieces(host, parent, JoinedTail(cs, sep)) ==
              (var texts :- RenderAll(host, cs); Success(JoinTail(texts, sep)))
    decreases |cs|
  {
    JoinedBelow(cs, sep, parent);
    if |cs| > 0 {
      var head := [Write(sep), Visit(cs[0])];
      var tail := JoinedTail(cs[1..], sep);
      assert forall c | c in cs[1..] :: c in cs;
      assert cs[0] in cs;
      JoinedTailRender(host, parent, cs[1..], sep);
      assert JoinedTail(cs, sep) == head + tail;
      RenderWriteVisit(host, parent, sep, cs[0]);
      RenderPiecesAppend(host, parent, head, tail);
      var r0 := Render(host, cs[0]);
      var rs := RenderAll(host, cs[1..]);
      if r0.Success? && rs.Success? {
        var texts := [r0.value] + rs.value;
        assert RenderAll(host, cs) == Success(texts);
        assert texts[0] == r0.value && texts[1..] == rs.value;
        assert JoinTail(texts, sep) == sep + r0.value + JoinTail(rs.value, sep);
      }
    }
  }

  /** VisitElements(elements, separator) writes the element texts joined by the separator:
      nothing for an empty list, otherwise the separator between consecutive elements only. */
  lemma JoinedRender(host: Host, parent: Ast, cs: seq<Ast>, sep: string)
    requires forall c | c in cs :: c < parent
    ensures Below(Joined(cs, sep), parent)
    ensures RenderPieces(host, parent, Joined(cs, sep)) == JoinAll(host, cs, sep)
  {
    JoinedBelow(cs, sep, parent);
    if |cs| > 0 {
      assert forall c | c in cs[1..] :: c in cs;
      assert cs[0] in cs;
      var head := [Visit(cs[0])];
      JoinedTailRender(host, parent, cs[1..], sep);
      assert head[1..] == [];
      assert Below(head, parent);
      RenderPiecesAppend(host, parent, head, JoinedTail(cs[1..], sep));
      var r0 := Render(host, cs[0]);
      var rs := RenderAll(host, cs[1..]);
      if r0.Success? && rs.Success? {
        var texts := [r0.value] + rs.value;
        assert RenderPieces(host, parent, head) == Success(r0.value + "");
        assert r0.value + "" == r0.value;
        assert RenderAll(host, cs) == Success(texts);
        assert texts[0] == r0.value && texts[1..] == rs.value;
      }
    }
  }

  /** A node whose Visit method writes no child renders as its frame's closing text. */
  lemma RenderNoSlots(host: Host, n: Ast, t: Result<string>)
    requires Shape(host, n) == Frame([], t)
    ensures Render(host, n) == t
  {
    assert Expand(n, []) == [];
    var ps := [Emit(t)];
    assert Layout(host, n) == ps;
    assert ps[1..] == [];
    assert RenderPieces(host, n, ps[1..]) == Success("");
    if t.Success? {
      assert ps[0] == Write(t.value);
      assert t.value + "" == t.value;
    } else {
      assert ps[0] == Throw(t.error);
    }
  }

  /** A node whose Visit method writes one slot renders as the text before it, the slot's
      pieces and the closing text. */
  lemma RenderOneSlot(host: Host, n: Ast, before: string, i: int, style: Style, after: string)
    requires Shape(host, n) == Frame([Seg(W(before), i, style)], W(after))
    ensures Render(host, n) == (var x :- RenderPieces(host, n, SlotAt(n, i, style)); Success(before + x + after))
  {
    var segs := [Seg(W(before), i, style)];
    var body := SlotAt(n, i, style);
    var open := [Write(before)];
    var close := [Write(after)];
    ExpandCons(n, segs);
    assert segs[1..] == [] && Expand(n, []) == [];
    assert Expand(n, segs) == open + body;
    assert Layout(host, n) == (open + body) + close;
    assert open[1..] == [] && close[1..] == [];
    assert RenderPieces(host, n, open) == Success(before + "");
    assert RenderPieces(host, n, close) == Success(after + "");
    assert before + "" == before && after + "" == after;
    RenderPiecesAppend(host, n, open, body);
    RenderPiecesAppend(host, n, open + body, close);
  }

  /** The elements of a conforming pipeline. */
  function PipelineElements(n: Ast): seq<Ast>
    requires n.head.Pipeline? && Conforms(n)
  {
    CollectionList(n.slots[0].collection)
  }

  /** A pipeline is written as its elements' texts joined by `|`. */
  lemma PipelineText(host: Host, n: Ast)
    requires n.head.Pipeline? && Conforms(n)
    ensures Render(host, n) == JoinAll(host, PipelineElements(n), "|")
  {
    var cs := PipelineElements(n);
    assert Shape(host, n) == Frame([Seg(W(""), 0, Separated("|"))], W(""));
    RenderOneSlot(host, n, "", 0, Separated("|"), "");
    assert SlotAt(n, 0, Separated("|")) == Joined(cs, "|");
    assert forall c | c in cs :: c < n by {
      assert n.slots[0] in n.slots;
    }
    JoinedRender(host, n, cs, "|");
    var j := JoinAll(host, cs, "|");
    if j.Success? {
      assert "" + j.value + "" == j.value;
    }
  }

  /** When no element's text contains `|`, the pipeline's text holds exactly one `|` per
      pair of consecutive elements, and cutting it at every `|` gives the elements' texts
      back. */
  lemma PipelineBars(host: Host, n: Ast)
    requires n.head.Pipeline? && Conforms(n) && |PipelineElements(n)| > 0
    requires RenderAll(host, PipelineElements(n)).Success?
    requires forall i | 0 <= i < |PipelineElements(n)| :: '|' !in RenderAll(host, PipelineElements(n)).value[i]
    ensures Render(host, n).Success?
    ensures Occurrences('|', Render(host, n).value) == |PipelineElements(n)| - 1
    ensures Split(Render(host, n).value, '|') == RenderAll(host, PipelineElements(n)).value
  {
    var texts := RenderAll(host, PipelineElements(n)).value;
    PipelineText(host, n);
    JoinSeparatorCount(texts, '|');
    JoinSplitRoundTrip(texts, '|');
  }

  lemma StringShape(host: Host, n: Ast)
    requires IsString(n.head)
    ensures Shape(host, n) == Frame([], Quote(n.head.stringConstantType, UnVerbatimString(n.head.value)))
  {
  }

  /** A string constant is written in pure ASCII, whatever its value: the escaper leaves no
      character above 127 and the quotes are ASCII. */
  lemma StringConstantAscii(host: Host, n: Ast)
    requires n.head.StringConstantExpression? || n.head.ExpandableStringExpression?
    requires Render(host, n).Success?
    ensures IsAscii(Render(host, n).value)
  {
    var v := UnVerbatimString(n.head.value);
    var kind := n.head.stringConstantType;
    var q := Quote(kind, v);
    StringShape(host, n);
    RenderNoSlots(host, n, q);
    QuoteEncloses(kind, v);
    UnVerbatimAscii(n.head.value);
    AsciiAppend(Delimiter(kind), v);
    AsciiAppend(Delimiter(kind) + v, Delimiter(kind));
  }
}
