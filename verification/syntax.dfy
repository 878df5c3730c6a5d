/** The PowerShell syntax tree as the modelled visitors see it: one head per node kind the
    two base visitors handle, carrying exactly the fields the copy visitor reads, and the
    node's children grouped into slots. */
module Syntax {
  import opened Wrappers

  /** Source provenance span; the obfuscators copy it and never look inside. */
  type Extent(==)

  /** The value of a constant expression (an int, a double, ...); its text is .NET formatting. */
  type Constant(==)

  /** A type name as written between brackets; its text is ITypeName.ToString. */
  type TypeName(==)

  /** The members of System.Management.Automation.Language.TokenKind the modelled code
      mentions, five it does not handle, and `OtherToken` for every remaining member (block
      keywords, invocation operators and the other operators among them). */
  datatype TokenKind =
    // binary operators the text writer spells
    | Dot | DotDot | Exclaim | Format
    | Ilt | Ile | Ieq | Ine | Ige | Igt
    | And | Or | Xor | Not | Band | Bor | Bnot | Bxor | Is | IsNot
    | Ceq | Cge | Cin | Cle | Clt | Cmatch | Cne | Cnotcontains | Cnotin | Cnotlike | Cnotmatch
    | Ilike | Inotlike | Imatch | Inotmatch
    | Plus | Minus | Multiply | Divide
    // the `module` keyword, which the binary-operator switch nonetheless spells `%`
    | Module
    // unary operators
    | PlusPlus | MinusMinus | Ampersand | PostfixPlusPlus | PostfixMinusMinus
    // assignment operators
    | Equals | PlusEquals | MinusEquals | DivideEquals | MultiplyEquals | RemainderEquals
    // the remainder operator `%`, which the parser produces for `$a % $b` and the writer does
    // not handle
    | Rem
    // case-insensitive twins of handled operators that the writer does not handle itself
    | Icontains | Inotcontains | Iin | Inotin
    | OtherToken

  /** RedirectionStream; `UndefinedStream` is an enum value outside the named members. */
  datatype RedirectionStream =
    | All | Output | ErrorStream | Warning | Verbose | Debug | Information
    | UndefinedStream(code: int)

  /** StringConstantType; `UndefinedQuoting` is an enum value outside the named members. */
  datatype StringConstantType =
    | BareWord | SingleQuoted | SingleQuotedHereString | DoubleQuoted | DoubleQuotedHereString
    | UndefinedQuoting(code: int)

  /** The members of the SwitchFlags [Flags] enum; a flags value is a set of them. */
  datatype SwitchFlag = FileFlag | RegexFlag | WildcardFlag | ExactFlag | CaseSensitiveFlag | ParallelFlag

  datatype ForEachFlags = ForEachNone | ForEachParallel

  /** A collection visited through VisitElements, which may be `null` in C#. */
  datatype Collection = Absent | Present(items: seq<Ast>)

  /** One (condition, body) clause of an if or switch, or one (key, value) hashtable entry. */
  datatype Pair = Pair(first: Ast, second: Ast)

  /** A node's children, grouped by the way the Visit methods reach them. */
  datatype Slot =
    | One(element: Option<Ast>)          // VisitElement on a property that may be null
    | Many(collection: Collection)       // VisitElements on a collection that may be null
    | Statements(statements: seq<Ast>)   // VisitStatements
    | Clauses(clauses: seq<Pair>)        // a foreach over (Item1, Item2) tuples
    | Kept(nodes: seq<Ast>)              // handed to the constructor without being visited

  /** A node's kind together with its own, non-child fields: everything the copy visitor
      passes to the constructor apart from the copied children. */
  datatype Head =
    | ScriptBlock
    | NamedBlock(blockKind: TokenKind, unnamed: bool)
    | FunctionDefinition(isFilter: bool, isWorkflow: bool, name: string)
    | StatementBlock
    | IfStatement
    | Trap
    | SwitchStatement(loopLabel: Option<string>, switchFlags: set<SwitchFlag>)
    | DataStatement(variable: Option<string>)
    | ForEachStatement(loopLabel: Option<string>, forEachFlags: ForEachFlags)
    | DoWhileStatement(loopLabel: Option<string>)
    | ForStatement(loopLabel: Option<string>)
    | WhileStatement(loopLabel: Option<string>)
    | CatchClause
    | TryStatement
    | DoUntilStatement(loopLabel: Option<string>)
    | ParamBlock
    | ErrorStatement
    | ErrorExpression
    | TypeConstraint(typeName: TypeName)
    | Attribute(typeName: TypeName)
    | NamedAttributeArgument(argumentName: string, expressionOmitted: bool)
    | Parameter
    | BreakStatement
    | ContinueStatement
    | ReturnStatement
    | ExitStatement
    | ThrowStatement
    | AssignmentStatement(operator: TokenKind, errorPosition: Extent)
    | Pipeline
    | Command(invocationOperator: TokenKind)
    | CommandExpression
    | CommandParameter(parameterName: string, errorPosition: Extent)
    | FileRedirection(fromStream: RedirectionStream, append: bool)
    | MergingRedirection(fromStream: RedirectionStream, toStream: RedirectionStream)
    | BinaryExpression(operator: TokenKind, errorPosition: Extent)
    | UnaryExpression(tokenKind: TokenKind)
    | ConvertExpression
    | TypeExpression(typeName: TypeName)
    | ConstantExpression(constant: Constant)
    | StringConstantExpression(value: string, stringConstantType: StringConstantType)
    | SubExpression
    | UsingExpression
    | VariableExpression(userPath: string, splatted: bool)
    | MemberExpression(isStatic: bool)
    | InvokeMemberExpression(isStatic: bool)
    | ArrayExpression
    | ArrayLiteral
    | Hashtable
    | ScriptBlockExpression
    | ParenExpression
    | ExpandableStringExpression(value: string, stringConstantType: StringConstantType)
    | IndexExpression
    | AttributedExpression
    | BlockStatement(kind: TokenKind)

  /** A syntax tree node: its source extent, its head and its children. The slots are stored
      in the order the read-only walk visits them (see `Schema`). */
  datatype Ast = Node(extent: Extent, head: Head, slots: seq<Slot>)

  datatype SlotKind = OneSlot | ManySlot | StatementsSlot | ClausesSlot | KeptSlot

  function KindOf(s: Slot): SlotKind {
    match s
    case One(_) => OneSlot
    case Many(_) => ManySlot
    case Statements(_) => StatementsSlot
    case Clauses(_) => ClausesSlot
    case Kept(_) => KeptSlot
  }

  /** The slots of each kind of node, in the order BasePassthroughCustomAstVisitor visits
      them; the comment names the C# properties. */
  function Schema(h: Head): seq<SlotKind> {
    match h
    // ParamBlock, BeginBlock, ProcessBlock, EndBlock, DynamicParamBlock
    case ScriptBlock => [OneSlot, OneSlot, OneSlot, OneSlot, OneSlot]
    // Traps, Statements
    case NamedBlock(_, _) => [ManySlot, StatementsSlot]
    // Body, Parameters
    case FunctionDefinition(_, _, _) => [OneSlot, ManySlot]
    // Statements, Traps
    case StatementBlock => [StatementsSlot, ManySlot]
    // Clauses, ElseClause
    case IfStatement => [ClausesSlot, OneSlot]
    // TrapType, Body
    case Trap => [OneSlot, OneSlot]
    // Condition, Clauses, Default
    case SwitchStatement(_, _) => [OneSlot, ClausesSlot, OneSlot]
    // Body, CommandsAllowed
    case DataStatement(_) => [OneSlot, ManySlot]
    // Variable, Condition, Body
    case ForEachStatement(_, _) => [OneSlot, OneSlot, OneSlot]
    // Condition, Body
    case DoWhileStatement(_) => [OneSlot, OneSlot]
    // Initializer, Condition, Iterator, Body
    case ForStatement(_) => [OneSlot, OneSlot, OneSlot, OneSlot]
    // Condition, Body
    case WhileStatement(_) => [OneSlot, OneSlot]
    // CatchTypes, Body
    case CatchClause => [KeptSlot, OneSlot]
    // Body, CatchClauses, Finally
    case TryStatement => [OneSlot, ManySlot, OneSlot]
    // Condition, Body
    case DoUntilStatement(_) => [OneSlot, OneSlot]
    // Attributes, Parameters
    case ParamBlock => [ManySlot, ManySlot]
    // the nested parts of an erroneous construct
    case ErrorStatement => [KeptSlot]
    case ErrorExpression => [KeptSlot]
    case TypeConstraint(_) => []
    // PositionalArguments, NamedArguments
    case Attribute(_) => [ManySlot, ManySlot]
    // Argument
    case NamedAttributeArgument(_, _) => [OneSlot]
    // Name, Attributes, DefaultValue
    case Parameter => [OneSlot, ManySlot, OneSlot]
    // Label
    case BreakStatement => [OneSlot]
    case ContinueStatement => [OneSlot]
    // Pipeline
    case ReturnStatement => [OneSlot]
    case ExitStatement => [OneSlot]
    case ThrowStatement => [OneSlot]
    // Left, Right
    case AssignmentStatement(_, _) => [OneSlot, OneSlot]
    // PipelineElements
    case Pipeline => [ManySlot]
    // CommandElements, Redirections
    case Command(_) => [ManySlot, ManySlot]
    // Expression, Redirections
    case CommandExpression => [OneSlot, ManySlot]
    // Argument
    case CommandParameter(_, _) => [OneSlot]
    // Location
    case FileRedirection(_, _) => [OneSlot]
    case MergingRedirection(_, _) => []
    // Left, Right
    case BinaryExpression(_, _) => [OneSlot, OneSlot]
    // Child
    case UnaryExpression(_) => [OneSlot]
    // Child, Type
    case ConvertExpression => [OneSlot, OneSlot]
    case TypeExpression(_) => []
    case ConstantExpression(_) => []
    case StringConstantExpression(_, _) => []
    // SubExpression
    case SubExpression => [OneSlot]
    case UsingExpression => [OneSlot]
    case VariableExpression(_, _) => []
    // Expression, Member
    case MemberExpression(_) => [OneSlot, OneSlot]
    // Expression, Member, Arguments
    case InvokeMemberExpression(_) => [OneSlot, OneSlot, ManySlot]
    // SubExpression
    case ArrayExpression => [OneSlot]
    // Elements
    case ArrayLiteral => [ManySlot]
    // KeyValuePairs
    case Hashtable => [ClausesSlot]
    // ScriptBlock
    case ScriptBlockExpression => [OneSlot]
    // Pipeline
    case ParenExpression => [OneSlot]
    case ExpandableStringExpression(_, _) => []
    // Target, Index
    case IndexExpression => [OneSlot, OneSlot]
    // Attribute, Child
    case AttributedExpression => [OneSlot, OneSlot]
    // Body
    case BlockStatement(_) => [OneSlot]
  }

  /** The node has the slots its kind prescribes. */
  predicate Conforms(n: Ast) {
    |n.slots| == |Schema(n.head)| && forall i | 0 <= i < |n.slots| :: KindOf(n.slots[i]) == Schema(n.head)[i]
  }

  /** The node kinds whose Visit method reaches no child in either base visitor. */
  predicate IsLeafKind(h: Head) {
    || h.ErrorStatement? || h.ErrorExpression? || h.TypeConstraint? || h.TypeExpression?
    || h.ConstantExpression? || h.StringConstantExpression? || h.ExpandableStringExpression?
    || h.VariableExpression? || h.MergingRedirection?
  }
}
