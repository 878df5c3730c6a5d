/** The fixed spellings the text writer chooses for operators, redirections and quoting,
    each with the exception it throws on a value it does not handle. */
module Spelling {
  import opened Wrappers
  import opened Syntax
  import opened Text

  /** The operators spelled "-" and their lower-case enum name. */
  predicate IsWordOperator(t: TokenKind) {
    t.And? || t.Or? || t.Xor? || t.Not? || t.Band? || t.Bor? || t.Bnot? || t.Bxor? || t.Is? || t.IsNot?
  }

  /** The operators spelled "-" and their lower-case enum name without its first letter. */
  predicate IsPrefixedOperator(t: TokenKind) {
    || t.Ceq? || t.Cge? || t.Cin? || t.Cle? || t.Clt? || t.Cmatch? || t.Cne? || t.Cnotcontains?
    || t.Cnotin? || t.Cnotlike? || t.Cnotmatch? || t.Ilike? || t.Inotlike? || t.Imatch? || t.Inotmatch?
  }

  /** The operator text VisitBinaryExpression writes between its operands. The source
      derives the word operators' text from the enum name (a dash before the lowercased name, and the
      comparison operators' from the name without its first letter); the table spells out
      the results. */
  function BinaryOperator(t: TokenKind): (r: Result<string>)
    ensures r.Failure? ==> r.error == BinaryTokenNotSupported
  {
    match t
    case Dot => Success(".")
    case DotDot => Success("..")
    case Exclaim => Success("!")
    case Ilt => Success("-lt")
    case Ile => Success("-le")
    case Ieq => Success("-eq")
    case Ine => Success("-ne")
    case Ige => Success("-ge")
    case Igt => Success("-gt")
    case Format => Success("-f")
    case And => Success("-and")
    case Or => Success("-or")
    case Xor => Success("-xor")
    case Not => Success("-not")
    case Band => Success("-band")
    case Bor => Success("-bor")
    case Bnot => Success("-bnot")
    case Bxor => Success("-bxor")
    case Is => Success("-is")
    case IsNot => Success("-isnot")
    case Ceq => Success("-eq")
    case Cge => Success("-ge")
    case Cin => Success("-in")
    case Cle => Success("-le")
    case Clt => Success("-lt")
    case Cmatch => Success("-match")
    case Cne => Success("-ne")
    case Cnotcontains => Success("-notcontains")
    case Cnotin => Success("-notin")
    case Cnotlike => Success("-notlike")
    case Cnotmatch => Success("-notmatch")
    case Ilike => Success("-like")
    case Inotlike => Success("-notlike")
    case Imatch => Success("-match")
    case Inotmatch => Success("-notmatch")
    case Plus => Success("+")
    case Minus => Success("-")
    case Multiply => Success("*")
    case Divide => Success("/")
    case Module => Success("%")
    case _ => Failure(BinaryTokenNotSupported)
  }

  /** The binary operators the writer handles. */
  predicate IsBinaryToken(t: TokenKind) {
    || t.Dot? || t.DotDot? || t.Exclaim? || t.Format? || t.Ilt? || t.Ile? || t.Ieq? || t.Ine? || t.Ige? || t.Igt?
    || IsWordOperator(t) || IsPrefixedOperator(t)
    || t.Plus? || t.Minus? || t.Multiply? || t.Divide? || t.Module?
  }

  /** The case-insensitive operator a spelling stands for: the case-sensitive comparison
      operators among `BinaryTokens` map to their case-insensitive twins. */
  function CaseInsensitive(t: TokenKind): TokenKind {
    match t
    case Ceq => Ieq
    case Cge => Ige
    case Cin => Iin
    case Cle => Ile
    case Clt => Ilt
    case Cmatch => Imatch
    case Cne => Ine
    case Cnotcontains => Inotcontains
    case Cnotin => Inotin
    case Cnotlike => Inotlike
    case Cnotmatch => Inotmatch
    case _ => t
  }

  /** The writer handles exactly the binary tokens; everything else throws. */
  lemma BinaryOperatorHandles(t: TokenKind)
    ensures BinaryOperator(t).Success? <==> IsBinaryToken(t)
  {
  }

  /** Case sensitivity is lost: a case-sensitive comparison is written exactly as its
      case-insensitive twin when the writer handles the twin, so `-ceq` comes out as `-eq`;
      `-cin` comes out as `-in` although the writer throws on `Iin` itself. */
  lemma CaseTwinsAlike(t: TokenKind)
    requires IsPrefixedOperator(t)
    ensures IsBinaryToken(CaseInsensitive(t)) ==> BinaryOperator(t) == BinaryOperator(CaseInsensitive(t))
    ensures BinaryOperator(Cin) == Success("-in") && BinaryOperator(Iin).Failure?
  {
  }

  /** What VisitUnaryExpression writes before its operand. */
  function UnaryPrefix(t: TokenKind): (r: Result<string>)
    ensures r.Failure? ==> r.error == UnaryTokenNotSupported
  {
    match t
    case PlusPlus => Success("++")
    case Plus => Success("+")
    case MinusMinus => Success("--")
    case Minus => Success("-")
    case Exclaim => Success("!")
    case Dot => Success(".")
    case Not => Success("-not ")
    case Ampersand => Success("&")
    case PostfixPlusPlus => Success("")
    case PostfixMinusMinus => Success("")
    case _ => Failure(UnaryTokenNotSupported)
  }

  /** What VisitUnaryExpression writes after its operand. */
  function UnarySuffix(t: TokenKind): string {
    match t
    case PostfixPlusPlus => "++"
    case PostfixMinusMinus => "--"
    case _ => ""
  }

  predicate IsUnaryToken(t: TokenKind) {
    || t.PlusPlus? || t.Plus? || t.MinusMinus? || t.Minus? || t.Exclaim? || t.Dot? || t.Not? || t.Ampersand?
    || t.PostfixPlusPlus? || t.PostfixMinusMinus?
  }

  /** A handled unary operator is written on exactly one side of its operand: before it for
      the prefix forms, after it for the two postfix forms. */
  lemma UnaryPlacement(t: TokenKind)
    ensures UnaryPrefix(t).Success? <==> IsUnaryToken(t)
    ensures UnaryPrefix(t).Success? ==> (UnaryPrefix(t).value == "" <==> UnarySuffix(t) != "")
    ensures UnaryPrefix(t).Success? ==> (UnarySuffix(t) != "" <==> t.PostfixPlusPlus? || t.PostfixMinusMinus?)
  {
  }

  /** Pre- and post-increment write the same `++` (likewise `--`), on opposite sides. */
  lemma IncrementSides()
    ensures UnaryPrefix(PlusPlus) == Success(UnarySuffix(PostfixPlusPlus)) && UnarySuffix(PlusPlus) == ""
    ensures UnaryPrefix(MinusMinus) == Success(UnarySuffix(PostfixMinusMinus)) && UnarySuffix(MinusMinus) == ""
  {
  }

  /** The operator VisitAssignmentStatement writes between its sides. */
  function AssignmentOperator(t: TokenKind): (r: Result<string>)
    ensures r.Failure? ==> r.error == AssignmentOperatorNotSupported
  {
    match t
    case Equals => Success("=")
    case PlusEquals => Success("+=")
    case MinusEquals => Success("-=")
    case DivideEquals => Success("/=")
    case MultiplyEquals => Success("*=")
    case RemainderEquals => Success("%=")
    case _ => Failure(AssignmentOperatorNotSupported)
  }

  /** The arithmetic operator a compound assignment combines with. */
  function Arithmetic(t: TokenKind): Option<TokenKind> {
    match t
    case PlusEquals => Some(Plus)
    case MinusEquals => Some(Minus)
    case DivideEquals => Some(Divide)
    case MultiplyEquals => Some(Multiply)
    case RemainderEquals => Some(Rem)
    case _ => None
  }

  /** Exactly the six assignment operators are handled: plain `=` and the five compound ones. */
  lemma AssignmentHandles(t: TokenKind)
    ensures AssignmentOperator(t).Success? <==> t.Equals? || Arithmetic(t).Some?
    ensures AssignmentOperator(Equals) == Success("=")
  {
  }

  /** A compound assignment is spelled as its arithmetic operator followed by `=` whenever the
      binary-operator switch spells that operator, which it does for all but `%=`: the switch
      lists the `module` keyword where the remainder operator belongs. */
  lemma CompoundSpelling(t: TokenKind)
    requires Arithmetic(t).Some?
    ensures AssignmentOperator(t).Success?
    ensures BinaryOperator(Arithmetic(t).value).Success? <==> !t.RemainderEquals?
    ensures BinaryOperator(Arithmetic(t).value).Success? ==>
              AssignmentOperator(t) == Success(BinaryOperator(Arithmetic(t).value).value + "=")
  {
    match t
    case PlusEquals => assert "+" + "=" == "+=";
    case MinusEquals => assert "-" + "=" == "-=";
    case DivideEquals => assert "/" + "=" == "/=";
    case MultiplyEquals => assert "*" + "=" == "*=";
    case _ =>
  }

  /** `%=` is written, but a binary `%` (the remainder token) throws; the `%` the switch does
      write is the spelling it gives the `module` keyword token. */
  lemma RemainderNotSpelled()
    ensures AssignmentOperator(RemainderEquals) == Success("%=")
    ensures BinaryOperator(Rem) == Failure(BinaryTokenNotSupported)
    ensures BinaryOperator(Module) == Success("%")
  {
  }

  /** `(int)stream` for the named streams: Output 1, Error 2, Warning 3, Verbose 4, Debug 5,
      Information 6. */
  function StreamNumber(s: RedirectionStream): (r: Option<nat>)
    ensures r.Some? ==> 1 <= r.value <= 6
  {
    match s
    case Output => Some(1)
    case ErrorStream => Some(2)
    case Warning => Some(3)
    case Verbose => Some(4)
    case Debug => Some(5)
    case Information => Some(6)
    case _ => None
  }

  /** The stream text both redirection visitors write: `*` for All, the stream's number for a
      named stream, otherwise the exception. */
  function StreamText(s: RedirectionStream): (r: Result<string>)
    ensures r.Failure? ==> r.error == FileRedirectionNotSupported
  {
    if s.All? then Success("*")
    else match StreamNumber(s)
      case Some(k) => Success([('0' as int + k) as char])
      case None => Failure(FileRedirectionNotSupported)
  }

  /** The stream a redirection text names, read back. */
  function ReadStream(t: string): Option<RedirectionStream> {
    if t == "*" then Some(All)
    else if t == "1" then Some(Output) else if t == "2" then Some(ErrorStream)
    else if t == "3" then Some(Warning) else if t == "4" then Some(Verbose)
    else if t == "5" then Some(Debug) else if t == "6" then Some(Information)
    else None
  }

  /** Every handled stream is written as one character that reads back as itself; the
      streams outside the enumeration are the ones rejected. */
  lemma StreamRoundTrip(s: RedirectionStream)
    ensures StreamText(s).Success? <==> !s.UndefinedStream?
    ensures StreamText(s).Success? ==> |StreamText(s).value| == 1 && ReadStream(StreamText(s).value) == Some(s)
  {
  }

  /** The text VisitFileRedirection writes before the location: stream, then `>>` when
      appending and `>` otherwise. */
  function FileRedirectionText(from: RedirectionStream, append: bool): (r: Result<string>)
    ensures r.Failure? <==> from.UndefinedStream?
    ensures r.Failure? ==> r.error == FileRedirectionNotSupported
  {
    var s :- StreamText(from);
    Success(s + (if append then ">>" else ">"))
  }

  /** Everything VisitMergingRedirection writes: from-stream, `>&`, to-stream. The from-stream
      is checked first. */
  function MergingRedirectionText(from: RedirectionStream, to: RedirectionStream): (r: Result<string>)
    ensures r.Failure? <==> from.UndefinedStream? || to.UndefinedStream?
    ensures r.Failure? ==> r.error == FileRedirectionNotSupported
  {
    var f :- StreamText(from);
    var t :- StreamText(to);
    Success(f + ">&" + t)
  }

  /** A file redirection's text starts with the stream and ends with one or two `>`, two
      exactly when appending. */
  lemma FileRedirectionParts(from: RedirectionStream, append: bool)
    requires !from.UndefinedStream?
    ensures var r := FileRedirectionText(from, append).value;
      && ReadStream(r[..1]) == Some(from)
      && (append <==> r[1..] == ">>")
      && (!append <==> r[1..] == ">")
  {
    StreamRoundTrip(from);
  }

  /** A merging redirection's text splits at `>&` back into its two streams. */
  lemma MergingRedirectionParts(from: RedirectionStream, to: RedirectionStream)
    requires !from.UndefinedStream? && !to.UndefinedStream?
    ensures var r := MergingRedirectionText(from, to).value;
      && |r| == 4 && r[1..3] == ">&"
      && ReadStream(r[..1]) == Some(from) && ReadStream(r[3..]) == Some(to)
  {
    StreamRoundTrip(from);
    StreamRoundTrip(to);
  }

  /** The quoting of VisitStringConstantExpression and VisitExpandableStringExpression around
      an already escaped value. */
  function Quote(kind: StringConstantType, value: string): (r: Result<string>)
    ensures r.Failure? ==> r.error == StringConstantTypeNotSupported
  {
    match kind
    case DoubleQuoted => Success("\"" + value + "\"")
    case DoubleQuotedHereString => Success("\"" + value + "\"")
    case SingleQuoted => Success("'" + value + "'")
    case SingleQuotedHereString => Success("'" + value + "'")
    case BareWord => Success(value)
    case UndefinedQuoting(_) => Failure(StringConstantTypeNotSupported)
  }

  /** The quotes a quoting kind puts around the value. */
  function Delimiter(kind: StringConstantType): string {
    if kind.DoubleQuoted? || kind.DoubleQuotedHereString? then "\""
    else if kind.SingleQuoted? || kind.SingleQuotedHereString? then "'"
    else ""
  }

  /** Every named quoting kind succeeds and encloses the value between two copies of its
      delimiter; here-strings lose their here-string form; only the kinds outside the
      enumeration fail. */
  lemma QuoteEncloses(kind: StringConstantType, value: string)
    ensures Quote(kind, value).Success? <==> !kind.UndefinedQuoting?
    ensures Quote(kind, value).Success? ==> Quote(kind, value).value == Delimiter(kind) + value + Delimiter(kind)
    ensures Quote(DoubleQuotedHereString, value) == Quote(DoubleQuoted, value)
    ensures Quote(SingleQuotedHereString, value) == Quote(SingleQuoted, value)
  {
  }
}
