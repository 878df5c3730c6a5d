/** UnVerbatimString, the text writer's string escaper: eleven `Replace` calls that put a
    backtick before the characters PowerShell escapes, then a pass that spells every
    non-ASCII UTF-16 code unit as `$([char]0x....)`. */
module Escape {
  import opened Text

  /** One replacement pass of the escaper: every occurrence of the pattern character is
      replaced by the replacement text. */
  datatype Rule = Rule(pattern: char, replacement: string)

  /** String.Replace with a one-character pattern: every occurrence, left to right. */
  function Replace(s: string, r: Rule): string
    decreases |s|
  {
    if |s| == 0 then "" else (if s[0] == r.pattern then r.replacement else [s[0]]) + Replace(s[1..], r)
  }

  /** Replace calls in sequence, each on the previous call's result. */
  function ReplaceAll(s: string, rules: seq<Rule>): string
    decreases |rules|
  {
    if |rules| == 0 then s else ReplaceAll(Replace(s, rules[0]), rules[1..])
  }

  /** The replacement of the first rule whose pattern is `c`; `c` itself when there is none. */
  function Lookup(rules: seq<Rule>, c: char): string
    decreases |rules|
  {
    if |rules| == 0 then [c]
    else if rules[0].pattern == c then rules[0].replacement
    else Lookup(rules[1..], c)
  }

  /** Every character replaced by its lookup, in one pass. */
  function Translate(rules: seq<Rule>, s: string): string
    decreases |s|
  {
    if |s| == 0 then "" else Lookup(rules, s[0]) + Translate(rules, s[1..])
  }

  /** No replacement text holds the pattern of a later call. */
  predicate NoLaterPattern(rules: seq<Rule>) {
    forall i, j | 0 <= i < j < |rules| :: rules[j].pattern !in rules[i].replacement
  }

  lemma {:induction false} TranslateAppend(rules: seq<Rule>, a: string, b: string)
    ensures Translate(rules, a + b) == Translate(rules, a) + Translate(rules, b)
    decreases |a|
  {
    if |a| == 0 {
      assert a + b == b;
    } else {
      assert (a + b)[1..] == a[1..] + b;
      TranslateAppend(rules, a[1..], b);
    }
  }

  lemma {:induction false} LookupMiss(rules: seq<Rule>, c: char)
    requires forall i | 0 <= i < |rules| :: rules[i].pattern != c
    ensures Lookup(rules, c) == [c]
    decreases |rules|
  {
    if |rules| > 0 {
      LookupMiss(rules[1..], c);
    }
  }

  /** A text without any pattern comes through a translation unchanged. */
  lemma {:induction false} TranslateFree(rules: seq<Rule>, s: string)
    requires forall i | 0 <= i < |rules| :: rules[i].pattern !in s
    ensures Translate(rules, s) == s
    decreases |s|
  {
    if |s| > 0 {
      LookupMiss(rules, s[0]);
      TranslateFree(rules, s[1..]);
      assert [s[0]] + s[1..] == s;
    }
  }

  /** A replacement whose text the later rules leave alone folds into the translation. */
  lemma {:induction false} ReplaceThenTranslate(r: Rule, rules: seq<Rule>, s: string)
    requires forall i | 0 <= i < |rules| :: rules[i].pattern !in r.replacement
    ensures Translate(rules, Replace(s, r)) == Translate([r] + rules, s)
    decreases |s|
  {
    if |s| > 0 {
      var head := if s[0] == r.pattern then r.replacement else [s[0]];
      TranslateAppend(rules, head, Replace(s[1..], r));
      ReplaceThenTranslate(r, rules, s[1..]);
      assert ([r] + rules)[1..] == rules;
      if s[0] == r.pattern {
        TranslateFree(rules, r.replacement);
      } else {
        assert Translate(rules, [s[0]]) == Lookup(rules, s[0]) + Translate(rules, []);
      }
    }
  }

  /** Sequential replacement is one per-character translation when no replacement text
      contains a later pattern. */
  lemma {:induction false} ReplaceAllIsTranslate(s: string, rules: seq<Rule>)
    requires NoLaterPattern(rules)
    ensures ReplaceAll(s, rules) == Translate(rules, s)
    decreases |rules|
  {
    if |rules| == 0 {
      TranslateFree(rules, s);
    } else {
      var rest := rules[1..];
      assert NoLaterPattern(rest) by {
        forall i, j | 0 <= i < j < |rest| ensures rest[j].pattern !in rest[i].replacement {
          assert rest[i] == rules[i + 1] && rest[j] == rules[j + 1];
        }
      }
      ReplaceAllIsTranslate(Replace(s, rules[0]), rest);
      assert forall i | 0 <= i < |rest| :: rest[i].pattern !in rules[0].replacement by {
        forall i | 0 <= i < |rest| ensures rest[i].pattern !in rules[0].replacement {
          assert rest[i] == rules[i + 1];
        }
      }
      ReplaceThenTranslate(rules[0], rest, s);
      assert [rules[0]] + rest == rules;
      calc {
        ReplaceAll(s, rules);
        ReplaceAll(Replace(s, rules[0]), rest);
        Translate(rest, Replace(s, rules[0]));
        Translate(rules, s);
      }
    }
  }

  const Bell: char := '\U{0007}'
  const Backspace: char := '\U{0008}'
  const FormFeed: char := '\U{000C}'
  const VerticalTab: char := '\U{000B}'

  /** The standard escapes, in the order the code applies them. */
  const Escapes: seq<Rule> := [
    Rule('\'', "`'"), Rule('\\', "`\\"), Rule('"', "`\""), Rule('\0', "`0"),
    Rule(Bell, "`a"), Rule(Backspace, "`b"), Rule(FormFeed, "`f"), Rule('\n', "`n"),
    Rule('\r', "`r"), Rule('\t', "`t"), Rule(VerticalTab, "`v")
  ]

  /** The characters the standard escapes rewrite: quote, backslash, double quote, NUL, BEL,
      BS, FF, LF, CR, TAB and VT. */
  predicate IsSpecial(c: char) {
    exists i | 0 <= i < |Escapes| :: Escapes[i].pattern == c
  }

  /** The letters that follow the backtick. */
  const EscapeLetters: string := "'\\\"0abfnrtv"

  lemma EscapesShape(i: nat)
    requires i < |Escapes|
    ensures |Escapes[i].replacement| == 2 && Escapes[i].replacement[0] == '`' && Escapes[i].replacement[1] in EscapeLetters
    ensures Escapes[i].pattern as int <= 127 && IsAscii(Escapes[i].replacement)
  {
  }

  lemma EscapesNoLaterPattern()
    ensures NoLaterPattern(Escapes)
  {
    forall i, j | 0 <= i < j < |Escapes| ensures Escapes[j].pattern !in Escapes[i].replacement {
      EscapesShape(i);
    }
  }

  /** The per-character standard escape: a special character becomes a backtick and its
      letter; everything else, backtick and `$` included, stays as it is. */
  function EscapeChar(c: char): string {
    Lookup(Escapes, c)
  }

  /** A hit returns the replacement of some rule whose pattern it is. */
  lemma {:induction false} LookupHit(rules: seq<Rule>, c: char) returns (i: nat)
    requires exists k | 0 <= k < |rules| :: rules[k].pattern == c
    ensures i < |rules| && rules[i].pattern == c && Lookup(rules, c) == rules[i].replacement
    decreases |rules|
  {
    if rules[0].pattern == c {
      i := 0;
    } else {
      var k :| 0 <= k < |rules| && rules[k].pattern == c;
      assert rules[1..][k - 1] == rules[k];
      var j := LookupHit(rules[1..], c);
      i := j + 1;
    }
  }

  lemma EscapeCharShape(c: char)
    ensures IsSpecial(c) ==> |EscapeChar(c)| == 2 && EscapeChar(c)[0] == '`' && EscapeChar(c)[1] in EscapeLetters
    ensures !IsSpecial(c) ==> EscapeChar(c) == [c]
  {
    if IsSpecial(c) {
      var i := LookupHit(Escapes, c);
      EscapesShape(i);
    } else {
      LookupMiss(Escapes, c);
    }
  }

  const HexDigits: string := "0123456789abcdef"

  /** `ToString("x4")` of a UTF-16 code unit: four lowercase hexadecimal digits, most
      significant first. */
  function Hex4(u: nat): (r: string)
    requires u < 0x1_0000
    ensures |r| == 4 && forall i | 0 <= i < 4 :: r[i] in HexDigits
  {
    var q1 := u / 16;
    var q2 := q1 / 16;
    var q3 := q2 / 16;
    [HexDigits[q3], HexDigits[q2 % 16], HexDigits[q1 % 16], HexDigits[u % 16]]
  }

  /** The value of one lowercase hexadecimal digit. */
  function DigitValue(c: char): nat {
    if '0' <= c <= '9' then c as int - '0' as int else if 'a' <= c <= 'f' then c as int - 'a' as int + 10 else 0
  }

  /** The number a string of lowercase hexadecimal digits denotes. */
  function HexValue(s: string): nat
    decreases |s|
  {
    if |s| == 0 then 0 else HexValue(s[..|s| - 1]) * 16 + DigitValue(s[|s| - 1])
  }

  lemma HexValueSnoc(s: string, c: char)
    ensures HexValue(s + [c]) == HexValue(s) * 16 + DigitValue(c)
  {
    assert (s + [c])[..|s|] == s;
  }

  lemma DigitRoundTrip(d: nat)
    requires d < 16
    ensures DigitValue(HexDigits[d]) == d
  {
  }

  /** The four digits denote the code unit back. */
  lemma Hex4RoundTrip(u: nat)
    requires u < 0x1_0000
    ensures HexValue(Hex4(u)) == u
  {
    var q1 := u / 16;
    var q2 := q1 / 16;
    var q3 := q2 / 16;
    var a, b, c, d := HexDigits[q3], HexDigits[q2 % 16], HexDigits[q1 % 16], HexDigits[u % 16];
    DigitRoundTrip(q3);
    DigitRoundTrip(q2 % 16);
    DigitRoundTrip(q1 % 16);
    DigitRoundTrip(u % 16);
    assert [a] == [] + [a];
    HexValueSnoc([], a);
    HexValueSnoc([a], b);
    HexValueSnoc([a] + [b], c);
    HexValueSnoc([a] + [b] + [c], d);
    assert Hex4(u) == [a] + [b] + [c] + [d];
    assert q2 == q3 * 16 + q2 % 16;
    assert q1 == q2 * 16 + q1 % 16;
    assert u == q1 * 16 + u % 16;
  }

  /** The UTF-16 code units of a character: itself below 0x10000, else a surrogate pair. */
  function CodeUnits(c: char): (r: seq<nat>)
    ensures forall i | 0 <= i < |r| :: r[i] < 0x1_0000
    ensures c as int < 0x1_0000 ==> r == [c as int]
    ensures c as int >= 0x1_0000 ==> |r| == 2 && 0xD800 <= r[0] < 0xDC00 <= r[1] < 0xE000
  {
    var v := c as int;
    if v < 0x1_0000 then [v]
    else [0xD800 + (v - 0x1_0000) / 0x400, 0xDC00 + (v - 0x1_0000) % 0x400]
  }

  /** The surrogate pair decodes back to the character. */
  lemma SurrogateRoundTrip(c: char)
    requires c as int >= 0x1_0000
    ensures var u := CodeUnits(c); (u[0] - 0xD800) * 0x400 + (u[1] - 0xDC00) + 0x1_0000 == c as int
  {
  }

  /** One code unit written as a subexpression that casts its four lowercase hexadecimal
      digits to a char. */
  function CharCode(u: nat): (r: string)
    requires u < 0x1_0000
    ensures IsAscii(r) && |r| == 15
  {
    "$([char]0x" + Hex4(u) + ")"
  }

  /** The escapes of a run of code units. */
  function CharCodes(us: seq<nat>): (r: string)
    requires forall i | 0 <= i < |us| :: us[i] < 0x1_0000
    ensures IsAscii(r) && |r| == 15 * |us|
    decreases |us|
  {
    if |us| == 0 then "" else CharCode(us[0]) + CharCodes(us[1..])
  }

  /** The foreach over the characters: above 127, every code unit is spelled out. */
  function WideChar(c: char): (r: string)
    ensures c as int <= 127 ==> r == [c]
  {
    if c as int > 127 then CharCodes(CodeUnits(c)) else [c]
  }

  lemma WideCharAscii(c: char)
    ensures IsAscii(WideChar(c))
  {
    if c as int > 127 {
      var r := CharCodes(CodeUnits(c));
      assert IsAscii(r);
    } else {
      assert WideChar(c) == [c];
    }
  }

  /** The second pass over a whole string. */
  function Widen(s: string): string
    decreases |s|
  {
    if |s| == 0 then "" else WideChar(s[0]) + Widen(s[1..])
  }

  lemma {:induction false} WidenAscii(s: string)
    ensures IsAscii(Widen(s))
    decreases |s|
  {
    if |s| > 0 {
      WidenAscii(s[1..]);
      WideCharAscii(s[0]);
      AsciiAppend(WideChar(s[0]), Widen(s[1..]));
    }
  }

  lemma {:induction false} WidenAppend(a: string, b: string)
    ensures Widen(a + b) == Widen(a) + Widen(b)
    decreases |a|
  {
    if |a| == 0 {
      assert a + b == b;
    } else {
      assert (a + b)[1..] == a[1..] + b;
      WidenAppend(a[1..], b);
    }
  }

  lemma WidenSnoc(s: string, c: char)
    ensures Widen(s + [c]) == Widen(s) + WideChar(c)
  {
    WidenAppend(s, [c]);
    assert Widen([c]) == WideChar(c) + Widen([]);
  }

  /** One turn of the loop keeps its invariant: the text built so far followed by the
      widened rest is the widened whole. */
  lemma WidenFrom(s: string, i: nat, r: string)
    requires i < |s| && r + Widen(s[i..]) == Widen(s)
    ensures (r + WideChar(s[i])) + Widen(s[i + 1..]) == Widen(s)
  {
    var t := s[i..];
    assert t[0] == s[i] && t[1..] == s[i + 1..];
    WidenUncons(t);
    Regroup(r, WideChar(s[i]), Widen(s[i + 1..]));
  }

  lemma WidenUncons(t: string)
    requires |t| > 0
    ensures Widen(t) == WideChar(t[0]) + Widen(t[1..])
  {
  }

  lemma Regroup(a: string, b: string, c: string)
    ensures (a + b) + c == a + (b + c)
  {
  }

  /** The StringBuilder loop of the second pass. */
  method WidenLoop(dst: string) returns (r: string)
    ensures r == Widen(dst)
  {
    r := "";
    var i := 0;
    assert dst[0..] == dst;
    while i < |dst|
      invariant 0 <= i <= |dst|
      invariant r + Widen(dst[i..]) == Widen(dst)
    {
      WidenFrom(dst, i, r);
      r := r + WideChar(dst[i]);
      i := i + 1;
    }
    assert dst[i..] == [];
  }

  function UnVerbatimString(src: string): string {
    Widen(ReplaceAll(src, Escapes))
  }

  /** What one source character turns into. */
  function EscapeFull(c: char): string {
    if c as int > 127 then CharCodes(CodeUnits(c)) else EscapeChar(c)
  }

  function EscapeEach(s: string): string
    decreases |s|
  {
    if |s| == 0 then "" else EscapeFull(s[0]) + EscapeEach(s[1..])
  }

  /** ASCII text is left alone by the second pass. */
  lemma {:induction false} WidenAsciiUnchanged(s: string)
    requires IsAscii(s)
    ensures Widen(s) == s
    decreases |s|
  {
    if |s| > 0 {
      WidenAsciiUnchanged(s[1..]);
      assert [s[0]] + s[1..] == s;
    }
  }

  lemma WidenEscape(c: char)
    ensures Widen(EscapeChar(c)) == EscapeFull(c)
  {
    if IsSpecial(c) {
      var i := LookupHit(Escapes, c);
      EscapesShape(i);
      WidenAsciiUnchanged(EscapeChar(c));
    } else {
      LookupMiss(Escapes, c);
      WidenSnoc([], c);
      assert [] + [c] == [c];
    }
  }

  lemma {:induction false} WidenTranslate(s: string)
    ensures Widen(Translate(Escapes, s)) == EscapeEach(s)
    decreases |s|
  {
    if |s| > 0 {
      WidenAppend(EscapeChar(s[0]), Translate(Escapes, s[1..]));
      WidenTranslate(s[1..]);
      WidenEscape(s[0]);
    }
  }

  /** The eleven Replace calls and the widening pass act character by character: the
      output is the concatenation of each source character's escape. */
  lemma UnVerbatimPerCharacter(src: string)
    ensures UnVerbatimString(src) == EscapeEach(src)
  {
    EscapesNoLaterPattern();
    ReplaceAllIsTranslate(src, Escapes);
    WidenTranslate(src);
  }

  /** The output never holds a character above 127. */
  lemma UnVerbatimAscii(src: string)
    ensures IsAscii(UnVerbatimString(src))
  {
    WidenAscii(ReplaceAll(src, Escapes));
  }

  /** A string of ASCII characters none of which is special comes out unchanged. */
  lemma {:induction false} UnVerbatimPlain(src: string)
    requires IsAscii(src) && forall i | 0 <= i < |src| :: !IsSpecial(src[i])
    ensures UnVerbatimString(src) == src
  {
    UnVerbatimPerCharacter(src);
    EscapeEachPlain(src);
  }

  lemma {:induction false} EscapeEachPlain(s: string)
    requires IsAscii(s) && forall i | 0 <= i < |s| :: !IsSpecial(s[i])
    ensures EscapeEach(s) == s
    decreases |s|
  {
    if |s| > 0 {
      EscapeCharShape(s[0]);
      EscapeEachPlain(s[1..]);
      assert [s[0]] + s[1..] == s;
    }
  }

  /** Backtick and dollar sign are not among the escaped characters: they pass through as
      they are. */
  lemma BacktickAndDollarKept()
    ensures EscapeChar('`') == "`" && EscapeChar('$') == "$"
  {
    forall i | 0 <= i < |Escapes| ensures Escapes[i].pattern != '`' && Escapes[i].pattern != '$' {
    }
    EscapeCharShape('`');
    EscapeCharShape('$');
  }
}
