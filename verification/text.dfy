/** String helpers shared by the obfuscators and the writer: .NET's ToLower and StartsWith
    as the modelled code uses them, and the separator join of the text writer with its
    inverse, a split on a single separator character. */
module Text {

  /** ToLower as it acts on ASCII: 'A'..'Z' move to 'a'..'z', every other character stays. */
  function LowerChar(c: char): (r: char)
    ensures 'A' <= c <= 'Z' ==> r as int == c as int + 32
    ensures !('A' <= c <= 'Z') ==> r == c
  {
    if 'A' <= c <= 'Z' then (c as int + 32) as char else c
  }

  function Lower(s: string): (r: string)
    ensures |r| == |s|
    ensures forall i | 0 <= i < |s| :: r[i] == LowerChar(s[i])
  {
    seq(|s|, i requires 0 <= i < |s| => LowerChar(s[i]))
  }

  /** Two characters lowering maps to the same one: equal, or an ASCII capital and its
      small letter in either order. */
  predicate CaseTwins(a: char, b: char) {
    || a == b
    || ('A' <= a <= 'Z' && b as int == a as int + 32)
    || ('A' <= b <= 'Z' && a as int == b as int + 32)
  }

  /** Two strings lower to the same key exactly when they have the same length and agree
      position by position up to ASCII case. */
  lemma LowerEqualIff(a: string, b: string)
    ensures Lower(a) == Lower(b) <==> |a| == |b| && forall i | 0 <= i < |a| :: CaseTwins(a[i], b[i])
  {
  }

  /** No upper-case ASCII letter survives lowering, and lowering twice changes nothing. */
  lemma LowerIdempotent(s: string)
    ensures Lower(Lower(s)) == Lower(s)
    ensures forall i | 0 <= i < |s| :: !('A' <= Lower(s)[i] <= 'Z')
  {
  }

  lemma LowerAppend(a: string, b: string)
    ensures Lower(a + b) == Lower(a) + Lower(b)
  {
  }

  /** Ordinal, case-sensitive prefix test (String.StartsWith on an ASCII prefix). */
  predicate StartsWith(s: string, prefix: string) {
    |prefix| <= |s| && s[..|prefix|] == prefix
  }

  predicate IsAscii(s: string) {
    forall i | 0 <= i < |s| :: s[i] as int <= 127
  }

  lemma AsciiAppend(a: string, b: string)
    requires IsAscii(a) && IsAscii(b)
    ensures IsAscii(a + b)
  {
  }

  /** The text writer's VisitElements(elements, separator): the first element, then
      separator-and-element for each of the others. */
  function Join(parts: seq<string>, sep: string): string {
    if |parts| == 0 then "" else parts[0] + JoinTail(parts[1..], sep)
  }

  function JoinTail(parts: seq<string>, sep: string): string
    decreases |parts|
  {
    if |parts| == 0 then "" else sep + parts[0] + JoinTail(parts[1..], sep)
  }

  /** Cuts a string at every occurrence of one character. */
  function Split(s: string, c: char): (r: seq<string>)
    ensures |r| > 0
    decreases |s|
  {
    if |s| == 0 then [""]
    else
      var rest := Split(s[1..], c);
      if s[0] == c then [""] + rest else [[s[0]] + rest[0]] + rest[1..]
  }

  function Occurrences(c: char, s: string): nat
    decreases |s|
  {
    if |s| == 0 then 0 else (if s[0] == c then 1 else 0) + Occurrences(c, s[1..])
  }

  lemma {:induction false} OccurrencesAppend(c: char, a: string, b: string)
    ensures Occurrences(c, a + b) == Occurrences(c, a) + Occurrences(c, b)
    decreases |a|
  {
    if |a| == 0 {
      assert a + b == b;
    } else {
      assert (a + b)[1..] == a[1..] + b;
      OccurrencesAppend(c, a[1..], b);
    }
  }

  lemma {:induction false} OccurrencesAbsent(c: char, s: string)
    requires c !in s
    ensures Occurrences(c, s) == 0
    decreases |s|
  {
    if |s| > 0 {
      OccurrencesAbsent(c, s[1..]);
    }
  }

  lemma {:induction false} SplitWithout(p: string, c: char)
    requires c !in p
    ensures Split(p, c) == [p]
    decreases |p|
  {
    if |p| > 0 {
      SplitWithout(p[1..], c);
      assert [p[0]] + p[1..] == p;
    }
  }

  lemma {:induction false} SplitAfter(p: string, c: char, s: string)
    requires c !in p
    ensures Split(p + [c] + s, c) == [p] + Split(s, c)
    decreases |p|
  {
    if |p| == 0 {
      assert p + [c] + s == [c] + s;
      assert ([c] + s)[1..] == s;
    } else {
      assert (p + [c] + s)[1..] == p[1..] + [c] + s;
      SplitAfter(p[1..], c, s);
      assert [p[0]] + p[1..] == p;
    }
  }

  /** Joining with a one-character separator that no part contains, then splitting on that
      character, gives the parts back: the separator sits only between consecutive parts. */
  lemma {:induction false} JoinSplitRoundTrip(parts: seq<string>, c: char)
    requires |parts| > 0
    requires forall i | 0 <= i < |parts| :: c !in parts[i]
    ensures Split(Join(parts, [c]), c) == parts
    decreases |parts|
  {
    if |parts| == 1 {
      assert Join(parts, [c]) == parts[0];
      SplitWithout(parts[0], c);
    } else {
      var rest := parts[1..];
      assert Join(parts, [c]) == parts[0] + [c] + Join(rest, [c]) by {
        assert JoinTail(rest, [c]) == [c] + rest[0] + JoinTail(rest[1..], [c]);
      }
      SplitAfter(parts[0], c, Join(rest, [c]));
      JoinSplitRoundTrip(rest, c);
      assert [parts[0]] + rest == parts;
    }
  }

  /** A join of n parts that do not contain the separator holds exactly n - 1 separators. */
  lemma {:induction false} JoinSeparatorCount(parts: seq<string>, c: char)
    requires |parts| > 0
    requires forall i | 0 <= i < |parts| :: c !in parts[i]
    ensures Occurrences(c, Join(parts, [c])) == |parts| - 1
    decreases |parts|
  {
    if |parts| == 1 {
      assert Join(parts, [c]) == parts[0];
      OccurrencesAbsent(c, parts[0]);
    } else {
      var rest := parts[1..];
      assert Join(parts, [c]) == parts[0] + ([c] + Join(rest, [c])) by {
        assert JoinTail(rest, [c]) == [c] + rest[0] + JoinTail(rest[1..], [c]);
      }
      OccurrencesAppend(c, parts[0], [c] + Join(rest, [c]));
      OccurrencesAppend(c, [c], Join(rest, [c]));
      OccurrencesAbsent(c, parts[0]);
      JoinSeparatorCount(rest, c);
    }
  }
}
