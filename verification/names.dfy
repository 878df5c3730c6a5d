/** The constructor the two _AlterVisitor classes share: shuffle the harvested names, then
    give each, in shuffled order, a freshly drawn name of minLength + level alphabet
    characters, keyed by its lowercase form. The per-level sets the retry loop consults are
    never added to, so the loop draws once, nothing keeps two names apart, and the level
    rises to 1 after the first name and stays there. */
module NameTable {
  import opened Wrappers
  import opened Text
  import opened Random
  import opened Shuffling

  /** `count` requests with the same bound. */
  function Repeat(bound: nat, count: nat): (r: seq<nat>)
    ensures |r| == count && forall i | 0 <= i < count :: r[i] == bound
  {
    seq(count, i => bound)
  }

  lemma RepeatAppend(bound: nat, a: nat, b: nat)
    ensures Repeat(bound, a) + Repeat(bound, b) == Repeat(bound, a + b)
  {
  }

  /** The inner foreach: `length` draws `rng.Next(0, alphabet.Count())`, each appending
      `alphabet[num]`. An empty alphabet makes the first index out of range. */
  function DrawName(alphabet: string, length: nat, g: Rng): (r: Result<(string, Rng)>)
    ensures r.Success? <==> length == 0 || |alphabet| > 0
    ensures r.Failure? ==> r.error == IndexOutOfRange
    ensures r.Success? ==> |r.value.0| == length && forall i | 0 <= i < length :: r.value.0[i] in alphabet
    ensures r.Success? ==>
              r.value.1.draws == g.draws && r.value.1.requested == g.requested + Repeat(|alphabet|, length)
    decreases length
  {
    if length == 0 then Success(("", g))
    else
      var (num, g') := Next(g, |alphabet|);
      if num >= |alphabet| then Failure(IndexOutOfRange)
      else
        match DrawName(alphabet, length - 1, g')
        case Failure(e) => Failure(e)
        case Success((rest, g'')) =>
          RepeatAppend(|alphabet|, 1, length - 1);
          Success(([alphabet[num]] + rest, g''))
  }

  /** The constructor's locals between two names: the table, the level, the per-level
      sets of names already handed out, and the generator. */
  datatype Allocation = Allocation(table: map<string, string>, level: nat, used: seq<set<string>>, rng: Rng)

  /** One set per level so far, all of them empty. */
  predicate Valid(st: Allocation) {
    |st.used| == st.level + 1 && forall i | 0 <= i < |st.used| :: st.used[i] == {}
  }

  /** The state before the first name. */
  function Start(g: Rng): (st: Allocation)
    ensures Valid(st) && st.table == map[] && st.level == 0
  {
    Allocation(map[], 0, [{}], g)
  }

  /** The level after a name: one more when the current level's set holds at least
      |alphabet| * level names, which an empty set does only at level 0 (or for an empty
      alphabet). */
  function Bump(alphabet: string, level: nat): (r: nat)
    ensures |alphabet| > 0 ==> r == if level == 0 then 1 else level
  {
    if 0 >= |alphabet| * level then level + 1 else level
  }

  /** One pass of the foreach: draw (the do-while never repeats), add the lowercase key,
      maybe raise the level. */
  function AllocateOne(alphabet: string, minLength: nat, name: string, st: Allocation): (r: Result<Allocation>)
    requires Valid(st)
    ensures r.Success? ==> Valid(r.value) && r.value.level == Bump(alphabet, st.level)
    ensures r.Failure? ==> r.error == IndexOutOfRange || r.error == DuplicateKey
  {
    var (newName, g') :- DrawName(alphabet, minLength + st.level, st.rng);
    if newName in st.used[st.level] then
      assert false;
      Failure(IndexOutOfRange)
    else if Lower(name) in st.table then Failure(DuplicateKey)
    else
      var table := st.table[Lower(name) := newName];
      if |st.used[st.level]| >= |alphabet| * st.level then
        Success(Allocation(table, st.level + 1, st.used + [{}], g'))
      else
        Success(Allocation(table, st.level, st.used, g'))
  }

  /** The foreach over the shuffled names, stopping at the first exception. */
  function AllocateAll(alphabet: string, minLength: nat, names: seq<string>, st: Allocation): (r: Result<Allocation>)
    requires Valid(st)
    ensures r.Success? ==> Valid(r.value)
    ensures r.Failure? ==> r.error == IndexOutOfRange || r.error == DuplicateKey
    decreases |names|
  {
    if |names| == 0 then Success(st)
    else
      var st' :- AllocateOne(alphabet, minLength, names[0], st);
      AllocateAll(alphabet, minLength, names[1..], st')
  }

  /** The _AlterVisitor constructor up to the blacklist: `new Random(seed)`, the shuffle,
      then the names. */
  function BuildTable(alphabet: string, minLength: nat, names: seq<string>, g: Rng): (r: Result<Allocation>)
    ensures r.Failure? ==> r.error == IndexOutOfRange || r.error == DuplicateKey
  {
    AllocateAll(alphabet, minLength, Shuffle(names, g).0, Start(Shuffle(names, g).1))
  }

  /** The constructor with its `int minLength`. A negative minimum makes the first name's
      `Enumerable.Range(0, minLength + level)`, at level 0, throw ArgumentOutOfRangeException
      before anything is drawn; with no names the loop never runs and the minimum is unused. */
  function BuildTableFrom(alphabet: string, minLength: int, names: seq<string>, g: Rng): (r: Result<Allocation>)
    ensures r.Failure? ==> r.error == IndexOutOfRange || r.error == DuplicateKey || r.error == NegativeCount
  {
    if minLength >= 0 then BuildTable(alphabet, minLength, names, g)
    else if |names| == 0 then BuildTable(alphabet, 0, names, g)
    else Failure(NegativeCount)
  }

  /** The lowercase keys of a list of names. */
  function LowerSet(names: seq<string>): set<string> {
    set x | x in names :: Lower(x)
  }

  /** Two positions whose names share a lowercase form. */
  predicate CaseClash(names: seq<string>) {
    exists i, j | 0 <= i < j < |names| :: Lower(names[i]) == Lower(names[j])
  }

  /** Two different names with the same lowercase form, e.g. `Foo` and `foo`. */
  predicate CaseVariants(names: seq<string>) {
    exists a, b | a in names && b in names && a != b :: Lower(a) == Lower(b)
  }

  /** Whether the alphabet lets every name be drawn: always when it is non-empty; when it is
      empty, only a single name of length zero. */
  predicate Drawable(alphabet: string, minLength: nat, level: nat, count: nat) {
    count == 0 || |alphabet| > 0 || (minLength + level == 0 && count == 1)
  }

  /** Whether `count` names can be drawn at all, the minimum length being any integer. */
  predicate Feasible(alphabet: string, minLength: int, count: nat) {
    count == 0 || (minLength >= 0 && Drawable(alphabet, minLength, 0, count))
  }

  /** How many characters the foreach draws for `count` names starting at `level`. */
  function DrawCount(alphabet: string, minLength: nat, level: nat, count: nat): nat
    decreases count
  {
    if count == 0 then 0 else minLength + level + DrawCount(alphabet, minLength, Bump(alphabet, level), count - 1)
  }
}

module NameTableLaws {
  import opened Wrappers
  import opened Text
  import opened Random
  import opened Shuffling
  import opened NameTable

  lemma DrawableStep(alphabet: string, minLength: nat, level: nat, count: nat)
    requires count > 0
    ensures Drawable(alphabet, minLength, level, count) <==>
              (minLength + level == 0 || |alphabet| > 0) && Drawable(alphabet, minLength, Bump(alphabet, level), count - 1)
  {
  }

  lemma CaseClashStep(names: seq<string>)
    requires |names| > 0
    ensures CaseClash(names) <==>
              (exists i | 1 <= i < |names| :: Lower(names[i]) == Lower(names[0])) || CaseClash(names[1..])
  {
    if CaseClash(names) {
      var i, j :| 0 <= i < j < |names| && Lower(names[i]) == Lower(names[j]);
      if i > 0 {
        assert Lower(names[1..][i - 1]) == Lower(names[1..][j - 1]);
      }
    }
    if CaseClash(names[1..]) {
      var i, j :| 0 <= i < j < |names[1..]| && Lower(names[1..][i]) == Lower(names[1..][j]);
      assert Lower(names[i + 1]) == Lower(names[j + 1]);
    }
  }

  /** The foreach completes exactly when no name's key is taken, by the table so far or by an
      earlier name, and the alphabet can supply every character. */
  lemma {:induction false} AllocateAllSucceedsIff(alphabet: string, minLength: nat, names: seq<string>, st: Allocation)
    requires Valid(st)
    ensures AllocateAll(alphabet, minLength, names, st).Success? <==>
              && (forall i | 0 <= i < |names| :: Lower(names[i]) !in st.table)
              && !CaseClash(names)
              && Drawable(alphabet, minLength, st.level, |names|)
    decreases |names|
  {
    if |names| > 0 {
      DrawableStep(alphabet, minLength, st.level, |names|);
      CaseClashStep(names);
      var one := AllocateOne(alphabet, minLength, names[0], st);
      assert one.Success? <==> (minLength + st.level == 0 || |alphabet| > 0) && Lower(names[0]) !in st.table;
      if one.Success? {
        var st' := one.value;
        assert st'.table.Keys == st.table.Keys + {Lower(names[0])};
        AllocateAllSucceedsIff(alphabet, minLength, names[1..], st');
        assert forall i | 1 <= i < |names| :: names[i] == names[1..][i - 1];
      }
    }
  }

  /** On success the table gains exactly the lowercase keys of the names and keeps its
      earlier entries. */
  lemma {:induction false} AllocateAllKeys(alphabet: string, minLength: nat, names: seq<string>, st: Allocation)
    requires Valid(st)
    requires AllocateAll(alphabet, minLength, names, st).Success?
    ensures var t := AllocateAll(alphabet, minLength, names, st).value.table;
      && t.Keys == st.table.Keys + LowerSet(names)
      && (forall k | k in st.table :: t[k] == st.table[k])
    decreases |names|
  {
    if |names| > 0 {
      var st' := AllocateOne(alphabet, minLength, names[0], st).value;
      AllocateAllKeys(alphabet, minLength, names[1..], st');
      assert LowerSet(names) == {Lower(names[0])} + LowerSet(names[1..]) by {
        assert forall x | x in names :: x == names[0] || x in names[1..];
      }
    }
  }

  /** The first name gets minLength + level characters and every later one minLength + the
      raised level, all drawn from the alphabet. */
  lemma {:induction false} AllocateAllLengths(alphabet: string, minLength: nat, names: seq<string>, st: Allocation)
    requires Valid(st)
    requires AllocateAll(alphabet, minLength, names, st).Success?
    ensures var t := AllocateAll(alphabet, minLength, names, st).value.table;
      forall i | 0 <= i < |names| ::
        && Lower(names[i]) in t
        && |t[Lower(names[i])]| == minLength + (if i == 0 then st.level else Bump(alphabet, st.level))
        && forall c | c in t[Lower(names[i])] :: c in alphabet
    decreases |names|
  {
    if |names| > 0 {
      AllocateAllSucceedsIff(alphabet, minLength, names, st);
      var st' := AllocateOne(alphabet, minLength, names[0], st).value;
      AllocateAllLengths(alphabet, minLength, names[1..], st');
      AllocateAllKeys(alphabet, minLength, names[1..], st');
      assert Lower(names[0]) in st'.table;
      assert |names| > 1 ==> |alphabet| > 0;
      forall i | 1 <= i < |names| ensures names[i] == names[1..][i - 1] {
      }
    }
  }

  /** The level is 0 before any name and Bump(level) after: 1 from level 0, and no higher. */
  lemma {:induction false} AllocateAllLevel(alphabet: string, minLength: nat, names: seq<string>, st: Allocation)
    requires Valid(st)
    requires AllocateAll(alphabet, minLength, names, st).Success?
    ensures AllocateAll(alphabet, minLength, names, st).value.level == if |names| == 0 then st.level else Bump(alphabet, st.level)
    decreases |names|
  {
    if |names| > 0 {
      AllocateAllSucceedsIff(alphabet, minLength, names, st);
      var st' := AllocateOne(alphabet, minLength, names[0], st).value;
      AllocateAllLevel(alphabet, minLength, names[1..], st');
    }
  }

  /** The characters of the names are the only draws the foreach makes, one per character, in
      order, each with the alphabet's size as bound. */
  lemma {:induction false} AllocateAllDraws(alphabet: string, minLength: nat, names: seq<string>, st: Allocation)
    requires Valid(st)
    requires AllocateAll(alphabet, minLength, names, st).Success?
    ensures var g := AllocateAll(alphabet, minLength, names, st).value.rng;
      && g.draws == st.rng.draws
      && g.requested == st.rng.requested + Repeat(|alphabet|, DrawCount(alphabet, minLength, st.level, |names|))
    decreases |names|
  {
    if |names| > 0 {
      var st' := AllocateOne(alphabet, minLength, names[0], st).value;
      AllocateAllDraws(alphabet, minLength, names[1..], st');
      RepeatAppend(|alphabet|, minLength + st.level, DrawCount(alphabet, minLength, st'.level, |names| - 1));
    }
  }

  /** From level 0 with a usable alphabet: minLength for the first name, minLength + 1 for each
      of the others. */
  lemma {:induction false} DrawCountFromStart(alphabet: string, minLength: nat, count: nat)
    requires Drawable(alphabet, minLength, 0, count)
    ensures DrawCount(alphabet, minLength, 0, count) == if count == 0 then 0 else count * (minLength + 1) - 1
  {
    if count > 0 {
      assert Bump(alphabet, 0) == 1;
      DrawCountAtOne(alphabet, minLength, count - 1);
    }
  }

  lemma {:induction false} DrawCountAtOne(alphabet: string, minLength: nat, count: nat)
    requires count == 0 || |alphabet| > 0
    ensures DrawCount(alphabet, minLength, 1, count) == count * (minLength + 1)
    decreases count
  {
    if count > 0 {
      assert Bump(alphabet, 1) == 1;
      DrawCountAtOne(alphabet, minLength, count - 1);
    }
  }

  /** Two positions share a lowercase form exactly when a name repeats or two different names
      differ only in case. */
  lemma CaseClashIff(names: seq<string>)
    ensures CaseClash(names) <==> !Distinct(names) || CaseVariants(names)
  {
    if CaseClash(names) && Distinct(names) {
      var i, j :| 0 <= i < j < |names| && Lower(names[i]) == Lower(names[j]);
      assert names[i] != names[j];
    }
    if !Distinct(names) {
      var i, j :| 0 <= i < j < |names| && names[i] == names[j];
      assert Lower(names[i]) == Lower(names[j]);
    }
    if CaseVariants(names) {
      var a, b :| a in names && b in names && a != b && Lower(a) == Lower(b);
      var i :| 0 <= i < |names| && names[i] == a;
      var j :| 0 <= j < |names| && names[j] == b;
      if i < j {
        assert Lower(names[i]) == Lower(names[j]);
      } else {
        assert Lower(names[j]) == Lower(names[i]);
      }
    }
  }

  lemma ShuffleSameNames(names: seq<string>, g: Rng)
    ensures forall x :: x in Shuffle(names, g).0 <==> x in names
  {
    var s := Shuffle(names, g).0;
    ShuffleSameElements(names, g);
    forall x ensures x in s <==> x in names {
      if x in s {
        var i :| 0 <= i < |s| && s[i] == x;
      }
      if x in names {
        var i :| 0 <= i < |names| && names[i] == x;
      }
    }
  }

  /** Shuffling keeps the names, so it keeps their keys, their repeats and their case variants. */
  lemma ShufflePreservesKeys(names: seq<string>, g: Rng)
    ensures LowerSet(Shuffle(names, g).0) == LowerSet(names)
    ensures CaseClash(Shuffle(names, g).0) <==> CaseClash(names)
  {
    var s := Shuffle(names, g).0;
    ShuffleSameNames(names, g);
    ShuffleFromDistinct(names, |names|, g);
    CaseClashIff(s);
    CaseClashIff(names);
    assert CaseVariants(s) <==> CaseVariants(names);
  }

  /** The constructor fails exactly when two harvested names share a lowercase form, or the
      alphabet is empty and some name needs a character; on success the keys are the names'
      lowercase forms. */
  lemma BuildTableSucceedsIff(alphabet: string, minLength: nat, names: seq<string>, g: Rng)
    ensures BuildTable(alphabet, minLength, names, g).Success? <==>
              !CaseClash(names) && Drawable(alphabet, minLength, 0, |names|)
    ensures BuildTable(alphabet, minLength, names, g).Success? ==>
              BuildTable(alphabet, minLength, names, g).value.table.Keys == LowerSet(names)
    ensures |alphabet| > 0 && BuildTable(alphabet, minLength, names, g).Failure? ==>
              BuildTable(alphabet, minLength, names, g).error == DuplicateKey
  {
    var (s, g') := Shuffle(names, g);
    ShufflePreservesKeys(names, g);
    AllocateAllSucceedsIff(alphabet, minLength, s, Start(g'));
    if BuildTable(alphabet, minLength, names, g).Success? {
      AllocateAllKeys(alphabet, minLength, s, Start(g'));
    }
    if |alphabet| > 0 {
      AllocateAllDuplicateOnly(alphabet, minLength, s, Start(g'));
    }
  }

  /** The constructor with any integer minimum: it fails exactly when two names share a
      lowercase form and the minimum is not negative, or when some name cannot be drawn; a
      negative minimum with a name to draw fails before anything else. */
  lemma BuildTableFromSucceedsIff(alphabet: string, minLength: int, names: seq<string>, g: Rng)
    ensures BuildTableFrom(alphabet, minLength, names, g).Success? <==>
              !CaseClash(names) && Feasible(alphabet, minLength, |names|)
    ensures BuildTableFrom(alphabet, minLength, names, g).Success? ==>
              BuildTableFrom(alphabet, minLength, names, g).value.table.Keys == LowerSet(names)
    ensures minLength < 0 && |names| > 0 ==> BuildTableFrom(alphabet, minLength, names, g) == Failure(NegativeCount)
    ensures |alphabet| > 0 && minLength >= 0 && BuildTableFrom(alphabet, minLength, names, g).Failure? ==>
              BuildTableFrom(alphabet, minLength, names, g).error == DuplicateKey
  {
    if minLength >= 0 {
      BuildTableSucceedsIff(alphabet, minLength, names, g);
    } else if |names| == 0 {
      BuildTableSucceedsIff(alphabet, 0, names, g);
      assert !CaseClash(names);
    }
  }

  /** With a non-empty alphabet the only exception is the duplicate key. */
  lemma {:induction false} AllocateAllDuplicateOnly(alphabet: string, minLength: nat, names: seq<string>, st: Allocation)
    requires Valid(st) && |alphabet| > 0
    ensures AllocateAll(alphabet, minLength, names, st).Failure? ==>
              AllocateAll(alphabet, minLength, names, st).error == DuplicateKey
    decreases |names|
  {
    if |names| > 0 {
      var one := AllocateOne(alphabet, minLength, names[0], st);
      if one.Success? {
        AllocateAllDuplicateOnly(alphabet, minLength, names[1..], one.value);
      }
    }
  }

  /** In shuffled order, the first name gets minLength characters and every later one
      minLength + 1, all from the alphabet; the level ends at 1 once a name was drawn. */
  lemma BuildTableLengths(alphabet: string, minLength: nat, names: seq<string>, g: Rng)
    requires BuildTable(alphabet, minLength, names, g).Success?
    ensures var t := BuildTable(alphabet, minLength, names, g).value.table;
      var s := Shuffle(names, g).0;
      forall i | 0 <= i < |s| ::
        && Lower(s[i]) in t
        && |t[Lower(s[i])]| == minLength + (if i == 0 then 0 else 1)
        && forall c | c in t[Lower(s[i])] :: c in alphabet
    ensures BuildTable(alphabet, minLength, names, g).value.level == if |names| == 0 then 0 else 1
  {
    var (s, g') := Shuffle(names, g);
    AllocateAllLengths(alphabet, minLength, s, Start(g'));
    AllocateAllLevel(alphabet, minLength, s, Start(g'));
  }

  /** The shuffle's draws come first, bounds Count down to 2; then one draw per character of
      the new names, bound |alphabet|: |names| * (minLength + 1) - 1 of them, by
      DrawCountFromStart. */
  lemma BuildTableDraws(alphabet: string, minLength: nat, names: seq<string>, g: Rng)
    requires BuildTable(alphabet, minLength, names, g).Success?
    ensures var r := BuildTable(alphabet, minLength, names, g).value.rng;
      && r.draws == g.draws
      && r.requested == g.requested + Countdown(|names|)
                        + Repeat(|alphabet|, DrawCount(alphabet, minLength, 0, |names|))
  {
    var sh := Shuffle(names, g);
    AllocateAllDraws(alphabet, minLength, sh.0, Start(sh.1));
  }

  /** The generator whose every draw is 0, after the given requests. */
  function Zeros(requested: seq<nat>): Rng {
    Rng((i: nat, bound: nat) => 0, requested)
  }

  lemma ZerosNext(requested: seq<nat>, bound: nat)
    ensures Next(Zeros(requested), bound) == (0, Zeros(requested + [bound]))
  {
  }

  lemma ZerosShuffle()
    ensures Shuffle(["x", "y", "z"], Zeros([])) == (["y", "z", "x"], Zeros([3, 2]))
  {
    ZerosNext([], 3);
    ZerosNext([3], 2);
    assert [] + [3] == [3] && [3] + [2] == [3, 2];
    var a, b, c := ["x", "y", "z"], ["z", "y", "x"], ["y", "z", "x"];
    assert Swap(a, 0, 2) == b;
    assert Swap(b, 0, 1) == c;
    assert ShuffleFrom(c, 1, Zeros([3, 2])) == (c, Zeros([3, 2]));
    assert ShuffleFrom(b, 2, Zeros([3])) == ShuffleFrom(c, 1, Zeros([3, 2]));
    assert ShuffleFrom(a, 3, Zeros([])) == ShuffleFrom(b, 2, Zeros([3]));
  }

  /** n copies of 'a'. */
  function As(n: nat): string {
    if n == 0 then "" else ['a'] + As(n - 1)
  }

  /** With every draw 0, each character is the alphabet's first. */
  lemma {:induction false} ZerosDrawName(length: nat, requested: seq<nat>)
    ensures DrawName("ab", length, Zeros(requested)) == Success((As(length), Zeros(requested + Repeat(2, length))))
    decreases length
  {
    if length > 0 {
      ZerosNext(requested, 2);
      ZerosDrawName(length - 1, requested + [2]);
      RepeatAppend(2, 1, length - 1);
      assert requested + [2] + Repeat(2, length - 1) == requested + Repeat(2, length);
    }
  }

  /** The three allocations of TableNotInjective, one name each. */
  lemma ZerosAllocateFirst()
    ensures AllocateOne("ab", 1, "y", Start(Zeros([3, 2]))) ==
              Success(Allocation(map["y" := "a"], 1, [{}, {}], Zeros([3, 2, 2])))
  {
    ZerosDrawName(1, [3, 2]);
    assert As(1) == "a";
    assert [3, 2] + Repeat(2, 1) == [3, 2, 2];
    assert Lower("y") == "y";
    var empty: set<string> := {};
    assert [empty] + [empty] == [empty, empty];
    assert map[]["y" := "a"] == map["y" := "a"];
  }

  lemma ZerosAllocateSecond()
    ensures AllocateOne("ab", 1, "z", Allocation(map["y" := "a"], 1, [{}, {}], Zeros([3, 2, 2]))) ==
              Success(Allocation(map["y" := "a", "z" := "aa"], 1, [{}, {}], Zeros([3, 2, 2, 2, 2])))
  {
    ZerosDrawName(2, [3, 2, 2]);
    assert As(2) == "aa";
    assert [3, 2, 2] + Repeat(2, 2) == [3, 2, 2, 2, 2];
    assert Lower("z") == "z";
  }

  lemma ZerosAllocateThird()
    ensures AllocateOne("ab", 1, "x", Allocation(map["y" := "a", "z" := "aa"], 1, [{}, {}], Zeros([3, 2, 2, 2, 2]))) ==
              Success(Allocation(map["y" := "a", "z" := "aa", "x" := "aa"], 1, [{}, {}], Zeros([3, 2, 2, 2, 2, 2, 2])))
  {
    ZerosDrawName(2, [3, 2, 2, 2, 2]);
    assert As(2) == "aa";
    assert [3, 2, 2, 2, 2] + Repeat(2, 2) == [3, 2, 2, 2, 2, 2, 2];
    assert Lower("x") == "x";
  }

  /** The three allocations in a row. */
  lemma ZerosAllocateAll()
    ensures AllocateAll("ab", 1, ["y", "z", "x"], Start(Zeros([3, 2]))) ==
              Success(Allocation(map["y" := "a", "z" := "aa", "x" := "aa"], 1, [{}, {}], Zeros([3, 2, 2, 2, 2, 2, 2])))
  {
    ZerosAllocateFirst();
    ZerosAllocateSecond();
    ZerosAllocateThird();
    var st1 := Allocation(map["y" := "a"], 1, [{}, {}], Zeros([3, 2, 2]));
    var st2 := Allocation(map["y" := "a", "z" := "aa"], 1, [{}, {}], Zeros([3, 2, 2, 2, 2]));
    var st3 := Allocation(map["y" := "a", "z" := "aa", "x" := "aa"], 1, [{}, {}], Zeros([3, 2, 2, 2, 2, 2, 2]));
    assert ["y", "z", "x"][1..] == ["z", "x"] && ["z", "x"][1..] == ["x"] && ["x"][1..] == [];
    AllocateStep("ab", 1, ["x"], st2, st3);
    AllocateStep("ab", 1, ["z", "x"], st1, st2);
    AllocateStep("ab", 1, ["y", "z", "x"], Start(Zeros([3, 2])), st1);
    assert AllocateAll("ab", 1, [], st3) == Success(st3);
  }

  /** Nothing keeps the new names apart: with every draw 0, alphabet "ab" and minLength 1, the
      names x, y, z are shuffled to y, z, x, and z and x both become "aa". */
  lemma TableNotInjective()
    ensures var t := BuildTable("ab", 1, ["x", "y", "z"], Zeros([]));
      t.Success? && t.value.table == map["y" := "a", "z" := "aa", "x" := "aa"]
  {
    ZerosShuffle();
    ZerosAllocateAll();
  }

  lemma AllocateStep(alphabet: string, minLength: nat, names: seq<string>, st: Allocation, st': Allocation)
    requires |names| > 0 && Valid(st)
    requires AllocateOne(alphabet, minLength, names[0], st) == Success(st')
    ensures AllocateAll(alphabet, minLength, names, st) == AllocateAll(alphabet, minLength, names[1..], st')
  {
  }
}
