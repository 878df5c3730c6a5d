/** RandomVariableName: harvest the variable paths of a script block with a read-only walk,
    build a name table from them (shuffle, draw, then force the blacklist), and rewrite every
    variable through the table with a copy walk. */
module RandomVariableName {
  import opened Wrappers
  import opened Syntax
  import opened Text
  import opened Traversal
  import opened Random
  import opened Shuffling
  import opened CopyWalk
  import opened CopyLaws
  import opened Harvest
  import opened NameTable
  import opened NameTableLaws

  /** The constructor's default minimum name length. */
  const DefaultMinLength: nat := 1

  /** The _ListVisitor overrides VisitVariableExpression only. */
  predicate IsVariable(m: Ast) {
    m.head.VariableExpression?
  }

  /** The path a variable contributes: its UserPath, unless IsConstantVariable holds of it
      (`$true`, `$false`, `$null`; the test itself lives in the parser library and is a
      parameter here). */
  function VariableNaming(isConstant: string -> bool): Ast -> Option<string> {
    (m: Ast) => if m.head.VariableExpression? && !isConstant(m.head.userPath) then Some(m.head.userPath) else None
  }

  /** `firstPass.GetVariableNameList()` after `ast.Visit(firstPass)`. */
  function VariableList(isConstant: string -> bool, n: Ast): seq<string> {
    Collect(IsVariable, VariableNaming(isConstant), n)
  }

  /** The variable that harvests `x`: a non-constant variable whose path is exactly `x`. */
  predicate HarvestedAs(isConstant: string -> bool, m: Ast, x: string) {
    m.head.VariableExpression? && !isConstant(m.head.userPath) && m.head.userPath == x
  }

  /** The harvest holds every non-constant variable path of the tree, once, spelled as in the
      tree (so `$Foo` and `$foo` give two entries), and nothing else. */
  lemma VariableListIff(isConstant: string -> bool, n: Ast, x: string)
    requires WellFormed(n)
    ensures Distinct(VariableList(isConstant, n))
    ensures x in VariableList(isConstant, n) <==> exists m | m in Reach(n, Everywhere) :: HarvestedAs(isConstant, m, x)
  {
    var naming := VariableNaming(isConstant);
    CollectFound(IsVariable, naming, n);
    forall k | k in Reach(n, Everywhere) && IsVariable(k) ensures PassChildren(k) == [] {
      LeafKindsVisitNothing(k);
    }
    if x in Found(IsVariable, naming, n) {
      var m :| m in Reach(n, IsVariable) && IsVariable(m) && naming(m) == Some(x);
      ReachStopAtLeaves(n, IsVariable, m);
      assert HarvestedAs(isConstant, m, x);
    }
    if exists m | m in Reach(n, Everywhere) :: HarvestedAs(isConstant, m, x) {
      var m :| m in Reach(n, Everywhere) && HarvestedAs(isConstant, m, x);
      ReachStopAtLeaves(n, IsVariable, m);
      assert naming(m) == Some(x);
    }
  }

  /** The spellings the constructor maps to themselves after generating the table. */
  const Blacklist: seq<string> := ["args", "true", "false", "ErrorActionPreference"]

  /** The blacklist loop stores each spelling under its lowercase key by indexer
      assignment, which overwrites a generated entry instead of throwing. A later entry
      wins over an earlier one with the same lowercase form. */
  function ForceNames(table: map<string, string>, names: seq<string>): (r: map<string, string>)
    ensures r.Keys == table.Keys + LowerSet(names)
    decreases |names|
  {
    if |names| == 0 then table
    else
      var r := ForceNames(table[Lower(names[0]) := names[0]], names[1..]);
      assert LowerSet(names) == {Lower(names[0])} + LowerSet(names[1..]) by {
        assert forall x | x in names :: x == names[0] || x in names[1..];
      }
      r
  }

  /** Keys the names do not touch keep their entries; a name whose lowercase form no later
      name shares ends up as its own entry. */
  lemma ForceNamesEntries(table: map<string, string>, names: seq<string>)
    ensures var r := ForceNames(table, names);
      && (forall k | k in table && k !in LowerSet(names) :: r[k] == table[k])
      && (forall i | 0 <= i < |names| && (forall j | i < j < |names| :: Lower(names[j]) != Lower(names[i])) ::
            r[Lower(names[i])] == names[i])
  {
    ForceNamesOthers(table, names);
    ForceNamesLast(table, names);
  }

  lemma {:induction false} ForceNamesOthers(table: map<string, string>, names: seq<string>)
    ensures forall k | k in table && k !in LowerSet(names) :: ForceNames(table, names)[k] == table[k]
    decreases |names|
  {
    if |names| > 0 {
      var t := table[Lower(names[0]) := names[0]];
      ForceNamesOthers(t, names[1..]);
      assert LowerSet(names) == {Lower(names[0])} + LowerSet(names[1..]) by {
        assert forall x | x in names :: x == names[0] || x in names[1..];
      }
      forall k | k in table && k !in LowerSet(names) ensures ForceNames(table, names)[k] == table[k] {
        assert k in t && k !in LowerSet(names[1..]);
      }
    }
  }

  lemma {:induction false} ForceNamesLast(table: map<string, string>, names: seq<string>)
    ensures forall i | 0 <= i < |names| && (forall j | i < j < |names| :: Lower(names[j]) != Lower(names[i])) ::
              ForceNames(table, names)[Lower(names[i])] == names[i]
    decreases |names|
  {
    if |names| > 0 {
      var t := table[Lower(names[0]) := names[0]];
      var r := ForceNames(t, names[1..]);
      assert ForceNames(table, names) == r;
      ForceNamesLast(t, names[1..]);
      forall i | 0 <= i < |names| && (forall j | i < j < |names| :: Lower(names[j]) != Lower(names[i]))
        ensures r[Lower(names[i])] == names[i]
      {
        if i == 0 {
          forall x | x in names[1..] ensures Lower(x) != Lower(names[0]) {
            var j :| 0 <= j < |names[1..]| && names[1..][j] == x;
            assert names[j + 1] == x;
          }
          assert Lower(names[0]) !in LowerSet(names[1..]);
          ForceNamesOthers(t, names[1..]);
        } else {
          assert names[i] == names[1..][i - 1];
          forall j | i - 1 < j < |names[1..]| ensures Lower(names[1..][j]) != Lower(names[1..][i - 1]) {
            assert names[1..][j] == names[j + 1];
          }
        }
      }
    }
  }

  /** The dictionary the _AlterVisitor constructor leaves behind. */
  function VariableTable(alphabet: string, minLength: int, names: seq<string>, g: Rng): (r: Result<map<string, string>>)
    ensures r.Failure? ==> r.error == IndexOutOfRange || r.error == DuplicateKey || r.error == NegativeCount
  {
    var st :- BuildTableFrom(alphabet, minLength, names, g);
    Success(ForceNames(st.table, Blacklist))
  }

  /** The lowercase forms of the blacklist. */
  lemma BlacklistKeys()
    ensures LowerSet(Blacklist) == {"args", "true", "false", "erroractionpreference"}
    ensures forall i | 0 <= i < |Blacklist| :: forall j | i < j < |Blacklist| :: Lower(Blacklist[j]) != Lower(Blacklist[i])
  {
    BlacklistLower();
    assert forall x | x in Blacklist :: x == Blacklist[0] || x == Blacklist[1] || x == Blacklist[2] || x == Blacklist[3];
  }

  /** Forcing the blacklist adds its four lowercase keys, maps each to its own spelling and
      leaves every other key alone. */
  lemma BlacklistForced(table: map<string, string>)
    ensures var t := ForceNames(table, Blacklist);
      && t.Keys == table.Keys + {"args", "true", "false", "erroractionpreference"}
      && "args" in t && t["args"] == "args"
      && "true" in t && t["true"] == "true"
      && "false" in t && t["false"] == "false"
      && "erroractionpreference" in t && t["erroractionpreference"] == "ErrorActionPreference"
      && forall k | k in table && k !in LowerSet(Blacklist) :: t[k] == table[k]
  {
    var t := ForceNames(table, Blacklist);
    BlacklistKeys();
    ForceNamesEntries(table, Blacklist);
    BlacklistLower();
    assert t[Lower(Blacklist[0])] == Blacklist[0];
    assert t[Lower(Blacklist[1])] == Blacklist[1];
    assert t[Lower(Blacklist[2])] == Blacklist[2];
    assert t[Lower(Blacklist[3])] == Blacklist[3];
  }

  lemma BlacklistLower()
    ensures Lower(Blacklist[0]) == "args" && Lower(Blacklist[1]) == "true"
    ensures Lower(Blacklist[2]) == "false" && Lower(Blacklist[3]) == "erroractionpreference"
  {
    assert Lower("args") == "args" && Lower("true") == "true" && Lower("false") == "false";
    assert Lower("ErrorActionPreference") == "erroractionpreference";
  }

  /** The table succeeds exactly when the name table does, and then its keys are the
      harvested names and the blacklist, lowercased. */
  lemma VariableTableIff(alphabet: string, minLength: int, names: seq<string>, g: Rng)
    ensures VariableTable(alphabet, minLength, names, g).Success? <==> BuildTableFrom(alphabet, minLength, names, g).Success?
    ensures VariableTable(alphabet, minLength, names, g).Success? ==>
              VariableTable(alphabet, minLength, names, g).value.Keys == LowerSet(names) + LowerSet(Blacklist)
  {
    BuildTableFromSucceedsIff(alphabet, minLength, names, g);
    BlacklistKeys();
  }

  /** `new RandomVariableName(alphabet, minLength).Obfuscate(seed, ast)`: the table is built
      from the harvest of the very tree it then rewrites. `seeds` stands for System.Random's
      seeding. */
  function Obfuscate(isConstant: string -> bool, seeds: int -> Draws, alphabet: string, minLength: int, seed: int, n: Ast): (r: Result<Ast>)
    ensures r.Success? ==> r.value.extent == n.extent
  {
    var table :- VariableTable(alphabet, minLength, VariableList(isConstant, n), Seeded(seeds, seed));
    Copy(AlterVariables(table), n)
  }

  /** A constant variable the table cannot rename: its lowercase path is neither a harvested
      name nor blacklisted. (`$null` is the usual one.) */
  predicate StrayConstant(isConstant: string -> bool, n: Ast, m: Ast) {
    && m.head.VariableExpression? && isConstant(m.head.userPath)
    && Lower(m.head.userPath) !in LowerSet(VariableList(isConstant, n)) + LowerSet(Blacklist)
  }

  /** Obfuscate fails exactly when two harvested paths differ only by case, when some name
      cannot be drawn (an empty alphabet, or a negative minimum length), when a constant
      variable is neither harvested nor blacklisted, or when the rebuilt tree would adopt a
      catch type or an error node that already has a parent. */
  lemma ObfuscateFailsIff(isConstant: string -> bool, seeds: int -> Draws, alphabet: string, minLength: int, seed: int, n: Ast)
    requires WellFormed(n)
    ensures var names := VariableList(isConstant, n);
      Obfuscate(isConstant, seeds, alphabet, minLength, seed, n).Failure? <==>
        || CaseVariants(names)
        || !Feasible(alphabet, minLength, |names|)
        || (exists m | m in Reach(n, Everywhere) :: StrayConstant(isConstant, n, m))
        || !Adoptable(n)
    ensures var r := Obfuscate(isConstant, seeds, alphabet, minLength, seed, n);
      minLength < 0 && |VariableList(isConstant, n)| > 0 ==> r == Failure(NegativeCount)
    ensures var r := Obfuscate(isConstant, seeds, alphabet, minLength, seed, n);
      r.Failure? && |alphabet| > 0 && minLength >= 0 ==>
        r.error == DuplicateKey || r.error == VariableNotGenerated || r.error == AstIsReused
  {
    var names := VariableList(isConstant, n);
    var g := Seeded(seeds, seed);
    VariableListIff(isConstant, n, "");
    CaseClashIff(names);
    BuildTableFromSucceedsIff(alphabet, minLength, names, g);
    VariableTableIff(alphabet, minLength, names, g);
    var vt := VariableTable(alphabet, minLength, names, g);
    if vt.Success? {
      var rw := AlterVariables(vt.value);
      CopySucceedsIff(rw, n);
      if exists m | m in Reach(n, Everywhere) :: StrayConstant(isConstant, n, m) {
        var m :| m in Reach(n, Everywhere) && StrayConstant(isConstant, n, m);
        assert !KnownName(rw, m);
      }
      forall m | m in Reach(n, Everywhere) && m.head.VariableExpression? && !isConstant(m.head.userPath)
        ensures KnownName(rw, m)
      {
        VariableListIff(isConstant, n, m.head.userPath);
        assert HarvestedAs(isConstant, m, m.head.userPath);
        assert Lower(m.head.userPath) in LowerSet(names);
      }
      if !AllKnown(rw, n) {
        var m :| m in Reach(n, Everywhere) && !KnownName(rw, m);
        assert StrayConstant(isConstant, n, m);
      }
      if Copy(rw, n).Failure? {
        assert CopyError(rw, Copy(rw, n).error);
      }
    }
  }

  /** The output is the plain copy of the input with every variable path renamed through the
      table, and nothing else changed: blank the paths out and it is the plain copy. */
  lemma ObfuscateRenames(isConstant: string -> bool, seeds: int -> Draws, alphabet: string, minLength: int, seed: int, n: Ast)
    requires Obfuscate(isConstant, seeds, alphabet, minLength, seed, n).Success?
    ensures Copy(BaseCopy, n).Success?
    ensures var t := VariableTable(alphabet, minLength, VariableList(isConstant, n), Seeded(seeds, seed));
      && t.Success?
      && Obfuscate(isConstant, seeds, alphabet, minLength, seed, n).value ==
           MapHeads(h => RelabelHead(AlterVariables(t.value), h), Copy(BaseCopy, n).value)
    ensures var x := Obfuscate(isConstant, seeds, alphabet, minLength, seed, n).value;
      MapHeads(h => Erase(AlterVariables(map[]), h), x) == MapHeads(h => Erase(AlterVariables(map[]), h), Copy(BaseCopy, n).value)
  {
    var t := VariableTable(alphabet, minLength, VariableList(isConstant, n), Seeded(seeds, seed)).value;
    var rw := AlterVariables(t);
    var x := Copy(rw, n).value;
    CopySucceedsIff(rw, n);
    CopySucceedsIff(BaseCopy, n);
    CopyFactors(rw, n);
    CopyChangesOnlyNames(rw, n, x);
    var e1 := h => Erase(rw, h);
    var e2 := h => Erase(AlterVariables(map[]), h);
    EraseIgnoresTable(e1, e2, x);
    EraseIgnoresTable(e1, e2, Copy(BaseCopy, n).value);
  }

  /** Erasure does not look at the table. */
  lemma {:induction false} EraseIgnoresTable(e1: Head -> Head, e2: Head -> Head, x: Ast)
    requires forall h :: e1(h) == e2(h)
    ensures MapHeads(e1, x) == MapHeads(e2, x)
    decreases x
  {
    forall c | c in PassChildren(x) {
      EraseIgnoresTable(e1, e2, c);
    }
    var f1 := c => if c in PassChildren(x) then MapHeads(e1, c) else c;
    var f2 := c => if c in PassChildren(x) then MapHeads(e2, c) else c;
    var id := (c: Ast) => c;
    MapSlotsCompose(f1, id, f2, x.slots);
    MapSlotsFix(id, MapSlots(f1, x.slots));
  }
}
