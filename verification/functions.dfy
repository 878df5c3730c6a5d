/** RandomFunctionName: harvest the names of the function definitions a read-only walk meets
    (without entering them), build a name table from them, and rewrite definitions and
    matching string constants through the table with a copy walk. */
module RandomFunctionName {
  import opened Wrappers
  import opened Syntax
  import opened Text
  import opened Traversal
  import opened Random
  import opened Shuffling
  import opened CopyWalk
  import opened CopyLaws
  import opened Harvest
  import opened NameTable
  import opened NameTableLaws

  /** The constructor's default minimum name length. */
  const DefaultMinLength: nat := 1

  /** The _ListVisitor overrides VisitFunctionDefinition only, and returns without visiting
      the body or the parameters. */
  predicate IsFunctionDefinition(m: Ast) {
    m.head.FunctionDefinition?
  }

  function FunctionNaming(): Ast -> Option<string> {
    (m: Ast) => if m.head.FunctionDefinition? then Some(m.head.name) else None
  }

  /** `firstPass.GetFunctionNameList()` after `ast.Visit(firstPass)`. */
  function FunctionList(n: Ast): seq<string> {
    Collect(IsFunctionDefinition, FunctionNaming(), n)
  }

  /** The definitions the harvest sees: those reached without passing through another
      definition. */
  predicate OuterDefinition(n: Ast, m: Ast) {
    m in Reach(n, IsFunctionDefinition) && m.head.FunctionDefinition?
  }

  /** The harvest holds the name of every outer definition, once, spelled as written
      (`global:` prefix included), and nothing else. */
  lemma FunctionListIff(n: Ast, x: string)
    ensures Distinct(FunctionList(n))
    ensures x in FunctionList(n) <==> exists m | OuterDefinition(n, m) :: m.head.name == x
  {
    var naming := FunctionNaming();
    CollectFound(IsFunctionDefinition, naming, n);
    if x in Found(IsFunctionDefinition, naming, n) {
      var m :| m in Reach(n, IsFunctionDefinition) && IsFunctionDefinition(m) && naming(m) == Some(x);
      assert OuterDefinition(n, m);
    }
    if exists m | OuterDefinition(n, m) :: m.head.name == x {
      var m :| OuterDefinition(n, m) && m.head.name == x;
      assert naming(m) == Some(x);
    }
  }

  /** The dictionary the _AlterVisitor constructor leaves behind; there is no blacklist. */
  function FunctionTable(alphabet: string, minLength: int, names: seq<string>, g: Rng): (r: Result<map<string, string>>)
    ensures r.Failure? ==> r.error == IndexOutOfRange || r.error == DuplicateKey || r.error == NegativeCount
  {
    var st :- BuildTableFrom(alphabet, minLength, names, g);
    Success(st.table)
  }

  /** `new RandomFunctionName(alphabet, minLength).Obfuscate(seed, ast)`. */
  function Obfuscate(seeds: int -> Draws, alphabet: string, minLength: int, seed: int, n: Ast): (r: Result<Ast>)
    ensures r.Success? ==> r.value.extent == n.extent
  {
    var table :- FunctionTable(alphabet, minLength, FunctionList(n), Seeded(seeds, seed));
    Copy(AlterFunctions(table), n)
  }

  /** A definition anywhere in the tree whose lowercase name the harvest does not supply. */
  predicate UnharvestedDefinition(n: Ast, m: Ast) {
    m.head.FunctionDefinition? && Lower(m.head.name) !in LowerSet(FunctionList(n))
  }

  /** Obfuscate fails exactly when two outer definitions' names differ only by case, when some
      name cannot be drawn (an empty alphabet, or a negative minimum length), when some
      definition of the tree (one nested in another definition) has a name no outer definition
      has, up to case, or when the rebuilt tree would adopt a catch type or an error node that
      already has a parent. */
  lemma ObfuscateFailsIff(seeds: int -> Draws, alphabet: string, minLength: int, seed: int, n: Ast)
    ensures var names := FunctionList(n);
      Obfuscate(seeds, alphabet, minLength, seed, n).Failure? <==>
        || CaseVariants(names)
        || !Feasible(alphabet, minLength, |names|)
        || (exists m | m in Reach(n, Everywhere) :: UnharvestedDefinition(n, m))
        || !Adoptable(n)
    ensures var r := Obfuscate(seeds, alphabet, minLength, seed, n);
      minLength < 0 && |FunctionList(n)| > 0 ==> r == Failure(NegativeCount)
    ensures var r := Obfuscate(seeds, alphabet, minLength, seed, n);
      r.Failure? && |alphabet| > 0 && minLength >= 0 ==>
        r.error == DuplicateKey || r.error == FunctionNotGenerated || r.error == AstIsReused
  {
    var names := FunctionList(n);
    var g := Seeded(seeds, seed);
    FunctionListIff(n, "");
    CaseClashIff(names);
    BuildTableFromSucceedsIff(alphabet, minLength, names, g);
    var ft := FunctionTable(alphabet, minLength, names, g);
    if ft.Success? {
      var rw := AlterFunctions(ft.value);
      CopySucceedsIff(rw, n);
      if exists m | m in Reach(n, Everywhere) :: UnharvestedDefinition(n, m) {
        var m :| m in Reach(n, Everywhere) && UnharvestedDefinition(n, m);
        assert !KnownName(rw, m);
      }
      if !AllKnown(rw, n) {
        var m :| m in Reach(n, Everywhere) && !KnownName(rw, m);
        assert UnharvestedDefinition(n, m);
      }
      if Copy(rw, n).Failure? {
        assert CopyError(rw, Copy(rw, n).error);
      }
    }
  }

  /** A function defined inside another function's body: `function f { function g {} }`. */
  function Inner(e: Extent): Ast {
    Node(e, FunctionDefinition(false, false, "g"), [One(None), Many(Absent)])
  }

  function Nested(e: Extent): Ast {
    Node(e, FunctionDefinition(false, false, "f"), [One(Some(Inner(e))), Many(Absent)])
  }

  /** The harvest stops at f and never sees g. */
  lemma NestedHarvest(e: Extent)
    ensures FunctionList(Nested(e)) == ["f"]
    ensures Inner(e) in Reach(Nested(e), Everywhere)
  {
    var n := Nested(e);
    var v := Collector(IsFunctionDefinition, FunctionNaming());
    assert FunctionNaming()(n) == Some("f");
    assert v(n, []) == Some(Add([], Some("f")));
    assert FunctionList(n) == Walk(v, n, []) == Add([], Some("f"));
    assert PassChildren(n) == [Inner(e)] by {
      Flatten2(n.slots[0], n.slots[1]);
      assert n.slots == [n.slots[0], n.slots[1]];
    }
    ReachUnfold(n, Everywhere, Inner(e));
  }

  /** With a table that knows f and not g, the copy of the script throws on g. */
  lemma NestedCopyFails(table: map<string, string>, e: Extent)
    requires "f" in table && "g" !in table
    ensures Copy(AlterFunctions(table), Nested(e)) == Failure(FunctionNotGenerated)
  {
    var n := Nested(e);
    var rw := AlterFunctions(table);
    assert Lower("f") == "f" && Lower("g") == "g";
    assert KnownName(rw, n) && !KnownName(rw, Inner(e));
    assert PassChildren(n) == [Inner(e)] by {
      Flatten2(n.slots[0], n.slots[1]);
      assert n.slots == [n.slots[0], n.slots[1]];
    }
    assert CopyChildren(n) == [Inner(e)];
    assert Copies(rw, n, [Inner(e)]) == [Failure(FunctionNotGenerated)];
    assert CopyAll(rw, n, CopyChildren(n)) == Failure(FunctionNotGenerated);
  }

  /** The table drawn for the single name f has the one key f. */
  lemma NestedTable(seeds: int -> Draws, alphabet: string, minLength: nat, seed: int)
    requires |alphabet| > 0
    ensures var t := FunctionTable(alphabet, minLength, ["f"], Seeded(seeds, seed));
      t.Success? && t.value.Keys == {"f"}
  {
    var g := Seeded(seeds, seed);
    assert LowerSet(["f"]) == {"f"} by {
      assert Lower("f") == "f";
    }
    assert !CaseClash(["f"]) && Feasible(alphabet, minLength, 1);
    BuildTableFromSucceedsIff(alphabet, minLength, ["f"], g);
    var b := BuildTableFrom(alphabet, minLength, ["f"], g);
    assert b.Success? && b.value.table.Keys == {"f"};
    assert FunctionTable(alphabet, minLength, ["f"], g) == Success(b.value.table);
  }

  /** So the rewrite throws on g, whatever the seed. */
  lemma NestedDefinitionFails(seeds: int -> Draws, alphabet: string, minLength: nat, seed: int, e: Extent)
    requires |alphabet| > 0
    ensures Obfuscate(seeds, alphabet, minLength, seed, Nested(e)) == Failure(FunctionNotGenerated)
  {
    NestedHarvest(e);
    NestedTable(seeds, alphabet, minLength, seed);
    NestedCopyFails(FunctionTable(alphabet, minLength, ["f"], Seeded(seeds, seed)).value, e);
  }

  /** The output is the plain copy of the input with every definition name and every string
      constant naming a harvested function renamed through the table, and nothing else
      changed. */
  lemma ObfuscateRenames(seeds: int -> Draws, alphabet: string, minLength: int, seed: int, n: Ast)
    requires Obfuscate(seeds, alphabet, minLength, seed, n).Success?
    ensures Copy(BaseCopy, n).Success?
    ensures var t := FunctionTable(alphabet, minLength, FunctionList(n), Seeded(seeds, seed));
      && t.Success?
      && Obfuscate(seeds, alphabet, minLength, seed, n).value ==
           MapHeads(h => RelabelHead(AlterFunctions(t.value), h), Copy(BaseCopy, n).value)
  {
    var t := FunctionTable(alphabet, minLength, FunctionList(n), Seeded(seeds, seed)).value;
    CopySucceedsIff(AlterFunctions(t), n);
    CopySucceedsIff(BaseCopy, n);
    CopyFactors(AlterFunctions(t), n);
  }

  /** A string constant is renamed exactly when its lowercase value is a key, by the rule a
      definition name follows; it keeps its quoting kind either way. */
  lemma StringConstantRule(table: map<string, string>, value: string, kind: StringConstantType)
    ensures var r := RelabelHead(AlterFunctions(table), StringConstantExpression(value, kind));
      && r.StringConstantExpression? && r.stringConstantType == kind
      && (Lower(value) !in table ==> r == StringConstantExpression(value, kind))
      && (Lower(value) in table && StartsWith(value, GlobalPrefix) ==>
            StartsWith(r.value, GlobalPrefix) && r.value[|GlobalPrefix|..] == table[Lower(value)])
      && (Lower(value) in table && !StartsWith(value, GlobalPrefix) ==> r.value == table[Lower(value)])
  {
  }
}
