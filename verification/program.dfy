/** The fixed composition the command-line driver applies to a parsed script: variable
    renaming, then function renaming, both over the lowercase Latin alphabet with the default
    minimum length and the same seed. */
module Pipeline {
  import opened Wrappers
  import opened Syntax
  import opened Random
  import opened CopyWalk
  import opened CopyLaws
  import Variables = RandomVariableName
  import Functions = RandomFunctionName

  const Alphabet: string := "abcdefghijklmnopqrstuvwxyz"

  function Obfuscate(isConstant: string -> bool, seeds: int -> Draws, seed: int, n: Ast): (r: Result<Ast>)
    ensures r.Success? ==> r.value.extent == n.extent
  {
    var v :- Variables.Obfuscate(isConstant, seeds, Alphabet, Variables.DefaultMinLength, seed, n);
    Functions.Obfuscate(seeds, Alphabet, Functions.DefaultMinLength, seed, v)
  }

  /** A head with every identifier either pass may replace blanked out. */
  function EraseNames(h: Head): (r: Head)
    ensures r == Erase(AlterFunctions(map[]), Erase(AlterVariables(map[]), h))
  {
    if h.VariableExpression? then VariableExpression("", h.splatted)
    else if h.FunctionDefinition? then FunctionDefinition(h.isFilter, h.isWorkflow, "")
    else if h.StringConstantExpression? then StringConstantExpression("", h.stringConstantType)
    else h
  }

  /** Erasing the names undoes a variable renaming. */
  lemma EraseVariableRenaming(t: map<string, string>, y: Ast)
    ensures MapHeads(EraseNames, MapHeads(h => RelabelHead(AlterVariables(t), h), y)) == MapHeads(EraseNames, y)
  {
    forall h ensures EraseNames(RelabelHead(AlterVariables(t), h)) == EraseNames(h) {
      assert Erase(AlterVariables(t), RelabelHead(AlterVariables(t), h)) == Erase(AlterVariables(t), h);
    }
    MapHeadsAbsorb(EraseNames, h => RelabelHead(AlterVariables(t), h), y);
  }

  /** Erasing the names undoes a function renaming. */
  lemma EraseFunctionRenaming(t: map<string, string>, y: Ast)
    ensures MapHeads(EraseNames, MapHeads(h => RelabelHead(AlterFunctions(t), h), y)) == MapHeads(EraseNames, y)
  {
    forall h ensures EraseNames(RelabelHead(AlterFunctions(t), h)) == EraseNames(h) {
      assert Erase(AlterFunctions(t), RelabelHead(AlterFunctions(t), h)) == Erase(AlterFunctions(t), h);
    }
    MapHeadsAbsorb(EraseNames, h => RelabelHead(AlterFunctions(t), h), y);
  }

  /** Neither pass changes anything but variable paths, function names and string constants
      naming a function, apart from the plain copy's normalisation (foreach flags reset,
      null collections made empty). */
  lemma ObfuscateChangesOnlyNames(isConstant: string -> bool, seeds: int -> Draws, seed: int, n: Ast)
    requires Obfuscate(isConstant, seeds, seed, n).Success?
    ensures Copy(BaseCopy, n).Success?
    ensures MapHeads(EraseNames, Obfuscate(isConstant, seeds, seed, n).value) == MapHeads(EraseNames, Copy(BaseCopy, n).value)
  {
    var rv := Variables.Obfuscate(isConstant, seeds, Alphabet, Variables.DefaultMinLength, seed, n);
    var v := rv.value;
    var rf := Functions.Obfuscate(seeds, Alphabet, Functions.DefaultMinLength, seed, v);
    assert Obfuscate(isConstant, seeds, seed, n) == rf;
    Variables.ObfuscateRenames(isConstant, seeds, Alphabet, Variables.DefaultMinLength, seed, n);
    Functions.ObfuscateRenames(seeds, Alphabet, Functions.DefaultMinLength, seed, v);
    var tv := Variables.VariableTable(Alphabet, Variables.DefaultMinLength, Variables.VariableList(isConstant, n), Seeded(seeds, seed)).value;
    var tf := Functions.FunctionTable(Alphabet, Functions.DefaultMinLength, Functions.FunctionList(v), Seeded(seeds, seed)).value;
    var b := Copy(BaseCopy, n).value;
    CopyIsNormal(AlterVariables(tv), n, v);
    CopyNormalIdentity(v);
    EraseFunctionRenaming(tf, v);
    EraseVariableRenaming(tv, b);
  }
}
