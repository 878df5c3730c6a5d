/** The two _ListVisitor classes share one shape: a read-only walk that overrides the Visit
    method of a single node kind, records that node's name in a HashSet<string> (when it
    qualifies) and returns the node without visiting its children. Every other kind is left
    to BasePassthroughCustomAstVisitor. */
module Harvest {
  import opened Wrappers
  import opened Syntax
  import opened Traversal
  import opened Shuffling

  /** Adding a name to the hash set when it is not there yet, the set kept as the list
      ToList returns: a name is appended the first time only. */
  function Add(acc: seq<string>, naming: Option<string>): (r: seq<string>)
    ensures Distinct(acc) ==> Distinct(r)
    ensures forall y :: y in r <==> y in acc || naming == Some(y)
    ensures acc <= r
  {
    if naming.Some? && naming.value !in acc then acc + [naming.value] else acc
  }

  /** The overriding visit: on a node where `stop` holds, record its name (if any) and stop;
      on any other node, run the inherited base method. */
  function Collector(stop: Ast -> bool, naming: Ast -> Option<string>): (Ast, seq<string>) -> Option<seq<string>> {
    (m: Ast, acc: seq<string>) => if stop(m) then Some(Add(acc, naming(m))) else None
  }

  /** The list after `ast.Visit(firstPass)` from an empty set. */
  function Collect(stop: Ast -> bool, naming: Ast -> Option<string>, n: Ast): seq<string> {
    Walk(Collector(stop, naming), n, [])
  }

  /** The labels of the stopping nodes the walk reaches: the reference the harvest meets. */
  function Found(stop: Ast -> bool, naming: Ast -> Option<string>, n: Ast): set<string> {
    set m | m in Reach(n, stop) && stop(m) && naming(m).Some? :: naming(m).value
  }

  lemma FoundUnfold(stop: Ast -> bool, naming: Ast -> Option<string>, n: Ast, x: string)
    ensures x in Found(stop, naming, n) <==>
              (stop(n) && naming(n) == Some(x)) ||
              (!stop(n) && exists c | c in PassChildren(n) :: x in Found(stop, naming, c))
  {
    if x in Found(stop, naming, n) {
      var m :| m in Reach(n, stop) && stop(m) && naming(m) == Some(x);
      ReachUnfold(n, stop, m);
      if m != n {
        var c :| c in PassChildren(n) && m in Reach(c, stop);
        assert x in Found(stop, naming, c);
      }
    }
    if !stop(n) && exists c | c in PassChildren(n) :: x in Found(stop, naming, c) {
      var c :| c in PassChildren(n) && x in Found(stop, naming, c);
      var m :| m in Reach(c, stop) && stop(m) && naming(m) == Some(x);
      ReachUnfold(n, stop, m);
    }
  }

  /** From any list without repeats, the walk appends exactly the labels it finds, once each. */
  lemma {:induction false} CollectWalk(stop: Ast -> bool, naming: Ast -> Option<string>, n: Ast, acc: seq<string>)
    requires Distinct(acc)
    ensures Distinct(Walk(Collector(stop, naming), n, acc))
    ensures forall x :: x in Walk(Collector(stop, naming), n, acc) <==> x in acc || x in Found(stop, naming, n)
    decreases n, 1
  {
    var r := Walk(Collector(stop, naming), n, acc);
    if stop(n) {
      assert r == Add(acc, naming(n));
      forall x ensures x in r <==> x in acc || x in Found(stop, naming, n) {
        FoundUnfold(stop, naming, n, x);
      }
    } else {
      var cs := PassChildren(n);
      assert r == WalkAll(Collector(stop, naming), n, cs, acc);
      CollectWalkAll(stop, naming, n, cs, acc);
      forall x ensures x in r <==> x in acc || x in Found(stop, naming, n) {
        FoundUnfold(stop, naming, n, x);
        if exists c | c in cs :: x in Found(stop, naming, c) {
          var c :| c in cs && x in Found(stop, naming, c);
          var i :| 0 <= i < |cs| && cs[i] == c;
        }
      }
    }
  }

  lemma {:induction false} CollectWalkAll(stop: Ast -> bool, naming: Ast -> Option<string>, parent: Ast, cs: seq<Ast>, acc: seq<string>)
    requires forall c | c in cs :: c < parent
    requires Distinct(acc)
    ensures Distinct(WalkAll(Collector(stop, naming), parent, cs, acc))
    ensures forall x :: x in WalkAll(Collector(stop, naming), parent, cs, acc) <==>
              x in acc || exists i | 0 <= i < |cs| :: x in Found(stop, naming, cs[i])
    decreases parent, 0, |cs|
  {
    if |cs| > 0 {
      var v := Collector(stop, naming);
      assert cs[0] in cs;
      assert forall c | c in cs[1..] :: c in cs;
      var acc' := Walk(v, cs[0], acc);
      CollectWalk(stop, naming, cs[0], acc);
      CollectWalkAll(stop, naming, parent, cs[1..], acc');
      var r := WalkAll(v, parent, cs, acc);
      assert r == WalkAll(v, parent, cs[1..], acc');
      forall x ensures x in r <==> x in acc || exists i | 0 <= i < |cs| :: x in Found(stop, naming, cs[i]) {
        if exists i | 0 <= i < |cs[1..]| :: x in Found(stop, naming, cs[1..][i]) {
          var i :| 0 <= i < |cs[1..]| && x in Found(stop, naming, cs[1..][i]);
          assert cs[1..][i] == cs[i + 1];
        }
        if exists i | 0 <= i < |cs| :: x in Found(stop, naming, cs[i]) {
          var i :| 0 <= i < |cs| && x in Found(stop, naming, cs[i]);
          if i > 0 {
            assert cs[i] == cs[1..][i - 1];
          }
        }
      }
    }
  }

  /** GetVariableNameList / GetFunctionNameList: exactly the labels found, without repeats. */
  lemma CollectFound(stop: Ast -> bool, naming: Ast -> Option<string>, n: Ast)
    ensures Distinct(Collect(stop, naming, n))
    ensures forall x :: x in Collect(stop, naming, n) <==> x in Found(stop, naming, n)
  {
    CollectWalk(stop, naming, n, []);
  }

  /** The nodes the tree holds: those the read-only walk reaches when nothing stops it. */
  predicate WellFormed(n: Ast) {
    forall m | m in Reach(n, Everywhere) :: Conforms(m)
  }

  /** Stopping at nodes that have no children anyway reaches everything. */
  lemma {:induction false} ReachStopAtLeaves(n: Ast, stop: Ast -> bool, m: Ast)
    requires forall k | k in Reach(n, Everywhere) && stop(k) :: PassChildren(k) == []
    ensures m in Reach(n, stop) <==> m in Reach(n, Everywhere)
    decreases n
  {
    ReachUnfold(n, stop, m);
    ReachUnfold(n, Everywhere, m);
    forall c | c in PassChildren(n) ensures m in Reach(c, stop) <==> m in Reach(c, Everywhere) {
      forall k | k in Reach(c, Everywhere) && stop(k) ensures PassChildren(k) == [] {
        ReachUnfold(n, Everywhere, k);
      }
      ReachStopAtLeaves(c, stop, m);
    }
  }
}
