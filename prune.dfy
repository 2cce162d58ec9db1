/**
 * `npm prune`: which installed top-level packages to remove, and the two-step
 * plan handed to the step runner. The selection is a filter / map / filter / map
 * pipeline over the children of the current tree's root; the plan removes that
 * selection from the ideal tree and then reclassifies the ideal tree.
 */
module Prune {

  /** An installed package: where it lives and the packages nested under it, in order. */
  datatype Node = Node(path: string, children: seq<Node>)

  /**
   * The two functions prune requires from modules outside this model:
   * `is-extraneous` (is this node needed by nothing?) and `module-name`
   * (the package name a node is installed under). Nothing is assumed about them.
   */
  datatype Externals = Externals(isExtraneous: Node -> bool, moduleName: Node -> string)

  /** One element of the selection handed to removeDeps: the record `{name: ...}`. */
  datatype PruneEntry = PruneEntry(name: string)

  /** Which of the pruner's two trees a step acts on: the object itself, not a copy of its value. */
  datatype TreeRef = CurrentTree | IdealTree

  /** One step of the plan, as data: the step runner and both operations are not part of this model. */
  datatype Step =
    | RemoveDeps(selection: seq<PruneEntry>, on: TreeRef)
    | LoadExtraneous(on: TreeRef)

  /** What a stage reports to its callback: `cb()` or `cb(err)`. */
  datatype Outcome = Done | Failed(message: string)

  // ---------------------------------------------------------------------------
  // The four stages of the selection expression. Each recurses on the last
  // element, so that appending one child unfolds each stage exactly once.
  // ---------------------------------------------------------------------------

  /** `children.filter(isExtraneous)` */
  function KeepExtraneous(nodes: seq<Node>, isExtraneous: Node -> bool): (r: seq<Node>)
    ensures |r| <= |nodes|
    ensures forall n :: n in r <==> n in nodes && isExtraneous(n)
  {
    if |nodes| == 0 then []
    else
      var init, last := nodes[..|nodes| - 1], nodes[|nodes| - 1];
      assert nodes == init + [last];
      KeepExtraneous(init, isExtraneous) + (if isExtraneous(last) then [last] else [])
  }

  /** `.map(function (child) { return moduleName(child) })` */
  function ModuleNames(nodes: seq<Node>, moduleName: Node -> string): (r: seq<string>)
    ensures |r| == |nodes|
    ensures forall i :: 0 <= i < |nodes| ==> r[i] == moduleName(nodes[i])
  {
    if |nodes| == 0 then []
    else ModuleNames(nodes[..|nodes| - 1], moduleName) + [moduleName(nodes[|nodes| - 1])]
  }

  /** The condition of the name filter: no arguments at all, or the name is one of them. */
  predicate Requested(name: string, args: seq<string>)
  {
    |args| == 0 || name in args
  }

  /** `.filter(function (child) { return self.args.length === 0 || self.args.indexOf(child) !== -1 })` */
  function KeepRequested(names: seq<string>, args: seq<string>): (r: seq<string>)
    ensures |r| <= |names|
    ensures forall n :: n in r <==> n in names && Requested(n, args)
  {
    if |names| == 0 then []
    else
      var init, last := names[..|names| - 1], names[|names| - 1];
      assert names == init + [last];
      KeepRequested(init, args) + (if Requested(last, args) then [last] else [])
  }

  /** `.map(function (child) { return {name: child} })` */
  function Entries(names: seq<string>): (r: seq<PruneEntry>)
    ensures |r| == |names|
    ensures forall i :: 0 <= i < |names| ==> r[i].name == names[i]
  {
    if |names| == 0 then []
    else Entries(names[..|names| - 1]) + [PruneEntry(names[|names| - 1])]
  }

  /**
   * `toPrune`: the selection computed from the children of the current tree's
   * root. Every entry names an extraneous top-level child, and passes the name filter.
   */
  function ToPrune(children: seq<Node>, ext: Externals, args: seq<string>): (r: seq<PruneEntry>)
    ensures |r| <= |children|
    ensures forall e :: e in r ==> Requested(e.name, args)
    ensures forall e :: e in r ==>
      exists i :: 0 <= i < |children| && ext.isExtraneous(children[i]) && ext.moduleName(children[i]) == e.name
  {
    var extraneous := KeepExtraneous(children, ext.isExtraneous);
    var names := ModuleNames(extraneous, ext.moduleName);
    var kept := KeepRequested(names, args);
    var r := Entries(kept);
    forall e | e in r
      ensures Requested(e.name, args)
      ensures exists i :: 0 <= i < |children| && ext.isExtraneous(children[i]) && ext.moduleName(children[i]) == e.name
    {
      var k :| 0 <= k < |r| && r[k] == e;
      assert kept[k] in names;
      var j :| 0 <= j < |names| && names[j] == kept[k];
      assert extraneous[j] in children;
    }
    r
  }

  // ---------------------------------------------------------------------------
  // A reference definition: the positions of the selected children.
  // ---------------------------------------------------------------------------

  /** A top-level child ends up in the selection exactly when this holds of it. */
  predicate Wanted(child: Node, ext: Externals, args: seq<string>)
  {
    ext.isExtraneous(child) && Requested(ext.moduleName(child), args)
  }

  /** The positions, among the first `n` children, of the children that are wanted, in increasing order. */
  function Picks(children: seq<Node>, ext: Externals, args: seq<string>, n: nat): (idx: seq<nat>)
    requires n <= |children|
    ensures forall k :: 0 <= k < |idx| ==> idx[k] < n && Wanted(children[idx[k]], ext, args)
    ensures forall k, l :: 0 <= k < l < |idx| ==> idx[k] < idx[l]
    ensures forall i :: 0 <= i < n && Wanted(children[i], ext, args) ==> i in idx
  {
    if n == 0 then []
    else Picks(children, ext, args, n - 1) + (if Wanted(children[n - 1], ext, args) then [n - 1] else [])
  }

  /** The name map of a concatenation is the concatenation of the name maps. */
  lemma ModuleNamesAppend(a: seq<Node>, b: seq<Node>, moduleName: Node -> string)
    ensures ModuleNames(a + b, moduleName) == ModuleNames(a, moduleName) + ModuleNames(b, moduleName)
  {
  }

  /** The record map of a concatenation is the concatenation of the record maps. */
  lemma EntriesAppend(a: seq<string>, b: seq<string>)
    ensures Entries(a + b) == Entries(a) + Entries(b)
  {
    var r, s := Entries(a + b), Entries(a) + Entries(b);
    assert |r| == |s|;
    forall k | 0 <= k < |r| ensures r[k] == s[k] {
      if k < |a| { assert r[k].name == a[k] == s[k].name; }
      else { assert r[k].name == b[k - |a|] == s[k].name; }
    }
  }

  /** Appending one child to the root appends at most its own entry to the selection. */
  lemma ToPruneSnoc(init: seq<Node>, last: Node, ext: Externals, args: seq<string>)
    ensures ToPrune(init + [last], ext, args)
         == ToPrune(init, ext, args) + (if Wanted(last, ext, args) then [PruneEntry(ext.moduleName(last))] else [])
  {
    var s := init + [last];
    assert s[..|s| - 1] == init;
    var extraneous := KeepExtraneous(init, ext.isExtraneous);
    var tail := if ext.isExtraneous(last) then [last] else [];
    assert KeepExtraneous(s, ext.isExtraneous) == extraneous + tail;
    var names := ModuleNames(extraneous, ext.moduleName);
    var nameTail := if ext.isExtraneous(last) then [ext.moduleName(last)] else [];
    ModuleNamesAppend(extraneous, tail, ext.moduleName);
    assert ModuleNames(tail, ext.moduleName) == nameTail;
    var kept := KeepRequested(names, args);
    var keptTail := if Wanted(last, ext, args) then [ext.moduleName(last)] else [];
    if ext.isExtraneous(last) {
      var full := names + nameTail;
      assert full[..|full| - 1] == names && full[|full| - 1] == ext.moduleName(last);
      assert KeepRequested(full, args) == kept + keptTail;
    } else {
      assert names + nameTail == names && kept + keptTail == kept;
    }
    EntriesAppend(kept, keptTail);
  }

  /**
   * Order preservation: the k-th entry of the selection is named after the k-th
   * wanted child, the wanted children taken in the order of the root's children.
   */
  lemma {:induction false} ToPruneFollowsChildren(children: seq<Node>, ext: Externals, args: seq<string>)
    ensures var r, idx := ToPrune(children, ext, args), Picks(children, ext, args, |children|);
      |r| == |idx| && forall k :: 0 <= k < |r| ==> r[k].name == ext.moduleName(children[idx[k]])
  {
    if |children| > 0 {
      var init, last := children[..|children| - 1], children[|children| - 1];
      assert children == init + [last];
      ToPruneFollowsChildren(init, ext, args);
      ToPruneSnoc(init, last, ext, args);
      PicksPrefix(children, |init|, ext, args, |init|);
      var r0, idx0 := ToPrune(init, ext, args), Picks(init, ext, args, |init|);
      var r, idx := ToPrune(children, ext, args), Picks(children, ext, args, |children|);
      if Wanted(last, ext, args) {
        assert r == r0 + [PruneEntry(ext.moduleName(last))] && idx == idx0 + [|init|];
      } else {
        assert r == r0 && idx == idx0;
      }
      forall k | 0 <= k < |r| ensures r[k].name == ext.moduleName(children[idx[k]]) {
        if k < |r0| {
          assert r[k] == r0[k] && idx[k] == idx0[k] && init[idx0[k]] == children[idx0[k]];
        }
      }
    }
  }

  /** The positions picked among the first `n` children do not depend on the children after them. */
  lemma {:induction false} PicksPrefix(children: seq<Node>, m: nat, ext: Externals, args: seq<string>, n: nat)
    requires n <= m <= |children|
    ensures Picks(children[..m], ext, args, n) == Picks(children, ext, args, n)
  {
    if n > 0 {
      PicksPrefix(children, m, ext, args, n - 1);
    }
  }

  // ---------------------------------------------------------------------------
  // Properties of the selection.
  // ---------------------------------------------------------------------------

  /**
   * A name is selected exactly when it passes the name filter and some
   * extraneous child of the root is installed under it. Only the root's own
   * children are consulted: a nested package is never selected by its name.
   */
  lemma SelectedIff(children: seq<Node>, ext: Externals, args: seq<string>, name: string)
    ensures PruneEntry(name) in ToPrune(children, ext, args)
        <==> Requested(name, args)
             && exists i :: 0 <= i < |children| && ext.isExtraneous(children[i]) && ext.moduleName(children[i]) == name
  {
    if i :| 0 <= i < |children| && ext.isExtraneous(children[i]) && ext.moduleName(children[i]) == name {
      if Requested(name, args) {
        var extraneous := KeepExtraneous(children, ext.isExtraneous);
        assert children[i] in extraneous;
        var j :| 0 <= j < |extraneous| && extraneous[j] == children[i];
        var names := ModuleNames(extraneous, ext.moduleName);
        assert names[j] == name;
        var kept := KeepRequested(names, args);
        assert name in kept;
        var k :| 0 <= k < |kept| && kept[k] == name;
        assert ToPrune(children, ext, args)[k] == PruneEntry(name);
      }
    }
  }

  /** With no arguments the name filter keeps everything: every extraneous top-level child is selected, in order. */
  lemma {:induction false} EmptyArgsSelectsAllExtraneous(children: seq<Node>, ext: Externals)
    ensures ToPrune(children, ext, []) == Entries(ModuleNames(KeepExtraneous(children, ext.isExtraneous), ext.moduleName))
    ensures forall i :: 0 <= i < |children| && ext.isExtraneous(children[i]) ==>
      PruneEntry(ext.moduleName(children[i])) in ToPrune(children, ext, [])
  {
    var names := ModuleNames(KeepExtraneous(children, ext.isExtraneous), ext.moduleName);
    KeepAllWhenNoArgs(names);
    forall i | 0 <= i < |children| && ext.isExtraneous(children[i])
      ensures PruneEntry(ext.moduleName(children[i])) in ToPrune(children, ext, [])
    {
      SelectedIff(children, ext, [], ext.moduleName(children[i]));
    }
  }

  /** The name filter with an empty argument list returns its input unchanged. */
  lemma {:induction false} KeepAllWhenNoArgs(names: seq<string>)
    ensures KeepRequested(names, []) == names
  {
    if |names| > 0 {
      KeepAllWhenNoArgs(names[..|names| - 1]);
    }
  }

  /** With arguments, every selected name is one of the arguments. */
  lemma SelectedNamesAreArgs(children: seq<Node>, ext: Externals, args: seq<string>)
    requires |args| > 0
    ensures forall e :: e in ToPrune(children, ext, args) ==> e.name in args
  {
  }

  /**
   * An argument that names no extraneous top-level child is ignored without
   * error: adding it to a non-empty argument list leaves the selection unchanged.
   */
  lemma {:induction false} UnmatchedArgIgnored(children: seq<Node>, ext: Externals, args: seq<string>, extra: string)
    requires |args| > 0
    requires forall i :: 0 <= i < |children| && ext.isExtraneous(children[i]) ==> ext.moduleName(children[i]) != extra
    ensures ToPrune(children, ext, args + [extra]) == ToPrune(children, ext, args)
  {
    if |children| > 0 {
      var init, last := children[..|children| - 1], children[|children| - 1];
      assert children == init + [last];
      UnmatchedArgIgnored(init, ext, args, extra);
      ToPruneSnoc(init, last, ext, args);
      ToPruneSnoc(init, last, ext, args + [extra]);
      assert Wanted(last, ext, args + [extra]) == Wanted(last, ext, args);
    }
  }

  /**
   * Naming only a package that no extraneous top-level child is installed under
   * selects nothing, and raises no error.
   */
  lemma UnknownNameSelectsNothing(children: seq<Node>, ext: Externals, name: string)
    requires forall i :: 0 <= i < |children| && ext.isExtraneous(children[i]) ==> ext.moduleName(children[i]) != name
    ensures ToPrune(children, ext, [name]) == []
  {
  }

  /** `a` is `b` with some elements left out, the rest in their original order. */
  predicate IsSubsequence<T(==)>(a: seq<T>, b: seq<T>)
    decreases |b|
  {
    if |a| == 0 then true
    else if |b| == 0 then false
    else if a[|a| - 1] == b[|b| - 1] then IsSubsequence(a[..|a| - 1], b[..|b| - 1])
    else IsSubsequence(a, b[..|b| - 1])
  }

  /** A subsequence is no longer than its source and holds only its source's elements. */
  lemma {:induction false} SubsequenceBounds<T>(a: seq<T>, b: seq<T>)
    requires IsSubsequence(a, b)
    ensures |a| <= |b|
    ensures forall x :: x in a ==> x in b
  {
    if |a| > 0 && |b| > 0 {
      if a[|a| - 1] == b[|b| - 1] {
        SubsequenceBounds(a[..|a| - 1], b[..|b| - 1]);
        assert a == a[..|a| - 1] + [a[|a| - 1]];
        assert b == b[..|b| - 1] + [b[|b| - 1]];
      } else {
        SubsequenceBounds(a, b[..|b| - 1]);
        assert b == b[..|b| - 1] + [b[|b| - 1]];
      }
    }
  }

  /** Filtering by name never adds an entry: the selection is no longer than the unfiltered one and holds only its entries. */
  lemma FilterOnlyShrinks(children: seq<Node>, ext: Externals, args: seq<string>)
    ensures |ToPrune(children, ext, args)| <= |ToPrune(children, ext, [])|
    ensures forall x :: x in ToPrune(children, ext, args) ==> x in ToPrune(children, ext, [])
  {
    FilterOnlyRemoves(children, ext, args);
    SubsequenceBounds(ToPrune(children, ext, args), ToPrune(children, ext, []));
  }

  /** Filtering by name only ever drops entries: any selection is a subsequence of the unfiltered one. */
  lemma {:induction false} FilterOnlyRemoves(children: seq<Node>, ext: Externals, args: seq<string>)
    ensures IsSubsequence(ToPrune(children, ext, args), ToPrune(children, ext, []))
  {
    if |children| == 0 {
      assert |ToPrune(children, ext, args)| == 0;
    } else {
      var init, last := children[..|children| - 1], children[|children| - 1];
      assert children == init + [last];
      FilterOnlyRemoves(init, ext, args);
      ToPruneSnoc(init, last, ext, args);
      ToPruneSnoc(init, last, ext, []);
      var a, b := ToPrune(init, ext, args), ToPrune(init, ext, []);
      var e := PruneEntry(ext.moduleName(last));
      var ra, rb := ToPrune(children, ext, args), ToPrune(children, ext, []);
      if Wanted(last, ext, args) {
        assert ra == a + [e] && rb == b + [e];
        SubsequenceExtendBoth(a, b, e);
      } else if ext.isExtraneous(last) {
        assert ra == a && rb == b + [e];
        assert !Requested(e.name, args);
        if |a| > 0 {
          assert a[|a| - 1] in a;
          assert Requested(a[|a| - 1].name, args);
        }
        SubsequenceExtendRight(a, b, e);
      } else {
        assert ra == a && rb == b;
      }
    }
  }

  /** Appending the same element to both sides keeps a subsequence one. */
  lemma SubsequenceExtendBoth<T>(a: seq<T>, b: seq<T>, x: T)
    requires IsSubsequence(a, b)
    ensures IsSubsequence(a + [x], b + [x])
  {
    assert (a + [x])[..|a|] == a && (b + [x])[..|b|] == b;
  }

  /** Appending to the source an element the subsequence does not end with keeps it a subsequence. */
  lemma SubsequenceExtendRight<T>(a: seq<T>, b: seq<T>, x: T)
    requires IsSubsequence(a, b)
    requires |a| == 0 || a[|a| - 1] != x
    ensures IsSubsequence(a, b + [x])
  {
    assert (b + [x])[..|b|] == b;
  }

  // ---------------------------------------------------------------------------
  // A scenario: A is still wanted, B is left over, and D is installed under
  // B. Naming B is the same as naming nothing; naming D selects nothing,
  // because D is not a child of the root. The premises about D only describe
  // the scenario: the proof needs nothing of D beyond its name, which no
  // extraneous top-level child carries.
  // ---------------------------------------------------------------------------

  lemma ScenarioSelections(a: Node, b: Node, d: Node, ext: Externals)
    requires !ext.isExtraneous(a)
    requires ext.isExtraneous(b) && ext.moduleName(b) == "B"
    requires ext.isExtraneous(d) && ext.moduleName(d) == "D" && b.children == [d]
    ensures ToPrune([a, b], ext, []) == [PruneEntry("B")]
    ensures ToPrune([a, b], ext, ["B"]) == [PruneEntry("B")]
    ensures ToPrune([a, b], ext, ["D"]) == []
  {
    assert ToPrune([a, b], ext, ["D"]) == [] by {
      UnknownNameSelectsNothing([a, b], ext, "D");
    }
    ScenarioSelection(a, b, ext, []);
    ScenarioSelection(a, b, ext, ["B"]);
  }

  /** In the scenario, any argument list that lets B's name through selects exactly B. */
  lemma ScenarioSelection(a: Node, b: Node, ext: Externals, args: seq<string>)
    requires !ext.isExtraneous(a)
    requires ext.isExtraneous(b) && Requested(ext.moduleName(b), args)
    ensures ToPrune([a, b], ext, args) == [PruneEntry(ext.moduleName(b))]
  {
    assert [a, b] == [a] + [b] && [a] == [] + [a];
    assert |ToPrune([], ext, args)| == 0;
    ToPruneSnoc([], a, ext, args);
    ToPruneSnoc([a], b, ext, args);
  }

  // ---------------------------------------------------------------------------
  // The command object.
  // ---------------------------------------------------------------------------

  /**
   * A prune run. `where`, `dryrun` and `args` are what the constructor hands to
   * the shared installer; the two trees are what the installer's earlier stages
   * load before the ideal-tree stage runs.
   */
  class Pruner {
    const where: string
    const dryrun: bool
    const args: seq<string>
    var currentTree: Node
    var idealTree: Node

    constructor (where: string, dryrun: bool, args: seq<string>, currentTree: Node, idealTree: Node)
      ensures this.where == where && this.dryrun == dryrun && this.args == args
      ensures this.currentTree == currentTree && this.idealTree == idealTree
    {
      this.where := where;
      this.dryrun := dryrun;
      this.args := args;
      this.currentTree := currentTree;
      this.idealTree := idealTree;
    }

    /**
     * The ideal-tree stage of prune: select from the CURRENT tree, then plan
     * two steps on the IDEAL tree, removal first, then reclassification.
     */
    method LoadAllDepsIntoIdealTree(ext: Externals) returns (steps: seq<Step>)
      ensures |steps| == 2
      ensures steps[0].RemoveDeps? && steps[0].on == IdealTree
      ensures steps[0].selection == ToPrune(currentTree.children, ext, args)
      ensures steps[1].LoadExtraneous? && steps[1].on == IdealTree
    {
      var toPrune := ToPrune(currentTree.children, ext, args);
      steps := [];
      steps := steps + [RemoveDeps(toPrune, IdealTree)];
      steps := steps + [LoadExtraneous(IdealTree)];
    }

    /** Prune runs no lifecycle scripts: the stage reports success at once and changes nothing. */
    method RunTopLevelLifecycles() returns (outcome: Outcome)
      ensures outcome == Done
    {
      outcome := Done;
    }
  }

  /** `prune(args, cb)`: a pruner rooted at the working directory. */
  method NewPrune(args: seq<string>, dryrun: bool, currentTree: Node, idealTree: Node) returns (p: Pruner)
    ensures fresh(p)
    ensures p.where == "." && p.dryrun == dryrun && p.args == args
    ensures p.currentTree == currentTree && p.idealTree == idealTree
  {
    p := new Pruner(".", dryrun, args, currentTree, idealTree);
  }
}
