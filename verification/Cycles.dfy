/** What a drop followed by a rename can do to the reference graph. */
module Cycles {
  import opened Documents
  import opened Catalogs
  import opened Integrity
  import opened Runs

  ghost predicate HasCycle(cat: Catalog) {
    exists path :: RefPath(cat, path) && |path| >= 2 && path[0] == path[|path| - 1]
  }

  lemma NoCycle(cat: Catalog)
    requires RefsDeclared(cat)
    ensures !HasCycle(cat)
  {
    forall path | RefPath(cat, path) && |path| >= 2 ensures path[0] != path[|path| - 1] {
      PathGoesBackInTime(cat, path, |path| - 1);
    }
  }

  ghost predicate DeclaresNothing(cat: Catalog, c: string) {
    forall k | k in cat.refs :: k.coll != c
  }

  /** Following references from any collection ends at one that declares none. */
  lemma {:induction false} WalkToSink(cat: Catalog, c: string) returns (path: seq<string>)
    requires RefsDeclared(cat) && c in cat.colls
    ensures RefPath(cat, path) && |path| >= 1 && path[0] == c && path[|path| - 1] in cat.colls
    ensures DeclaresNothing(cat, path[|path| - 1]) && cat.colls[path[|path| - 1]].createdAt <= cat.colls[c].createdAt
    decreases cat.colls[c].createdAt
  {
    if DeclaresNothing(cat, c) { return [c]; }
    var k :| k in cat.refs && k.coll == c;
    var rest := WalkToSink(cat, cat.refs[k].target);
    path := [c] + rest;
    assert RefersTo(cat, c, rest[0]);
    PathWithHead(cat, c, rest);
  }

  lemma PathWithHead(cat: Catalog, c: string, rest: seq<string>)
    requires |rest| >= 1 && RefersTo(cat, c, rest[0]) && RefPath(cat, rest)
    ensures RefPath(cat, [c] + rest)
  {
    var path := [c] + rest;
    forall j | 0 <= j < |path| - 1 ensures RefersTo(cat, path[j], path[j + 1]) {
      if j > 0 { assert RefersTo(cat, rest[j - 1], rest[j]); }
    }
  }

  function RenamedPath(path: seq<string>, oldName: string, newName: string): seq<string> {
    seq(|path|, i requires 0 <= i < |path| => Substitute(path[i], oldName, newName))
  }

  lemma RenameKeepsEdge(cat: Catalog, a: string, b: string, oldName: string, newName: string)
    requires RenameAllowed(cat, oldName, newName) && RefersTo(cat, a, b)
    ensures RefersTo(Renamed(cat, oldName, newName), Substitute(a, oldName, newName), Substitute(b, oldName, newName))
  {
    var k :| k in cat.refs && k.coll == a && cat.refs[k].target == b;
    RenamedKey(cat, oldName, newName, k);
  }

  /** A rename takes every path along. */
  lemma RenameKeepsPaths(cat: Catalog, path: seq<string>, oldName: string, newName: string)
    requires RenameAllowed(cat, oldName, newName) && RefPath(cat, path)
    ensures RefPath(Renamed(cat, oldName, newName), RenamedPath(path, oldName, newName))
  {
    var path' := RenamedPath(path, oldName, newName);
    forall j | 0 <= j < |path'| - 1 ensures RefersTo(Renamed(cat, oldName, newName), path'[j], path'[j + 1]) {
      RenameKeepsEdge(cat, path[j], path[j + 1], oldName, newName);
    }
  }

  /** A path between a missing name and the collection that is renamed to it becomes a cycle. */
  lemma ClosedByRename(cat: Catalog, path: seq<string>, oldName: string, newName: string)
    requires RenameAllowed(cat, oldName, newName) && RefPath(cat, path) && |path| >= 2
    requires {path[0], path[|path| - 1]} == {oldName, newName}
    ensures HasCycle(Renamed(cat, oldName, newName))
  {
    RenameKeepsPaths(cat, path, oldName, newName);
    var path' := RenamedPath(path, oldName, newName);
    assert path'[0] == newName && path'[|path'| - 1] == newName;
  }

  /** From a dropped collection that declares a reference, rename the end of a walk to its name. */
  lemma CycleFromOwner(cat: Catalog, k: RefKey) returns (x: string)
    requires RefsDeclared(cat) && k in cat.refs && IsName(k.coll)
    ensures RenameAllowed(Dropped(cat, k.coll), x, k.coll) && HasCycle(Renamed(Dropped(cat, k.coll), x, k.coll))
  {
    var name, dropped := k.coll, Dropped(cat, k.coll);
    var rest := WalkToSink(cat, cat.refs[k].target);
    x := rest[|rest| - 1];
    assert RefersTo(cat, name, rest[0]);
    PathWithHead(cat, name, rest);
    SamePaths(cat, name, [name] + rest);
    ClosedByRename(dropped, [name] + rest, x, name);
  }

  /** To one that declares none, rename a collection that refers to it. */
  lemma CycleFromTarget(cat: Catalog, k: RefKey)
    requires RefsDeclared(cat) && k in cat.refs && IsName(cat.refs[k].target) && DeclaresNothing(cat, cat.refs[k].target)
    ensures var name := cat.refs[k].target;
      RenameAllowed(Dropped(cat, name), k.coll, name) && HasCycle(Renamed(Dropped(cat, name), k.coll, name))
  {
    var name := cat.refs[k].target;
    assert RefersTo(cat, k.coll, name);
    assert RefPath(cat, [k.coll, name]);
    SamePaths(cat, name, [k.coll, name]);
    ClosedByRename(Dropped(cat, name), [k.coll, name], k.coll, name);
  }

  lemma SamePaths(cat: Catalog, name: string, path: seq<string>)
    requires RefPath(cat, path)
    ensures RefPath(Dropped(cat, name), path)
  {
    forall j | 0 <= j < |path| - 1 ensures RefersTo(Dropped(cat, name), path[j], path[j + 1]) {
      assert RefersTo(cat, path[j], path[j + 1]);
    }
  }

  /** A drop can be followed by a rename that makes a cycle of references exactly when some
      declaration mentions the dropped collection. */
  lemma DropThenRenameMakesCycleIff(cat: Catalog, name: string)
    requires RefsDeclared(cat) && name in cat.colls && IsName(name)
    ensures (exists x, y :: RenameAllowed(Dropped(cat, name), x, y) && HasCycle(Renamed(Dropped(cat, name), x, y)))
            <==> !Unreferenced(cat, name)
  {
    var dropped := Dropped(cat, name);
    if Unreferenced(cat, name) {
      DropKeepsDeclaredIff(cat, name);
      forall x, y | RenameAllowed(dropped, x, y) ensures !HasCycle(Renamed(dropped, x, y)) {
        RenamedRefsDeclared(dropped, x, y);
        NoCycle(Renamed(dropped, x, y));
      }
    } else if k :| k in cat.refs && k.coll == name {
      var x := CycleFromOwner(cat, k);
    } else {
      var k :| k in cat.refs && cat.refs[k].target == name;
      CycleFromTarget(cat, k);
    }
  }

  /** Registered names match the pattern, in every state of every run. */
  lemma {:induction false} NamesAreValid(cats: seq<Catalog>, cmds: seq<Command>, n: nat)
    requires Run(cats, cmds) && n < |cats|
    ensures forall c | c in cats[n].colls :: IsName(c)
  {
    if n > 0 {
      NamesAreValid(cats, cmds, n - 1);
      RunKeepsConsistent(cats, cmds, n - 1);
      assert StepAt(cats, cmds, n - 1);
      StepKeepsNames(cats[n - 1], cmds[n - 1], cats[n]);
    }
  }

  lemma StepKeepsNames(cat: Catalog, cmd: Command, cat': Catalog)
    requires Consistent(cat) && Step(cat, cmd, cat') && forall c | c in cat.colls :: IsName(c)
    ensures forall c | c in cat'.colls :: IsName(c)
  {
    if !cmd.Create? && !cmd.Rename? && !cmd.Drop? {
      DataStepKeepsRegistry(cat, cmd, cat');
    }
  }
}
