/** The circular-dependency check of the architecture tests
    (test/architecture/architecture-cycles.test.ts): a depth-first search over
    the relative-import graph with a `visited` set, a `stack` set and a list
    of violations. Reading the files and extracting their imports is the
    parameter `importsOf`. */
module ArchitectureCycles {
  import opened Common
  import opened Strings

  /** The specifiers that become edges: those starting "./" or "../". */
  predicate IsRelative(specifier: string) {
    StartsWith(specifier, "./") || StartsWith(specifier, "../")
  }

  /** `imports.filter(...)`. */
  function RelativeImports(imports: seq<string>): (r: seq<string>)
    ensures forall x :: x in r <==> x in imports && IsRelative(x)
  {
    if imports == [] then []
    else if IsRelative(imports[0]) then [imports[0]] + RelativeImports(imports[1..])
    else RelativeImports(imports[1..])
  }

  /** `new Set(s)` as its iteration order: first occurrences, in order. */
  function Dedup(s: seq<string>): (r: seq<string>)
    ensures forall x :: x in r <==> x in s
    ensures Distinct(r)
  {
    if s == [] then []
    else
      var front := Dedup(s[..|s| - 1]);
      assert forall x :: x in s <==> x in s[..|s| - 1] || x == s[|s| - 1];
      if s[|s| - 1] in front then front else front + [s[|s| - 1]]
  }

  /** The dependency set of one file. */
  function Edges(imports: seq<string>): (r: seq<string>)
    ensures forall x :: x in r <==> x in imports && IsRelative(x)
    ensures Distinct(r)
  {
    Dedup(RelativeImports(imports))
  }

  /** The graph `buildDependencyGraph` builds: one entry per listed file. */
  function DependencyGraph(files: seq<string>, importsOf: string -> seq<string>): (g: map<string, seq<string>>)
  {
    map f | f in files :: Edges(importsOf(f))
  }

  /** `buildDependencyGraph`. */
  method BuildDependencyGraph(files: seq<string>, importsOf: string -> seq<string>) returns (graph: map<string, seq<string>>)
    ensures graph == DependencyGraph(files, importsOf)
    ensures graph.Keys == set f | f in files
    ensures forall f :: f in graph ==> forall d :: d in graph[f] <==> d in importsOf(f) && IsRelative(d)
  {
    graph := map[];
    for i := 0 to |files|
      invariant graph.Keys == set f | f in files[..i]
      invariant forall f :: f in graph ==> graph[f] == Edges(importsOf(f))
    {
      var imports := importsOf(files[i]);
      var relativeImports := RelativeImports(imports);
      graph := graph[files[i] := Dedup(relativeImports)];
    }
    assert files[..|files|] == files;
  }

  /** `ctx.graph.get(file) || new Set()`. */
  function Deps(graph: map<string, seq<string>>, file: string): (r: seq<string>)
    ensures file !in graph ==> r == []
  {
    if file in graph then graph[file] else []
  }

  /** Every file the search can reach: the keys and everything they import. */
  ghost function Nodes(graph: map<string, seq<string>>): (n: set<string>)
    ensures forall f, j :: f in graph && 0 <= j < |graph[f]| ==> graph[f][j] in n
  {
    graph.Keys + (set f, j | f in graph && 0 <= j < |graph[f]| :: graph[f][j])
  }

  /** A sequence of files, each importing the next. */
  ghost predicate Walk(graph: map<string, seq<string>>, w: seq<string>) {
    |w| >= 1 && forall i :: 0 <= i < |w| - 1 ==> w[i + 1] in Deps(graph, w[i])
  }

  /** Some walk from a listed file comes back to a file it already passed. */
  ghost predicate CycleReachable(graph: map<string, seq<string>>, roots: set<string>) {
    exists w :: Walk(graph, w) && w[0] in roots && !Distinct(w)
  }

  /** Each finished file imports only finished files, finished earlier. */
  ghost predicate Closed(graph: map<string, seq<string>>, finish: map<string, nat>) {
    forall u, j :: u in finish && 0 <= j < |Deps(graph, u)| ==>
      Deps(graph, u)[j] in finish && finish[Deps(graph, u)[j]] < finish[u]
  }

  /** Along a walk from a finished file every file is finished, earlier and
      earlier, so no file repeats. */
  lemma {:induction false} ClosedWalkDistinct(graph: map<string, seq<string>>, finish: map<string, nat>, w: seq<string>)
    requires Closed(graph, finish) && Walk(graph, w) && w[0] in finish
    ensures forall i :: 0 <= i < |w| ==> w[i] in finish
    ensures forall i, j :: 0 <= i < j < |w| ==> finish[w[j]] < finish[w[i]]
    ensures Distinct(w)
    decreases |w|
  {
    if |w| > 1 {
      var front := w[..|w| - 1];
      assert Walk(graph, front) by {
        forall i | 0 <= i < |front| - 1 ensures front[i + 1] in Deps(graph, front[i]) {
          assert front[i] == w[i] && front[i + 1] == w[i + 1];
        }
      }
      ClosedWalkDistinct(graph, finish, front);
      var last := w[|w| - 1];
      var prev := w[|w| - 2];
      assert prev == front[|front| - 1];
      var j :| 0 <= j < |Deps(graph, prev)| && Deps(graph, prev)[j] == last;
      assert last in finish && finish[last] < finish[prev];
      forall i | 0 <= i < |w| - 1 ensures finish[last] < finish[w[i]] {
        assert w[i] == front[i];
        if i < |w| - 2 {
          assert finish[front[|front| - 1]] < finish[front[i]];
        }
      }
    }
  }

  /** A walk extended by an import of its last file is a walk, and it
      repeats a file when the import was already on it. */
  lemma WalkExtend(graph: map<string, seq<string>>, w: seq<string>, f: string)
    requires Walk(graph, w) && f in Deps(graph, w[|w| - 1])
    ensures Walk(graph, w + [f]) && (w + [f])[0] == w[0]
    ensures f in w ==> !Distinct(w + [f])
  {
    var e := w + [f];
    forall i | 0 <= i < |e| - 1 ensures e[i + 1] in Deps(graph, e[i]) {
      if i < |w| - 1 {
        assert e[i] == w[i] && e[i + 1] == w[i + 1];
      }
    }
    if f in w {
      var i :| 0 <= i < |w| && w[i] == f;
      assert e[i] == e[|w|];
    }
  }

  /** Dropping the last file of a walk without repeats leaves a walk without
      repeats, whose files are the others. */
  lemma PopPath(graph: map<string, seq<string>>, path: seq<string>)
    requires Walk(graph, path) && Distinct(path)
    ensures var front := path[..|path| - 1];
      && Distinct(front)
      && (set f | f in path) - {path[|path| - 1]} == (set f | f in front)
      && (front != [] ==> Walk(graph, front) && front[0] == path[0])
  {
    var front := path[..|path| - 1];
    assert path == front + [path[|path| - 1]];
    if front != [] {
      forall i | 0 <= i < |front| - 1 ensures front[i + 1] in Deps(graph, front[i]) {
        assert front[i] == path[i] && front[i + 1] == path[i + 1];
      }
    }
  }

  /** Finishing a file whose imports are all finished, later than all of
      them, keeps the finished files closed. */
  lemma ClosedExtend(graph: map<string, seq<string>>, finish: map<string, nat>, file: string, t: nat)
    requires Closed(graph, finish) && file !in finish
    requires forall j :: 0 <= j < |Deps(graph, file)| ==> Deps(graph, file)[j] in finish
    requires forall k :: k in finish ==> finish[k] < t
    ensures Closed(graph, finish[file := t])
  {
  }

  function CycleMessage(file: string): (m: string)
  {
    "Circular dependency detected involving: " + file
  }

  lemma SubsetCard(a: set<string>, b: set<string>)
    requires a <= b
    ensures |a| <= |b|
  {
    assert b == a + (b - a);
  }

  class CycleDetectionContext {
    const graph: map<string, seq<string>>
    /** The listed files the search starts from. */
    ghost const roots: set<string>
    var visited: set<string>
    var stack: set<string>
    var violations: seq<string>

    /** The stack in push order. */
    ghost var path: seq<string>
    /** When each file left the stack, on the clock `clock`. */
    ghost var finish: map<string, nat>
    ghost var clock: nat
    /** The files whose dependencies were scanned, in order. */
    ghost var scanned: seq<string>
    /** Once there is a violation: a walk from a listed file that repeats a file. */
    ghost var cycleWalk: seq<string>

    ghost predicate Valid()
      reads this
    {
      && stack == (set f | f in path) && Distinct(path)
      && stack <= visited
      && finish.Keys == visited - stack
      && (forall k :: k in finish ==> finish[k] < clock)
      && Distinct(scanned) && (forall f :: f in scanned <==> f in visited)
      && (path != [] ==> Walk(graph, path) && path[0] in roots)
      && (violations != [] ==> Walk(graph, cycleWalk) && cycleWalk[0] in roots && !Distinct(cycleWalk))
      && (violations == [] ==> Closed(graph, finish))
    }

    constructor(graph: map<string, seq<string>>, ghost roots: set<string>)
      ensures this.graph == graph && this.roots == roots
      ensures visited == {} && stack == {} && violations == [] && path == []
      ensures Valid()
    {
      this.graph := graph;
      this.roots := roots;
      visited := {};
      stack := {};
      violations := [];
      path := [];
      finish := map[];
      clock := 0;
      scanned := [];
      cycleWalk := [];
    }

    /** `isInStack`: a file on the stack is a cycle; it is reported once and
        nothing else changes. */
    method IsInStack(file: string) returns (b: bool)
      modifies this
      ensures b <==> file in old(stack)
      ensures b ==> violations == old(violations) + [CycleMessage(file)]
      ensures !b ==> violations == old(violations)
      ensures visited == old(visited) && stack == old(stack) && path == old(path)
      ensures finish == old(finish) && clock == old(clock) && scanned == old(scanned) && cycleWalk == old(cycleWalk)
    {
      if file in stack {
        violations := violations + [CycleMessage(file)];
        return true;
      }
      return false;
    }

    /** `checkSingleFileForCycle`. */
    method CheckSingleFileForCycle(file: string) returns (r: bool)
      requires Valid()
      requires file in Nodes(graph)
      requires path == [] ==> file in roots
      requires path != [] ==> file in Deps(graph, path[|path| - 1])
      modifies this
      ensures Valid()
      ensures stack == old(stack) && path == old(path)
      ensures old(visited) <= visited && file in visited
      ensures |old(violations)| <= |violations| <= |old(violations)| + 1 && violations[..|old(violations)|] == old(violations)
      ensures r <==> |violations| == |old(violations)| + 1
      ensures file in old(stack) ==> r && violations == old(violations) + [CycleMessage(file)] && visited == old(visited)
      ensures file !in old(stack) && file in old(visited) ==> !r && visited == old(visited) && violations == old(violations)
      ensures !r ==> file in finish
      ensures forall k :: k in old(finish) ==> k in finish && finish[k] == old(finish)[k]
      ensures old(clock) <= clock
      decreases |Nodes(graph) - visited|, 2
    {
      var inStack := IsInStack(file);
      if inStack {
        cycleWalk := path + [file];
        WalkExtend(graph, path, file);
        return true;
      }
      if file in visited {
        return false;
      }
      r := Explore(file);
    }

    /** The rest of `checkSingleFileForCycle` for a file not seen before:
        push it, scan its dependencies, pop it. */
    method Explore(file: string) returns (r: bool)
      requires Valid()
      requires file in Nodes(graph) && file !in visited
      requires path == [] ==> file in roots
      requires path != [] ==> file in Deps(graph, path[|path| - 1])
      modifies this
      ensures Valid()
      ensures stack == old(stack) && path == old(path)
      ensures old(visited) <= visited && file in visited
      ensures |old(violations)| <= |violations| <= |old(violations)| + 1 && violations[..|old(violations)|] == old(violations)
      ensures r <==> |violations| == |old(violations)| + 1
      ensures file in finish
      ensures forall k :: k in old(finish) ==> k in finish && finish[k] == old(finish)[k]
      ensures old(clock) <= clock
      decreases |Nodes(graph) - visited|, 1
    {
      ghost var before := visited;
      Enter(file);
      assert Nodes(graph) - visited == (Nodes(graph) - before) - {file};
      var hasCycle := CheckDependencies(file);
      Leave(file);
      return hasCycle;
    }

    /** `visited.add(file); stack.add(file)`: the file goes on top of the stack. */
    method Enter(file: string)
      requires Valid()
      requires file !in visited
      requires path == [] ==> file in roots
      requires path != [] ==> file in Deps(graph, path[|path| - 1])
      modifies this
      ensures Valid()
      ensures visited == old(visited) + {file} && stack == old(stack) + {file} && path == old(path) + [file]
      ensures violations == old(violations) && finish == old(finish) && clock == old(clock)
    {
      if path != [] {
        WalkExtend(graph, path, file);
      }
      visited := visited + {file};
      stack := stack + {file};
      path := path + [file];
      scanned := scanned + [file];
    }

    /** `stack.delete(file)`: the file on top of the stack is finished, and
        while there is no violation every file it imports is finished already. */
    method Leave(file: string)
      requires Valid()
      requires path != [] && path[|path| - 1] == file
      requires violations == [] ==> forall j :: 0 <= j < |Deps(graph, file)| ==> Deps(graph, file)[j] in finish
      modifies this
      ensures Valid()
      ensures visited == old(visited) && stack == old(stack) - {file} && path == old(path)[..|old(path)| - 1]
      ensures violations == old(violations) && finish == old(finish)[file := old(clock)] && clock == old(clock) + 1
    {
      ghost var front := path[..|path| - 1];
      PopPath(graph, path);
      if violations == [] {
        ClosedExtend(graph, finish, file, clock);
      }
      stack := stack - {file};
      path := front;
      finish := finish[file := clock];
      clock := clock + 1;
    }

    /** `checkDependencies`: the dependencies in order, stopping at the
        first that reports a cycle. */
    method CheckDependencies(file: string) returns (r: bool)
      requires Valid()
      requires path != [] && path[|path| - 1] == file
      modifies this
      ensures Valid()
      ensures stack == old(stack) && path == old(path)
      ensures old(visited) <= visited
      ensures |old(violations)| <= |violations| <= |old(violations)| + 1 && violations[..|old(violations)|] == old(violations)
      ensures r <==> |violations| == |old(violations)| + 1
      ensures !r ==> forall j :: 0 <= j < |Deps(graph, file)| ==> Deps(graph, file)[j] in finish
      ensures forall k :: k in old(finish) ==> k in finish && finish[k] == old(finish)[k]
      ensures old(clock) <= clock
      decreases |Nodes(graph) - visited|, 3
    {
      var dependencies := Deps(graph, file);
      var i := 0;
      while i < |dependencies|
        invariant 0 <= i <= |dependencies|
        invariant Valid()
        invariant stack == old(stack) && path == old(path)
        invariant old(visited) <= visited
        invariant violations == old(violations)
        invariant forall j :: 0 <= j < i ==> dependencies[j] in finish
        invariant forall k :: k in old(finish) ==> k in finish && finish[k] == old(finish)[k]
        invariant old(clock) <= clock
      {
        SubsetCard(Nodes(graph) - visited, Nodes(graph) - old(visited));
        var dep := dependencies[i];
        assert path[|path| - 1] == file && dep in Deps(graph, file);
        assert dep in Nodes(graph);
        var found := CheckSingleFileForCycle(dep);
        if found {
          return true;
        }
        i := i + 1;
      }
      return false;
    }
  }

  /** `detectCycles`: search from every listed file not yet visited. The
      list is empty exactly when no cycle is reachable from a listed file,
      and each start adds at most one violation. `explored` is the final
      `visited` set. */
  method DetectCycles(files: seq<string>, importsOf: string -> seq<string>)
    returns (violations: seq<string>, ghost explored: set<string>)
    ensures violations == [] <==> !CycleReachable(DependencyGraph(files, importsOf), set f | f in files)
    ensures |violations| <= |files|
    ensures forall f :: f in files ==> f in explored
  {
    var graph := BuildDependencyGraph(files, importsOf);
    var ctx := new CycleDetectionContext(graph, set f | f in files);
    for i := 0 to |files|
      invariant ctx.Valid()
      invariant ctx.graph == graph && ctx.roots == set f | f in files
      invariant ctx.stack == {} && ctx.path == []
      invariant forall j :: 0 <= j < i ==> files[j] in ctx.visited
      invariant |ctx.violations| <= i
    {
      if files[i] !in ctx.visited {
        var _ := ctx.CheckSingleFileForCycle(files[i]);
      }
    }
    violations := ctx.violations;
    explored := ctx.visited;
    if violations == [] {
      forall w | Walk(graph, w) && w[0] in ctx.roots ensures Distinct(w) {
        ClosedWalkDistinct(graph, ctx.finish, w);
      }
    }
  }
}
