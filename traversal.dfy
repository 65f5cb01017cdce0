/** Depth-first task traversal (`TaskIterator`, src/main.rs:79-113) and the
    working-directory rewrite of `tasks_from_file` (src/main.rs:324-330). */
module Traversal {
  import opened Entities

  function Reverse<T>(s: seq<T>): (r: seq<T>)
    ensures |r| == |s|
    ensures forall i :: 0 <= i < |s| ==> r[i] == s[|s| - 1 - i]
    decreases |s|
  {
    if s == [] then [] else [s[|s| - 1]] + Reverse(s[..|s| - 1])
  }

  // --------------------------------------------------- the visiting order

  /** The tasks a group stack yields, top of the stack (last element) first. */
  function Walk(gs: seq<Group>): seq<Task>
    decreases gs, 0
  {
    if gs == [] then [] else Preorder(gs[|gs| - 1]) + Walk(gs[..|gs| - 1])
  }

  /** The tasks of one popped group: its own tasks from the last to the
      first, then those of its child groups, the last child first. */
  function Preorder(g: Group): seq<Task>
    decreases g, 1
  {
    Reverse(g.tasks) + Walk(g.groups)
  }

  function Names(ts: seq<Task>): (r: seq<string>)
    ensures |r| == |ts| && forall i :: 0 <= i < |ts| ==> r[i] == ts[i].name
  {
    seq(|ts|, i requires 0 <= i < |ts| => ts[i].name)
  }

  /** Pushing more groups puts their tasks in front of the rest. */
  lemma {:induction false} WalkAppend(a: seq<Group>, b: seq<Group>)
    ensures Walk(a + b) == Walk(b) + Walk(a)
    decreases |b|
  {
    if b == [] {
      assert a + b == a;
    } else {
      assert (a + b)[..|a + b| - 1] == a + b[..|b| - 1];
      WalkAppend(a, b[..|b| - 1]);
    }
  }

  lemma {:induction false} ReverseMultiset<T>(s: seq<T>)
    ensures multiset(Reverse(s)) == multiset(s)
    decreases |s|
  {
    if s != [] {
      ReverseMultiset(s[..|s| - 1]);
      assert s == s[..|s| - 1] + [s[|s| - 1]];
    }
  }

  /** The walk of a tree yields each of its tasks exactly as often as the
      tree holds it, and nothing else. */
  lemma {:induction false} PreorderTasks(g: Group)
    ensures multiset(Preorder(g)) == TreeTasks(g)
    decreases g, 1
  {
    ReverseMultiset(g.tasks);
    WalkTasks(g.groups);
  }

  lemma {:induction false} WalkTasks(gs: seq<Group>)
    ensures multiset(Walk(gs)) == ForestTasks(gs)
    decreases gs, 0
  {
    if gs != [] {
      PreorderTasks(gs[|gs| - 1]);
      WalkTasks(gs[..|gs| - 1]);
    }
  }

  // ------------------------------------------------------- the iterator

  /** Popping the top group `g` of the stack and pushing its child groups
      keeps the order of the walk and shrinks the forest. */
  lemma PopGroup(gs: seq<Group>, rest: seq<Group>, g: Group)
    requires gs == rest + [g]
    ensures Walk(gs) == Reverse(g.tasks) + Walk(rest + g.groups)
    ensures ForestSize(rest + g.groups) < ForestSize(gs)
  {
    assert gs[..|gs| - 1] == rest;
    ForestSizeAppend(rest, [g]);
    ForestSizeAppend(rest, g.groups);
    assert [g][..0] == [];
    WalkAppend(rest, g.groups);
  }

  /** The iterator's two stacks. It yields what `remaining` lists, in that
      order: its pending tasks from the top, then the walk of its groups. */
  class TaskIterator {
    var groups: seq<Group>
    var tasks: seq<Task>
    /** What the iterator has still to yield, in order. */
    ghost var remaining: seq<Task>

    ghost predicate Valid()
      reads this
    {
      remaining == Reverse(tasks) + Walk(groups)
    }

    /** `Group::iter_mut`: no pending task, the root as the only group. */
    constructor (root: Group)
      ensures Valid()
      ensures groups == [root] && tasks == []
      ensures remaining == Preorder(root)
    {
      groups := [root];
      tasks := [];
      remaining := Preorder(root);
      new;
      assert [root][..0] == [];
      assert Walk([root]) == Preorder(root);
    }

    /** `TaskIterator::next`: pops a pending task if there is one; otherwise
        pops a group, pushes its tasks and child groups, and tries again. */
    method Next() returns (r: Option<Task>)
      requires Valid()
      modifies this
      ensures Valid()
      ensures r.None? <==> old(remaining) == []
      ensures r.Some? ==> r.value == old(remaining)[0] && remaining == old(remaining)[1..]
      ensures r.None? ==> groups == [] && tasks == [] && remaining == []
    {
      while true
        invariant Valid() && remaining == old(remaining)
        decreases ForestSize(groups)
      {
        if tasks != [] {
          var task := tasks[|tasks| - 1];
          tasks := tasks[..|tasks| - 1];
          remaining := remaining[1..];
          return Some(task);
        }
        if groups == [] {
          return None;
        }
        var group := groups[|groups| - 1];
        var rest := groups[..|groups| - 1];
        assert groups == rest + [group];
        PopGroup(groups, rest, group);
        assert Reverse(tasks) == [];
        groups := rest;
        tasks := tasks + group.tasks;
        assert tasks == group.tasks;
        groups := groups + group.groups;
      }
    }
  }

  /** Draining a fresh iterator over `root`, as the `for` loop of
      `tasks_from_file` and the test `check_iteration` do. */
  method CollectTasks(root: Group) returns (ts: seq<Task>)
    ensures ts == Preorder(root)
  {
    var it := new TaskIterator(root);
    ts := [];
    while true
      invariant it.Valid()
      invariant ts + it.remaining == Preorder(root)
      decreases |it.remaining|
    {
      ghost var before := it.remaining;
      var r := it.Next();
      if r.None? {
        assert ts + before == ts;
        return;
      }
      assert (ts + [r.value]) + it.remaining == ts + before;
      ts := ts + [r.value];
    }
  }

  /** The tree of the test `check_iteration` (src/main.rs:567-587). */
  const IterationTree := Group("name", 'c', [
    Group("foo", 'f', [], [Task("bar", 'b', "--", false, false, None, map[], false)]),
    Group("boo", 'u', [], [Task("boo", 'o', "--", false, false, None, map[], false)])], [])

  /** The stacks yield the last child's tasks first. */
  lemma IterationOrderExample()
    ensures Names(Preorder(IterationTree)) == ["boo", "bar"]
  {
    var foo, boo := IterationTree.groups[0], IterationTree.groups[1];
    assert Reverse(foo.tasks) == foo.tasks;
    assert Reverse(boo.tasks) == boo.tasks;
    assert [foo, boo][..1] == [foo] && [foo][..0] == [];
    assert Walk(IterationTree.groups) == Preorder(boo) + Preorder(foo);
  }

  // -------------------------------------------- working-directory rewrite

  /** The body of the rewrite loop for one task: a `working_dir` that is set
      is joined onto the directory of the file that defined it, or cleared
      when that file has no parent directory; an unset one is left alone. */
  function ResolveTask(t: Task, context: Option<Path>): (r: Task)
    ensures r.(workingDir := t.workingDir) == t
    ensures t.workingDir.None? ==> r.workingDir.None?
    ensures t.workingDir.Some? && context.Some? ==> r.workingDir == Some(Join(context.value, t.workingDir.value))
    ensures t.workingDir.Some? && context.None? ==> r.workingDir.None?
  {
    match t.workingDir
    case None => t
    case Some(w) => t.(workingDir := if context.Some? then Some(Join(context.value, w)) else None)
  }

  function ResolveAll(ts: seq<Task>, context: Option<Path>): (r: seq<Task>)
    ensures |r| == |ts| && forall i :: 0 <= i < |ts| ==> r[i] == ResolveTask(ts[i], context)
  {
    seq(|ts|, i requires 0 <= i < |ts| => ResolveTask(ts[i], context))
  }

  /** The rewrite applied to every task of the tree in place: the structure
      of the tree is untouched. */
  function ResolveTree(g: Group, context: Option<Path>): Group
    decreases g, 1
  {
    Group(g.name, g.key, ResolveForest(g.groups, context), ResolveAll(g.tasks, context))
  }

  function ResolveForest(gs: seq<Group>, context: Option<Path>): (r: seq<Group>)
    ensures |r| == |gs|
    decreases gs, 0
  {
    if gs == [] then [] else ResolveForest(gs[..|gs| - 1], context) + [ResolveTree(gs[|gs| - 1], context)]
  }

  lemma ReverseResolve(ts: seq<Task>, context: Option<Path>)
    ensures Reverse(ResolveAll(ts, context)) == ResolveAll(Reverse(ts), context)
  {
    var a, b := Reverse(ResolveAll(ts, context)), ResolveAll(Reverse(ts), context);
    forall i | 0 <= i < |ts|
      ensures a[i] == b[i]
    {
      assert a[i] == ResolveTask(ts[|ts| - 1 - i], context);
    }
  }

  lemma ResolveAllAppend(a: seq<Task>, b: seq<Task>, context: Option<Path>)
    ensures ResolveAll(a + b, context) == ResolveAll(a, context) + ResolveAll(b, context)
  {
  }

  /** The rewrite reaches exactly the tasks the iterator yields, in the
      order it yields them, and changes nothing else. */
  lemma {:induction false} ResolvePreorder(g: Group, context: Option<Path>)
    ensures Preorder(ResolveTree(g, context)) == ResolveAll(Preorder(g), context)
    decreases g, 1
  {
    ReverseResolve(g.tasks, context);
    ResolveWalk(g.groups, context);
    ResolveAllAppend(Reverse(g.tasks), Walk(g.groups), context);
  }

  lemma {:induction false} ResolveWalk(gs: seq<Group>, context: Option<Path>)
    ensures Walk(ResolveForest(gs, context)) == ResolveAll(Walk(gs), context)
    decreases gs, 0
  {
    if gs != [] {
      var rs := ResolveForest(gs, context);
      assert rs[..|rs| - 1] == ResolveForest(gs[..|gs| - 1], context);
      ResolvePreorder(gs[|gs| - 1], context);
      ResolveWalk(gs[..|gs| - 1], context);
      ResolveAllAppend(Preorder(gs[|gs| - 1]), Walk(gs[..|gs| - 1]), context);
    }
  }

  /** The tree with every working directory cleared: its shape, the names
      and keys of its groups and every other field of its tasks. */
  function EraseDirs(g: Group): Group
    decreases g
  {
    Group(g.name, g.key,
          seq(|g.groups|, i requires 0 <= i < |g.groups| => EraseDirs(g.groups[i])),
          seq(|g.tasks|, i requires 0 <= i < |g.tasks| => g.tasks[i].(workingDir := None)))
  }

  lemma {:induction false} ResolveForestAt(gs: seq<Group>, context: Option<Path>, i: nat)
    requires i < |gs|
    ensures ResolveForest(gs, context)[i] == ResolveTree(gs[i], context)
    decreases |gs|
  {
    if i < |gs| - 1 {
      ResolveForestAt(gs[..|gs| - 1], context, i);
    }
  }

  /** The rewrite changes working directories and nothing else: the tree
      keeps its groups, their names, keys and nesting, and its tasks. */
  lemma {:induction false} ResolveKeepsShape(g: Group, context: Option<Path>)
    ensures EraseDirs(ResolveTree(g, context)) == EraseDirs(g)
    decreases g
  {
    var r := ResolveTree(g, context);
    forall i | 0 <= i < |g.groups|
      ensures EraseDirs(r.groups[i]) == EraseDirs(g.groups[i])
    {
      ResolveForestAt(g.groups, context, i);
      ResolveKeepsShape(g.groups[i], context);
    }
    forall i | 0 <= i < |g.tasks|
      ensures r.tasks[i].(workingDir := None) == g.tasks[i].(workingDir := None)
    {
      assert r.tasks[i] == ResolveTask(g.tasks[i], context);
    }
  }

  /** Every working directory in the rewritten tree is absolute when the
      defining file's directory is: relative ones were joined onto it. */
  lemma AbsoluteAfterResolve(g: Group, dir: Path)
    requires dir.absolute
    ensures forall t :: t in Preorder(ResolveTree(g, Some(dir))) && t.workingDir.Some? ==> t.workingDir.value.absolute
  {
    ResolvePreorder(g, Some(dir));
  }

  /** Rewriting again against the same absolute directory changes nothing. */
  lemma ResolveTwice(g: Group, dir: Path)
    requires dir.absolute
    ensures Preorder(ResolveTree(ResolveTree(g, Some(dir)), Some(dir))) == Preorder(ResolveTree(g, Some(dir)))
  {
    var once := ResolveTree(g, Some(dir));
    ResolvePreorder(once, Some(dir));
    ResolvePreorder(g, Some(dir));
  }

  /** `.ttr.yaml`, the name of a configuration file (src/main.rs:47). */
  const ConfigName := Path(false, [".ttr.yaml"])

  /** `tasks_from_file` after parsing: the root group `ROOT`/`_` holding the
      file's groups and tasks, with working directories taken relative to
      the directory of `file` (src/main.rs:310-332). */
  function RootFromFile(file: Path, groups: seq<Group>, tasks: seq<Task>): (r: Group)
    ensures r.name == "ROOT" && r.key == '_'
    ensures EraseDirs(r) == EraseDirs(Group("ROOT", '_', groups, tasks))
    ensures Preorder(r) == ResolveAll(Preorder(Group("ROOT", '_', groups, tasks)), Parent(file))
  {
    ResolveKeepsShape(Group("ROOT", '_', groups, tasks), Parent(file));
    ResolvePreorder(Group("ROOT", '_', groups, tasks), Parent(file));
    ResolveTree(Group("ROOT", '_', groups, tasks), Parent(file))
  }

  /** A configuration file found in directory `d` resolves working
      directories against `d` itself. */
  lemma ConfigFileContext(d: Path)
    ensures Parent(Join(d, ConfigName)) == Some(d)
  {
    var f := Join(d, ConfigName);
    assert f.parts[..|f.parts| - 1] == d.parts;
  }
}
