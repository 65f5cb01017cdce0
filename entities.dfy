/** The task/group tree of ttr: a `Group` is a menu node, a `Task` a leaf
    action bound to a single-character key (src/main.rs:51-92). */
module Entities {

  datatype Option<T> = None | Some(value: T)

  /** A file-system path: absolute or relative, made of its components.
      `/` is `Path(true, [])` and the empty relative path is `Path(false, [])`. */
  datatype Path = Path(absolute: bool, parts: seq<string>)

  /** `Path::join`: a relative `p` is appended to `base`; an absolute `p`
      replaces `base` entirely. */
  function Join(base: Path, p: Path): (r: Path)
    ensures p.absolute ==> r == p
    ensures !p.absolute ==> |r.parts| == |base.parts| + |p.parts| && r.absolute == base.absolute
    ensures !p.absolute ==> r.parts[..|base.parts|] == base.parts && r.parts[|base.parts|..] == p.parts
  {
    if p.absolute then p else Path(base.absolute, base.parts + p.parts)
  }

  /** `Path::parent`: `None` for `/` and for the empty path, otherwise the
      path without its last component. */
  function Parent(p: Path): (r: Option<Path>)
    ensures r.None? <==> p.parts == []
    ensures r.Some? ==> r.value.absolute == p.absolute && r.value.parts + [p.parts[|p.parts| - 1]] == p.parts
  {
    if p.parts == [] then None else Some(Path(p.absolute, p.parts[..|p.parts| - 1]))
  }

  datatype Task = Task(
    name: string,
    key: char,
    cmd: string,
    confirm: bool,
    clear: bool,
    workingDir: Option<Path>,
    env: map<string, string>,
    clearEnv: bool)

  datatype Group = Group(name: string, key: char, groups: seq<Group>, tasks: seq<Task>)
  {
    /** `Group::is_empty`: no child groups and no child tasks. */
    predicate IsEmpty() {
      tasks == [] && groups == []
    }
  }

  /** `Group::default()`: empty name, the NUL key, no children. */
  const EmptyGroup := Group("", '\0', [], [])

  /** Every task of the tree rooted at `g`, counted with multiplicity. */
  function TreeTasks(g: Group): multiset<Task>
    decreases g, 1
  {
    multiset(g.tasks) + ForestTasks(g.groups)
  }

  function ForestTasks(gs: seq<Group>): multiset<Task>
    decreases gs, 0
  {
    if gs == [] then multiset{} else ForestTasks(gs[..|gs| - 1]) + TreeTasks(gs[|gs| - 1])
  }

  /** Number of group nodes of a tree: the measure the traversal shrinks. */
  function Size(g: Group): nat
    decreases g, 1
  {
    1 + ForestSize(g.groups)
  }

  function ForestSize(gs: seq<Group>): nat
    decreases gs, 0
  {
    if gs == [] then 0 else ForestSize(gs[..|gs| - 1]) + Size(gs[|gs| - 1])
  }

  /** Height of a tree: the measure the recursive merge shrinks. */
  function Height(g: Group): nat
    decreases g, 1
  {
    1 + MaxHeight(g.groups)
  }

  function MaxHeight(gs: seq<Group>): nat
    decreases gs, 0
  {
    if gs == [] then 0
    else
      var h, rest := Height(gs[|gs| - 1]), MaxHeight(gs[..|gs| - 1]);
      if h < rest then rest else h
  }

  lemma {:induction false} ForestTasksAppend(a: seq<Group>, b: seq<Group>)
    ensures ForestTasks(a + b) == ForestTasks(a) + ForestTasks(b)
    decreases |b|
  {
    if b == [] {
      assert a + b == a;
    } else {
      ForestTasksAppend(a, b[..|b| - 1]);
      assert (a + b)[..|a + b| - 1] == a + b[..|b| - 1];
    }
  }

  lemma {:induction false} ForestSizeAppend(a: seq<Group>, b: seq<Group>)
    ensures ForestSize(a + b) == ForestSize(a) + ForestSize(b)
    decreases |b|
  {
    if b == [] {
      assert a + b == a;
    } else {
      ForestSizeAppend(a, b[..|b| - 1]);
      assert (a + b)[..|a + b| - 1] == a + b[..|b| - 1];
    }
  }

  /** A child's tasks are among its forest's tasks. */
  lemma {:induction false} ChildTasksInForest(gs: seq<Group>, i: nat)
    requires i < |gs|
    ensures TreeTasks(gs[i]) <= ForestTasks(gs)
    decreases |gs|
  {
    if i < |gs| - 1 {
      ChildTasksInForest(gs[..|gs| - 1], i);
    }
  }

  /** Every child's height is below the bound `MaxHeight` of its forest. */
  lemma {:induction false} MaxHeightBounds(gs: seq<Group>, i: nat)
    requires i < |gs|
    ensures Height(gs[i]) <= MaxHeight(gs)
    decreases |gs|
  {
    if i < |gs| - 1 {
      MaxHeightBounds(gs[..|gs| - 1], i);
    }
  }

  /** A forest whose trees are all lower than `h` has `MaxHeight` below `h`. */
  lemma {:induction false} MaxHeightBelow(gs: seq<Group>, h: nat)
    requires forall i :: 0 <= i < |gs| ==> Height(gs[i]) < h
    requires h > 0
    ensures MaxHeight(gs) < h
    decreases |gs|
  {
    if gs != [] {
      MaxHeightBelow(gs[..|gs| - 1], h);
    }
  }
}
