/** `merge_groups` (src/main.rs:254-302): fold an ordered list of root groups,
    highest priority first, into one tree.

    The fold is a single pass over the inputs. For each input its child
    groups are first registered in per-key buckets, then each of its tasks is
    skipped when its key already has a bucket and otherwise kept only if no
    earlier task holds the key. So a task survives a same-key group that only
    appears in a LATER input; the model keeps that behaviour.

    The source collects the merged children from `HashMap::into_values`, so
    their order is unspecified: `IsMergeOf` pins the children down as maps
    keyed by `char`, and `MergeGroups` picks the keys in an arbitrary order. */
module Merge {
  import opened Entities

  // ---------------------------------------------------------------- filter

  /** The inputs that `merge_groups` keeps: those with the given name and key,
      in their original order (src/main.rs:265-269). */
  function Peers(gs: seq<Group>, name: string, key: char): (r: seq<Group>)
    ensures forall g :: g in r <==> g in gs && g.name == name && g.key == key
    ensures gs != [] && gs[0].name == name && gs[0].key == key ==> r != [] && r[0] == gs[0]
    decreases |gs|
  {
    if gs == [] then []
    else if gs[0].name == name && gs[0].key == key then [gs[0]] + Peers(gs[1..], name, key)
    else Peers(gs[1..], name, key)
  }

  // ------------------------------------------------------ the single pass

  /** `HashMap::entry(k).or_default()` for the bucket map. */
  function Bucket(b: map<char, seq<Group>>, k: char): seq<Group> {
    if k in b then b[k] else []
  }

  /** Registers child groups, in order, in their key's bucket
      (src/main.rs:274-279). */
  function RegisterGroups(b: map<char, seq<Group>>, cs: seq<Group>): map<char, seq<Group>>
    decreases |cs|
  {
    if cs == [] then b
    else
      var b', c := RegisterGroups(b, cs[..|cs| - 1]), cs[|cs| - 1];
      b'[c.key := Bucket(b', c.key) + [c]]
  }

  /** Inserts tasks, in order: a task whose key has a bucket is skipped,
      otherwise the first task for a key wins (src/main.rs:281-287). */
  function InsertTasks(t: map<char, Task>, shadow: set<char>, ts: seq<Task>): map<char, Task>
    decreases |ts|
  {
    if ts == [] then t
    else
      var t', x := InsertTasks(t, shadow, ts[..|ts| - 1]), ts[|ts| - 1];
      if x.key in shadow || x.key in t' then t' else t'[x.key := x]
  }

  /** The two hash maps of `merge_groups`. */
  datatype MergeState = MergeState(tasks: map<char, Task>, buckets: map<char, seq<Group>>)

  /** One iteration of the outer loop: groups of `g` first, then its tasks,
      filtered against the buckets registered so far (including `g`'s own). */
  function Absorb(s: MergeState, g: Group): MergeState {
    var b := RegisterGroups(s.buckets, g.groups);
    MergeState(InsertTasks(s.tasks, b.Keys, g.tasks), b)
  }

  /** The state after the outer loop has absorbed every input of `gs`. */
  function Fold(gs: seq<Group>): MergeState
    decreases |gs|
  {
    if gs == [] then MergeState(map[], map[]) else Absorb(Fold(gs[..|gs| - 1]), gs[|gs| - 1])
  }

  // ------------------------------------------- the result, up to its order

  predicate TaskKeysDistinct(ts: seq<Task>) {
    forall i, j :: 0 <= i < j < |ts| ==> ts[i].key != ts[j].key
  }

  predicate GroupKeysDistinct(gs: seq<Group>) {
    forall i, j :: 0 <= i < j < |gs| ==> gs[i].key != gs[j].key
  }

  /** `ts`, in some order, is exactly the task map `m`: one task per key. */
  predicate TasksMatch(ts: seq<Task>, m: map<char, Task>) {
    && TaskKeysDistinct(ts)
    && (forall i :: 0 <= i < |ts| ==> ts[i].key in m && m[ts[i].key] == ts[i])
    && (forall k :: k in m ==> exists i :: 0 <= i < |ts| && ts[i].key == k)
  }

  /** `r` is a possible result of `merge_groups(gs)`: the source fixes
      everything about it except the order of merged children. */
  ghost predicate IsMergeOf(r: Group, gs: seq<Group>)
    decreases r
  {
    if gs == [] then r == EmptyGroup
    else
      var ps := Peers(gs, gs[0].name, gs[0].key);
      if |ps| == 1 then r == ps[0]
      else
        var s := Fold(ps);
        && r.name == gs[0].name && r.key == gs[0].key
        && TasksMatch(r.tasks, s.tasks)
        && GroupKeysDistinct(r.groups)
        && (forall k :: k in s.buckets ==> exists i :: 0 <= i < |r.groups| && r.groups[i].key == k)
        && (forall i :: 0 <= i < |r.groups| ==>
              r.groups[i].key in s.buckets && IsMergeOf(r.groups[i], s.buckets[r.groups[i].key]))
  }

  // ------------------------------------------------------------- the code

  /** Every bucket is non-empty, holds only groups of its own key, and only
      groups lower than `h`. */
  ghost predicate BucketsBelow(b: map<char, seq<Group>>, h: nat) {
    forall k :: k in b ==>
      b[k] != [] && forall j :: 0 <= j < |b[k]| ==> b[k][j].key == k && Height(b[k][j]) < h
  }

  method MergeGroups(gs: seq<Group>) returns (r: Group)
    ensures IsMergeOf(r, gs)
    ensures gs == [] ==> r == EmptyGroup
    ensures gs != [] ==> r.name == gs[0].name && r.key == gs[0].key
    ensures gs != [] && |Peers(gs, gs[0].name, gs[0].key)| == 1 ==> r == gs[0]
    decreases MaxHeight(gs), 1
  {
    if |gs| == 0 {
      return EmptyGroup;
    }
    var groupName, groupKey := gs[0].name, gs[0].key;
    var peers := Peers(gs, groupName, groupKey);
    if |peers| == 1 {
      return peers[0];
    }
    var tasks, similarGroups := SinglePass(peers);
    PeersBelow(gs, peers);
    FoldBucketsBelow(peers, MaxHeight(gs));
    BucketsLower(similarGroups, MaxHeight(gs));
    var mergedGroups := MergeBuckets(similarGroups, MaxHeight(gs));
    FoldTaskKeys(peers);
    var mergedTasks := TaskValues(tasks);
    r := Group(groupName, groupKey, mergedGroups, mergedTasks);
  }

  /** The outer `for` loop of `merge_groups` with its two inner loops
      (src/main.rs:273-288). */
  method SinglePass(peers: seq<Group>) returns (tasks: map<char, Task>, similarGroups: map<char, seq<Group>>)
    ensures MergeState(tasks, similarGroups) == Fold(peers)
  {
    tasks, similarGroups := map[], map[];
    for i := 0 to |peers|
      invariant MergeState(tasks, similarGroups) == Fold(peers[..i])
    {
      var group := peers[i];
      assert peers[..i + 1][..i] == peers[..i];
      for j := 0 to |group.groups|
        invariant similarGroups == RegisterGroups(Fold(peers[..i]).buckets, group.groups[..j])
        invariant tasks == Fold(peers[..i]).tasks
      {
        var child := group.groups[j];
        assert group.groups[..j + 1][..j] == group.groups[..j];
        similarGroups := similarGroups[child.key := Bucket(similarGroups, child.key) + [child]];
      }
      assert group.groups[..|group.groups|] == group.groups;
      for j := 0 to |group.tasks|
        invariant similarGroups == RegisterGroups(Fold(peers[..i]).buckets, group.groups)
        invariant tasks == InsertTasks(Fold(peers[..i]).tasks, similarGroups.Keys, group.tasks[..j])
      {
        var task := group.tasks[j];
        assert group.tasks[..j + 1][..j] == group.tasks[..j];
        if task.key in similarGroups {
          // key is already bound to a group
          continue;
        }
        if task.key !in tasks {
          tasks := tasks[task.key := task];
        }
      }
      assert group.tasks[..|group.tasks|] == group.tasks;
    }
    assert peers[..|peers|] == peers;
  }

  /** The keys of a hash map in the unspecified order in which iterating
      over it visits them: each key exactly once. */
  method IterationOrder<V>(m: map<char, V>) returns (ks: seq<char>)
    ensures forall i, j :: 0 <= i < j < |ks| ==> ks[i] != ks[j]
    ensures forall k :: k in m <==> k in ks
  {
    ks := [];
    var rest := m.Keys;
    while rest != {}
      invariant forall i, j :: 0 <= i < j < |ks| ==> ks[i] != ks[j]
      invariant forall k :: k in m <==> k in ks || k in rest
      invariant forall k :: k in rest ==> k !in ks
      decreases |rest|
    {
      var k :| k in rest;
      ks := ks + [k];
      rest := rest - {k};
    }
  }

  /** `m` is the merge of the bucket registered under its own key. */
  ghost predicate MergesBucket(m: Group, buckets: map<char, seq<Group>>) {
    m.key in buckets && IsMergeOf(m, buckets[m.key])
  }

  /** `similar_groups.into_values().map(merge_groups)` (src/main.rs:290-293):
      one merged group per bucket, in an unspecified order. */
  method MergeBuckets(buckets: map<char, seq<Group>>, ghost h: nat) returns (merged: seq<Group>)
    requires forall k :: k in buckets ==> buckets[k] != [] && buckets[k][0].key == k
    requires forall k :: k in buckets ==> MaxHeight(buckets[k]) < h
    ensures GroupKeysDistinct(merged)
    ensures forall k :: k in buckets ==> exists i :: 0 <= i < |merged| && merged[i].key == k
    ensures forall i :: 0 <= i < |merged| ==> MergesBucket(merged[i], buckets)
    decreases h, 0
  {
    var keys := IterationOrder(buckets);
    merged := [];
    for i := 0 to |keys|
      invariant |merged| == i
      invariant forall j :: 0 <= j < i ==> merged[j].key == keys[j]
      invariant forall j :: 0 <= j < i ==> MergesBucket(merged[j], buckets)
    {
      var m := MergeGroups(buckets[keys[i]]);
      merged := merged + [m];
    }
    forall k | k in buckets
      ensures exists i :: 0 <= i < |merged| && merged[i].key == k
    {
      var i :| 0 <= i < |keys| && keys[i] == k;
      assert merged[i].key == k;
    }
  }

  /** `tasks.into_values()` (src/main.rs:294): the kept tasks, one per key,
      in an unspecified order. */
  method TaskValues(tasks: map<char, Task>) returns (ts: seq<Task>)
    requires forall k :: k in tasks ==> tasks[k].key == k
    ensures TasksMatch(ts, tasks)
  {
    var keys := IterationOrder(tasks);
    ts := [];
    for i := 0 to |keys|
      invariant |ts| == i
      invariant forall j :: 0 <= j < i ==> ts[j] == tasks[keys[j]]
    {
      ts := ts + [tasks[keys[i]]];
    }
    forall k | k in tasks
      ensures exists i :: 0 <= i < |ts| && ts[i].key == k
    {
      var i :| 0 <= i < |keys| && keys[i] == k;
      assert ts[i].key == k;
    }
  }

  // ------------------------------------------------ facts the code relies on

  /** The kept inputs are no higher than the whole input list. */
  lemma PeersBelow(gs: seq<Group>, ps: seq<Group>)
    requires forall g :: g in ps ==> g in gs
    ensures forall i :: 0 <= i < |ps| ==> Height(ps[i]) <= MaxHeight(gs)
  {
    forall i | 0 <= i < |ps|
      ensures Height(ps[i]) <= MaxHeight(gs)
    {
      assert ps[i] in ps;
      var j :| 0 <= j < |gs| && gs[j] == ps[i];
      MaxHeightBounds(gs, j);
    }
  }

  lemma BucketsLower(b: map<char, seq<Group>>, h: nat)
    requires BucketsBelow(b, h)
    ensures forall k :: k in b ==> b[k] != [] && b[k][0].key == k && MaxHeight(b[k]) < h
  {
    forall k | k in b
      ensures MaxHeight(b[k]) < h
    {
      assert Height(b[k][0]) < h;
      MaxHeightBelow(b[k], h);
    }
  }

  /** A tree is higher than each of its children. */
  lemma ChildLower(g: Group, j: nat)
    requires j < |g.groups|
    ensures Height(g.groups[j]) < Height(g)
  {
    MaxHeightBounds(g.groups, j);
  }

  lemma {:induction false} RegisterGroupsBelow(b: map<char, seq<Group>>, g: Group, n: nat, h: nat)
    requires BucketsBelow(b, h) && n <= |g.groups| && Height(g) <= h
    ensures BucketsBelow(RegisterGroups(b, g.groups[..n]), h)
  {
    if n > 0 {
      RegisterGroupsBelow(b, g, n - 1, h);
      assert g.groups[..n][..n - 1] == g.groups[..n - 1];
      ChildLower(g, n - 1);
    }
  }

  /** Each bucket holds child groups of the inputs, so it is lower than they are. */
  lemma {:induction false} FoldBucketsBelow(ps: seq<Group>, h: nat)
    requires forall i :: 0 <= i < |ps| ==> Height(ps[i]) <= h
    ensures BucketsBelow(Fold(ps).buckets, h)
    decreases |ps|
  {
    if ps != [] {
      var last := ps[|ps| - 1];
      FoldBucketsBelow(ps[..|ps| - 1], h);
      RegisterGroupsBelow(Fold(ps[..|ps| - 1]).buckets, last, |last.groups|, h);
      assert last.groups[..|last.groups|] == last.groups;
    }
  }

  /** Every task of the map is stored under its own key. */
  lemma {:induction false} InsertTasksKeys(t: map<char, Task>, shadow: set<char>, ts: seq<Task>)
    requires forall k :: k in t ==> t[k].key == k
    ensures forall k :: k in InsertTasks(t, shadow, ts) ==> InsertTasks(t, shadow, ts)[k].key == k
    decreases |ts|
  {
    if ts != [] {
      InsertTasksKeys(t, shadow, ts[..|ts| - 1]);
      var t', x := InsertTasks(t, shadow, ts[..|ts| - 1]), ts[|ts| - 1];
      assert InsertTasks(t, shadow, ts) == if x.key in shadow || x.key in t' then t' else t'[x.key := x];
    }
  }

  lemma {:induction false} FoldTaskKeys(gs: seq<Group>)
    ensures forall k :: k in Fold(gs).tasks ==> Fold(gs).tasks[k].key == k
    decreases |gs|
  {
    if gs != [] {
      var prev := Fold(gs[..|gs| - 1]);
      FoldTaskKeys(gs[..|gs| - 1]);
      var b := RegisterGroups(prev.buckets, gs[|gs| - 1].groups);
      InsertTasksKeys(prev.tasks, b.Keys, gs[|gs| - 1].tasks);
      assert Fold(gs).tasks == InsertTasks(prev.tasks, b.Keys, gs[|gs| - 1].tasks);
    }
  }
}
