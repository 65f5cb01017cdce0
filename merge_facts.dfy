/** What `merge_groups` guarantees about priority and collisions, stated
    against independent reference definitions and proved about the fold that
    `Merge.MergeGroups` is verified against. */
module MergeFacts {
  import opened Entities
  import opened Merge

  // ------------------------------------------------ reference definitions

  /** The keys of a list of child groups. */
  function ChildKeys(cs: seq<Group>): set<char> {
    set c | c in cs :: c.key
  }

  /** The keys of every child group of every input in `gs`. */
  function GroupKeysOf(gs: seq<Group>): set<char>
    decreases |gs|
  {
    if gs == [] then {} else GroupKeysOf(gs[..|gs| - 1]) + ChildKeys(gs[|gs| - 1].groups)
  }

  /** The child groups of `cs` that carry key `k`, in order. */
  function WithKey(cs: seq<Group>, k: char): seq<Group>
    decreases |cs|
  {
    if cs == [] then []
    else WithKey(cs[..|cs| - 1], k) + (if cs[|cs| - 1].key == k then [cs[|cs| - 1]] else [])
  }

  /** Every child group with key `k` across the inputs, in input order. */
  function AllWithKey(gs: seq<Group>, k: char): seq<Group>
    decreases |gs|
  {
    if gs == [] then [] else AllWithKey(gs[..|gs| - 1], k) + WithKey(gs[|gs| - 1].groups, k)
  }

  /** The tasks of `ts` whose key is not shadowed, in order. */
  function Unshadowed(ts: seq<Task>, shadow: set<char>): seq<Task>
    decreases |ts|
  {
    if ts == [] then []
    else Unshadowed(ts[..|ts| - 1], shadow) + (if ts[|ts| - 1].key in shadow then [] else [ts[|ts| - 1]])
  }

  /** The candidate tasks in priority order: the tasks of input `i` whose key
      is not the key of a child group of any input `0..i`. */
  function Eligible(gs: seq<Group>): seq<Task>
    decreases |gs|
  {
    if gs == [] then [] else Eligible(gs[..|gs| - 1]) + Unshadowed(gs[|gs| - 1].tasks, GroupKeysOf(gs))
  }

  predicate HasKey(ts: seq<Task>, k: char) {
    exists i :: 0 <= i < |ts| && ts[i].key == k
  }

  /** `t` is the first task of `ts` with key `k`. */
  predicate IsFirstWithKey(ts: seq<Task>, k: char, t: Task) {
    exists i :: 0 <= i < |ts| && ts[i] == t && t.key == k && forall j :: 0 <= j < i ==> ts[j].key != k
  }

  // ---------------------------------------------------------- the buckets

  lemma WithKeyEmpty(cs: seq<Group>, k: char)
    requires k !in ChildKeys(cs)
    ensures WithKey(cs, k) == []
    decreases |cs|
  {
    if cs != [] {
      assert cs[|cs| - 1] in cs;
      assert forall c :: c in cs[..|cs| - 1] ==> c in cs;
      WithKeyEmpty(cs[..|cs| - 1], k);
    }
  }

  lemma ChildKeysSnoc(cs: seq<Group>)
    requires cs != []
    ensures ChildKeys(cs) == ChildKeys(cs[..|cs| - 1]) + {cs[|cs| - 1].key}
  {
    assert cs == cs[..|cs| - 1] + [cs[|cs| - 1]];
    forall k | k in ChildKeys(cs)
      ensures k in ChildKeys(cs[..|cs| - 1]) + {cs[|cs| - 1].key}
    {
      var c :| c in cs && c.key == k;
      var i :| 0 <= i < |cs| && cs[i] == c;
      if i < |cs| - 1 {
        assert cs[..|cs| - 1][i] == c;
      }
    }
  }

  /** Registering child groups appends exactly the groups of each key to that
      key's bucket; no other bucket changes. */
  lemma {:induction false} RegisterGroupsSpec(b: map<char, seq<Group>>, cs: seq<Group>, k: char)
    ensures k in RegisterGroups(b, cs) <==> k in b || k in ChildKeys(cs)
    ensures Bucket(RegisterGroups(b, cs), k) == Bucket(b, k) + WithKey(cs, k)
    decreases |cs|
  {
    if cs == [] {
      assert ChildKeys(cs) == {};
    } else {
      var c := cs[|cs| - 1];
      RegisterGroupsSpec(b, cs[..|cs| - 1], k);
      ChildKeysSnoc(cs);
      if c.key != k && k !in b && k !in ChildKeys(cs[..|cs| - 1]) {
        WithKeyEmpty(cs[..|cs| - 1], k);
      }
    }
  }

  /** The bucket of key `k` after the pass holds every child group with key
      `k`, from every kept input, in input order; a key has a bucket exactly
      when some input has a child group with that key (src/main.rs:273-279). */
  lemma {:induction false} BucketsCollectSameKey(gs: seq<Group>, k: char)
    ensures k in Fold(gs).buckets <==> k in GroupKeysOf(gs)
    ensures Bucket(Fold(gs).buckets, k) == AllWithKey(gs, k)
    decreases |gs|
  {
    if gs != [] {
      BucketsCollectSameKey(gs[..|gs| - 1], k);
      RegisterGroupsSpec(Fold(gs[..|gs| - 1]).buckets, gs[|gs| - 1].groups, k);
    }
  }

  lemma BucketKeys(gs: seq<Group>)
    ensures Fold(gs).buckets.Keys == GroupKeysOf(gs)
  {
    forall k | k in Fold(gs).buckets.Keys || k in GroupKeysOf(gs)
      ensures k in Fold(gs).buckets.Keys && k in GroupKeysOf(gs)
    {
      BucketsCollectSameKey(gs, k);
    }
  }

  // ------------------------------------------------------------ the tasks

  /** Inserting tasks keeps every existing entry and adds, for each new key,
      the first unshadowed task with that key. */
  lemma {:induction false} InsertTasksSpec(t: map<char, Task>, shadow: set<char>, ts: seq<Task>, k: char)
    ensures k in InsertTasks(t, shadow, ts) <==> k in t || HasKey(Unshadowed(ts, shadow), k)
    ensures k in t ==> InsertTasks(t, shadow, ts)[k] == t[k]
    ensures k in InsertTasks(t, shadow, ts) && k !in t ==>
      IsFirstWithKey(Unshadowed(ts, shadow), k, InsertTasks(t, shadow, ts)[k])
    decreases |ts|
  {
    if ts != [] {
      var ts', x := ts[..|ts| - 1], ts[|ts| - 1];
      var r', u' := InsertTasks(t, shadow, ts'), Unshadowed(ts', shadow);
      var r, u := InsertTasks(t, shadow, ts), Unshadowed(ts, shadow);
      InsertTasksSpec(t, shadow, ts', k);
      if x.key in shadow {
        assert u == u';
      } else {
        assert u == u' + [x];
        if HasKey(u', k) {
          var i :| 0 <= i < |u'| && u'[i].key == k;
          assert u[i].key == k;
        }
        if k == x.key {
          assert u[|u'|].key == k;
        }
        if HasKey(u, k) && !HasKey(u', k) {
          var i :| 0 <= i < |u| && u[i].key == k;
          assert i == |u'| && k == x.key;
        }
        if k in r && k !in t {
          if k in r' {
            var i :| 0 <= i < |u'| && u'[i] == r'[k] && r'[k].key == k && forall j :: 0 <= j < i ==> u'[j].key != k;
            assert u[i] == r[k];
          } else {
            assert r[k] == x && u[|u'|] == x;
            assert forall j :: 0 <= j < |u'| ==> u[j].key != k;
          }
        }
      }
    }
  }

  lemma HasKeyConcat(a: seq<Task>, b: seq<Task>, k: char)
    ensures HasKey(a + b, k) <==> HasKey(a, k) || HasKey(b, k)
  {
    if HasKey(a + b, k) {
      var i :| 0 <= i < |a + b| && (a + b)[i].key == k;
      if i >= |a| { assert b[i - |a|].key == k; }
    }
    if HasKey(a, k) {
      var i :| 0 <= i < |a| && a[i].key == k;
      assert (a + b)[i].key == k;
    }
    if HasKey(b, k) {
      var i :| 0 <= i < |b| && b[i].key == k;
      assert (a + b)[|a| + i].key == k;
    }
  }

  /** The first task wins: after the pass, key `k` holds a task exactly when
      some eligible task has key `k`, and then it holds the first one in
      priority order (src/main.rs:254-256, 281-287). */
  lemma {:induction false} FirstEligibleTaskWins(gs: seq<Group>, k: char)
    ensures k in Fold(gs).tasks <==> HasKey(Eligible(gs), k)
    ensures k in Fold(gs).tasks ==> IsFirstWithKey(Eligible(gs), k, Fold(gs).tasks[k])
    decreases |gs|
  {
    if gs != [] {
      var prev, g := gs[..|gs| - 1], gs[|gs| - 1];
      var t := Fold(prev).tasks;
      var b := RegisterGroups(Fold(prev).buckets, g.groups);
      var e', u := Eligible(prev), Unshadowed(g.tasks, GroupKeysOf(gs));
      FirstEligibleTaskWins(prev, k);
      BucketKeys(gs);
      assert b.Keys == GroupKeysOf(gs);
      InsertTasksSpec(t, b.Keys, g.tasks, k);
      HasKeyConcat(e', u, k);
      var m := Fold(gs).tasks;
      if k in m {
        if k in t {
          FirstWithKeyLeft(e', u, k, t[k]);
        } else {
          FirstWithKeyRight(e', u, k, m[k]);
        }
      }
    }
  }

  lemma FirstWithKeyLeft(a: seq<Task>, b: seq<Task>, k: char, x: Task)
    requires IsFirstWithKey(a, k, x)
    ensures IsFirstWithKey(a + b, k, x)
  {
    var i :| 0 <= i < |a| && a[i] == x && x.key == k && forall j :: 0 <= j < i ==> a[j].key != k;
    assert (a + b)[i] == x;
  }

  lemma FirstWithKeyRight(a: seq<Task>, b: seq<Task>, k: char, x: Task)
    requires !HasKey(a, k) && IsFirstWithKey(b, k, x)
    ensures IsFirstWithKey(a + b, k, x)
  {
    var i :| 0 <= i < |b| && b[i] == x && x.key == k && forall j :: 0 <= j < i ==> b[j].key != k;
    assert (a + b)[|a| + i] == x;
    forall j | 0 <= j < |a| + i
      ensures (a + b)[j].key != k
    {
      if j >= |a| {
        assert (a + b)[j] == b[j - |a|];
      }
    }
  }

  lemma UnshadowedOrigin(ts: seq<Task>, shadow: set<char>, t: Task)
    requires t in Unshadowed(ts, shadow)
    ensures t in ts && t.key !in shadow
    decreases |ts|
  {
    if ts != [] {
      if t in Unshadowed(ts[..|ts| - 1], shadow) {
        UnshadowedOrigin(ts[..|ts| - 1], shadow, t);
      }
    }
  }

  /** Every eligible task comes from some input `i` whose key is not a child
      group key of inputs `0..i`. */
  lemma {:induction false} EligibleOrigin(gs: seq<Group>, t: Task)
    requires t in Eligible(gs)
    ensures exists i :: 0 <= i < |gs| && t in gs[i].tasks && t.key !in GroupKeysOf(gs[..i + 1])
    decreases |gs|
  {
    var prev := gs[..|gs| - 1];
    if t in Eligible(prev) {
      EligibleOrigin(prev, t);
      var i :| 0 <= i < |prev| && t in prev[i].tasks && t.key !in GroupKeysOf(prev[..i + 1]);
      OriginInPrefix(gs, prev, i, t);
    } else {
      OriginInLast(gs, t);
    }
  }

  lemma {:induction false} OriginInPrefix(gs: seq<Group>, prev: seq<Group>, i: nat, t: Task)
    requires gs != [] && prev == gs[..|gs| - 1] && i < |prev|
    requires t in prev[i].tasks && t.key !in GroupKeysOf(prev[..i + 1])
    ensures i < |gs| && t in gs[i].tasks && t.key !in GroupKeysOf(gs[..i + 1])
  {
    assert forall j :: 0 <= j <= i ==> prev[j] == gs[j];
    assert prev[..i + 1] == gs[..i + 1];
  }

  lemma {:induction false} OriginInLast(gs: seq<Group>, t: Task)
    requires gs != [] && t in Eligible(gs) && t !in Eligible(gs[..|gs| - 1])
    ensures t in gs[|gs| - 1].tasks && t.key !in GroupKeysOf(gs[..|gs|])
  {
    var n := |gs|;
    assert Eligible(gs) == Eligible(gs[..n - 1]) + Unshadowed(gs[n - 1].tasks, GroupKeysOf(gs));
    assert t in Unshadowed(gs[n - 1].tasks, GroupKeysOf(gs));
    UnshadowedOrigin(gs[n - 1].tasks, GroupKeysOf(gs), t);
    assert gs[..n] == gs;
  }

  /** The child group keys of input `j` are among those of any prefix that
      contains it. */
  lemma {:induction false} GroupKeysOfContains(gs: seq<Group>, j: nat)
    requires j < |gs|
    ensures ChildKeys(gs[j].groups) <= GroupKeysOf(gs)
    decreases |gs|
  {
    if j < |gs| - 1 {
      GroupKeysOfContains(gs[..|gs| - 1], j);
    }
  }

  /** A task from input `i` is dropped whenever an input at index `<= i` has
      a child group with the same key: so the task kept for a key always comes
      from an input BEFORE every input that has a group with that key
      (src/main.rs:273-287). */
  lemma KeptTaskPrecedesGroup(gs: seq<Group>, k: char, j: nat)
    requires j < |gs| && k in ChildKeys(gs[j].groups)
    requires k in Fold(gs).tasks
    ensures exists i :: 0 <= i < j && Fold(gs).tasks[k] in gs[i].tasks
  {
    var t := Fold(gs).tasks[k];
    FirstEligibleTaskWins(gs, k);
    assert t in Eligible(gs);
    EligibleOrigin(gs, t);
    var i :| 0 <= i < |gs| && t in gs[i].tasks && t.key !in GroupKeysOf(gs[..i + 1]);
    if j <= i {
      GroupKeysOfContains(gs[..i + 1], j);
      assert false;
    }
  }

  // ---------------------------------------------------- the merged result

  /** What a merge of two or more peer inputs holds: for each key the first
      eligible task, and for each key of any input's child group the merge of
      every child group with that key, in input order. */
  lemma MergeResultSpec(r: Group, gs: seq<Group>)
    requires gs != [] && IsMergeOf(r, gs)
    requires |Peers(gs, gs[0].name, gs[0].key)| >= 2
    ensures var ps := Peers(gs, gs[0].name, gs[0].key);
      && (forall i :: 0 <= i < |r.tasks| ==> IsFirstWithKey(Eligible(ps), r.tasks[i].key, r.tasks[i]))
      && (forall k :: HasKey(Eligible(ps), k) ==> exists i :: 0 <= i < |r.tasks| && r.tasks[i].key == k)
      && (forall k :: k in GroupKeysOf(ps) ==> exists i :: 0 <= i < |r.groups| && r.groups[i].key == k)
      && (forall i :: 0 <= i < |r.groups| ==>
            r.groups[i].key in GroupKeysOf(ps) && IsMergeOf(r.groups[i], AllWithKey(ps, r.groups[i].key)))
  {
    var ps := Peers(gs, gs[0].name, gs[0].key);
    var s := Fold(ps);
    FoldTaskKeys(ps);
    forall i | 0 <= i < |r.tasks|
      ensures IsFirstWithKey(Eligible(ps), r.tasks[i].key, r.tasks[i])
    {
      FirstEligibleTaskWins(ps, r.tasks[i].key);
    }
    forall k | HasKey(Eligible(ps), k)
      ensures exists i :: 0 <= i < |r.tasks| && r.tasks[i].key == k
    {
      FirstEligibleTaskWins(ps, k);
    }
    BucketKeys(ps);
    forall i | 0 <= i < |r.groups|
      ensures IsMergeOf(r.groups[i], AllWithKey(ps, r.groups[i].key))
    {
      BucketsCollectSameKey(ps, r.groups[i].key);
    }
  }

  lemma {:induction false} PeersAppend(a: seq<Group>, b: seq<Group>, name: string, key: char)
    ensures Peers(a + b, name, key) == Peers(a, name, key) + Peers(b, name, key)
    decreases |a|
  {
    if a == [] {
      assert a + b == b;
    } else {
      assert (a + b)[1..] == a[1..] + b;
      PeersAppend(a[1..], b, name, key);
    }
  }

  lemma {:induction false} PeersIdempotent(gs: seq<Group>, name: string, key: char)
    ensures Peers(Peers(gs, name, key), name, key) == Peers(gs, name, key)
    decreases |gs|
  {
    if gs != [] {
      PeersIdempotent(gs[1..], name, key);
      if gs[0].name == name && gs[0].key == key {
        var rest := Peers(gs[1..], name, key);
        assert ([gs[0]] + rest)[1..] == rest;
      }
    }
  }

  /** Only the inputs sharing the first input's name and key matter. */
  lemma MergeOnlySeesPeers(r: Group, gs: seq<Group>)
    requires gs != []
    ensures IsMergeOf(r, gs) <==> IsMergeOf(r, Peers(gs, gs[0].name, gs[0].key))
  {
    PeersIdempotent(gs, gs[0].name, gs[0].key);
  }

  /** A non-peer input inserted anywhere leaves the peer list as it was. */
  lemma PeersInsert(gs: seq<Group>, i: nat, x: Group, name: string, key: char)
    requires i <= |gs|
    requires x.name != name || x.key != key
    ensures Peers(gs[..i] + [x] + gs[i..], name, key) == Peers(gs, name, key)
  {
    PeersAppend(gs[..i] + [x], gs[i..], name, key);
    PeersAppend(gs[..i], [x], name, key);
    PeersAppend(gs[..i], gs[i..], name, key);
    assert gs == gs[..i] + gs[i..];
    assert [x][1..] == [];
    assert Peers([x], name, key) == [];
  }

  /** Inserting, anywhere after the first input, an input whose name or key
      differs from the first input's changes nothing (src/main.rs:263-269). */
  lemma NonPeerInputIgnored(r: Group, gs: seq<Group>, i: nat, x: Group)
    requires 0 < i <= |gs|
    requires x.name != gs[0].name || x.key != gs[0].key
    ensures IsMergeOf(r, gs[..i] + [x] + gs[i..]) <==> IsMergeOf(r, gs)
  {
    var gs' := gs[..i] + [x] + gs[i..];
    assert gs'[0] == gs[0];
    PeersInsert(gs, i, x, gs[0].name, gs[0].key);
    MergeOnlySeesPeers(r, gs);
    MergeOnlySeesPeers(r, gs');
  }

  // ---------------------------------------------------------- scenarios

  lemma FoldTwo(a: Group, b: Group)
    ensures Fold([a, b]) == Absorb(Absorb(MergeState(map[], map[]), a), b)
  {
    assert [a, b][..1] == [a];
    assert [a][..0] == [];
    assert Fold([a]) == Absorb(MergeState(map[], map[]), a);
  }

  lemma RegisterOne(b: map<char, seq<Group>>, g: Group)
    ensures RegisterGroups(b, [g]) == b[g.key := Bucket(b, g.key) + [g]]
  {
    assert [g][..0] == [];
  }

  lemma InsertOne(t: map<char, Task>, shadow: set<char>, x: Task)
    ensures InsertTasks(t, shadow, [x]) == if x.key in shadow || x.key in t then t else t[x.key := x]
  {
    assert [x][..0] == [];
  }

  /** Absorbing an input that holds one task and no group. */
  lemma AbsorbTask(s: MergeState, n: string, k: char, x: Task)
    ensures Absorb(s, Group(n, k, [], [x]))
         == MergeState(if x.key in s.buckets || x.key in s.tasks then s.tasks else s.tasks[x.key := x], s.buckets)
  {
    InsertOne(s.tasks, s.buckets.Keys, x);
  }

  /** Absorbing an input that holds one group and no task. */
  lemma AbsorbGroup(s: MergeState, n: string, k: char, g: Group)
    ensures Absorb(s, Group(n, k, [g], []))
         == MergeState(s.tasks, s.buckets[g.key := Bucket(s.buckets, g.key) + [g]])
  {
    RegisterOne(s.buckets, g);
  }

  /** The merge of two peer inputs, in terms of the fold over them. */
  lemma MergeOfTwo(r: Group, a: Group, b: Group, s: MergeState)
    requires a.name == b.name && a.key == b.key
    requires IsMergeOf(r, [a, b]) && s == Fold([a, b])
    ensures TasksMatch(r.tasks, s.tasks) && GroupKeysDistinct(r.groups)
    ensures forall k :: k in s.buckets ==> exists i :: 0 <= i < |r.groups| && r.groups[i].key == k
    ensures forall i :: 0 <= i < |r.groups| ==> MergesBucket(r.groups[i], s.buckets)
  {
    assert [a, b][1..] == [b] && [b][1..] == [];
    assert Peers([a, b], a.name, a.key) == [a, b];
  }

  /** A merged task list matching an empty map holds no task. */
  lemma TasksMatchNone(ts: seq<Task>)
    requires TasksMatch(ts, map[])
    ensures forall u :: u !in ts
  {
    var none: map<char, Task> := map[];
    assert forall i :: 0 <= i < |ts| ==> ts[i].key !in none;
  }

  /** A merged group list for no bucket holds no group. */
  lemma GroupsMatchNone(gs: seq<Group>)
    requires forall i :: 0 <= i < |gs| ==> MergesBucket(gs[i], map[])
    ensures forall c :: c !in gs
  {
  }

  /** A merged task list matching a one-entry map holds exactly that task. */
  lemma TasksMatchOne(ts: seq<Task>, k: char, t: Task)
    requires t.key == k && TasksMatch(ts, map[k := t])
    ensures t in ts && forall u :: u in ts ==> u == t
  {
    assert k in map[k := t];
    var i :| 0 <= i < |ts| && ts[i].key == k;
    assert ts[i] == t;
    forall i | 0 <= i < |ts|
      ensures ts[i] == t
    {
      assert ts[i].key in map[k := t];
    }
  }

  /** A merged group list for a single bucket holding a single group holds
      exactly that group, unchanged. */
  lemma GroupsMatchOne(gs: seq<Group>, g: Group)
    requires exists i :: 0 <= i < |gs| && gs[i].key == g.key
    requires forall i :: 0 <= i < |gs| ==> MergesBucket(gs[i], map[g.key := [g]])
    ensures g in gs && forall c :: c in gs ==> c == g
  {
    assert [g][1..] == [];
    assert Peers([g], g.name, g.key) == [g];
    forall i | 0 <= i < |gs|
      ensures gs[i] == g
    {
      assert MergesBucket(gs[i], map[g.key := [g]]);
      assert IsMergeOf(gs[i], [g]);
    }
    var i :| 0 <= i < |gs| && gs[i].key == g.key;
    assert gs[i] == g;
  }

  /** Two sources both define a task with the same key: only the
      higher-priority source's task is kept, and no group appears. */
  lemma HigherPriorityTaskKept(r: Group, n: string, k: char, x: Task, y: Task)
    requires x.key == y.key
    requires IsMergeOf(r, [Group(n, k, [], [x]), Group(n, k, [], [y])])
    ensures x in r.tasks
    ensures forall t :: t in r.tasks ==> t == x
    ensures forall c :: c !in r.groups
  {    var a, b := Group(n, k, [], [x]), Group(n, k, [], [y]);
    var s := MergeState(map[x.key := x], map[]);
    AbsorbTask(MergeState(map[], map[]), n, k, x);
    AbsorbTask(s, n, k, y);
    FoldTwo(a, b);
    MergeOfTwo(r, a, b, s);
    TasksMatchOne(r.tasks, x.key, x);
    GroupsMatchNone(r.groups);
  }

  /** A group registered before a same-key task shadows the task. */
  lemma EarlierGroupShadowsTask(r: Group, n: string, k: char, g: Group, x: Task)
    requires g.key == x.key
    requires IsMergeOf(r, [Group(n, k, [g], []), Group(n, k, [], [x])])
    ensures forall t :: t !in r.tasks
    ensures g in r.groups
    ensures forall c :: c in r.groups ==> c == g
  {    var a, b := Group(n, k, [g], []), Group(n, k, [], [x]);
    var s := MergeState(map[], map[g.key := [g]]);
    AbsorbGroup(MergeState(map[], map[]), n, k, g);
    assert [] + [g] == [g];
    AbsorbTask(s, n, k, x);
    FoldTwo(a, b);
    MergeOfTwo(r, a, b, s);
    TasksMatchNone(r.tasks);
    GroupsMatchOne(r.groups, g);
  }

  /** A group that first appears in a LATER input does not shadow a task of
      an earlier input: the merged level then holds a task and a group with
      the same key, and navigation always picks the task. */
  lemma LaterGroupDoesNotShadowTask(r: Group, n: string, k: char, x: Task, g: Group)
    requires g.key == x.key
    requires IsMergeOf(r, [Group(n, k, [], [x]), Group(n, k, [g], [])])
    ensures x in r.tasks
    ensures forall t :: t in r.tasks ==> t == x
    ensures g in r.groups
    ensures forall c :: c in r.groups ==> c == g
  {    var a, b := Group(n, k, [], [x]), Group(n, k, [g], []);
    var s := MergeState(map[x.key := x], map[g.key := [g]]);
    AbsorbTask(MergeState(map[], map[]), n, k, x);
    AbsorbGroup(MergeState(map[x.key := x], map[]), n, k, g);
    assert [] + [g] == [g];
    FoldTwo(a, b);
    MergeOfTwo(r, a, b, s);
    TasksMatchOne(r.tasks, x.key, x);
    GroupsMatchOne(r.groups, g);
  }
}
