/** Configuration discovery of `read_tasks` (src/main.rs:304-368): which
    `.ttr.yaml` files are read, in which priority order, and what a failing
    one does. The file system is a parameter: `files` maps every path that
    `is_file` accepts to what parsing it yields (`None` when opening or
    parsing fails). */
module Discovery {
  import opened Entities
  import opened Traversal

  /** A parsed configuration file: its top-level groups and tasks. */
  datatype Root = Root(groups: seq<Group>, tasks: seq<Task>)

  datatype ReadError = NoCurrentDir | BadConfig(file: Path)

  datatype Result<T> = Ok(value: T) | Err(error: ReadError)

  /** `dirs::home_dir().unwrap_or("/")`: where the upward walk stops. */
  function StopDir(home: Option<Path>): Path {
    if home.Some? then home.value else Path(true, [])
  }

  /** The directories the upward walk visits: `d`, its parent, and so on,
      stopping before `stop`, or after the last directory that has no
      parent. */
  function Ancestors(d: Path, stop: Path): seq<Path>
    decreases |d.parts|
  {
    if d == stop then []
    else
      match Parent(d)
      case None => [d]
      case Some(p) => [d] + Ancestors(p, stop)
  }

  /** The configuration files of the directories `ds`, in order, that exist. */
  function ConfigsIn(ds: seq<Path>, files: map<Path, Option<Root>>): seq<Path>
    decreases |ds|
  {
    if ds == [] then []
    else
      var rest := ConfigsIn(ds[1..], files);
      if Join(ds[0], ConfigName) in files then [Join(ds[0], ConfigName)] + rest else rest
  }

  /** `~/.ttr.yaml`. */
  function HomeConfig(home: Option<Path>): Option<Path> {
    if home.Some? then Some(Join(home.value, ConfigName)) else None
  }

  /** `<config dir>/ttr/.ttr.yaml`. */
  function AppConfig(configDir: Option<Path>): Option<Path> {
    if configDir.Some? then Some(Join(Join(configDir.value, Path(false, ["ttr"])), ConfigName)) else None
  }

  function IfFile(p: Option<Path>, files: map<Path, Option<Root>>): seq<Path> {
    if p.Some? && p.value in files then [p.value] else []
  }

  /** Every configuration file `read_tasks` reads, highest priority first:
      those found walking up from the current directory, then the one in the
      home directory, then the one in the user configuration directory. */
  function Discovered(cwd: Path, home: Option<Path>, configDir: Option<Path>, files: map<Path, Option<Root>>): seq<Path> {
    ConfigsIn(Ancestors(cwd, StopDir(home)), files) + IfFile(HomeConfig(home), files) + IfFile(AppConfig(configDir), files)
  }

  /** `tasks_from_file`: the root group of one configuration file, or
      `None` when it cannot be opened or parsed. By `RootFromFile`, the group
      is the file's own tree with only its working directories rewritten. */
  function LoadOne(p: Path, files: map<Path, Option<Root>>): (r: Option<Group>)
    ensures r.Some? ==> r.value.name == "ROOT" && r.value.key == '_'
    ensures r.None? <==> p !in files || files[p].None?
    ensures r.Some? ==> r.value == RootFromFile(p, files[p].value.groups, files[p].value.tasks)
  {
    if p in files && files[p].Some? then Some(RootFromFile(p, files[p].value.groups, files[p].value.tasks)) else None
  }

  /** The root groups read from `ps`, in order, or the first of them that
      fails. */
  function LoadAll(ps: seq<Path>, files: map<Path, Option<Root>>): Result<seq<Group>>
    decreases |ps|
  {
    if ps == [] then Ok([])
    else
      match LoadOne(ps[0], files)
      case None => Err(BadConfig(ps[0]))
      case Some(g) =>
        var rest := LoadAll(ps[1..], files);
        if rest.Err? then rest else Ok([g] + rest.value)
  }

  /** The directories still to visit when the walk is at `dir`. */
  function Pending(dir: Option<Path>, stop: Path): seq<Path> {
    if dir.Some? then Ancestors(dir.value, stop) else []
  }

  /** The `while let` loop of `read_tasks`: visits `start` and its
      ancestors until `stop`, reading each configuration file found. */
  method WalkUp(start: Path, stop: Path, files: map<Path, Option<Root>>) returns (r: Result<seq<Group>>)
    ensures r == LoadAll(ConfigsIn(Ancestors(start, stop), files), files)
  {
    var tasks: seq<Group> := [];
    var dir := Some(start);
    ghost var seen: seq<Path> := [];
    while dir.Some?
      invariant seen + ConfigsIn(Pending(dir, stop), files) == ConfigsIn(Ancestors(start, stop), files)
      invariant LoadAll(seen, files) == Ok(tasks)
      decreases if dir.Some? then |dir.value.parts| + 1 else 0
    {
      var d := dir.value;
      if d == stop {
        break;
      }
      var config := Join(d, ConfigName);
      ghost var above := Pending(Parent(d), stop);
      assert Ancestors(d, stop) == [d] + above;
      assert ([d] + above)[1..] == above;
      if config in files {
        assert ConfigsIn(Pending(dir, stop), files) == [config] + ConfigsIn(above, files);
        var loaded := LoadOne(config, files);
        if loaded.None? {
          LoadAllPrefixErr(seen, config, ConfigsIn(above, files), files);
          assert seen + [config] + ConfigsIn(above, files) == ConfigsIn(Ancestors(start, stop), files);
          return Err(BadConfig(config));
        }
        LoadAllSnoc(seen, config, files, tasks);
        tasks := tasks + [loaded.value];
        seen := seen + [config];
      }
      dir := Parent(d);
    }
    assert seen == ConfigsIn(Ancestors(start, stop), files);
    return Ok(tasks);
  }

  /** `read_tasks`: the upward walk, then the file in the home directory,
      then the one in the configuration directory; the first file that
      fails to open or parse aborts the whole read. */
  method ReadTasks(cwd: Option<Path>, home: Option<Path>, configDir: Option<Path>, files: map<Path, Option<Root>>)
    returns (r: Result<seq<Group>>)
    ensures cwd.None? ==> r == Err(NoCurrentDir)
    ensures cwd.Some? ==> r == LoadAll(Discovered(cwd.value, home, configDir, files), files)
  {
    if cwd.None? {
      return Err(NoCurrentDir);
    }
    var walked := ConfigsIn(Ancestors(cwd.value, StopDir(home)), files);
    var homeFile, appFile := IfFile(HomeConfig(home), files), IfFile(AppConfig(configDir), files);
    LoadAllAppend(walked, homeFile, files);
    LoadAllAppend(walked + homeFile, appFile, files);
    assert Discovered(cwd.value, home, configDir, files) == walked + homeFile + appFile;
    r := WalkUp(cwd.value, StopDir(home), files);
    if r.Err? {
      return;
    }

    // ~/.ttr.yaml
    var homeConfig := HomeConfig(home);
    if homeConfig.Some? && homeConfig.value in files {
      var loaded := LoadOne(homeConfig.value, files);
      LoadAllOne(homeConfig.value, files);
      if loaded.None? {
        assert LoadAll(walked + homeFile, files) == Err(BadConfig(homeConfig.value));
        return Err(BadConfig(homeConfig.value));
      }
      r := Ok(r.value + [loaded.value]);
    } else {
      assert homeFile == [] && r.value + [] == r.value;
    }
    assert r == LoadAll(walked + homeFile, files);

    // <config dir>/ttr/.ttr.yaml
    var appConfig := AppConfig(configDir);
    if appConfig.Some? && appConfig.value in files {
      var loaded := LoadOne(appConfig.value, files);
      LoadAllOne(appConfig.value, files);
      if loaded.None? {
        assert LoadAll(appFile, files) == Err(BadConfig(appConfig.value));
        return Err(BadConfig(appConfig.value));
      }
      r := Ok(r.value + [loaded.value]);
    } else {
      assert appFile == [] && r.value + [] == r.value;
    }
  }

  lemma LoadAllOne(p: Path, files: map<Path, Option<Root>>)
    ensures LoadAll([p], files) == if LoadOne(p, files).None? then Err(BadConfig(p)) else Ok([LoadOne(p, files).value])
  {
    assert [p][1..] == [];
    if LoadOne(p, files).Some? {
      assert [LoadOne(p, files).value] + [] == [LoadOne(p, files).value];
    }
  }

  /** Reading two lists of files one after the other. */
  lemma {:induction false} LoadAllAppend(a: seq<Path>, b: seq<Path>, files: map<Path, Option<Root>>)
    ensures LoadAll(a + b, files) ==
      if LoadAll(a, files).Err? then LoadAll(a, files)
      else if LoadAll(b, files).Err? then LoadAll(b, files)
      else Ok(LoadAll(a, files).value + LoadAll(b, files).value)
    decreases |a|
  {
    if a == [] {
      assert a + b == b;
      if LoadAll(b, files).Ok? {
        assert [] + LoadAll(b, files).value == LoadAll(b, files).value;
      }
    } else {
      assert (a + b)[1..] == a[1..] + b;
      LoadAllAppend(a[1..], b, files);
      var x, ra, rb := LoadOne(a[0], files), LoadAll(a[1..], files), LoadAll(b, files);
      if x.Some? && ra.Ok? && rb.Ok? {
        assert [x.value] + (ra.value + rb.value) == ([x.value] + ra.value) + rb.value;
      }
    }
  }

  lemma {:induction false} LoadAllSnoc(ps: seq<Path>, p: Path, files: map<Path, Option<Root>>, gs: seq<Group>)
    requires LoadOne(p, files).Some? && LoadAll(ps, files) == Ok(gs)
    ensures LoadAll(ps + [p], files) == Ok(gs + [LoadOne(p, files).value])
    decreases |ps|
  {
    if ps == [] {
      assert ps + [p] == [p];
      LoadAllOne(p, files);
      assert gs == [];
      assert gs + [LoadOne(p, files).value] == [LoadOne(p, files).value];
    } else {
      assert (ps + [p])[1..] == ps[1..] + [p];
      var rest := LoadAll(ps[1..], files).value;
      LoadAllSnoc(ps[1..], p, files, rest);
      assert gs == [LoadOne(ps[0], files).value] + rest;
      assert [LoadOne(ps[0], files).value] + (rest + [LoadOne(p, files).value]) == gs + [LoadOne(p, files).value];
    }
  }

  lemma {:induction false} LoadAllPrefixErr(ps: seq<Path>, p: Path, q: seq<Path>, files: map<Path, Option<Root>>)
    requires LoadOne(p, files).None? && LoadAll(ps, files).Ok?
    ensures LoadAll(ps + [p] + q, files) == Err(BadConfig(p))
    decreases |ps|
  {
    if ps == [] {
      assert ps + [p] + q == [p] + q;
    } else {
      assert (ps + [p] + q)[1..] == ps[1..] + [p] + q;
      LoadAllPrefixErr(ps[1..], p, q, files);
    }
  }

  // ------------------------------------------------------------ properties

  /** The walk visits `d` first, then each next ancestor: nearer directories
      come first, so their configuration takes priority. */
  lemma {:induction false} AncestorsNearestFirst(d: Path, stop: Path)
    ensures forall i :: 0 <= i < |Ancestors(d, stop)| ==>
      Ancestors(d, stop)[i].absolute == d.absolute &&
      Ancestors(d, stop)[i].parts <= d.parts && |Ancestors(d, stop)[i].parts| + i == |d.parts|
    decreases |d.parts|
  {
    if d == stop {
      assert Ancestors(d, stop) == [];
    } else if Parent(d).None? {
      assert Ancestors(d, stop) == [d];
    } else {
      var p := Parent(d).value;
      AncestorsNearestFirst(p, stop);
      assert p.parts <= d.parts;
      assert Ancestors(d, stop) == [d] + Ancestors(p, stop);
      forall i | 0 < i < |Ancestors(d, stop)|
        ensures Ancestors(d, stop)[i].absolute == d.absolute
        ensures Ancestors(d, stop)[i].parts <= d.parts && |Ancestors(d, stop)[i].parts| + i == |d.parts|
      {
        assert Ancestors(d, stop)[i] == Ancestors(p, stop)[i - 1];
      }
    }
  }

  /** The walk stops before the stop directory: it never visits it. */
  lemma {:induction false} StopNotVisited(d: Path, stop: Path)
    ensures stop !in Ancestors(d, stop)
    decreases |d.parts|
  {
    if d != stop && Parent(d).Some? {
      StopNotVisited(Parent(d).value, stop);
    }
  }

  /** Started inside the home directory, the walk visits exactly the
      directories strictly between the current directory and home. */
  lemma {:induction false} WalkStaysBelowHome(d: Path, home: Path)
    requires d.absolute == home.absolute && |home.parts| <= |d.parts| && d.parts[..|home.parts|] == home.parts
    ensures |Ancestors(d, home)| == |d.parts| - |home.parts|
    ensures forall i :: 0 <= i < |Ancestors(d, home)| ==>
      |home.parts| < |Ancestors(d, home)[i].parts| && Ancestors(d, home)[i].parts[..|home.parts|] == home.parts
    decreases |d.parts|
  {
    if |d.parts| == |home.parts| {
      assert d.parts == d.parts[..|home.parts|];
      assert d == home;
    } else {
      assert d != home;
      var p := Parent(d).value;
      assert p.parts == d.parts[..|d.parts| - 1];
      assert p.parts[..|home.parts|] == home.parts;
      WalkStaysBelowHome(p, home);
      var a := Ancestors(d, home);
      forall i | 0 <= i < |a|
        ensures |home.parts| < |a[i].parts| && a[i].parts[..|home.parts|] == home.parts
      {
        if i > 0 {
          assert a[i] == Ancestors(p, home)[i - 1];
        }
      }
    }
  }

  /** The files found in `ds` are files, each the configuration file of one
      of the directories. */
  lemma {:induction false} ConfigsInOrigin(ds: seq<Path>, files: map<Path, Option<Root>>)
    ensures forall c :: c in ConfigsIn(ds, files) ==> c in files && exists i :: 0 <= i < |ds| && c == Join(ds[i], ConfigName)
    decreases |ds|
  {
    if ds != [] {
      ConfigsInOrigin(ds[1..], files);
      forall c | c in ConfigsIn(ds, files)
        ensures c in files && exists i :: 0 <= i < |ds| && c == Join(ds[i], ConfigName)
      {
        if c != Join(ds[0], ConfigName) {
          var i :| 0 <= i < |ds[1..]| && c == Join(ds[1..][i], ConfigName);
          assert c == Join(ds[i + 1], ConfigName);
        }
      }
    }
  }

  /** Every file read exists and is named `.ttr.yaml`. */
  lemma DiscoveredAreConfigFiles(cwd: Path, home: Option<Path>, configDir: Option<Path>, files: map<Path, Option<Root>>)
    ensures forall c :: c in Discovered(cwd, home, configDir, files) ==>
      c in files && |c.parts| > 0 && c.parts[|c.parts| - 1] == ".ttr.yaml"
  {
    var a := Ancestors(cwd, StopDir(home));
    ConfigsInOrigin(a, files);
    forall c | c in Discovered(cwd, home, configDir, files)
      ensures c in files && |c.parts| > 0 && c.parts[|c.parts| - 1] == ".ttr.yaml"
    {
      if c in ConfigsIn(a, files) {
        var i :| 0 <= i < |a| && c == Join(a[i], ConfigName);
      }
    }
  }

  /** The home directory's configuration is read once, even when the current
      directory lies inside home: the upward walk stops before reaching it.
      (When the configuration directory's file is that same path, the source
      reads it a second time.) */
  lemma HomeConfigReadOnce(cwd: Path, home: Path, configDir: Option<Path>, files: map<Path, Option<Root>>)
    requires Join(home, ConfigName) in files
    requires AppConfig(configDir) != Some(Join(home, ConfigName))
    ensures Join(home, ConfigName) !in ConfigsIn(Ancestors(cwd, home), files)
    ensures multiset(Discovered(cwd, Some(home), configDir, files))[Join(home, ConfigName)] == 1
  {
    var h := Join(home, ConfigName);
    var a := Ancestors(cwd, home);
    ConfigsInOrigin(a, files);
    StopNotVisited(cwd, home);
    var walk, own, app := ConfigsIn(a, files), IfFile(HomeConfig(Some(home)), files), IfFile(AppConfig(configDir), files);
    assert own == [h];
    assert h !in app;
    assert Discovered(cwd, Some(home), configDir, files) == walk + own + app;
    assert multiset(walk)[h] == 0 && multiset(app)[h] == 0;
  }
}
