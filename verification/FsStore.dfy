/** The config directory of the file worker (fs.c): loading all config files, finding a
    config by id, and writing one back to the file it came from. */
module FsStore {
  import opened CStrings
  import opened FsConfigFile
  import opened MachineWords

  const MAX_CONFIGS: nat := 128

  /** A directory entry, in the order `readdir` gives them; `id` is the inode number,
      cast to `int`. */
  datatype DirEntry = DirEntry(name: string, id: i32, regular: bool, content: string)

  predicate Hidden(e: DirEntry) { e.name != "" && e.name[0] == '.' }

  predicate HasSuffix(s: string, suffix: string) { |s| >= |suffix| && s[|s| - |suffix|..] == suffix }

  predicate IsConfigFile(e: DirEntry) { !Hidden(e) && HasSuffix(e.name, ".conf") && e.regular }

  function ConfigOf(e: DirEntry): Option<FsConfig> {
    if IsConfigFile(e) then ParseFile(e.content, e.id) else None
  }

  /** One more parsed config joins the list while there is room. */
  function Joined(configs: seq<FsConfig>, c: Option<FsConfig>): (r: seq<FsConfig>)
    ensures |configs| <= MAX_CONFIGS ==> |r| <= MAX_CONFIGS
  {
    match c
    case None => configs
    case Some(v) => if |configs| < MAX_CONFIGS then configs + [v] else configs
  }

  /** The configs loaded: those of the config files in directory order, up to the limit. */
  function Load(dir: seq<DirEntry>): (configs: seq<FsConfig>)
    ensures |configs| <= MAX_CONFIGS
  {
    if dir == [] then [] else Joined(Load(dir[..|dir| - 1]), ConfigOf(dir[|dir| - 1]))
  }

  predicate IsFind(configs: seq<FsConfig>, id: int, r: Option<nat>) {
    match r
    case None => forall j :: 0 <= j < |configs| ==> configs[j].id != id
    case Some(k) => k < |configs| && configs[k].id == id && forall j :: 0 <= j < k ==> configs[j].id != id
  }

  function Find(configs: seq<FsConfig>, id: int): (r: Option<nat>)
    ensures IsFind(configs, id, r)
  {
    First(configs, (c: FsConfig) => c.id == id)
  }

  /** The entry a config is written to: the first visible one of its id. */
  predicate IsTarget(dir: seq<DirEntry>, id: int, r: Option<nat>) {
    match r
    case None => forall j :: 0 <= j < |dir| ==> Hidden(dir[j]) || dir[j].id != id
    case Some(k) =>
      && k < |dir| && !Hidden(dir[k]) && dir[k].id == id
      && forall j :: 0 <= j < k ==> Hidden(dir[j]) || dir[j].id != id
  }

  function Target(dir: seq<DirEntry>, id: int): (r: Option<nat>)
    ensures IsTarget(dir, id, r)
  {
    First(dir, (e: DirEntry) => !Hidden(e) && e.id == id)
  }

  /** The directory after `write_config_file`. */
  function Write(dir: seq<DirEntry>, c: FsConfig): (dir': seq<DirEntry>)
    ensures |dir'| == |dir|
  {
    match Target(dir, c.id)
    case None => dir
    case Some(k) => dir[k := dir[k].(content := Print(c))]
  }

  // ----- start and stop end to end

  /** No two visible entries share an id. */
  ghost predicate DistinctIds(dir: seq<DirEntry>) {
    forall i, j :: 0 <= i < j < |dir| && !Hidden(dir[i]) && !Hidden(dir[j]) ==> dir[i].id != dir[j].id
  }

  /** The entry that loaded config `k` was read from. */
  ghost predicate LoadedFrom(dir: seq<DirEntry>, k: nat, p: nat) {
    && p < |dir| && |Load(dir[..p])| == k < |Load(dir)|
    && ConfigOf(dir[p]) == Some(Load(dir)[k])
  }

  lemma {:induction false} EveryConfigHasAnEntry(dir: seq<DirEntry>, k: nat) returns (p: nat)
    requires k < |Load(dir)|
    ensures LoadedFrom(dir, k, p)
  {
    var front := dir[..|dir| - 1];
    if k < |Load(front)| {
      p := EveryConfigHasAnEntry(front, k);
      assert front[..p] == dir[..p];
    } else {
      p := |dir| - 1;
    }
  }

  lemma LoadedIsWellParsed(dir: seq<DirEntry>, k: nat, p: nat)
    requires LoadedFrom(dir, k, p)
    ensures var c := Load(dir)[k]; WellParsed(c) && Usable(c) && c.id == dir[p].id && !Hidden(dir[p])
  {
    ParseIsWellParsed(dir[p].content, dir[p].id);
  }

  lemma LoadStep(dir: seq<DirEntry>, q: nat)
    requires q < |dir|
    ensures Load(dir[..q + 1]) == Joined(Load(dir[..q]), ConfigOf(dir[q]))
  {
    assert dir[..q + 1][..q] == dir[..q];
  }

  lemma JoinedUpdate(configs: seq<FsConfig>, k: nat, c: FsConfig, o: Option<FsConfig>)
    requires k < |configs|
    ensures Joined(configs[k := c], o) == Joined(configs, o)[k := c]
  {
  }

  lemma JoinedLast(configs: seq<FsConfig>, was: FsConfig, c: FsConfig)
    requires |configs| < MAX_CONFIGS
    ensures Joined(configs, Some(c)) == Joined(configs, Some(was))[|configs| := c]
  {
  }

  lemma {:induction false} LoadGrows(dir: seq<DirEntry>, q: nat)
    requires q <= |dir|
    ensures |Load(dir[..q])| <= |Load(dir)|
    decreases |dir| - q
  {
    if q < |dir| {
      LoadStep(dir, q);
      LoadGrows(dir, q + 1);
    } else {
      assert dir[..q] == dir;
    }
  }

  /** Loading the first `q` entries of either directory differs in config `k` only. */
  ghost predicate Rewritten(dir: seq<DirEntry>, dir': seq<DirEntry>, k: nat, c: FsConfig, q: nat)
    requires q <= |dir| == |dir'|
  {
    k < |Load(dir[..q])| && Load(dir'[..q]) == Load(dir[..q])[k := c]
  }

  lemma RewrittenHere(dir: seq<DirEntry>, e: DirEntry, p: nat, k: nat, c: FsConfig)
    requires LoadedFrom(dir, k, p) && ConfigOf(e) == Some(c)
    ensures Rewritten(dir, dir[p := e], k, c, p + 1)
  {
    LoadStep(dir, p);
    LoadStep(dir[p := e], p);
    assert dir[p := e][..p] == dir[..p];
    LoadGrows(dir, p);
    JoinedLast(Load(dir[..p]), Load(dir)[k], c);
  }

  lemma RewrittenNext(dir: seq<DirEntry>, dir': seq<DirEntry>, k: nat, c: FsConfig, q: nat)
    requires q < |dir| == |dir'| && dir'[q] == dir[q] && Rewritten(dir, dir', k, c, q)
    ensures Rewritten(dir, dir', k, c, q + 1)
  {
    LoadStep(dir, q);
    LoadStep(dir', q);
    JoinedUpdate(Load(dir[..q]), k, c, ConfigOf(dir[q]));
  }

  lemma {:induction false} RewrittenFrom(dir: seq<DirEntry>, dir': seq<DirEntry>, k: nat, c: FsConfig, p: nat, q: nat)
    requires p <= q <= |dir| == |dir'| && Rewritten(dir, dir', k, c, p)
    requires forall j :: p <= j < q ==> dir'[j] == dir[j]
    ensures Rewritten(dir, dir', k, c, q)
    decreases q - p
  {
    if p < q {
      RewrittenFrom(dir, dir', k, c, p, q - 1);
      RewrittenNext(dir, dir', k, c, q - 1);
    }
  }

  /** Loading with the content of one entry replaced by another config's text. */
  lemma LoadAfterRewrite(dir: seq<DirEntry>, e: DirEntry, p: nat, k: nat, c: FsConfig)
    requires LoadedFrom(dir, k, p) && ConfigOf(e) == Some(c)
    ensures k < |Load(dir)| && Load(dir[p := e]) == Load(dir)[k := c]
  {
    RewrittenHere(dir, e, p, k, c);
    RewrittenFrom(dir, dir[p := e], k, c, p + 1, |dir|);
    assert dir[..|dir|] == dir && dir[p := e][..|dir|] == dir[p := e];
  }

  /** Writing loaded config `k` with its switch set, and loading again, gives the same list
      but for that config: its switch is set and its fields are as printing leaves them. */
  lemma ReloadAfterSwitch(dir: seq<DirEntry>, k: nat, on: bool)
    requires DistinctIds(dir) && k < |Load(dir)|
    ensures var c := Load(dir)[k].(monitorSwitch := on);
            && Load(Write(dir, c)) == Load(dir)[k := Norm(c)]
            && Norm(c).monitorSwitch == on && Norm(c).id == c.id
  {
    var c := Load(dir)[k].(monitorSwitch := on);
    var p := EveryConfigHasAnEntry(dir, k);
    LoadedIsWellParsed(dir, k, p);
    assert Target(dir, c.id) == Some(p);
    PrintedIsReadBack(c);
    LoadAfterRewrite(dir, dir[p].(content := Print(c)), p, k, Norm(c));
  }

  lemma WriteKeepsIds(dir: seq<DirEntry>, c: FsConfig)
    ensures forall j :: 0 <= j < |dir| ==> Write(dir, c)[j] == dir[j].(content := Write(dir, c)[j].content)
    ensures DistinctIds(dir) ==> DistinctIds(Write(dir, c))
  {
  }

  /** Two loaded configs never have the same id, so the first found is the one meant. */
  lemma {:induction false} LoadedIdsAreDistinct(dir: seq<DirEntry>)
    requires DistinctIds(dir)
    ensures forall i, j :: 0 <= i < j < |Load(dir)| ==> Load(dir)[i].id != Load(dir)[j].id
  {
    forall i, j | 0 <= i < j < |Load(dir)| ensures Load(dir)[i].id != Load(dir)[j].id {
      var p := EveryConfigHasAnEntry(dir, i);
      var q := EveryConfigHasAnEntry(dir, j);
      LoadedIsWellParsed(dir, i, p);
      LoadedIsWellParsed(dir, j, q);
    }
  }

  /** Repeating a start or stop changes no loaded config any more. */
  lemma SwitchingAgainChangesNothing(dir: seq<DirEntry>, k: nat, on: bool)
    requires DistinctIds(dir) && k < |Load(dir)|
    ensures var dir' := Write(dir, Load(dir)[k].(monitorSwitch := on));
            && k < |Load(dir')|
            && Load(Write(dir', Load(dir')[k].(monitorSwitch := on))) == Load(dir')
  {
    var c := Load(dir)[k].(monitorSwitch := on);
    var dir' := Write(dir, c);
    ReloadAfterSwitch(dir, k, on);
    WriteKeepsIds(dir, c);
    ReloadAfterSwitch(dir', k, on);
    var p := EveryConfigHasAnEntry(dir, k);
    LoadedIsWellParsed(dir, k, p);
    NormIsStable(c);
    assert Load(dir')[k].(monitorSwitch := on) == Norm(c);
  }
}
