/** Manifests in memory: shards, repositories and the transactions that change them in place (repo/repo.go and
    cmd/cindex-serve/main.go). What each method does is stated on the value the manifest stands for. */
module ManifestStore {
  import opened Bytes
  import opened Manifests

  class Shard {
    var allocatedAt: nat
    var createdAt: Option<nat>
    var treeHash: Str
    var size: nat
    var sha256: Option<Str>
    var state: State
    var stateWhen: nat

    function Info(): ShardInfo
      reads this
    {
      ShardInfo(allocatedAt, createdAt, treeHash, size, sha256, state, stateWhen)
    }

    constructor (s: ShardInfo)
      ensures Info() == s
    {
      allocatedAt, createdAt, treeHash, size := s.allocatedAt, s.createdAt, s.treeHash, s.size;
      sha256, state, stateWhen := s.sha256, s.state, s.stateWhen;
    }

    /** transition: moves as the table allows, or not at all. */
    method Transition(a: Action, now: nat) returns (ok: bool)
      modifies this
      ensures ok == Allowed(old(state), a).Some?
      ensures Info() == if ok then old(Info()).(state := Allowed(old(state), a).value, stateWhen := now) else old(Info())
    {
      var r := Allowed(state, a);
      ok := r.Some?;
      if ok {
        state := r.value;
        stateWhen := now;
      }
    }

    method Created(hash: Str, size_: nat, sha: Str, now: nat) returns (ok: bool)
      modifies this
      ensures ok <==> old(state) == Creating
      ensures Info() == if ok then Completed(old(Info()), hash, size_, sha, now) else old(Info())
    {
      ok := Transition(Create, now);
      if ok && createdAt.None? {
        createdAt := Some(now);
        treeHash := hash;
        size := size_;
        sha256 := Some(sha);
      }
    }
  }

  class Repo {
    var defaultRef: Str
    var refs: map<Str, RepoRef>

    function Info(): RepoInfo
      reads this
    {
      RepoInfo(defaultRef, refs)
    }

    constructor (r: RepoInfo)
      ensures Info() == r
    {
      defaultRef, refs := r.defaultRef, r.refs;
    }
  }

  /** The new shard of CreateShard, allocated. */
  method NewShard(now: nat) returns (s: Shard)
    ensures fresh(s) && s.Info() == Allocated(now)
  {
    s := new Shard(ShardInfo(now, None, [], 0, None, Absent, 0));
    var ok := s.Transition(Allocate, now);
    assert ok;
  }

  lemma FreshId(used: set<nat>) returns (id: nat)
    ensures id !in used && id != 0
  {
    if used == {} {
      id := 1;
    } else {
      id := Above(used);
    }
  }

  lemma {:induction false} Above(used: set<nat>) returns (id: nat)
    ensures id > 0 && forall x: nat :: x in used ==> x < id
    decreases used
  {
    if used == {} {
      id := 1;
    } else {
      var x :| x in used;
      var y := Above(used - {x});
      id := if x < y then y else x + 1;
      assert forall z :: z in used ==> z == x || z in used - {x};
    }
  }

  class Manifest {
    var repos: map<Str, Repo>
    var shards: map<nat, Shard>
    var revision: nat

    /** No two names share an object. */
    ghost predicate Valid()
      reads this
    {
      && (forall a, b :: a in shards && b in shards && a != b ==> shards[a] != shards[b])
      && (forall a, b :: a in repos && b in repos && a != b ==> repos[a] != repos[b])
    }

    ghost function Parts(): set<object>
      reads this
    {
      (set r | r in repos :: repos[r]) + (set s | s in shards :: shards[s])
    }

    ghost function ShardObjects(): set<object>
      reads this
    {
      set s | s in shards :: shards[s]
    }

    /** The value that the manifest stands for. */
    ghost function Info(): ManifestInfo
      reads this, Parts()
    {
      ManifestInfo(RepoInfos(), ShardInfos(), revision)
    }

    ghost function RepoInfos(): map<Str, RepoInfo>
      reads this, Parts()
    {
      map r | r in repos :: repos[r].Info()
    }

    ghost function ShardInfos(): map<nat, ShardInfo>
      reads this, Parts()
    {
      map s | s in shards :: shards[s].Info()
    }

    /** LoadManifest: new objects for what the file holds. */
    constructor (m: ManifestInfo)
      ensures Valid() && Info() == m && fresh(Parts())
    {
      repos, shards, revision := map[], map[], m.revision;
      new;
      LoadRepos(m.repos);
      LoadShards(m.shards);
    }

    method AddLoadedRepo(name: Str, r: Repo)
      requires Valid() && name !in repos && forall x :: x in repos ==> repos[x] != r
      modifies this`repos
      ensures Valid() && repos == old(repos)[name := r]
    {
      repos := repos[name := r];
    }

    method LoadRepos(rs: map<Str, RepoInfo>)
      requires Valid() && repos == map[] && shards == map[]
      modifies this`repos
      ensures Valid() && RepoInfos() == rs && fresh(Parts())
    {
      var todo := rs.Keys;
      while todo != {}
        invariant Valid() && shards == map[] && todo <= rs.Keys && repos.Keys == rs.Keys - todo
        invariant forall r :: r in repos ==> repos[r].Info() == rs[r] && fresh(repos[r])
        decreases todo
      {
        var name :| name in todo;
        var r := new Repo(rs[name]);
        AddLoadedRepo(name, r);
        todo := todo - {name};
      }
      assert RepoInfos() == rs;
    }

    method AddLoaded(id: nat, s: Shard)
      requires Valid() && id !in shards && forall x :: x in shards ==> shards[x] != s
      modifies this`shards
      ensures Valid() && shards == old(shards)[id := s]
    {
      shards := shards[id := s];
    }

    method LoadShards(ss: map<nat, ShardInfo>)
      requires Valid() && shards == map[]
      modifies this`shards
      ensures Valid() && ShardInfos() == ss && RepoInfos() == old(RepoInfos()) && fresh(Parts() - old(Parts()))
    {
      var todo := ss.Keys;
      while todo != {}
        invariant Valid() && todo <= ss.Keys && shards.Keys == ss.Keys - todo
        invariant forall s :: s in shards ==> shards[s].Info() == ss[s] && fresh(shards[s])
        decreases todo
      {
        var id :| id in todo;
        var s := new Shard(ss[id]);
        AddLoaded(id, s);
        todo := todo - {id};
      }
      assert ShardInfos() == ss;
    }

    // -------------------------------------------------------------- CreateShard

    /** CreateShard: a shard in CREATING under an id that was free. The random source is any choice of such an id. */
    method CreateShard(now: nat) returns (id: nat)
      requires Valid()
      modifies this`shards
      ensures Valid() && id != 0 && id !in old(shards)
      ensures Info() == old(Info()).(shards := old(Info()).shards[id := Allocated(now)])
    {
      hide Manifest.Valid, Manifest.Info, Shard.Info;
      ghost var free := FreshId(shards.Keys);
      id :| id !in shards && id != 0;
      ghost var was := Info();
      var s := NewShard(now);
      assert s !in Parts() && Info() == was;
      AddShard(id, s);
      assert s.Info() == Allocated(now);
    }

    method AddShard(id: nat, s: Shard)
      requires Valid() && id !in shards && s !in ShardObjects()
      modifies this`shards
      ensures Valid() && Info() == old(Info()).(shards := old(Info()).shards[id := s.Info()])
    {
      ghost var before := ShardInfos();
      assert forall a :: a in shards ==> shards[a] in ShardObjects();
      shards := shards[id := s];
      assert ShardInfos() == before[id := s.Info()];
      assert RepoInfos() == old(RepoInfos());
    }

    // -------------------------------------------------------------- ReconcileShardStates

    /** The ids that refs name. */
    method UsedIds() returns (inUse: set<nat>)
      requires Valid()
      ensures forall id: nat :: id in inUse <==> InUse(Info(), id)
    {
      inUse := {};
      var todo := repos.Keys;
      while todo != {}
        invariant todo <= repos.Keys
        invariant forall id: nat :: id in inUse <==> exists r :: r in repos && r !in todo && RepoUses(repos[r].Info(), id)
        decreases todo
      {
        var name :| name in todo;
        var r := repos[name];
        inUse := inUse + set f | f in r.refs :: r.refs[f].shardId;
        todo := todo - {name};
      }
      forall id: nat
        ensures id in inUse <==> InUse(Info(), id)
      {
        if InUse(Info(), id) {
          var r :| r in Info().repos && RepoUses(Info().repos[r], id);
          assert r in repos && RepoUses(repos[r].Info(), id);
        }
        if id in inUse {
          var r :| r in repos && r !in todo && RepoUses(repos[r].Info(), id);
          assert r in Info().repos && RepoUses(Info().repos[r], id);
        }
      }
    }

    /** Shard `id` is as reconciling leaves it. */
    ghost predicate Settled(was: ManifestInfo, id: nat, used: bool, now: nat)
      requires id in shards && id in was.shards
      reads this, shards[id]
    {
      var s := was.shards[id];
      Reconciled(s.state, used).Some? && shards[id].Info() == s.(state := Reconciled(s.state, used).value, stateWhen := now)
    }

    /** ReconcileShardStates: the shards are taken in any order, and after a failure the rest stay as they are. */
    method ReconcileShardStates(now: nat) returns (success: bool)
      requires Valid()
      modifies ShardObjects()
      ensures success <==> CanReconcile(old(Info()))
      ensures success ==> Info() == ReconcileAll(old(Info()), now)
    {
      hide InUse, Allowed, CanReconcile, Manifest.Valid, Manifest.Settled;
      ghost var was := Info();
      var inUse := UsedIds();
      assert Info() == was;
      success := true;
      var todo := shards.Keys;
      while todo != {}
        invariant todo <= shards.Keys == was.shards.Keys
        invariant forall id :: id in todo ==> shards[id].Info() == was.shards[id]
        invariant success ==> forall id :: id in shards && id !in todo ==> Settled(was, id, id in inUse, now)
        invariant !success ==> !CanReconcile(was)
        decreases todo
      {
        var id :| id in todo;
        success := ReconcileOne(id, id in inUse, now, success, was, todo, inUse);
        todo := todo - {id};
      }
      if success {
        AllSettled(was, inUse, now);
      }
    }

    /** The body of the loop over the shards. */
    method ReconcileOne(id: nat, used: bool, now: nat, success: bool, ghost was: ManifestInfo, ghost todo: set<nat>,
                        ghost inUse: set<nat>) returns (success': bool)
      requires Valid() && todo <= shards.Keys == was.shards.Keys && id in todo && used == (id in inUse)
      requires used == InUse(was, id)
      requires forall x :: x in todo ==> shards[x].Info() == was.shards[x]
      requires success ==> forall x :: x in shards && x !in todo ==> Settled(was, x, x in inUse, now)
      requires !success ==> !CanReconcile(was)
      modifies shards[id]
      ensures forall x :: x in todo && x != id ==> shards[x].Info() == was.shards[x]
      ensures success' ==> forall x :: x in shards && (x !in todo || x == id) ==> Settled(was, x, x in inUse, now)
      ensures !success' ==> !CanReconcile(was)
    {
      hide InUse, Allowed;
      success' := success;
      if used {
        if success' {
          success' := shards[id].Transition(Reference, now);
        }
      } else {
        if success' {
          success' := shards[id].Transition(Unreference, now);
        }
      }
    }

    lemma AllSettled(was: ManifestInfo, inUse: set<nat>, now: nat)
      requires Valid() && shards.Keys == was.shards.Keys && RepoInfos() == was.repos && revision == was.revision
      requires forall id: nat :: id in inUse <==> InUse(was, id)
      requires forall id :: id in shards ==> Settled(was, id, id in inUse, now)
      ensures CanReconcile(was) && Info() == ReconcileAll(was, now)
    {
      hide InUse, Allowed;
      assert CanReconcile(was);
      assert ShardInfos() == ReconcileAll(was, now).shards;
    }

    // -------------------------------------------------------------- the transactions

    /** The bodies of the four transactions. A transaction succeeds exactly when some result is allowed, and then it
        makes an allowed one; an error leaves a manifest that is thrown away. */
    method Transact(req: Request, now: nat) returns (ok: bool)
      requires Valid()
      modifies this`shards, this`repos, Parts()
      ensures ok ==> Valid() && Applied(req, now, old(Info()), Info())
      ensures ok <==> exists m' :: Applied(req, now, old(Info()), m')
    {
      ghost var was := Info();
      match req
      case AllocateShard =>
        var id := CreateShard(now);
        ok := true;
        assert id !in was.shards;
        AllocateApplied(now, was, id);
      case CompleteShard(id, treeHash, size, sha256) =>
        ok := CompleteShard(id, treeHash, size, sha256, now);
        if ok {
          assert Applied(req, now, was, Info());
        }
      case SetDefaultRepoRef(repo, ref) =>
        ok := SetDefaultRepoRef(repo, ref);
        if ok {
          assert Applied(req, now, was, Info());
        }
      case UpdateRepoShard(repo, ref, commitHash, id) =>
        ok := UpdateRepoShard(repo, ref, commitHash, id, now);
        if ok {
          assert Applied(req, now, was, Info());
        } else {
          assert forall m' :: !Applied(req, now, was, m');
        }
    }

    method CompleteShard(id: nat, treeHash: Str, size: nat, sha256: Str, now: nat) returns (ok: bool)
      requires Valid()
      modifies ShardObjects()
      ensures Valid()
      ensures ok <==> id in old(Info()).shards && old(Info()).shards[id].state == Creating
      ensures ok ==> Info() == var m := old(Info());
                               m.(shards := m.shards[id := Completed(m.shards[id], treeHash, size, sha256, now)])
    {
      if id !in shards {
        return false;
      }
      ghost var before := ShardInfos();
      ok := shards[id].Created(treeHash, size, sha256, now);
      if ok {
        assert ShardInfos() == before[id := Completed(before[id], treeHash, size, sha256, now)];
        assert RepoInfos() == old(RepoInfos());
      }
    }

    method SetDefaultRepoRef(repo: Str, ref: Str) returns (ok: bool)
      requires Valid()
      modifies set r | r in repos :: repos[r]
      ensures Valid()
      ensures ok <==> repo in old(Info()).repos && ref in old(Info()).repos[repo].refs
      ensures ok ==> Info() == var m := old(Info()); m.(repos := m.repos[repo := m.repos[repo].(defaultRef := ref)])
    {
      if repo !in repos {
        return false;
      }
      var r := repos[repo];
      if ref !in r.refs {
        return false;
      }
      ghost var before := RepoInfos();
      r.defaultRef := ref;
      assert RepoInfos() == before[repo := before[repo].(defaultRef := ref)];
      assert ShardInfos() == old(ShardInfos());
      ok := true;
    }

    /** GetOrCreateRepo. */
    method GetOrCreateRepo(name: Str) returns (r: Repo)
      requires Valid()
      modifies this`repos
      ensures Valid() && name in repos && repos[name] == r && (r in old(Parts()) || fresh(r)) && shards == old(shards)
      ensures Info() == var m := old(Info());
                        if name in m.repos then m else m.(repos := m.repos[name := RepoInfo([], map[])])
      ensures r in old(RepoObjects()) || fresh(r)
    {
      if name in repos {
        assert repos[name] in Parts();
        return repos[name];
      }
      r := new Repo(RepoInfo([], map[]));
      ghost var before := RepoInfos();
      assert forall a :: a in repos ==> repos[a] in RepoObjects();
      repos := repos[name := r];
      assert RepoInfos() == before[name := RepoInfo([], map[])];
      assert ShardInfos() == old(ShardInfos());
    }

    ghost function RepoObjects(): set<object>
      reads this
    {
      set n | n in repos :: repos[n]
    }

    /** GetOrCreateRef, and the assignments to what it returns. */
    method AssignRef(name: Str, r: Repo, ref: Str, to: RepoRef)
      requires Valid() && name in repos && repos[name] == r
      modifies r
      ensures Valid()
      ensures Info() == var m := old(Info());
                        var d := m.repos[name].defaultRef;
                        m.(repos := m.repos[name := RepoInfo(if d == [] then ref else d, m.repos[name].refs[ref := to])])
    {
      ghost var before := RepoInfos();
      if r.defaultRef == [] {
        r.defaultRef := ref;
      }
      r.refs := r.refs[ref := to];
      assert RepoInfos() == before[name := r.Info()];
      assert ShardInfos() == old(ShardInfos());
    }

    method SetRef(repo: Str, ref: Str, to: RepoRef)
      requires Valid()
      modifies this`repos, RepoObjects()
      ensures Valid() && Info() == WithRef(old(Info()), repo, ref, to) && shards == old(shards)
    {
      hide Manifest.Valid, Manifest.Parts, Manifest.RepoInfos, Manifest.ShardInfos;
      var r := GetOrCreateRepo(repo);
      AssignRef(repo, r, ref, to);
      assert Info().repos == WithRef(old(Info()), repo, ref, to).repos;
    }

    method UpdateRepoShard(repo: Str, ref: Str, commitHash: Str, id: nat, now: nat) returns (ok: bool)
      requires Valid()
      modifies this`repos, Parts()
      ensures var m1 := WithRef(old(Info()), repo, ref, RepoRef(commitHash, id));
              (ok <==> id in old(Info()).shards && CanReconcile(m1))
              && (ok ==> Valid() && Info() == ReconcileAll(m1, now))
    {
      hide CanReconcile, WithRef, InUse, Allowed;
      if id !in shards {
        return false;
      }
      SetRef(repo, ref, RepoRef(commitHash, id));
      ok := ReconcileShardStates(now);
    }
  }

  /** What manifestTxn does between loading and writing: the function of the request, on a manifest of its own. */
  method ApplyTo(m: ManifestInfo, req: Request, now: nat) returns (ok: bool, ghost m': ManifestInfo)
    ensures ok ==> Applied(req, now, m, m')
    ensures ok <==> exists r :: Applied(req, now, m, r)
  {
    hide Applied, Manifest.Valid, Manifest.Info;
    var manifest := new Manifest(m);
    ok := manifest.Transact(req, now);
    m' := manifest.Info();
  }
}
