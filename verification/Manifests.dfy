/** Repositories, their refs and the shards that index them (repo/repo.go), and the transactions of the metadata
    server on them (cmd/cindex-serve/main.go). Clocks and random ids are parameters. */
module Manifests {
  import opened Bytes

  // ---------------------------------------------------------------- the shard life cycle

  /** Absent is the empty state of a shard that has just been made or was deleted. */
  datatype State = Absent | Creating | Unreferenced | Referenced | Deleting

  datatype Action = Allocate | Create | Reference | Unreference | Tombstone | Delete

  /** The table `allowed`. */
  function Allowed(s: State, a: Action): Option<State> {
    match (s, a)
    case (Absent, Allocate) => Some(Creating)
    case (Creating, Create) => Some(Unreferenced)
    case (Creating, Unreference) => Some(Creating)
    case (Creating, Tombstone) => Some(Deleting)
    case (Unreferenced, Unreference) => Some(Unreferenced)
    case (Unreferenced, Reference) => Some(Referenced)
    case (Unreferenced, Tombstone) => Some(Deleting)
    case (Referenced, Reference) => Some(Referenced)
    case (Referenced, Unreference) => Some(Unreferenced)
    case (Deleting, Delete) => Some(Absent)
    case _ => None
  }

  // ---------------------------------------------------------------- manifests as values

  datatype ShardInfo = ShardInfo(
    allocatedAt: nat,
    createdAt: Option<nat>,
    treeHash: Str,
    size: nat,
    sha256: Option<Str>,
    state: State,
    stateWhen: nat)

  datatype RepoRef = RepoRef(commitHash: Str, shardId: nat)

  datatype RepoInfo = RepoInfo(defaultRef: Str, refs: map<Str, RepoRef>)

  /** What manifest.json holds. */
  datatype ManifestInfo = ManifestInfo(repos: map<Str, RepoInfo>, shards: map<nat, ShardInfo>, revision: nat)

  const EmptyManifest := ManifestInfo(map[], map[], 0)

  predicate RepoUses(r: RepoInfo, id: nat) {
    exists f :: f in r.refs && r.refs[f].shardId == id
  }

  /** Some ref names the shard. */
  predicate InUse(m: ManifestInfo, id: nat) {
    exists r :: r in m.repos && RepoUses(m.repos[r], id)
  }

  /** What every committed manifest satisfies: a shard is REFERENCED exactly when some ref names it, every ref names
      a shard that exists, and the default ref of each repository is one of its refs. */
  predicate Consistent(m: ManifestInfo) {
    && (forall id :: id in m.shards ==> (m.shards[id].state == Referenced <==> InUse(m, id)))
    && (forall r, f :: r in m.repos && f in m.repos[r].refs ==> m.repos[r].refs[f].shardId in m.shards)
    && (forall r :: r in m.repos ==> m.repos[r].defaultRef in m.repos[r].refs)
  }

  // ---------------------------------------------------------------- requests

  datatype Request =
    | AllocateShard
    | CompleteShard(id: nat, treeHash: Str, size: nat, sha256: Str)
    | SetDefaultRepoRef(repo: Str, ref: Str)
    | UpdateRepoShard(repo: Str, ref: Str, commitHash: Str, shardId: nat)

  /** A shard that CreateShard makes. */
  function Allocated(now: nat): ShardInfo {
    ShardInfo(now, None, [], 0, None, Creating, now)
  }

  /** A shard after Created; what was recorded at an earlier creation stays. */
  function Completed(s: ShardInfo, treeHash: Str, size: nat, sha256: Str, now: nat): ShardInfo {
    var t := s.(state := Unreferenced, stateWhen := now);
    if s.createdAt.Some? then t
    else t.(createdAt := Some(now), treeHash := treeHash, size := size, sha256 := Some(sha256))
  }

  /** The manifest with one ref set, its repository and ref made if need be. */
  function WithRef(m: ManifestInfo, repo: Str, ref: Str, r: RepoRef): ManifestInfo {
    var old_ := if repo in m.repos then m.repos[repo] else RepoInfo([], map[]);
    var info := RepoInfo(if old_.defaultRef == [] then ref else old_.defaultRef, old_.refs[ref := r]);
    m.(repos := m.repos[repo := info])
  }

  /** What ReconcileShardStates does to a shard, if the table allows it. */
  function Reconciled(s: State, used: bool): Option<State> {
    Allowed(s, if used then Reference else Unreference)
  }

  predicate CanReconcile(m: ManifestInfo) {
    forall id :: id in m.shards ==> Reconciled(m.shards[id].state, InUse(m, id)).Some?
  }

  /** The manifest with each shard's state as ReconcileShardStates leaves it, at `now`. */
  function ReconcileAll(m: ManifestInfo, now: nat): ManifestInfo
    requires CanReconcile(m)
  {
    m.(shards := map id | id in m.shards :: m.shards[id].(state := Reconciled(m.shards[id].state, InUse(m, id)).value,
                                                          stateWhen := now))
  }

  /** `m'` is what the transaction makes of `m`. */
  ghost predicate Applied(req: Request, now: nat, m: ManifestInfo, m': ManifestInfo) {
    match req
    case AllocateShard =>
      exists id: nat :: id !in m.shards && id != 0 && m' == m.(shards := m.shards[id := Allocated(now)])
    case CompleteShard(id, treeHash, size, sha256) =>
      id in m.shards && m.shards[id].state == Creating
      && m' == m.(shards := m.shards[id := Completed(m.shards[id], treeHash, size, sha256, now)])
    case SetDefaultRepoRef(repo, ref) =>
      repo in m.repos && ref in m.repos[repo].refs
      && m' == m.(repos := m.repos[repo := m.repos[repo].(defaultRef := ref)])
    case UpdateRepoShard(repo, ref, commitHash, id) =>
      id in m.shards
      && var m1 := WithRef(m, repo, ref, RepoRef(commitHash, id)); CanReconcile(m1) && m' == ReconcileAll(m1, now)
  }

  lemma AllocateApplied(now: nat, m: ManifestInfo, id: nat)
    requires id !in m.shards && id != 0
    ensures Applied(AllocateShard, now, m, m.(shards := m.shards[id := Allocated(now)]))
  {
  }

  // ---------------------------------------------------------------- what the transactions keep

  /** Which shards are in use depends on the refs alone. */
  lemma SameUse(m: ManifestInfo, m': ManifestInfo)
    requires m'.repos.Keys == m.repos.Keys && forall r :: r in m.repos ==> m'.repos[r].refs == m.repos[r].refs
    ensures forall id :: InUse(m', id) <==> InUse(m, id)
  {
    forall id
      ensures InUse(m', id) <==> InUse(m, id)
    {
      forall r | r in m.repos
        ensures RepoUses(m'.repos[r], id) <==> RepoUses(m.repos[r], id)
      {
      }
    }
  }

  lemma AllocateKeeps(m: ManifestInfo, id: nat, now: nat)
    requires Consistent(m) && id !in m.shards
    ensures Consistent(m.(shards := m.shards[id := Allocated(now)]))
  {
    hide InUse;
    var m' := m.(shards := m.shards[id := Allocated(now)]);
    SameUse(m, m');
    if InUse(m, id) {
      UsedExists(m, id);
    }
    forall x | x in m'.shards
      ensures m'.shards[x].state == Referenced <==> InUse(m', x)
    {
      assert x != id ==> m'.shards[x] == m.shards[x];
    }
    forall r, f | r in m'.repos && f in m'.repos[r].refs
      ensures m'.repos[r].refs[f].shardId in m'.shards
    {
      assert m.repos[r].refs[f].shardId in m.shards;
    }
  }

  lemma UsedExists(m: ManifestInfo, id: nat)
    requires Consistent(m) && InUse(m, id)
    ensures id in m.shards
  {
    var r :| r in m.repos && RepoUses(m.repos[r], id);
    var f :| f in m.repos[r].refs && m.repos[r].refs[f].shardId == id;
  }

  lemma DefaultKeeps(m: ManifestInfo, repo: Str, ref: Str)
    requires Consistent(m) && repo in m.repos && ref in m.repos[repo].refs
    ensures Consistent(m.(repos := m.repos[repo := m.repos[repo].(defaultRef := ref)]))
  {
    hide InUse;
    var m' := m.(repos := m.repos[repo := m.repos[repo].(defaultRef := ref)]);
    assert m'.repos.Keys == m.repos.Keys;
    forall r | r in m.repos
      ensures m'.repos[r].refs == m.repos[r].refs && m'.repos[r].defaultRef in m'.repos[r].refs
    {
      assert r != repo ==> m'.repos[r] == m.repos[r];
    }
    SameUse(m, m');
    SameRefs(m, m');
  }

  lemma SameRefs(m: ManifestInfo, m': ManifestInfo)
    requires Consistent(m) && m'.shards == m.shards && m'.repos.Keys == m.repos.Keys
    requires forall r :: r in m.repos ==> m'.repos[r].refs == m.repos[r].refs
    ensures forall r, f :: r in m'.repos && f in m'.repos[r].refs ==> m'.repos[r].refs[f].shardId in m'.shards
  {
    hide InUse;
    forall r, f | r in m'.repos && f in m'.repos[r].refs
      ensures m'.repos[r].refs[f].shardId in m'.shards
    {
      assert r in m.repos && f in m.repos[r].refs;
    }
  }

  lemma RefKeeps(m: ManifestInfo, repo: Str, ref: Str, r: RepoRef)
    requires Consistent(m) && r.shardId in m.shards
    ensures var m' := WithRef(m, repo, ref, r);
            (forall n, f :: n in m'.repos && f in m'.repos[n].refs ==> m'.repos[n].refs[f].shardId in m'.shards)
            && (forall n :: n in m'.repos ==> m'.repos[n].defaultRef in m'.repos[n].refs)
  {
    hide InUse;
    var m' := WithRef(m, repo, ref, r);
    var old_ := if repo in m.repos then m.repos[repo] else RepoInfo([], map[]);
    assert m'.repos[repo].refs == old_.refs[ref := r];
    assert forall n :: n in m'.repos && n != repo ==> n in m.repos && m'.repos[n] == m.repos[n];
    forall n, f | n in m'.repos && f in m'.repos[n].refs
      ensures m'.repos[n].refs[f].shardId in m'.shards
    {
      if n != repo || f != ref {
        assert n in m.repos && f in m.repos[n].refs && m'.repos[n].refs[f] == m.repos[n].refs[f];
      }
    }
    forall n | n in m'.repos
      ensures m'.repos[n].defaultRef in m'.repos[n].refs
    {
      assert n != repo ==> m.repos[n].defaultRef in m.repos[n].refs;
      assert n == repo && repo in m.repos ==> m.repos[n].defaultRef in m.repos[n].refs;
    }
  }

  lemma ReconcileKeeps(m: ManifestInfo, now: nat)
    requires CanReconcile(m)
    requires forall r, f :: r in m.repos && f in m.repos[r].refs ==> m.repos[r].refs[f].shardId in m.shards
    requires forall r :: r in m.repos ==> m.repos[r].defaultRef in m.repos[r].refs
    ensures Consistent(ReconcileAll(m, now))
  {
    hide InUse;
    var m' := ReconcileAll(m, now);
    SameUse(m, m');
  }

  /** Every transaction keeps the manifest consistent. */
  lemma AppliedConsistent(req: Request, now: nat, m: ManifestInfo, m': ManifestInfo)
    requires Consistent(m) && Applied(req, now, m, m')
    ensures Consistent(m') && m'.revision == m.revision
  {
    hide Consistent, CanReconcile, InUse, WithRef;
    match req
    case AllocateShard =>
      var id: nat :| id !in m.shards && id != 0 && m' == m.(shards := m.shards[id := Allocated(now)]);
      AllocateKeeps(m, id, now);
    case CompleteShard(id, treeHash, size, sha256) =>
      CompleteKeeps(m, id, Completed(m.shards[id], treeHash, size, sha256, now));
    case SetDefaultRepoRef(repo, ref) =>
      DefaultKeeps(m, repo, ref);
    case UpdateRepoShard(repo, ref, commitHash, id) =>
      var m1 := WithRef(m, repo, ref, RepoRef(commitHash, id));
      WithRefRest(m, repo, ref, RepoRef(commitHash, id));
      RefKeeps(m, repo, ref, RepoRef(commitHash, id));
      ReconcileKeeps(m1, now);
  }

  lemma WithRefRest(m: ManifestInfo, repo: Str, ref: Str, r: RepoRef)
    ensures WithRef(m, repo, ref, r).shards == m.shards && WithRef(m, repo, ref, r).revision == m.revision
  {
  }

  lemma CompleteKeeps(m: ManifestInfo, id: nat, s: ShardInfo)
    requires Consistent(m) && id in m.shards && m.shards[id].state == Creating && s.state == Unreferenced
    ensures Consistent(m.(shards := m.shards[id := s]))
  {
    SameUse(m, m.(shards := m.shards[id := s]));
  }

  /** In a consistent manifest, a ref can be pointed at a shard exactly when the shard is complete and no shard is
      being deleted: a shard in DELETING makes every such update fail. */
  lemma UpdateSucceedsIff(m: ManifestInfo, repo: Str, ref: Str, commitHash: Str, id: nat)
    requires Consistent(m) && id in m.shards
    ensures CanReconcile(WithRef(m, repo, ref, RepoRef(commitHash, id))) <==>
            (m.shards[id].state == Unreferenced || m.shards[id].state == Referenced)
            && forall x :: x in m.shards ==> m.shards[x].state != Deleting && m.shards[x].state != Absent
  {
    var m1 := WithRef(m, repo, ref, RepoRef(commitHash, id));
    UsesAfter(m, repo, ref, RepoRef(commitHash, id));
    WithRefRest(m, repo, ref, RepoRef(commitHash, id));
    hide InUse, WithRef;
    if CanReconcile(m1) {
      forall x | x in m.shards
        ensures m.shards[x].state != Deleting && m.shards[x].state != Absent
      {
        assert Reconciled(m1.shards[x].state, InUse(m1, x)).Some?;
      }
      assert Reconciled(m1.shards[id].state, InUse(m1, id)).Some?;
    }
  }

  /** Setting a ref puts its shard in use, and no other. */
  lemma UsesAfter(m: ManifestInfo, repo: Str, ref: Str, r: RepoRef)
    ensures var m1 := WithRef(m, repo, ref, r);
            InUse(m1, r.shardId) && forall x :: x != r.shardId && InUse(m1, x) ==> InUse(m, x)
  {
    var m1 := WithRef(m, repo, ref, r);
    assert m1.repos[repo].refs[ref].shardId == r.shardId && RepoUses(m1.repos[repo], r.shardId);
    forall x | x != r.shardId && InUse(m1, x)
      ensures InUse(m, x)
    {
      var n :| n in m1.repos && RepoUses(m1.repos[n], x);
      var f :| f in m1.repos[n].refs && m1.repos[n].refs[f].shardId == x;
      assert n in m.repos && f in m.repos[n].refs && m.repos[n].refs[f].shardId == x;
      assert RepoUses(m.repos[n], x);
    }
  }

  /** Between two manifests shards stay, and each one's state moves only as the table allows. */
  ghost predicate Evolves(m: ManifestInfo, m': ManifestInfo) {
    forall id :: id in m.shards ==> id in m'.shards && Moves(m.shards[id], m'.shards[id])
  }

  ghost predicate Moves(s: ShardInfo, t: ShardInfo) {
    t == s || exists a: Action :: Allowed(s.state, a) == Some(t.state)
  }

  lemma AppliedEvolves(req: Request, now: nat, m: ManifestInfo, m': ManifestInfo)
    requires Applied(req, now, m, m')
    ensures Evolves(m, m')
  {
    hide InUse;
    match req
    case AllocateShard =>
    case CompleteShard(id, treeHash, size, sha256) =>
      assert Allowed(m.shards[id].state, Create) == Some(m'.shards[id].state);
    case SetDefaultRepoRef(repo, ref) =>
    case UpdateRepoShard(repo, ref, commitHash, id) =>
      var m1 := WithRef(m, repo, ref, RepoRef(commitHash, id));
      forall x | x in m.shards
        ensures x in m'.shards && Moves(m.shards[x], m'.shards[x])
      {
        var a := if InUse(m1, x) then Reference else Unreference;
        assert Allowed(m.shards[x].state, a) == Some(m'.shards[x].state);
      }
  }

  // ---------------------------------------------------------------- the life of a shard

  /** How a shard's state may change, state by state: it is made once, referenced only when complete, tombstoned only
      while nothing references it, and gone only after that; marking one unreferenced that is still being made leaves it
      as it is. */
  lemma LifeCycle(s: State, a: Action, t: State)
    requires Allowed(s, a) == Some(t)
    ensures s == Absent ==> a == Allocate && t == Creating
    ensures s == Creating ==> (a == Create && t == Unreferenced) || (a == Unreference && t == Creating)
                              || (a == Tombstone && t == Deleting)
    ensures s == Unreferenced ==> (a == Reference && t == Referenced) || (a == Unreference && t == Unreferenced)
                                  || (a == Tombstone && t == Deleting)
    ensures s == Referenced ==> (a == Reference && t == Referenced) || (a == Unreference && t == Unreferenced)
    ensures s == Deleting ==> a == Delete && t == Absent
  {
  }

  /** And each of these changes is possible. */
  lemma LifeGoesOn()
    ensures Allowed(Absent, Allocate).Some? && Allowed(Deleting, Delete).Some?
    ensures forall a :: a in {Create, Unreference, Tombstone} ==> Allowed(Creating, a).Some?
    ensures forall a :: a in {Reference, Unreference, Tombstone} ==> Allowed(Unreferenced, a).Some?
    ensures forall a :: a in {Reference, Unreference} ==> Allowed(Referenced, a).Some?
  {
  }

  // ---------------------------------------------------------------- what each transaction changes, and what not

  predicate HasRef(m: ManifestInfo, repo: Str, ref: Str) {
    repo in m.repos && ref in m.repos[repo].refs
  }

  predicate Names(m: ManifestInfo, repo: Str, ref: Str, id: nat) {
    HasRef(m, repo, ref) && m.repos[repo].refs[ref].shardId == id
  }

  /** Some ref of some repository names the shard. */
  ghost predicate Named(m: ManifestInfo, id: nat) {
    exists repo, ref :: Names(m, repo, ref, id)
  }

  lemma InUseIs(m: ManifestInfo, id: nat)
    ensures InUse(m, id) <==> Named(m, id)
  {
    if InUse(m, id) {
      var r :| r in m.repos && RepoUses(m.repos[r], id);
      var f :| f in m.repos[r].refs && m.repos[r].refs[f].shardId == id;
      assert Names(m, r, f, id);
    }
    if repo, ref :| Names(m, repo, ref, id) {
      assert RepoUses(m.repos[repo], id);
    }
  }

  /** AllocateShard adds one shard, to be filled, and nothing else. */
  lemma AllocateChanges(now: nat, m: ManifestInfo, m': ManifestInfo)
    requires Applied(AllocateShard, now, m, m')
    ensures m'.repos == m.repos && m'.revision == m.revision
    ensures exists id :: id != 0 && id !in m.shards && m'.shards.Keys == m.shards.Keys + {id}
                         && m'.shards[id] == ShardInfo(now, None, [], 0, None, Creating, now)
                         && forall x :: x in m.shards ==> m'.shards[x] == m.shards[x]
  {
    var id: nat :| id !in m.shards && id != 0 && m' == m.(shards := m.shards[id := Allocated(now)]);
    assert m'.shards.Keys == m.shards.Keys + {id};
  }

  /** CompleteShard turns a shard that is being made into one that can be used. Its size and hashes are recorded the
      first time only; every other shard and all refs stay. */
  lemma CompleteChanges(id: nat, treeHash: Str, size: nat, sha256: Str, now: nat, m: ManifestInfo, m': ManifestInfo)
    requires Applied(CompleteShard(id, treeHash, size, sha256), now, m, m')
    ensures m'.repos == m.repos && m'.revision == m.revision && m'.shards.Keys == m.shards.Keys && id in m.shards
    ensures forall x :: x in m.shards && x != id ==> m'.shards[x] == m.shards[x]
    ensures var s, t := m.shards[id], m'.shards[id];
            s.state == Creating && t.state == Unreferenced && t.stateWhen == now && t.allocatedAt == s.allocatedAt
            && (if s.createdAt.None? then
                  t.createdAt == Some(now) && t.treeHash == treeHash && t.size == size && t.sha256 == Some(sha256)
                else t.createdAt == s.createdAt && t.treeHash == s.treeHash && t.size == s.size && t.sha256 == s.sha256)
  {
  }

  /** When there is anything for a transaction to do: a shard in CREATING to complete, a ref to make the default. */
  lemma SucceedIff(id: nat, treeHash: Str, size: nat, sha256: Str, repo: Str, ref: Str, now: nat, m: ManifestInfo)
    ensures (exists m' :: Applied(CompleteShard(id, treeHash, size, sha256), now, m, m')) <==>
            id in m.shards && m.shards[id].state == Creating
    ensures (exists m' :: Applied(SetDefaultRepoRef(repo, ref), now, m, m')) <==> HasRef(m, repo, ref)
  {
    if id in m.shards && m.shards[id].state == Creating {
      var m' := m.(shards := m.shards[id := Completed(m.shards[id], treeHash, size, sha256, now)]);
      assert Applied(CompleteShard(id, treeHash, size, sha256), now, m, m');
    }
    if HasRef(m, repo, ref) {
      var m' := m.(repos := m.repos[repo := m.repos[repo].(defaultRef := ref)]);
      assert Applied(SetDefaultRepoRef(repo, ref), now, m, m');
    }
  }

  /** SetDefaultRepoRef moves one default ref, to a ref that is there. */
  lemma DefaultChanges(repo: Str, ref: Str, now: nat, m: ManifestInfo, m': ManifestInfo)
    requires Applied(SetDefaultRepoRef(repo, ref), now, m, m')
    ensures m'.shards == m.shards && m'.revision == m.revision && m'.repos.Keys == m.repos.Keys && HasRef(m, repo, ref)
    ensures m'.repos[repo].defaultRef == ref && forall r :: r in m.repos ==> m'.repos[r].refs == m.repos[r].refs
    ensures forall r :: r in m.repos && r != repo ==> m'.repos[r] == m.repos[r]
  {
  }

  /** UpdateRepoShard sets one ref. All other refs of all repositories stay, none is lost and none appears; a default
      ref that is set stays, and one that is not becomes this ref. */
  lemma UpdateRefs(repo: Str, ref: Str, commitHash: Str, id: nat, now: nat, m: ManifestInfo, m': ManifestInfo)
    requires Applied(UpdateRepoShard(repo, ref, commitHash, id), now, m, m')
    ensures m'.revision == m.revision && m'.repos.Keys == m.repos.Keys + {repo}
    ensures HasRef(m', repo, ref) && m'.repos[repo].refs[ref] == RepoRef(commitHash, id)
    ensures forall r, f :: !(r == repo && f == ref) ==>
              (HasRef(m', r, f) <==> HasRef(m, r, f))
              && (HasRef(m, r, f) ==> m'.repos[r].refs[f] == m.repos[r].refs[f])
    ensures forall r :: r in m.repos && (r != repo || m.repos[r].defaultRef != []) ==>
              m'.repos[r].defaultRef == m.repos[r].defaultRef
    ensures !(repo in m.repos && m.repos[repo].defaultRef != []) ==> m'.repos[repo].defaultRef == ref
  {
    hide CanReconcile, InUse;
    var m1 := WithRef(m, repo, ref, RepoRef(commitHash, id));
    assert m'.repos == m1.repos;
  }

  /** And it settles every shard: one that is still being made is left in the making, with all that is known of it; of
      the others exactly those that some ref names are REFERENCED. */
  lemma UpdateShards(repo: Str, ref: Str, commitHash: Str, id: nat, now: nat, m: ManifestInfo, m': ManifestInfo)
    requires Applied(UpdateRepoShard(repo, ref, commitHash, id), now, m, m')
    ensures m'.shards.Keys == m.shards.Keys && id in m.shards
    ensures forall x :: x in m.shards ==> m'.shards[x] == m.shards[x].(state := m'.shards[x].state, stateWhen := now)
    ensures forall x :: x in m.shards ==>
              if m.shards[x].state == Creating then m'.shards[x].state == Creating && !Named(m', x)
              else m'.shards[x].state == if Named(m', x) then Referenced else Unreferenced
  {
    var m1 := WithRef(m, repo, ref, RepoRef(commitHash, id));
    WithRefRest(m, repo, ref, RepoRef(commitHash, id));
    SameUse(m1, m');
    hide InUse, WithRef, Named, CanReconcile, ReconcileAll, Allowed;
    ReconcileKeys(m1, now);
    forall x | x in m.shards
      ensures m'.shards[x] == m.shards[x].(state := m'.shards[x].state, stateWhen := now)
      ensures if m.shards[x].state == Creating then m'.shards[x].state == Creating && !Named(m', x)
              else m'.shards[x].state == if Named(m', x) then Referenced else Unreferenced
    {
      InUseIs(m', x);
      ReconcileShard(m1, x, now);
    }
  }

  lemma ReconcileKeys(m: ManifestInfo, now: nat)
    requires CanReconcile(m)
    ensures ReconcileAll(m, now).shards.Keys == m.shards.Keys && ReconcileAll(m, now).repos == m.repos
  {
  }

  lemma ReconcileShard(m: ManifestInfo, x: nat, now: nat)
    requires CanReconcile(m) && x in m.shards
    ensures x in ReconcileAll(m, now).shards
    ensures var s, t := m.shards[x], ReconcileAll(m, now).shards[x];
            t == s.(state := t.state, stateWhen := now)
            && if s.state == Creating then t.state == Creating && !InUse(m, x)
               else t.state == if InUse(m, x) then Referenced else Unreferenced
  {
    hide InUse;
    assert Reconciled(m.shards[x].state, InUse(m, x)).Some?;
  }

  /** A shard in the making can still be completed after a ref was pointed at another one. */
  lemma StillCompletable(repo: Str, ref: Str, commitHash: Str, id: nat, now: nat, m: ManifestInfo, m': ManifestInfo,
                         x: nat, treeHash: Str, size: nat, sha256: Str)
    requires Applied(UpdateRepoShard(repo, ref, commitHash, id), now, m, m')
    requires x in m.shards && m.shards[x].state == Creating
    ensures exists m'' :: Applied(CompleteShard(x, treeHash, size, sha256), now, m', m'')
  {
    UpdateShards(repo, ref, commitHash, id, now, m, m');
    hide CanReconcile, InUse, WithRef;
    var m'' := m'.(shards := m'.shards[x := Completed(m'.shards[x], treeHash, size, sha256, now)]);
    assert Applied(CompleteShard(x, treeHash, size, sha256), now, m', m'');
  }
}
