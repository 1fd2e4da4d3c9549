/** Any number of transactions on one manifest directory, step by step in any interleaving (manifestTxn in
    cmd/cindex-serve/main.go, LoadManifest and WriteManifest in repo/repo.go). A revision is a directory; renaming a
    prepared directory to it is atomic and fails if the revision is there. */
module ManifestProtocol {
  import opened Bytes
  import opened Manifests

  /** Where a client is in manifestTxn. */
  datatype Pc =
    | Start                                         // about to load
    | Loaded(m: ManifestInfo)                       // loaded `m`
    | Prepared(m: ManifestInfo)                     // its function has made `m`
    | Checked(m: ManifestInfo)                      // revision counted up, and not seen in the directory
    | Finished(committed: Option<ManifestInfo>)     // renamed, or given up with an error

  datatype Client = Client(req: Request, pc: Pc)

  /** The revisions in the directory, and the clients that have arrived. */
  datatype Sys = Sys(dir: map<nat, ManifestInfo>, clients: seq<Client>)

  ghost predicate Latest(dir: map<nat, ManifestInfo>, m: ManifestInfo) {
    if dir == map[] then m == EmptyManifest
    else exists k :: k in dir && dir[k] == m && forall j :: j in dir ==> j <= k
  }

  // ---------------------------------------------------------------- the steps

  function SetPc(s: Sys, i: nat, pc: Pc): Sys
    requires i < |s.clients|
  {
    s.(clients := s.clients[i := s.clients[i].(pc := pc)])
  }

  ghost predicate Arrive(s: Sys, s': Sys) {
    exists req :: s' == s.(clients := s.clients + [Client(req, Start)])
  }

  /** LoadManifest reads the highest revision. */
  ghost predicate Load(s: Sys, s': Sys, i: nat)
    requires i < |s.clients|
  {
    s.clients[i].pc.Start? && exists m :: Latest(s.dir, m) && s' == SetPc(s, i, Loaded(m))
  }

  /** The client's function succeeds. */
  ghost predicate Apply(s: Sys, s': Sys, i: nat)
    requires i < |s.clients|
  {
    s.clients[i].pc.Loaded?
    && exists m', now :: Applied(s.clients[i].req, now, s.clients[i].pc.m, m') && s' == SetPc(s, i, Prepared(m'))
  }

  /** WriteManifest counts the revision up and looks for it: if it is there, the transaction starts again. */
  ghost predicate Stat(s: Sys, s': Sys, i: nat)
    requires i < |s.clients|
  {
    s.clients[i].pc.Prepared?
    && var m := s.clients[i].pc.m.(revision := s.clients[i].pc.m.revision + 1);
       s' == SetPc(s, i, if m.revision in s.dir then Start else Checked(m))
  }

  /** The rename: if the revision has appeared since, it fails with an error that is not retried. */
  ghost predicate Rename(s: Sys, s': Sys, i: nat)
    requires i < |s.clients|
  {
    s.clients[i].pc.Checked?
    && var m := s.clients[i].pc.m;
       s' == if m.revision in s.dir then SetPc(s, i, Finished(None))
             else SetPc(s, i, Finished(Some(m))).(dir := s.dir[m.revision := m])
  }

  /** An error of the function or of the file system, or a cancelled request. */
  ghost predicate GiveUp(s: Sys, s': Sys, i: nat)
    requires i < |s.clients|
  {
    !s.clients[i].pc.Finished? && s' == SetPc(s, i, Finished(None))
  }

  ghost predicate ClientStep(s: Sys, s': Sys, i: nat)
    requires i < |s.clients|
  {
    Load(s, s', i) || Apply(s, s', i) || Stat(s, s', i) || Rename(s, s', i) || GiveUp(s, s', i)
  }

  ghost predicate Step(s: Sys, s': Sys) {
    Arrive(s, s') || exists i :: 0 <= i < |s.clients| && ClientStep(s, s', i)
  }

  /** A run from an empty directory. */
  ghost predicate IsRun(run: seq<Sys>) {
    run != [] && run[0] == Sys(map[], []) && forall n :: 0 <= n < |run| - 1 ==> Step(run[n], run[n + 1])
  }

  // ---------------------------------------------------------------- what holds in every run

  /** Revision `k` of the directory is `m`; revision 0 is the empty manifest. */
  predicate IsRevision(dir: map<nat, ManifestInfo>, k: nat, m: ManifestInfo) {
    if k == 0 then m == EmptyManifest else k in dir && dir[k] == m
  }

  /** A manifest as it was before WriteManifest counted its revision up. */
  function Uncounted(m: ManifestInfo): ManifestInfo
    requires m.revision > 0
  {
    m.(revision := m.revision - 1)
  }

  ghost predicate MakesFrom(dir: map<nat, ManifestInfo>, req: Request, base: ManifestInfo, now: nat, u: ManifestInfo) {
    IsRevision(dir, u.revision, base) && Applied(req, now, base, u)
  }

  /** `m` is what a request made of the revision before it. */
  ghost predicate MadeBy(dir: map<nat, ManifestInfo>, req: Request, m: ManifestInfo) {
    m.revision > 0 && var u := Uncounted(m); exists base, now :: MakesFrom(dir, req, base, now, u)
  }

  ghost predicate ClientOk(dir: map<nat, ManifestInfo>, c: Client) {
    match c.pc
    case Start => true
    case Loaded(m) => IsRevision(dir, m.revision, m)
    case Prepared(m) => MadeBy(dir, c.req, m.(revision := m.revision + 1))
    case Checked(m) => MadeBy(dir, c.req, m)
    case Finished(None) => true
    case Finished(Some(m)) => MadeBy(dir, c.req, m) && m.revision in dir && dir[m.revision] == m
  }

  /** Client `i` has committed revision `k`. */
  predicate Committed(s: Sys, i: nat, k: nat) {
    i < |s.clients| && k in s.dir && s.clients[i].pc == Finished(Some(s.dir[k]))
  }

  ghost predicate HasCommitter(s: Sys, k: nat) {
    exists i: nat :: Committed(s, i, k)
  }

  ghost predicate Inv(s: Sys) {
    && (forall k :: k in s.dir ==> k > 0 && s.dir[k].revision == k && HasCommitter(s, k))
    && (forall c :: c in s.clients ==> ClientOk(s.dir, c))
    && (forall i: nat, j: nat, k :: Committed(s, i, k) && Committed(s, j, k) ==> i == j)
  }

  /** Committed revisions never change or disappear. */
  ghost predicate Extends(dir: map<nat, ManifestInfo>, dir': map<nat, ManifestInfo>) {
    forall k :: k in dir ==> k in dir' && dir'[k] == dir[k]
  }

  lemma MadeByStays(dir: map<nat, ManifestInfo>, dir': map<nat, ManifestInfo>, req: Request, m: ManifestInfo)
    requires Extends(dir, dir') && MadeBy(dir, req, m)
    ensures MadeBy(dir', req, m)
  {
    hide Applied;
    var u := Uncounted(m);
    var base, now :| MakesFrom(dir, req, base, now, u);
    assert MakesFrom(dir', req, base, now, u);
  }

  lemma ClientOkStays(dir: map<nat, ManifestInfo>, dir': map<nat, ManifestInfo>, c: Client)
    requires Extends(dir, dir') && ClientOk(dir, c)
    ensures ClientOk(dir', c)
  {
    hide MadeBy;
    match c.pc
    case Start =>
    case Loaded(m) =>
    case Prepared(m) => MadeByStays(dir, dir', c.req, m.(revision := m.revision + 1));
    case Checked(m) => MadeByStays(dir, dir', c.req, m);
    case Finished(None) =>
    case Finished(Some(m)) => MadeByStays(dir, dir', c.req, m);
  }

  /** A client moves without touching the directory. */
  lemma MoveKeeps(s: Sys, i: nat, pc: Pc)
    requires Inv(s) && i < |s.clients| && ClientOk(s.dir, s.clients[i].(pc := pc))
    requires !s.clients[i].pc.Finished? && (pc.Finished? ==> pc.committed.None?)
    ensures Inv(SetPc(s, i, pc))
  {
    hide ClientOk;
    var s' := SetPc(s, i, pc);
    forall c | c in s'.clients
      ensures ClientOk(s'.dir, c)
    {
      var j :| 0 <= j < |s'.clients| && s'.clients[j] == c;
      assert j != i ==> s.clients[j] in s.clients;
    }
    forall j: nat, k
      ensures Committed(s', j, k) <==> Committed(s, j, k)
    {
    }
    forall k | k in s'.dir
      ensures HasCommitter(s', k)
    {
      var j: nat :| Committed(s, j, k);
      assert Committed(s', j, k);
    }
  }

  lemma ArriveKeeps(s: Sys, req: Request)
    requires Inv(s)
    ensures Inv(s.(clients := s.clients + [Client(req, Start)]))
  {
    hide Applied, MadeBy;
    var s' := s.(clients := s.clients + [Client(req, Start)]);
    forall j: nat, k
      ensures Committed(s', j, k) <==> Committed(s, j, k)
    {
    }
    forall k | k in s'.dir
      ensures HasCommitter(s', k)
    {
      var j: nat :| Committed(s, j, k);
      assert Committed(s', j, k);
    }
  }

  lemma CommitKeeps(s: Sys, i: nat)
    requires Inv(s) && i < |s.clients| && s.clients[i].pc.Checked? && s.clients[i].pc.m.revision !in s.dir
    ensures var m := s.clients[i].pc.m;
            Inv(SetPc(s, i, Finished(Some(m))).(dir := s.dir[m.revision := m]))
  {
    hide MadeBy;
    var m := s.clients[i].pc.m;
    var s' := SetPc(s, i, Finished(Some(m))).(dir := s.dir[m.revision := m]);
    assert s.clients[i] in s.clients && MadeBy(s.dir, s.clients[i].req, m);
    assert Extends(s.dir, s'.dir);
    RevisionPositive(s.dir, s.clients[i].req, m);
    forall c | c in s'.clients
      ensures ClientOk(s'.dir, c)
    {
      var j :| 0 <= j < |s'.clients| && s'.clients[j] == c;
      if j == i {
        MadeByStays(s.dir, s'.dir, c.req, m);
      } else {
        assert s.clients[j] in s.clients;
        ClientOkStays(s.dir, s'.dir, c);
      }
    }
    CommitOnce(s, s', i, m);
  }

  lemma RevisionPositive(dir: map<nat, ManifestInfo>, req: Request, m: ManifestInfo)
    requires MadeBy(dir, req, m)
    ensures m.revision > 0
  {
  }

  lemma CommitOnce(s: Sys, s': Sys, i: nat, m: ManifestInfo)
    requires Inv(s) && i < |s.clients| && s.clients[i].pc == Checked(m) && m.revision !in s.dir
    requires s' == SetPc(s, i, Finished(Some(m))).(dir := s.dir[m.revision := m])
    ensures forall k :: k in s'.dir ==> HasCommitter(s', k)
    ensures forall a: nat, b: nat, k :: Committed(s', a, k) && Committed(s', b, k) ==> a == b
  {
    hide MadeBy;
    forall j: nat, k
      ensures Committed(s', j, k) <==> if k == m.revision then j == i else Committed(s, j, k)
    {
      assert j < |s.clients| ==> s.clients[j] in s.clients && ClientOk(s.dir, s.clients[j]);
    }
    forall k | k in s'.dir
      ensures HasCommitter(s', k)
    {
      if k == m.revision {
        assert Committed(s', i, k);
      } else {
        var j: nat :| Committed(s, j, k);
        assert Committed(s', j, k);
      }
    }
  }

  lemma LatestIsRevision(s: Sys, m: ManifestInfo)
    requires Inv(s) && Latest(s.dir, m)
    ensures IsRevision(s.dir, m.revision, m)
  {
  }

  lemma ApplyMakes(dir: map<nat, ManifestInfo>, req: Request, now: nat, m: ManifestInfo, m': ManifestInfo)
    requires IsRevision(dir, m.revision, m) && Applied(req, now, m, m')
    ensures MadeBy(dir, req, m'.(revision := m'.revision + 1))
  {
    AppliedRevision(req, now, m, m');
    assert Uncounted(m'.(revision := m'.revision + 1)) == m';
    assert MakesFrom(dir, req, m, now, m');
  }

  lemma AppliedRevision(req: Request, now: nat, m: ManifestInfo, m': ManifestInfo)
    requires Applied(req, now, m, m')
    ensures m'.revision == m.revision
  {
  }

  lemma StepKeeps(s: Sys, s': Sys)
    requires Inv(s) && Step(s, s')
    ensures Inv(s') && Extends(s.dir, s'.dir)
  {
    hide Inv, Latest, MadeBy, Applied;
    if Arrive(s, s') {
      var req :| s' == s.(clients := s.clients + [Client(req, Start)]);
      ArriveKeeps(s, req);
    } else {
      var i :| 0 <= i < |s.clients| && ClientStep(s, s', i);
      var c := s.clients[i];
      ClientIsOk(s, i);
      if Load(s, s', i) {
        var m :| Latest(s.dir, m) && s' == SetPc(s, i, Loaded(m));
        LatestIsRevision(s, m);
        MoveKeeps(s, i, Loaded(m));
      } else if Apply(s, s', i) {
        var m', now :| Applied(c.req, now, c.pc.m, m') && s' == SetPc(s, i, Prepared(m'));
        ApplyMakes(s.dir, c.req, now, c.pc.m, m');
        MoveKeeps(s, i, Prepared(m'));
      } else if Stat(s, s', i) {
        var m := c.pc.m.(revision := c.pc.m.revision + 1);
        MoveKeeps(s, i, if m.revision in s.dir then Start else Checked(m));
      } else if Rename(s, s', i) && c.pc.m.revision !in s.dir {
        CommitKeeps(s, i);
      } else {
        MoveKeeps(s, i, Finished(None));
      }
    }
  }

  lemma ClientIsOk(s: Sys, i: nat)
    requires Inv(s) && i < |s.clients|
    ensures ClientOk(s.dir, s.clients[i])
  {
    assert s.clients[i] in s.clients;
  }

  lemma {:induction false} RunKeeps(run: seq<Sys>, n: nat)
    requires IsRun(run) && n < |run|
    ensures Inv(run[n])
  {
    hide Inv, Step;
    if n == 0 {
      Beginning();
    } else {
      RunKeeps(run, n - 1);
      assert Step(run[n - 1], run[n - 1 + 1]);
      StepKeeps(run[n - 1], run[n]);
    }
  }

  lemma Beginning()
    ensures Inv(Sys(map[], []))
  {
  }

  // ---------------------------------------------------------------- the promises

  /** Revision `k` is what some client's request made of revision `k - 1`. */
  ghost predicate ChainedAt(dir: map<nat, ManifestInfo>, k: nat) {
    k in dir && dir[k].revision == k && exists req :: MadeBy(dir, req, dir[k])
  }

  /** In every run, however the transactions interleave: the revisions are numbered without a gap, and each is one
      client's function applied to the one before it; each was committed by exactly one client. */
  lemma RevisionsChained(run: seq<Sys>, n: nat, k: nat)
    requires IsRun(run) && n < |run| && k in run[n].dir
    ensures k > 0 && ChainedAt(run[n].dir, k) && (k > 1 ==> k - 1 in run[n].dir)
    ensures HasCommitter(run[n], k) && forall i: nat, j: nat :: Committed(run[n], i, k) && Committed(run[n], j, k) ==> i == j
  {
    hide IsRun, Applied;
    var s := run[n];
    RunKeeps(run, n);
    var i: nat :| Committed(s, i, k);
    ClientIsOk(s, i);
    assert MadeBy(s.dir, s.clients[i].req, s.dir[k]);
    var base, now :| MakesFrom(s.dir, s.clients[i].req, base, now, Uncounted(s.dir[k]));
  }

  /** A transaction that reports success is in the directory, made from the revision before it by its own request. */
  lemma SuccessIsCommitted(run: seq<Sys>, n: nat, i: nat, m: ManifestInfo)
    requires IsRun(run) && n < |run| && i < |run[n].clients| && run[n].clients[i].pc == Finished(Some(m))
    ensures m.revision in run[n].dir && run[n].dir[m.revision] == m && MadeBy(run[n].dir, run[n].clients[i].req, m)
  {
    hide IsRun, MadeBy;
    RunKeeps(run, n);
    ClientIsOk(run[n], i);
  }

  /** What is committed stays. */
  lemma {:induction false} RevisionsStay(run: seq<Sys>, a: nat, b: nat)
    requires IsRun(run) && a <= b < |run|
    ensures Extends(run[a].dir, run[b].dir)
    decreases b - a
  {
    hide Inv, Step;
    if a < b {
      RevisionsStay(run, a, b - 1);
      RunKeeps(run, b - 1);
      assert Step(run[b - 1], run[b - 1 + 1]);
      StepKeeps(run[b - 1], run[b]);
    }
  }

  lemma EmptyIsConsistent()
    ensures Consistent(EmptyManifest)
  {
  }

  lemma RevisionNumber(m: ManifestInfo, k: nat)
    requires Consistent(m)
    ensures Consistent(m.(revision := k))
  {
    SameUse(m, m.(revision := k));
  }

  /** Every committed manifest, of every run, is consistent. */
  lemma {:induction false} CommittedConsistent(run: seq<Sys>, n: nat, k: nat)
    requires IsRun(run) && n < |run| && k in run[n].dir
    ensures Consistent(run[n].dir[k])
    decreases k
  {
    hide IsRun, Consistent, Applied;
    RevisionsChained(run, n, k);
    var dir := run[n].dir;
    var req :| MadeBy(dir, req, dir[k]);
    var base, now :| MakesFrom(dir, req, base, now, Uncounted(dir[k]));
    if k == 1 {
      EmptyIsConsistent();
    } else {
      CommittedConsistent(run, n, k - 1);
    }
    AppliedConsistent(req, now, base, Uncounted(dir[k]));
    RevisionNumber(Uncounted(dir[k]), k);
  }

  /** From one revision to the next no shard disappears, and states move only along the table. */
  lemma RevisionsEvolve(run: seq<Sys>, n: nat, k: nat)
    requires IsRun(run) && n < |run| && k in run[n].dir && k + 1 in run[n].dir
    ensures Evolves(run[n].dir[k], run[n].dir[k + 1])
  {
    hide IsRun, Applied, Moves;
    RevisionsChained(run, n, k + 1);
    RevisionsChained(run, n, k);
    var dir := run[n].dir;
    var req :| MadeBy(dir, req, dir[k + 1]);
    var base, now :| MakesFrom(dir, req, base, now, Uncounted(dir[k + 1]));
    AppliedEvolves(req, now, base, Uncounted(dir[k + 1]));
  }

  // ---------------------------------------------------------------- transactions can succeed

  lemma LatestIs(s: Sys, m: ManifestInfo)
    requires Inv(s) && Latest(s.dir, m)
    ensures m.revision + 1 !in s.dir && forall k :: k in s.dir ==> k <= m.revision
  {
    hide ClientOk, HasCommitter;
  }

  /** A client that nobody disturbs commits: from any reachable state it loads the latest manifest, applies a request that
      is allowed there, and adds the result as the next revision. */
  lemma AloneCommits(s: Sys, i: nat, m: ManifestInfo, now: nat, m': ManifestInfo) returns (run: seq<Sys>)
    requires Inv(s) && i < |s.clients| && s.clients[i].pc.Start?
    requires Latest(s.dir, m) && Applied(s.clients[i].req, now, m, m')
    ensures |run| == 5 && run[0] == s && forall n :: 0 <= n < 4 ==> Step(run[n], run[n + 1])
    ensures var done := m'.(revision := m.revision + 1);
            run[4].dir == s.dir[m.revision + 1 := done] && m.revision + 1 !in s.dir
            && |run[4].clients| == |s.clients| && run[4].clients[i].pc == Finished(Some(done))
  {
    hide Applied, Inv;
    LatestIs(s, m);
    AppliedRevision(s.clients[i].req, now, m, m');
    var done := m'.(revision := m.revision + 1);
    var a := SetPc(s, i, Loaded(m));
    var b := SetPc(a, i, Prepared(m'));
    var c := SetPc(b, i, Checked(done));
    var d := SetPc(c, i, Finished(Some(done))).(dir := c.dir[done.revision := done]);
    assert Load(s, a, i) && Apply(a, b, i) && Stat(b, c, i) && Rename(c, d, i);
    assert ClientStep(s, a, i) && ClientStep(a, b, i) && ClientStep(b, c, i) && ClientStep(c, d, i);
    run := [s, a, b, c, d];
    assert Step(s, a) && Step(a, b) && Step(b, c) && Step(c, d);
  }
}
