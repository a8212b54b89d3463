/** isAncestor and checkCommitStatus over the commit graph of a repository. */
module CommitAncestry {
  import opened GoInt

  type Hash = string

  /** The commit objects in the object store, each with the hashes of its parents. */
  datatype Repo = Repo(commits: map<Hash, seq<Hash>>)

  /** What a walk over parent hashes hands over before it stops: go-git's iterator looks up
      each hash and ends at the first one whose object is missing, and isAncestor ignores
      that error. */
  function Found(repo: Repo, hashes: seq<Hash>): (ps: seq<Hash>)
    ensures forall p <- ps :: p in repo.commits
  {
    if hashes == [] || hashes[0] !in repo.commits then []
    else [hashes[0]] + Found(repo, hashes[1..])
  }

  function Parents(repo: Repo, c: Hash): (ps: seq<Hash>)
    requires c in repo.commits
    ensures forall p <- ps :: p in repo.commits
  {
    Found(repo, repo.commits[c])
  }

  ghost predicate IsPath(repo: Repo, path: seq<Hash>) {
    && path != []
    && (forall i :: 0 <= i < |path| ==> path[i] in repo.commits)
    && (forall i :: 0 <= i < |path| - 1 ==> path[i + 1] in Parents(repo, path[i]))
  }

  ghost predicate Links(repo: Repo, path: seq<Hash>, from: Hash, to: Hash) {
    IsPath(repo, path) && path[0] == from && path[|path| - 1] == to
  }

  /** `to` is `from` or one of its ancestors, through parents the walk finds. */
  ghost predicate Reaches(repo: Repo, from: Hash, to: Hash) {
    exists path :: Links(repo, path, from, to)
  }

  /** No commit is its own proper ancestor; the store is finite because it is a map. */
  ghost predicate Acyclic(repo: Repo) {
    forall path :: IsPath(repo, path) && |path| > 1 ==> path[0] != path[|path| - 1]
  }

  lemma ReachesItself(repo: Repo, c: Hash)
    requires c in repo.commits
    ensures Reaches(repo, c, c)
  {
    assert Links(repo, [c], c, c);
  }

  lemma ReachesThrough(repo: Repo, c: Hash, p: Hash, to: Hash)
    requires c in repo.commits && p in Parents(repo, c) && Reaches(repo, p, to)
    ensures Reaches(repo, c, to)
  {
    var path :| Links(repo, path, p, to);
    assert Links(repo, [c] + path, c, to);
  }

  /** A commit other than the target reaches it exactly through one of its parents. */
  lemma ReachesStep(repo: Repo, c: Hash, to: Hash)
    requires c in repo.commits && c != to
    ensures Reaches(repo, c, to) <==> exists p <- Parents(repo, c) :: Reaches(repo, p, to)
  {
    if Reaches(repo, c, to) {
      var path :| Links(repo, path, c, to);
      assert Links(repo, path[1..], path[1], to);
      assert path[0 + 1] in Parents(repo, path[0]);
    }
    forall p | p in Parents(repo, c) && Reaches(repo, p, to)
      ensures Reaches(repo, c, to)
    {
      ReachesThrough(repo, c, p, to);
    }
  }

  lemma NotReachedByParents(repo: Repo, c: Hash, p: Hash)
    requires Acyclic(repo) && c in repo.commits && p in Parents(repo, c)
    ensures !Reaches(repo, p, c)
  {
    if Reaches(repo, p, c) {
      var path :| Links(repo, path, p, c);
      assert IsPath(repo, [c] + path);
    }
  }

  // ----- The measure: commits are queued once per path, so count paths

  /** The size of c's history unfolded into a tree, inside the commits `within`. */
  ghost function TreeSize(repo: Repo, within: set<Hash>, c: Hash): nat
    requires c in repo.commits
    decreases |within|, 0
  {
    if c !in within then 1 else 1 + TreeSizes(repo, within - {c}, Parents(repo, c))
  }

  ghost function TreeSizes(repo: Repo, within: set<Hash>, cs: seq<Hash>): nat
    requires forall c <- cs :: c in repo.commits
    decreases |within|, 1 + |cs|
  {
    if cs == [] then 0 else TreeSize(repo, within, cs[0]) + TreeSizes(repo, within, cs[1..])
  }

  lemma {:induction false} TreeSizesAppend(repo: Repo, within: set<Hash>, cs: seq<Hash>, ds: seq<Hash>)
    requires forall c <- cs + ds :: c in repo.commits
    ensures forall c <- cs :: c in repo.commits
    ensures forall d <- ds :: d in repo.commits
    ensures TreeSizes(repo, within, cs + ds) == TreeSizes(repo, within, cs) + TreeSizes(repo, within, ds)
    decreases |cs|
  {
    forall c | c in cs || c in ds ensures c in cs + ds {}
    if cs == [] {
      assert cs + ds == ds;
    } else {
      assert (cs + ds)[1..] == cs[1..] + ds;
      TreeSizesAppend(repo, within, cs[1..], ds);
    }
  }

  /** A commit that is not reached does not contribute. */
  lemma {:induction false} Unreached(repo: Repo, within: set<Hash>, x: Hash, c: Hash)
    requires c in repo.commits && !Reaches(repo, c, x)
    ensures TreeSize(repo, within - {x}, c) == TreeSize(repo, within, c)
    decreases |within|, 0
  {
    ReachesItself(repo, c);
    if c in within {
      forall p | p in Parents(repo, c)
        ensures !Reaches(repo, p, x)
      {
        if Reaches(repo, p, x) { ReachesThrough(repo, c, p, x); }
      }
      UnreachedAll(repo, within - {c}, x, Parents(repo, c));
      assert within - {c} - {x} == within - {x} - {c};
    }
  }

  lemma {:induction false} UnreachedAll(repo: Repo, within: set<Hash>, x: Hash, cs: seq<Hash>)
    requires forall c <- cs :: c in repo.commits && !Reaches(repo, c, x)
    ensures TreeSizes(repo, within - {x}, cs) == TreeSizes(repo, within, cs)
    decreases |within|, 1 + |cs|
  {
    if cs != [] {
      Unreached(repo, within, x, cs[0]);
      UnreachedAll(repo, within, x, cs[1..]);
    }
  }

  /** Replacing a commit by its parents makes the measure smaller. */
  lemma Unfold(repo: Repo, c: Hash)
    requires Acyclic(repo) && c in repo.commits
    ensures TreeSize(repo, repo.commits.Keys, c) == 1 + TreeSizes(repo, repo.commits.Keys, Parents(repo, c))
  {
    forall p | p in Parents(repo, c)
      ensures !Reaches(repo, p, c)
    {
      NotReachedByParents(repo, c, p);
    }
    UnreachedAll(repo, repo.commits.Keys, c, Parents(repo, c));
  }

  // ----- isAncestor

  ghost predicate AnyReaches(repo: Repo, queue: seq<Hash>, to: Hash) {
    exists q <- queue :: Reaches(repo, q, to)
  }

  lemma AnyReachesAppend(repo: Repo, cs: seq<Hash>, ds: seq<Hash>, to: Hash)
    ensures AnyReaches(repo, cs + ds, to) <==> AnyReaches(repo, cs, to) || AnyReaches(repo, ds, to)
  {
    forall c | c in cs || c in ds ensures c in cs + ds {}
  }

  method IsAncestor(repo: Repo, commit: Hash, branchCommit: Hash) returns (found: bool)
    requires Acyclic(repo) && branchCommit in repo.commits
    ensures found <==> Reaches(repo, branchCommit, commit)
  {
    var queue := [branchCommit];
    ghost var all := repo.commits.Keys;
    while |queue| > 0
      invariant forall q <- queue :: q in repo.commits
      invariant AnyReaches(repo, queue, commit) <==> Reaches(repo, branchCommit, commit)
      decreases TreeSizes(repo, all, queue)
    {
      var current := queue[0];
      ghost var rest := queue[1..];
      assert queue == [current] + rest;
      queue := queue[1..];
      if current == commit {
        ReachesItself(repo, commit);
        return true;
      }
      var parents := AppendParents(repo, queue, current);
      queue := parents;
      ReachesStep(repo, current, commit);
      AnyReachesAppend(repo, [current], rest, commit);
      AnyReachesAppend(repo, rest, Parents(repo, current), commit);
      Unfold(repo, current);
      TreeSizesAppend(repo, all, rest, Parents(repo, current));
    }
    return false;
  }

  /** parentIter.ForEach with the callback that appends to the queue. */
  method AppendParents(repo: Repo, start: seq<Hash>, current: Hash) returns (queue: seq<Hash>)
    requires current in repo.commits
    ensures queue == start + Parents(repo, current)
  {
    queue := start;
    var hashes := repo.commits[current];
    var i := 0;
    while i < |hashes| && hashes[i] in repo.commits
      invariant 0 <= i <= |hashes|
      invariant queue + Found(repo, hashes[i..]) == start + Parents(repo, current)
    {
      queue := queue + [hashes[i]];
      assert hashes[i..][1..] == hashes[i + 1..];
      i := i + 1;
    }
  }

  // ----- What the walk misses

  /** A path along the parent hashes themselves, inside the store. */
  ghost predicate IsHistory(repo: Repo, path: seq<Hash>) {
    && path != []
    && (forall i :: 0 <= i < |path| ==> path[i] in repo.commits)
    && (forall i :: 0 <= i < |path| - 1 ==> path[i + 1] in repo.commits[path[i]])
  }

  ghost predicate Descends(repo: Repo, from: Hash, to: Hash) {
    exists path :: IsHistory(repo, path) && path[0] == from && path[|path| - 1] == to
  }

  /** The walk over c's parents ends before it comes to h, which is there. */
  ghost predicate Hidden(repo: Repo, c: Hash, h: Hash) {
    c in repo.commits && h in repo.commits[c] && h in repo.commits && h !in Parents(repo, c)
  }

  /** A hash is found exactly at a place with only stored hashes before it. */
  lemma {:induction false} FoundIff(repo: Repo, hashes: seq<Hash>, h: Hash)
    ensures h in Found(repo, hashes)
       <==> exists k :: 0 <= k < |hashes| && hashes[k] == h && forall i :: 0 <= i <= k ==> hashes[i] in repo.commits
  {
    if hashes != [] {
      var rest := hashes[1..];
      FoundIff(repo, rest, h);
      if k :| 0 <= k < |rest| && rest[k] == h && forall i :: 0 <= i <= k ==> rest[i] in repo.commits {
        assert hashes[k + 1] == h;
        assert hashes[0] in repo.commits ==> forall i :: 0 <= i <= k + 1 ==> hashes[i] in repo.commits;
      }
      if k :| 0 < k < |hashes| && hashes[k] == h && forall i :: 0 <= i <= k ==> hashes[i] in repo.commits {
        assert rest[k - 1] == h && forall i :: 0 <= i <= k - 1 ==> rest[i] in repo.commits;
      }
    }
  }

  /** So a parent is hidden exactly if it is stored and a missing one stands before each of
      its places. */
  lemma HiddenIff(repo: Repo, c: Hash, h: Hash)
    requires c in repo.commits && h in repo.commits[c]
    ensures var hashes := repo.commits[c];
            Hidden(repo, c, h)
            <==> h in repo.commits && forall k :: 0 <= k < |hashes| && hashes[k] == h ==>
                   exists i :: 0 <= i < k && hashes[i] !in repo.commits
  {
    FoundIff(repo, repo.commits[c], h);
  }

  lemma {:induction false} ReachesTransitive(repo: Repo, a: Hash, b: Hash, c: Hash)
    requires Reaches(repo, a, b) && Reaches(repo, b, c)
    ensures Reaches(repo, a, c)
  {
    var p :| Links(repo, p, a, b);
    var q :| Links(repo, q, b, c);
    var path := p + q[1..];
    forall i | 0 <= i < |path| - 1
      ensures path[i + 1] in Parents(repo, path[i])
    {
      if i < |p| - 1 {
        assert p[i + 1] in Parents(repo, p[i]);
      } else {
        var j := i - (|p| - 1);
        assert path[i] == q[j] && path[i + 1] == q[j + 1];
        assert q[j + 1] in Parents(repo, q[j]);
      }
    }
    assert Links(repo, path, a, c);
  }

  /** What the walk reaches is an ancestor. */
  lemma ReachedDescends(repo: Repo, from: Hash, to: Hash)
    requires Reaches(repo, from, to)
    ensures Descends(repo, from, to)
  {
    var path :| Links(repo, path, from, to);
    forall i | 0 <= i < |path| - 1
      ensures path[i + 1] in repo.commits[path[i]]
    {
      assert path[i + 1] in Parents(repo, path[i]);
      FoundIff(repo, repo.commits[path[i]], path[i + 1]);
    }
    assert IsHistory(repo, path);
  }

  /** No parent of a reached commit is missed for good: every hidden one is reached by another way. */
  ghost predicate Regained(repo: Repo, from: Hash) {
    forall c, h :: Reaches(repo, from, c) && Hidden(repo, c, h) ==> Reaches(repo, from, h)
  }

  lemma {:induction false} HistoryReached(repo: Repo, path: seq<Hash>)
    requires IsHistory(repo, path) && Regained(repo, path[0])
    ensures Reaches(repo, path[0], path[|path| - 1])
    decreases |path|
  {
    var last := |path| - 1;
    if last == 0 {
      ReachesItself(repo, path[0]);
    } else {
      var c, h := path[last - 1], path[last - 1 + 1];
      HistoryReached(repo, path[..last]);
      if h in Parents(repo, c) {
        ReachesItself(repo, h);
        ReachesThrough(repo, c, h, h);
        ReachesTransitive(repo, path[0], c, h);
      } else {
        assert Hidden(repo, c, h);
      }
    }
  }

  lemma DescendedReached(repo: Repo, from: Hash, to: Hash)
    requires Descends(repo, from, to) && Regained(repo, from)
    ensures Reaches(repo, from, to)
  {
    var path :| IsHistory(repo, path) && path[0] == from && path[|path| - 1] == to;
    HistoryReached(repo, path);
  }

  lemma HiddenStored(repo: Repo, c: Hash, h: Hash)
    requires Hidden(repo, c, h)
    ensures c in repo.commits && h in repo.commits[c] && h in repo.commits
  {
  }

  lemma DescendsThrough(repo: Repo, from: Hash, c: Hash, h: Hash)
    requires Descends(repo, from, c) && c in repo.commits && h in repo.commits[c] && h in repo.commits
    ensures Descends(repo, from, h)
  {
    var path :| IsHistory(repo, path) && path[0] == from && path[|path| - 1] == c;
    var longer := path + [h];
    forall i | 0 <= i < |longer| - 1
      ensures longer[i + 1] in repo.commits[longer[i]]
    {
      if i < |path| - 1 { assert path[i + 1] in repo.commits[path[i]]; }
    }
    assert IsHistory(repo, longer);
  }

  /** From one branch: the walk reaches every stored ancestor if and only if every parent
      hidden along the way is reached by another way. */
  lemma MissesNothingIff(repo: Repo, from: Hash)
    ensures (forall to :: Reaches(repo, from, to) <==> Descends(repo, from, to)) <==> Regained(repo, from)
  {
    hide Reaches, Descends, Hidden;
    forall to | Reaches(repo, from, to)
      ensures Descends(repo, from, to)
    {
      ReachedDescends(repo, from, to);
    }
    if Regained(repo, from) {
      forall to | Descends(repo, from, to)
        ensures Reaches(repo, from, to)
      {
        DescendedReached(repo, from, to);
      }
    }
    if forall to :: Reaches(repo, from, to) <==> Descends(repo, from, to) {
      forall c, h | Reaches(repo, from, c) && Hidden(repo, c, h)
        ensures Reaches(repo, from, h)
      {
        HiddenStored(repo, c, h);
        DescendsThrough(repo, from, c, h);
      }
    }
  }

  /** In the whole store: the walk is exact if and only if every hidden parent is reached from
      its child by another way. */
  lemma ExactIff(repo: Repo)
    ensures (forall from, to :: Reaches(repo, from, to) <==> Descends(repo, from, to))
       <==> forall c, h :: Hidden(repo, c, h) ==> Reaches(repo, c, h)
  {
    if forall from, to :: Reaches(repo, from, to) <==> Descends(repo, from, to) {
      forall c, h | Hidden(repo, c, h)
        ensures Reaches(repo, c, h)
      {
        MissesNothingIff(repo, c);
        ReachesItself(repo, c);
      }
    }
    if forall c, h :: Hidden(repo, c, h) ==> Reaches(repo, c, h) {
      forall from, to
        ensures Reaches(repo, from, to) <==> Descends(repo, from, to)
      {
        forall c, h | Reaches(repo, from, c) && Hidden(repo, c, h)
          ensures Reaches(repo, from, h)
        {
          ReachesTransitive(repo, from, c, h);
        }
        MissesNothingIff(repo, from);
      }
    }
  }

  /** No stored parent stands behind a missing one: so in a full clone, and in a clone that
      holds one commit only. */
  ghost predicate InOrder(repo: Repo) {
    forall c <- repo.commits, i, k ::
      0 <= i < k < |repo.commits[c]| && repo.commits[c][k] in repo.commits ==> repo.commits[c][i] in repo.commits
  }

  lemma InOrderExact(repo: Repo, from: Hash, to: Hash)
    requires InOrder(repo)
    ensures Reaches(repo, from, to) <==> Descends(repo, from, to)
  {
    forall c, h | c in repo.commits && h in repo.commits[c]
      ensures !Hidden(repo, c, h)
    {
      HiddenIff(repo, c, h);
    }
    ExactIff(repo);
  }

  /** Every parent of a stored commit is stored: a full clone. */
  ghost predicate Complete(repo: Repo) {
    forall c <- repo.commits, h <- repo.commits[c] :: h in repo.commits
  }

  lemma FullClone(repo: Repo, from: Hash, to: Hash)
    ensures Reaches(repo, from, to) ==> Descends(repo, from, to)
    ensures Complete(repo) ==> (Reaches(repo, from, to) <==> Descends(repo, from, to))
  {
    hide Reaches, Descends;
    if Reaches(repo, from, to) { ReachedDescends(repo, from, to); }
    if Complete(repo) {
      forall c, k | c in repo.commits && 0 <= k < |repo.commits[c]|
        ensures repo.commits[c][k] in repo.commits
      {
        assert repo.commits[c][k] in repo.commits[c];
      }
      InOrderExact(repo, from, to);
    }
  }

  lemma DepthOne(tip: Hash, parents: seq<Hash>, from: Hash, to: Hash)
    requires tip !in parents
    ensures var repo := Repo(map[tip := parents]);
            Reaches(repo, from, to) <==> Descends(repo, from, to)
  {
    var repo := Repo(map[tip := parents]);
    forall c, k | c in repo.commits && 0 <= k < |repo.commits[c]|
      ensures repo.commits[c][k] !in repo.commits
    {
      assert repo.commits[c][k] in parents;
    }
    InOrderExact(repo, from, to);
  }

  /** In a shallow clone a missing first parent hides a second one that is there. */
  lemma HiddenParent()
    ensures var repo := Repo(map["merge" := ["gone", "kept"], "kept" := []]);
            Descends(repo, "merge", "kept") && !Reaches(repo, "merge", "kept")
  {
    var repo := Repo(map["merge" := ["gone", "kept"], "kept" := []]);
    assert IsHistory(repo, ["merge", "kept"]);
    assert Parents(repo, "merge") == [];
    ReachesStep(repo, "merge", "kept");
  }

  // ----- checkCommitStatus

  datatype Reference = Reference(shortName: string, isHash: bool, isBranch: bool, hash: Hash)

  datatype Status = Merged | PendingIn(branch: string) | Detached | NotFound | NoMain | NoReferences

  /** A branch that reaches the commit. */
  ghost predicate Candidate(repo: Repo, ref: Reference, commit: Hash) {
    ref.isHash && ref.isBranch && ref.hash in repo.commits && Reaches(repo, ref.hash, commit)
  }

  /** refs[k] is the last branch in iteration order that reaches the commit. */
  ghost predicate LastCandidate(repo: Repo, refs: seq<Reference>, commit: Hash, k: nat) {
    && k < |refs| && Candidate(repo, refs[k], commit)
    && forall j :: k < j < |refs| ==> !Candidate(repo, refs[j], commit)
  }

  ghost predicate FirstCandidate(repo: Repo, refs: seq<Reference>, commit: Hash, k: nat) {
    && k < |refs| && Candidate(repo, refs[k], commit)
    && forall j :: 0 <= j < k ==> !Candidate(repo, refs[j], commit)
  }

  /** The short name of the last candidate, or "". */
  ghost function LastName(repo: Repo, refs: seq<Reference>, commit: Hash): string {
    if refs == [] then ""
    else
      var ref := refs[|refs| - 1];
      if Candidate(repo, ref, commit) then ref.shortName else LastName(repo, refs[..|refs| - 1], commit)
  }

  function Named(branch: string): Status {
    if branch == "" then Detached else PendingIn(branch)
  }

  ghost function StatusOf(repo: Repo, commit: Hash, mainHash: Option<Hash>, refs: Option<seq<Reference>>): Status {
    if commit !in repo.commits then NotFound
    else if mainHash == None || mainHash.value !in repo.commits then NoMain
    else if Reaches(repo, mainHash.value, commit) then Merged
    else if refs == None then NoReferences
    else Named(LastName(repo, refs.value, commit))
  }

  /** `mainHash` is what the default branch resolves to, if it does; `refs` is what the
      reference iterator yields, if it can be opened. */
  method CheckCommitStatus(repo: Repo, commit: Hash, mainHash: Option<Hash>, refs: Option<seq<Reference>>)
    returns (status: Status)
    requires Acyclic(repo)
    ensures status == StatusOf(repo, commit, mainHash, refs)
    ensures status == NotFound <==> commit !in repo.commits
    ensures status == NoMain <==> commit in repo.commits && (mainHash == None || mainHash.value !in repo.commits)
    ensures status == Merged <==>
              && commit in repo.commits && mainHash != None && mainHash.value in repo.commits
              && Reaches(repo, mainHash.value, commit)
    ensures status == NoReferences <==>
              && commit in repo.commits && mainHash != None && mainHash.value in repo.commits
              && !Reaches(repo, mainHash.value, commit) && refs == None
    ensures status.PendingIn? ==>
              && refs != None && status.branch != ""
              && exists k: nat :: LastCandidate(repo, refs.value, commit, k) && refs.value[k].shortName == status.branch
    ensures status == Detached ==>
              && refs != None
              && forall k: nat :: LastCandidate(repo, refs.value, commit, k) ==> refs.value[k].shortName == ""
  {
    if commit !in repo.commits { return NotFound; }
    if mainHash == None || mainHash.value !in repo.commits { return NoMain; }
    var merged := IsAncestor(repo, commit, mainHash.value);
    if merged { return Merged; }
    if refs == None { return NoReferences; }
    var featureBranch := "";
    for i := 0 to |refs.value|
      invariant featureBranch == LastName(repo, refs.value[..i], commit)
    {
      var ref := refs.value[i];
      assert refs.value[..i + 1][..i] == refs.value[..i];
      if ref.isHash && ref.isBranch && ref.hash in repo.commits {
        var reached := IsAncestor(repo, commit, ref.hash);
        if reached {
          featureBranch := ref.shortName;
        }
      }
    }
    assert refs.value[..|refs.value|] == refs.value;
    LastIsNamed(repo, refs.value, commit);
    if featureBranch != "" { return PendingIn(featureBranch); }
    return Detached;
  }

  lemma {:induction false} LastIsNamed(repo: Repo, refs: seq<Reference>, commit: Hash)
    ensures forall k: nat :: LastCandidate(repo, refs, commit, k) ==> refs[k].shortName == LastName(repo, refs, commit)
    ensures LastName(repo, refs, commit) != "" ==> exists k: nat :: LastCandidate(repo, refs, commit, k)
    decreases |refs|
  {
    hide Candidate;
    if refs != [] {
      var n := |refs| - 1;
      var init := refs[..n];
      LastIsNamed(repo, init, commit);
      if Candidate(repo, refs[n], commit) {
        assert LastCandidate(repo, refs, commit, n);
      } else {
        forall k: nat | k < n
          ensures LastCandidate(repo, refs, commit, k) <==> LastCandidate(repo, init, commit, k)
        {
        }
      }
    }
  }

  /** With branch names non-empty, past the earlier returns, "detached" means exactly that no
      resolvable branch reaches the commit. */
  lemma DetachedIff(repo: Repo, commit: Hash, main: Hash, refs: seq<Reference>)
    requires commit in repo.commits && main in repo.commits && !Reaches(repo, main, commit)
    requires forall r <- refs :: r.isBranch ==> r.shortName != ""
    ensures StatusOf(repo, commit, Some(main), Some(refs)) == Detached
       <==> forall r <- refs :: !Candidate(repo, r, commit)
  {
    NoNameIff(repo, refs, commit);
  }

  lemma {:induction false} NoNameIff(repo: Repo, refs: seq<Reference>, commit: Hash)
    requires forall r <- refs :: r.isBranch ==> r.shortName != ""
    ensures LastName(repo, refs, commit) == "" <==> forall r <- refs :: !Candidate(repo, r, commit)
    decreases |refs|
  {
    hide Reaches;
    if refs != [] {
      var init := refs[..|refs| - 1];
      NoNameIff(repo, init, commit);
      assert refs == init + [refs[|refs| - 1]];
    }
  }

  /** Past the earlier returns, the branch named is that of the last reference that is a branch,
      is no symbolic reference, has its commit stored and reaches the commit. */
  lemma PendingIff(repo: Repo, commit: Hash, main: Hash, refs: seq<Reference>, branch: string)
    requires commit in repo.commits && main in repo.commits && !Reaches(repo, main, commit)
    ensures StatusOf(repo, commit, Some(main), Some(refs)) == PendingIn(branch)
       <==> branch != "" && exists k: nat ::
              && k < |refs| && refs[k].shortName == branch
              && refs[k].isHash && refs[k].isBranch
              && refs[k].hash in repo.commits && Reaches(repo, refs[k].hash, commit)
              && forall j :: k < j < |refs| && refs[j].isHash && refs[j].isBranch && refs[j].hash in repo.commits ==>
                   !Reaches(repo, refs[j].hash, commit)
  {
    hide Reaches;
    LastIsNamed(repo, refs, commit);
    if k: nat :|
      && k < |refs| && refs[k].shortName == branch && Candidate(repo, refs[k], commit)
      && forall j :: k < j < |refs| ==> !Candidate(repo, refs[j], commit)
    {
      assert LastCandidate(repo, refs, commit, k);
    }
  }

  /** The first branch found is the one named if and only if the last one found has its
      name; only the last one matters. */
  lemma FirstNamedIff(repo: Repo, commit: Hash, main: Hash, refs: seq<Reference>, i: nat, k: nat)
    requires commit in repo.commits && main in repo.commits && !Reaches(repo, main, commit)
    requires FirstCandidate(repo, refs, commit, i) && LastCandidate(repo, refs, commit, k)
    ensures StatusOf(repo, commit, Some(main), Some(refs)) == Named(refs[k].shortName)
    ensures StatusOf(repo, commit, Some(main), Some(refs)) == Named(refs[i].shortName)
       <==> refs[i].shortName == refs[k].shortName
  {
    LastIsNamed(repo, refs, commit);
  }

  /** Two branches at the same unmerged commit: the second is named. */
  lemma LastNotFirst()
    ensures var repo := Repo(map["m" := [], "c" := []]);
            var refs := [Reference("a", true, true, "c"), Reference("b", true, true, "c")];
            && Acyclic(repo) && FirstCandidate(repo, refs, "c", 0)
            && StatusOf(repo, "c", Some("m"), Some(refs)) == PendingIn("b")
  {
    var repo := Repo(map["m" := [], "c" := []]);
    ReachesItself(repo, "c");
    ReachesStep(repo, "m", "c");
    forall path: seq<Hash> | |path| > 1
      ensures !IsPath(repo, path)
    {
      if path[0] in repo.commits { assert path[0 + 1] !in Parents(repo, path[0]); }
    }
  }
}
