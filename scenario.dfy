/** The life of one ConfigMap of the core group, event by event, from a freshly initialised
    repository: it is added, updated with the same content, updated with new content, and
    deleted. Each lemma gives the exact repository and outcome after its event. */
module Scenario {
  import opened Common
  import opened Naming
  import opened Repository
  import opened Events

  const FILE := "configmap.v1..yaml"
  const MASTER := "refs/heads/master"

  /** The repository `git init` leaves: `HEAD` names a branch that has no commit yet. */
  const EMPTY := Repo(map[], [], [SymbolicReference("HEAD", MASTER)], None)

  function ConfigMap(content: Bytes): Object
  {
    Unstructured(GroupVersionKind("", "v1", "ConfigMap"), "openshift-config", "settings", Some(content))
  }

  function Branch(h: Hash): seq<Reference>
  {
    [SymbolicReference("HEAD", MASTER), HashReference(MASTER, h)]
  }

  /** The index of a repository whose only branch is `master`: one line. */
  lemma BranchIndex(h: Hash)
    ensures RefsText(Branch(h)) == h + "\trefs/heads/master\n"
  {
    var refs := Branch(h);
    assert refs[1..] == [HashReference(MASTER, h)];
    assert refs[1..][1..] == [];
    assert RefsText(refs[1..]) == RefLine(h, MASTER) + RefsText([]);
  }

  function ByOperator(h: Hash, message: string, tree: Tree): Commit
  {
    Commit(h, message, AUTHOR, Committer(COMPONENT), tree)
  }

  /** Every character of the file name prints as itself under `%q`. */
  lemma FilePlain(f: string)
    requires f == FILE
    ensures forall i :: 0 <= i < |f| ==> IsPlain(f[i])
  {
  }

  /** The removal message of a name that needs no escapes. */
  lemma RemovedMessage(f: string)
    requires forall i :: 0 <= i < |f| ==> IsPlain(f[i])
    ensures Quote(f) + " removed" == "\"" + f + "\" removed"
  {
    QuotePlain(f);
  }

  /** A commit moves `master`, whether or not it exists yet. */
  lemma MoveBranch(refs: seq<Reference>, h: Hash)
    requires refs == EMPTY.refs || exists h0 :: refs == Branch(h0)
    ensures SetRef(refs, HeadTarget(refs), h) == Branch(h)
  {
    assert HeadTarget(refs) == MASTER;
  }

  /** Writing a one-file tree's file again leaves a one-file tree. */
  lemma Overwrite(f: string, a: Bytes, b: Bytes)
    ensures map[f := a][f := b] == map[f := b]
  {
  }

  /** Removing a one-file tree's file leaves the empty tree. */
  lemma RemoveOnly(f: string, a: Bytes)
    ensures map[f := a] - {f} == map[]
  {
    assert (map[f := a] - {f}).Keys == {};
  }

  /** The repository after the first event. */
  function AfterAdd(c1: Bytes, h1: Hash): Repo
  {
    Repo(map[FILE := c1], [ByOperator(h1, FILE + " added", map[FILE := c1])],
         Branch(h1), Some(h1 + "\trefs/heads/master\n"))
  }

  /** Adding it creates `configmap.v1..yaml`, commits `"configmap.v1..yaml added"`, creates
      the branch, and writes one index line. */
  lemma Added1(c1: Bytes, h1: Hash)
    ensures Apply(EMPTY, Added(ConfigMap(c1)), {}, h1) == (AfterAdd(c1, h1), Published(h1, None))
  {
    CoreGroupFilename();
    ChangingWriteCommits(EMPTY, Added(ConfigMap(c1)), h1);
    var (r, o) := Apply(EMPTY, Added(ConfigMap(c1)), {}, h1);
    assert r.tree == map[FILE := c1];
    assert Message(Added(ConfigMap(c1)), FILE) == FILE + " added";
    assert r.log == [ByOperator(h1, FILE + " added", map[FILE := c1])];
    MoveBranch(EMPTY.refs, h1);
    BranchIndex(h1);
    assert r.infoRefs == Some(h1 + "\trefs/heads/master\n");
  }

  /** Updating it with the same content commits nothing and changes nothing. */
  lemma SameUpdate(c1: Bytes, h1: Hash, h2: Hash)
    ensures Apply(AfterAdd(c1, h1), Updated(ConfigMap(c1), ConfigMap(c1)), {}, h2) ==
      (AfterAdd(c1, h1), Published("", None))
  {
    Added1(c1, h1);
    RepeatedUpdateIsNoOp(EMPTY, Added(ConfigMap(c1)), ConfigMap(c1), h1, h2);
  }

  /** Updating it with new content commits `"configmap.v1..yaml modified"` and moves the branch. */
  lemma NewUpdate(c1: Bytes, c2: Bytes, h1: Hash, h3: Hash)
    requires c1 != c2
    ensures var r1 := AfterAdd(c1, h1);
      Apply(r1, Updated(ConfigMap(c1), ConfigMap(c2)), {}, h3) ==
      (Repo(map[FILE := c2], r1.log + [ByOperator(h3, FILE + " modified", map[FILE := c2])],
            Branch(h3), Some(h3 + "\trefs/heads/master\n")),
       Published(h3, None))
  {
    var r1 := AfterAdd(c1, h1);
    var ev := Updated(ConfigMap(c1), ConfigMap(c2));
    var (r, o) := Apply(r1, ev, {}, h3);
    assert && o == Published(h3, None) && r.tree == r1.tree[FILE := c2]
           && r.log == r1.log + [Commit(h3, Message(ev, FILE), AUTHOR, Committer(COMPONENT), r.tree)]
           && r.refs == SetRef(r1.refs, HeadTarget(r1.refs), h3) && IndexCurrent(r) by {
      CoreGroupFilename();
      assert r1.tree == HeadTree(r1.log);
      ChangingWriteCommits(r1, ev, h3);
    }
    Overwrite(FILE, c1, c2);
    MoveBranch(Branch(h1), h3);
    BranchIndex(h3);
  }

  /** The repository before the last event: `configmap.v1..yaml` holds `c2`, which the last of
      the commits `log` records, and `master` points at `h3`. */
  function BeforeDelete(c2: Bytes, log: seq<Commit>, h3: Hash): Repo
  {
    Repo(map[FILE := c2], log, Branch(h3), Some(h3 + "\trefs/heads/master\n"))
  }

  /** The pieces of the repository after the removal. */
  lemma DeletedParts(c2: Bytes, log: seq<Commit>, h3: Hash, h4: Hash)
    requires log != [] && log[|log| - 1].tree == map[FILE := c2]
    ensures var (r, o) := Apply(BeforeDelete(c2, log, h3), Deleted(ConfigMap(c2)), {}, h4);
      && o == Published(h4, None)
      && r.tree == map[]
      && r.log == log + [ByOperator(h4, Quote(FILE) + " removed", map[])]
      && r.refs == SetRef(Branch(h3), HeadTarget(Branch(h3)), h4)
      && IndexCurrent(r)
  {
    var r2 := BeforeDelete(c2, log, h3);
    assert Tracked(r2);
    CoreGroupFilename();
    DeleteTrackedFile(r2, ConfigMap(c2), h4);
    RemoveOnly(FILE, c2);
  }

  /** Deleting it removes the file and commits `"\"configmap.v1..yaml\" removed"`. */
  lemma Deleted1(c2: Bytes, log: seq<Commit>, h3: Hash, h4: Hash)
    requires log != [] && log[|log| - 1].tree == map[FILE := c2]
    ensures Apply(BeforeDelete(c2, log, h3), Deleted(ConfigMap(c2)), {}, h4) ==
      (Repo(map[], log + [ByOperator(h4, "\"" + FILE + "\" removed", map[])],
            Branch(h4), Some(h4 + "\trefs/heads/master\n")),
       Published(h4, None))
  {
    DeletedParts(c2, log, h3, h4);
    FilePlain(FILE);
    RemovedMessage(FILE);
    MoveBranch(Branch(h3), h4);
    BranchIndex(h4);
  }
}
