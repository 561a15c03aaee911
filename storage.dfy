/** `GitStorage`: the store itself, whose handlers change the repository in place one step at
    a time. Each method is proved to have the effect of the matching step function of
    `Repository` and `Events`, so the lemmas proved there hold of what the handlers do. */
module Storage {
  import opened Common
  import opened Naming
  import opened Repository
  import opened Events

  class GitStorage {
    var tree: Tree                 // the working tree
    var log: seq<Commit>           // the history, oldest first
    var refs: seq<Reference>       // the references, in the order the storer lists them
    var infoRefs: Option<string>   // `.git/info/refs`, if it was ever written

    function State(): Repo
      reads this
    {
      Repo(tree, log, refs, infoRefs)
    }

    /** The branch `HEAD` resolves to names the last commit, and no two references share a name. */
    ghost predicate Valid()
      reads this
    {
      TipMatches(State()) && UniqueNames(refs)
    }

    /** A freshly initialised repository: nothing in the tree, no commits, `HEAD` pointing
        at a branch that does not exist yet, and no index file. */
    constructor Init()
      ensures Valid()
      ensures State() == Repo(map[], [], [SymbolicReference("HEAD", "refs/heads/master")], None)
    {
      tree := map[];
      log := [];
      refs := [SymbolicReference("HEAD", "refs/heads/master")];
      infoRefs := None;
    }

    /** `delete`: removes the file, failing when it is absent. */
    method Delete(name: string, faults: set<Op>) returns (err: Option<Error>)
      modifies this`tree
      ensures FsResult(tree, err) == DeleteTree(old(tree), name, faults)
    {
      if Worktree in faults {
        return Some(Failed(Worktree));
      }
      if name !in tree {
        return Some(NotExist);
      }
      if Remove in faults {
        return Some(Failed(Remove));
      }
      tree := tree - {name};
      return None;
    }

    /** `write`: a missing file is created and written; an existing one is deleted and the
        write starts over, now taking the create path. */
    method Write(name: string, content: Bytes, faults: set<Op>) returns (err: Option<Error>)
      modifies this`tree
      ensures FsResult(tree, err) == WriteTree(old(tree), name, content, faults)
      decreases if name in tree then 1 else 0
    {
      if Worktree in faults {
        return Some(Failed(Worktree));
      }
      if Lstat in faults {
        return Some(Failed(Lstat));
      }
      if name !in tree {
        if Create in faults {
          return Some(Failed(Create));
        }
        tree := tree[name := []];
        if WriteBytes in faults {
          return Some(Failed(WriteBytes));
        }
        tree := tree[name := content];
        if Close in faults {
          return Some(Failed(Close));
        }
        return None;
      }
      err := Delete(name, faults);
      if err.Some? {
        return;
      }
      err := Write(name, content, faults);
    }

    /** `commit`: nothing when the status is clean; otherwise stage `name` and append one
        commit, moving the branch `HEAD` resolves to. */
    method Commit(name: string, component: string, message: string, faults: set<Op>, hash: Hash)
      returns (h: Hash, err: Option<Error>)
      modifies this`log, this`refs
      ensures CommitResult(State(), h, err) == CommitStep(old(State()), name, component, message, faults, hash)
    {
      if Worktree in faults {
        return "", Some(Failed(Worktree));
      }
      if Status in faults {
        return "", Some(Failed(Status));
      }
      var head := HeadTree(log);
      if tree == head {
        return "", None;
      }
      if Add in faults {
        return "", Some(Failed(Add));
      }
      if CommitObject in faults {
        return "", Some(Failed(CommitObject));
      }
      var commit := Repository.Commit(hash, message, AUTHOR, Committer(component), CommitTree(tree, head, name));
      log := log + [commit];
      refs := SetRef(refs, HeadTarget(refs), hash);
      return hash, None;
    }

    /** `updateRefsFile`: one `<hash>\t<name>\n` line per hash reference, in order, written
        over the whole index file; any failure is fatal. */
    method UpdateRefsFile(faults: set<Op>) returns (fatal: bool)
      modifies this`infoRefs
      ensures fatal == RefsFileStep(refs, faults).None?
      ensures infoRefs == if fatal then old(infoRefs) else RefsFileStep(refs, faults)
    {
      if References in faults {
        return true;
      }
      var data := "";
      var i := 0;
      while i < |refs|
        invariant 0 <= i <= |refs|
        invariant data == RefsText(refs[..i])
        invariant infoRefs == old(infoRefs)
      {
        var ref := refs[i];
        if ref.HashReference? {
          data := data + RefLine(ref.hash, ref.name);
        }
        RefsTextAppend(refs[..i], ref);
        assert refs[..i + 1] == refs[..i] + [ref];
        i := i + 1;
      }
      assert refs[..i] == refs;
      if WriteRefs in faults {
        return true;
      }
      infoRefs := Some(data);
      return false;
    }

    /** The steps the three handlers share once the object is decoded. */
    method Record(ev: Event, d: Decoded, faults: set<Op>, hash: Hash) returns (out: Outcome)
      requires Valid() && d == Decode(ev.obj) && d.content.Some?
      modifies this
      ensures Valid()
      ensures (State(), out) == Apply(old(State()), ev, faults, hash)
    {
      ghost var r0 := State();
      var err;
      if ev.Deleted? {
        err := Delete(d.name, faults);
      } else {
        err := Write(d.name, d.content.value, faults);
      }
      ghost var w := FileStep(r0.tree, ev, d.name, d.content.value, faults);
      assert FsResult(tree, err) == w;
      if err.Some? {
        out := WriteFailed(err.value);
        assert (State(), out) == Apply(r0, ev, faults, hash);
      } else {
        ghost var r1 := State();
        assert r1 == r0.(tree := w.tree);
        var h, commitErr := Commit(d.name, COMPONENT, Message(ev, d.name), faults, hash);
        ghost var c := CommitStep(r1, d.name, COMPONENT, Message(ev, d.name), faults, hash);
        assert CommitResult(State(), h, commitErr) == c;
        var fatal := UpdateRefsFile(faults);
        out := if fatal then Fatal else Published(h, commitErr);
        assert (State(), out) == Apply(r0, ev, faults, hash);
      }
      EventMovesAtMostTheBranch(r0, ev, faults, hash);
      SetRefKeepsUniqueNames(r0.refs, HeadTarget(r0.refs), hash);
    }

    method OnAdd(obj: Object, faults: set<Op>, hash: Hash) returns (out: Outcome)
      requires Valid()
      modifies this
      ensures Valid()
      ensures (State(), out) == Apply(old(State()), Added(obj), faults, hash)
    {
      var d := Decode(obj);
      if d.content.None? {
        return DecodeFailed;
      }
      out := Record(Added(obj), d, faults, hash);
    }

    method OnUpdate(oldObj: Object, obj: Object, faults: set<Op>, hash: Hash) returns (out: Outcome)
      requires Valid()
      modifies this
      ensures Valid()
      ensures (State(), out) == Apply(old(State()), Updated(oldObj, obj), faults, hash)
    {
      var d := Decode(obj);
      if d.content.None? {
        return DecodeFailed;
      }
      out := Record(Updated(oldObj, obj), d, faults, hash);
    }

    method OnDelete(obj: Object, faults: set<Op>, hash: Hash) returns (out: Outcome)
      requires Valid()
      modifies this
      ensures Valid()
      ensures (State(), out) == Apply(old(State()), Deleted(obj), faults, hash)
    {
      var d := Decode(obj);
      if d.content.None? {
        return DecodeFailed;
      }
      out := Record(Deleted(obj), d, faults, hash);
    }
  }
}
