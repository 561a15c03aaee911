/** The git repository behind the store, seen abstractly: a working tree of files, a linear
    log of commits, the references in the order the storer enumerates them, and the
    `.git/info/refs` index file. Each step of an event is a function from the old state
    to the new one; the class in `Storage` runs the same steps in place. */
module Repository {
  import opened Common

  type Hash = string
  type Tree = map<string, Bytes>

  datatype Signature = Signature(name: string, email: string)

  datatype Commit = Commit(hash: Hash, message: string, author: Signature, committer: Signature, tree: Tree)

  datatype Reference =
    | HashReference(name: string, hash: Hash)
    | SymbolicReference(name: string, target: string)

  datatype Repo = Repo(tree: Tree, log: seq<Commit>, refs: seq<Reference>, infoRefs: Option<string>)

  /** The operations that can fail during an event; the set of those that do is a parameter. */
  datatype Op =
    | Worktree      // opening the worktree
    | Lstat         // an Lstat error other than "does not exist"
    | Create | WriteBytes | Close
    | Remove
    | Status | Add | CommitObject
    | References    // listing or iterating the references
    | WriteRefs     // creating `.git/info` or writing `.git/info/refs`

  datatype Error = NotExist | Failed(op: Op)

  /** Every commit is authored by the recorder itself. */
  const AUTHOR := Signature("config-history-operator", "config-history-operator@openshift.io")

  /** The committer is the component that caused the change. */
  function Committer(component: string): (s: Signature)
    ensures s.name == component && s.email == component + "@openshift.io"
  {
    Signature(component, component + "@openshift.io")
  }

  /** The tree of the last commit; before the first commit, the empty tree. */
  function HeadTree(log: seq<Commit>): Tree
  {
    if log == [] then map[] else log[|log| - 1].tree
  }

  // ---- References ----

  /** The first reference with the given name. */
  function Lookup(refs: seq<Reference>, name: string): (r: Option<Reference>)
    ensures r.Some? ==> r.value in refs && r.value.name == name
    ensures r.None? ==> forall ref :: ref in refs ==> ref.name != name
  {
    if refs == [] then None
    else if refs[0].name == name then Some(refs[0])
    else Lookup(refs[1..], name)
  }

  /** The name of the reference a commit moves: the target of a symbolic `HEAD`, else `HEAD`. */
  function HeadTarget(refs: seq<Reference>): string
  {
    match Lookup(refs, "HEAD")
    case Some(SymbolicReference(_, target)) => target
    case _ => "HEAD"
  }

  /** Points `name` at `hash`: the first reference of that name is replaced where it stands,
      or a new one is added at the end. */
  function SetRef(refs: seq<Reference>, name: string, hash: Hash): (r: seq<Reference>)
    ensures Lookup(r, name) == Some(HashReference(name, hash))
    ensures forall m :: m != name ==> Lookup(r, m) == Lookup(refs, m)
    ensures forall ref :: ref in r ==> ref in refs || ref == HashReference(name, hash)
  {
    if refs == [] then [HashReference(name, hash)]
    else if refs[0].name == name then [HashReference(name, hash)] + refs[1..]
    else [refs[0]] + SetRef(refs[1..], name, hash)
  }

  /** Moving the branch leaves `HEAD` resolving to the same name. */
  lemma HeadTargetStays(refs: seq<Reference>, hash: Hash)
    ensures HeadTarget(SetRef(refs, HeadTarget(refs), hash)) == HeadTarget(refs)
  {
    var t := HeadTarget(refs);
    if t != "HEAD" {
      assert Lookup(SetRef(refs, t, hash), "HEAD") == Lookup(refs, "HEAD");
    }
  }

  /** The branch `HEAD` resolves to points at the last commit, and is absent before the first. */
  ghost predicate TipMatches(r: Repo)
  {
    var t := HeadTarget(r.refs);
    Lookup(r.refs, t) == if r.log == [] then None else Some(HashReference(t, r.log[|r.log| - 1].hash))
  }

  // ---- The `.git/info/refs` index ----

  function RefLine(hash: Hash, name: string): string
  {
    hash + "\t" + name + "\n"
  }

  /** The index line of one reference: a hash reference gives `<hash>\t<name>\n`, a symbolic one nothing. */
  function RefText(ref: Reference): string
  {
    match ref
    case HashReference(name, hash) => RefLine(hash, name)
    case SymbolicReference(_, _) => ""
  }

  /** The index text: the lines of the references, in order. */
  function RefsText(refs: seq<Reference>): string
  {
    if refs == [] then "" else RefText(refs[0]) + RefsText(refs[1..])
  }

  lemma {:induction false} RefsTextAppend(refs: seq<Reference>, ref: Reference)
    ensures RefsText(refs + [ref]) == RefsText(refs) + RefText(ref)
  {
    if refs == [] {
      assert refs + [ref] == [ref];
      assert RefsText([ref]) == RefText(ref) + RefsText([]);
    } else {
      assert (refs + [ref])[0] == refs[0];
      assert (refs + [ref])[1..] == refs[1..] + [ref];
      RefsTextAppend(refs[1..], ref);
    }
  }

  /** The `(hash, name)` pair of a hash reference. */
  function RefPair(ref: Reference): seq<(Hash, string)>
  {
    match ref
    case HashReference(name, hash) => [(hash, name)]
    case SymbolicReference(_, _) => []
  }

  /** The `(hash, name)` pairs of the hash references, in order. */
  function HashRefPairs(refs: seq<Reference>): seq<(Hash, string)>
  {
    if refs == [] then [] else RefPair(refs[0]) + HashRefPairs(refs[1..])
  }

  lemma {:induction false} HashRefListed(refs: seq<Reference>, ref: Reference)
    requires ref in refs && ref.HashReference?
    ensures (ref.hash, ref.name) in HashRefPairs(refs)
  {
    if refs[0] != ref {
      HashRefListed(refs[1..], ref);
    }
  }

  /** Every listed pair stands for a hash reference of the sequence. */
  lemma {:induction false} PairListed(refs: seq<Reference>, p: (Hash, string))
    requires p in HashRefPairs(refs)
    ensures HashReference(p.1, p.0) in refs
  {
    if p !in RefPair(refs[0]) {
      PairListed(refs[1..], p);
    }
  }

  /** No two references share a name, as in a reference store keyed by name. */
  predicate UniqueNames(refs: seq<Reference>)
  {
    forall i, j :: 0 <= i < j < |refs| ==> refs[i].name != refs[j].name
  }

  lemma SameNameSameRef(refs: seq<Reference>, a: Reference, b: Reference)
    requires UniqueNames(refs) && a in refs && b in refs && a.name == b.name
    ensures a == b
  {
    var i :| 0 <= i < |refs| && refs[i] == a;
    var j :| 0 <= j < |refs| && refs[j] == b;
  }

  /** `SetRef` keeps every name where it stands and adds one only for a name not yet there. */
  lemma {:induction false} SetRefNames(refs: seq<Reference>, name: string, hash: Hash)
    ensures var r := SetRef(refs, name, hash);
      && |r| >= |refs|
      && (forall i :: 0 <= i < |refs| ==> r[i].name == refs[i].name)
      && (|r| == |refs| || (|r| == |refs| + 1 && r[|refs|].name == name && Lookup(refs, name).None?))
  {
    if refs != [] && refs[0].name != name {
      var rest := SetRef(refs[1..], name, hash);
      SetRefNames(refs[1..], name, hash);
      assert SetRef(refs, name, hash) == [refs[0]] + rest;
      assert Lookup(refs, name) == Lookup(refs[1..], name);
    }
  }

  /** Pointing a name at a hash keeps the names unique. */
  lemma SetRefKeepsUniqueNames(refs: seq<Reference>, name: string, hash: Hash)
    requires UniqueNames(refs)
    ensures UniqueNames(SetRef(refs, name, hash))
  {
    var r := SetRef(refs, name, hash);
    SetRefNames(refs, name, hash);
    forall i, j | 0 <= i < j < |r| ensures r[i].name != r[j].name {
      if j == |refs| {
        assert refs[i] in refs;
      }
    }
  }

  /** A reference whose names and hash hold no tab or newline. */
  predicate WellFormedRef(ref: Reference)
  {
    match ref
    case HashReference(name, hash) => '\t' !in name && '\n' !in name && '\t' !in hash && '\n' !in hash
    case SymbolicReference(name, target) => '\t' !in name && '\n' !in name && '\t' !in target && '\n' !in target
  }

  /** Reads an index back: lines ending in a newline, each a hash, a tab and a name. */
  function ParseRefs(data: string): Option<seq<(Hash, string)>>
    decreases |data|
  {
    if data == [] then Some([])
    else
      var i := IndexOf(data, '\n');
      if i == |data| then None
      else
        var line := data[..i];
        var j := IndexOf(line, '\t');
        if j == |line| then None
        else
          match ParseRefs(data[i + 1..])
          case None => None
          case Some(rest) => Some([(line[..j], line[j + 1..])] + rest)
  }

  lemma ParseRefLine(hash: Hash, name: string, rest: string)
    requires '\t' !in hash && '\n' !in hash && '\t' !in name && '\n' !in name
    ensures ParseRefs(RefLine(hash, name) + rest) ==
      match ParseRefs(rest)
      case None => None
      case Some(pairs) => Some([(hash, name)] + pairs)
  {
    var line := hash + "\t" + name;
    var data := RefLine(hash, name) + rest;
    assert data == line + ['\n'] + rest;
    assert '\n' !in line by {
      forall k | 0 <= k < |line| ensures line[k] != '\n' {
        if k < |hash| { assert line[k] == hash[k]; }
        else if k > |hash| { assert line[k] == name[k - |hash| - 1]; }
      }
    }
    IndexOfAfter(line, '\n', rest);
    assert data[..|line|] == line;
    assert data[|line| + 1..] == rest;
    assert line == hash + ['\t'] + name;
    IndexOfAfter(hash, '\t', name);
    assert line[..|hash|] == hash;
    assert line[|hash| + 1..] == name;
  }

  /** The index lists exactly the hash references, in order: reading it back gives their pairs. */
  lemma {:induction false} RefsTextParsesBack(refs: seq<Reference>)
    requires forall ref :: ref in refs ==> WellFormedRef(ref)
    ensures ParseRefs(RefsText(refs)) == Some(HashRefPairs(refs))
  {
    if refs != [] {
      assert refs[0] in refs;
      RefsTextParsesBack(refs[1..]);
      match refs[0]
      case HashReference(name, hash) =>
        assert RefsText(refs) == RefLine(hash, name) + RefsText(refs[1..]);
        assert HashRefPairs(refs) == [(hash, name)] + HashRefPairs(refs[1..]);
        ParseRefLine(hash, name, RefsText(refs[1..]));
      case SymbolicReference(_, _) =>
        assert RefsText(refs) == RefsText(refs[1..]);
        assert HashRefPairs(refs) == HashRefPairs(refs[1..]);
    }
  }

  // ---- Working-tree steps ----

  datatype FsResult = FsResult(tree: Tree, err: Option<Error>)

  /** `delete`: removes `name`, which must be there. */
  function DeleteTree(tree: Tree, name: string, faults: set<Op>): (r: FsResult)
    ensures r.err.None? <==> Worktree !in faults && name in tree && Remove !in faults
    ensures r.err.None? ==> r.tree == tree - {name}
    ensures r.err.Some? ==> r.tree == tree
    ensures Worktree !in faults && name !in tree ==> r.err == Some(NotExist)
  {
    if Worktree in faults then FsResult(tree, Some(Failed(Worktree)))
    else if name !in tree then FsResult(tree, Some(NotExist))
    else if Remove in faults then FsResult(tree, Some(Failed(Remove)))
    else FsResult(tree - {name}, None)
  }

  /** Creating `name`, writing `content` into it and closing it. A failed `Write` leaves the
      file created but empty; a failed `Close` comes after the content is written. */
  function CreateFile(tree: Tree, name: string, content: Bytes, faults: set<Op>): (r: FsResult)
    ensures r.err.None? <==> Create !in faults && WriteBytes !in faults && Close !in faults
    ensures r.err.None? || r.err == Some(Failed(Close)) ==> r.tree == tree[name := content]
    ensures r.err == Some(Failed(Create)) ==> r.tree == tree
    ensures r.err == Some(Failed(WriteBytes)) ==> r.tree == tree[name := []]
    ensures r.tree - {name} == tree - {name}
  {
    if Create in faults then FsResult(tree, Some(Failed(Create)))
    else if WriteBytes in faults then FsResult(tree[name := []], Some(Failed(WriteBytes)))
    else if Close in faults then FsResult(tree[name := content], Some(Failed(Close)))
    else FsResult(tree[name := content], None)
  }

  /** `write`: the file ends up holding exactly `content`, whether or not it was there and
      whatever it held; an existing file is deleted first and then created afresh. */
  function WriteTree(tree: Tree, name: string, content: Bytes, faults: set<Op>): (r: FsResult)
    ensures r.err.None? <==>
      Worktree !in faults && Lstat !in faults && (name in tree ==> Remove !in faults) &&
      Create !in faults && WriteBytes !in faults && Close !in faults
    ensures r.err.None? ==> r.tree == tree[name := content]
    ensures r.tree - {name} == tree - {name}
    ensures Worktree !in faults && Lstat in faults ==> r == FsResult(tree, Some(Failed(Lstat)))
    ensures r.err == Some(Failed(Create)) && name in tree ==> r.tree == tree - {name}
  {
    if Worktree in faults then FsResult(tree, Some(Failed(Worktree)))
    else if Lstat in faults then FsResult(tree, Some(Failed(Lstat)))
    else if name !in tree then CreateFile(tree, name, content, faults)
    else
      var d := DeleteTree(tree, name, faults);
      if d.err.Some? then d else CreateFile(d.tree, name, content, faults)
  }

  // ---- Commit step ----

  /** What `Add(name)` and `Commit(All: true)` record: the files HEAD tracks, as the working
      tree now has them (deleted ones drop out), plus `name`. */
  function CommitTree(tree: Tree, head: Tree, name: string): (t: Tree)
    ensures t.Keys <= tree.Keys
    ensures forall f :: f in t ==> t[f] == tree[f]
    ensures tree.Keys <= head.Keys + {name} ==> t == tree
    ensures forall f :: f in t <==> f in tree && (f in head || f == name)
  {
    map f | f in tree && (f in head || f == name) :: tree[f]
  }

  datatype CommitResult = CommitResult(repo: Repo, hash: Hash, err: Option<Error>)

  /** `commit`: status first; a clean tree gives `("", nil)` and no commit. Otherwise stage `name`
      and commit with the fixed author and `component` as committer; the branch `HEAD`
      resolves to moves to the new commit, whose hash (`hash`) go-git computes. */
  function CommitStep(r: Repo, name: string, component: string, message: string, faults: set<Op>, hash: Hash)
    : (c: CommitResult)
    ensures c.repo.tree == r.tree && c.repo.infoRefs == r.infoRefs
    ensures Worktree !in faults && Status !in faults && r.tree == HeadTree(r.log) ==> c == CommitResult(r, "", None)
    ensures c.repo.log != r.log <==>
      Worktree !in faults && Status !in faults && r.tree != HeadTree(r.log) && Add !in faults && CommitObject !in faults
    ensures c.repo.log == r.log ==> c.repo == r && c.hash == ""
    ensures c.repo.log != r.log ==>
      && c.err.None? && c.hash == hash
      && c.repo.log == r.log + [Commit(hash, message, AUTHOR, Committer(component), CommitTree(r.tree, HeadTree(r.log), name))]
      && c.repo.refs == SetRef(r.refs, HeadTarget(r.refs), hash)
    ensures c.err.None? ==> HeadTree(c.repo.log) == CommitTree(r.tree, HeadTree(r.log), name) || r.tree == HeadTree(r.log)
    ensures TipMatches(r) ==> TipMatches(c.repo)
  {
    if Worktree in faults then CommitResult(r, "", Some(Failed(Worktree)))
    else if Status in faults then CommitResult(r, "", Some(Failed(Status)))
    else if r.tree == HeadTree(r.log) then CommitResult(r, "", None)
    else if Add in faults then CommitResult(r, "", Some(Failed(Add)))
    else if CommitObject in faults then CommitResult(r, "", Some(Failed(CommitObject)))
    else
      var commit := Commit(hash, message, AUTHOR, Committer(component), CommitTree(r.tree, HeadTree(r.log), name));
      var target := HeadTarget(r.refs);
      HeadTargetStays(r.refs, hash);
      CommitResult(r.(log := r.log + [commit], refs := SetRef(r.refs, target, hash)), hash, None)
  }

  // ---- Index step ----

  /** `updateRefsFile`: the new index text, or `None` for the panic a failure causes. */
  function RefsFileStep(refs: seq<Reference>, faults: set<Op>): (r: Option<string>)
    ensures r.Some? <==> References !in faults && WriteRefs !in faults
    ensures r.Some? ==> r.value == RefsText(refs)
  {
    if References in faults || WriteRefs in faults then None else Some(RefsText(refs))
  }

  /** The index file lists the current references. */
  predicate IndexCurrent(r: Repo)
  {
    r.infoRefs == Some(RefsText(r.refs))
  }

  /** When the index is current and the tip matches, the index names the last commit's hash
      against the branch `HEAD` resolves to. */
  lemma IndexNamesTip(r: Repo)
    requires TipMatches(r) && IndexCurrent(r) && r.log != [] && UniqueNames(r.refs)
    requires forall ref :: ref in r.refs ==> WellFormedRef(ref)
    ensures ParseRefs(r.infoRefs.value) == Some(HashRefPairs(r.refs))
    ensures (r.log[|r.log| - 1].hash, HeadTarget(r.refs)) in HashRefPairs(r.refs)
    ensures forall p :: p in HashRefPairs(r.refs) && p.1 == HeadTarget(r.refs) ==> p.0 == r.log[|r.log| - 1].hash
  {
    var t := HeadTarget(r.refs);
    var tip := Lookup(r.refs, t).value;
    HashRefListed(r.refs, tip);
    RefsTextParsesBack(r.refs);
    forall p | p in HashRefPairs(r.refs) && p.1 == t ensures p.0 == r.log[|r.log| - 1].hash {
      PairListed(r.refs, p);
      SameNameSameRef(r.refs, HashReference(p.1, p.0), tip);
    }
  }
}
