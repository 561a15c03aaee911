/** The three notification handlers (`OnAdd`, `OnUpdate`, `OnDelete`) as one step function on
    the repository, and what follows from running them one after another: the history only
    grows, in event order, identical updates leave it alone, and the index follows the branch. */
module Events {
  import opened Common
  import opened Naming
  import opened Repository

  /** An incoming resource: its type, its identity, and the YAML the encoder renders for it
      (`None` when encoding or the JSON-to-YAML conversion fails). */
  datatype Object = Unstructured(gvk: GroupVersionKind, namespace: string, name: string, yaml: Option<Bytes>)

  datatype Decoded = Decoded(name: string, content: Option<Bytes>)

  /** `decodeUnstructuredObject`: the file name comes from the type alone and is returned even
      when encoding fails; the content is the rendering, if there is one. */
  function Decode(obj: Object): (d: Decoded)
    ensures d.name == ResourceFilename(obj.gvk)
    ensures d.content == obj.yaml
  {
    Decoded(ResourceFilename(obj.gvk), obj.yaml)
  }

  datatype Event =
    | Added(obj: Object)
    | Updated(oldObj: Object, obj: Object)
    | Deleted(obj: Object)

  /** The handlers always commit as this component. */
  const COMPONENT := "operator"

  /** `"%s added"`, `"%s modified"` and `"%q removed"`: the file name can be read back from
      the message, unquoted for a removal. */
  function Message(ev: Event, name: string): (m: string)
    ensures !ev.Deleted? ==> |m| > |name| && m[..|name|] == name
    ensures ev.Deleted? ==> |m| >= 8 && m[|m| - 8..] == " removed" && Unquote(m[..|m| - 8]) == Some(name)
  {
    match ev
    case Added(_) => name + " added"
    case Updated(_, _) => name + " modified"
    case Deleted(_) =>
      var m := Quote(name) + " removed";
      assert m[..|m| - 8] == Quote(name);
      UnquoteQuote(name);
      m
  }

  /** How an event ends: stopped by a decode or a file failure, finished with the index
      regenerated (the hash is `""` when nothing was committed), or the index panic. */
  datatype Outcome =
    | DecodeFailed
    | WriteFailed(err: Error)
    | Published(hash: Hash, commitErr: Option<Error>)
    | Fatal

  /** The file step of an event: `write` for add and update, `delete` for delete. */
  function FileStep(tree: Tree, ev: Event, name: string, content: Bytes, faults: set<Op>): FsResult
  {
    if ev.Deleted? then DeleteTree(tree, name, faults) else WriteTree(tree, name, content, faults)
  }

  /** One handler call: decode, then write or delete, then commit, then regenerate the index.
      The history grows by at most one commit, which carries the event's message, the fixed
      author, the `operator` committer and the staged tree. */
  function Apply(r: Repo, ev: Event, faults: set<Op>, hash: Hash): (res: (Repo, Outcome))
    ensures var name := Decode(ev.obj).name;
      || res.0.log == r.log
      || (|res.0.log| == |r.log| + 1 && res.0.log[..|r.log|] == r.log &&
          res.0.log[|r.log|] ==
            Commit(hash, Message(ev, name), AUTHOR, Committer(COMPONENT),
                   CommitTree(res.0.tree, HeadTree(r.log), name)))
    ensures TipMatches(r) ==> TipMatches(res.0)
  {
    var d := Decode(ev.obj);
    if d.content.None? then (r, DecodeFailed)
    else
      var w := FileStep(r.tree, ev, d.name, d.content.value, faults);
      if w.err.Some? then (r.(tree := w.tree), WriteFailed(w.err.value))
      else
        var c := CommitStep(r.(tree := w.tree), d.name, COMPONENT, Message(ev, d.name), faults, hash);
        match RefsFileStep(c.repo.refs, faults)
        case None => (c.repo, Fatal)
        case Some(text) => (c.repo.(infoRefs := Some(text)), Published(c.hash, c.err))
  }

  /** A decode failure ends the event before anything is written; a write or delete failure
      ends it before the commit and the index (only the event's own file may have changed);
      deleting a file that is not there is such a failure. */
  lemma FailuresStopEvent(r: Repo, ev: Event, faults: set<Op>, hash: Hash)
    ensures var d := Decode(ev.obj);
      var res := Apply(r, ev, faults, hash);
      && (res.1 == DecodeFailed <==> d.content.None?)
      && (res.1 == DecodeFailed ==> res.0 == r)
      && (res.1.WriteFailed? ==>
            res.0.log == r.log && res.0.refs == r.refs && res.0.infoRefs == r.infoRefs &&
            res.0.tree - {d.name} == r.tree - {d.name})
      && (d.content.Some? && FileStep(r.tree, ev, d.name, d.content.value, faults).err.Some? ==>
            var w := FileStep(r.tree, ev, d.name, d.content.value, faults);
            res == (r.(tree := w.tree), WriteFailed(w.err.value)))
      && (ev.Deleted? && d.content.Some? && Worktree !in faults && d.name !in r.tree ==>
            res == (r, WriteFailed(NotExist)))
  {
  }

  /** Once the file step succeeds the event reaches the index, whether or not the commit does:
      the tree holds the written content (or lacks the deleted file), a commit failure leaves
      the history as it was, and the regenerated index lists the current references. */
  lemma CompletedEvent(r: Repo, ev: Event, faults: set<Op>, hash: Hash)
    ensures var d := Decode(ev.obj);
      var res := Apply(r, ev, faults, hash);
      && (res.1.Published? || res.1.Fatal? ==>
            res.0.tree == if ev.Deleted? then r.tree - {d.name} else r.tree[d.name := d.content.value])
      && (res.1.Published? ==> IndexCurrent(res.0))
      && (res.1.Published? && res.1.commitErr.Some? ==> res.0.log == r.log)
      && (IndexCurrent(r) && !res.1.Fatal? ==> IndexCurrent(res.0))
  {
  }

  /** An event whose file step succeeds always reaches the index step, whatever the commit
      does: it ends in the panic exactly when listing or writing the references fails, and
      otherwise it is published with a current index. */
  lemma EventReachesIndex(r: Repo, ev: Event, faults: set<Op>, hash: Hash)
    ensures var d := Decode(ev.obj);
      var res := Apply(r, ev, faults, hash);
      d.content.Some? && FileStep(r.tree, ev, d.name, d.content.value, faults).err.None? ==>
        && (res.1.Fatal? <==> References in faults || WriteRefs in faults)
        && (!res.1.Fatal? ==> res.1.Published? && IndexCurrent(res.0))
  {
    var d := Decode(ev.obj);
    if d.content.Some? {
      var w := FileStep(r.tree, ev, d.name, d.content.value, faults);
      if w.err.None? {
        var c := CommitStep(r.(tree := w.tree), d.name, COMPONENT, Message(ev, d.name), faults, hash);
        assert RefsFileStep(c.repo.refs, faults).None? <==> References in faults || WriteRefs in faults;
      }
    }
  }

  /** A failed commit is only reported: after a write to a dirty tree whose `Add` fails, the
      history and the references stay as they were, and the index is still regenerated. */
  lemma FailedAddStillPublishes(r: Repo, ev: Event, hash: Hash)
    requires !ev.Deleted? && ev.obj.yaml.Some?
    requires var name := ResourceFilename(ev.obj.gvk);
      r.tree[name := ev.obj.yaml.value] != HeadTree(r.log)
    ensures var name := ResourceFilename(ev.obj.gvk);
      Apply(r, ev, {Add}, hash) ==
        (r.(tree := r.tree[name := ev.obj.yaml.value], infoRefs := Some(RefsText(r.refs))),
         Published("", Some(Failed(Add))))
  {
    var name := ResourceFilename(ev.obj.gvk);
    var w := WriteTree(r.tree, name, ev.obj.yaml.value, {Add});
    assert w == FsResult(r.tree[name := ev.obj.yaml.value], None);
  }

  // ---- Sequences of events ----

  /** One event with the failures it meets and the hash go-git would give its commit. */
  datatype Step = Step(ev: Event, faults: set<Op>, hash: Hash)

  /** Events handled one at a time, in order; the index panic ends the process. */
  function Run(r: Repo, steps: seq<Step>): Repo
    decreases |steps|
  {
    if steps == [] then r
    else
      var (r1, out) := Apply(r, steps[0].ev, steps[0].faults, steps[0].hash);
      if out.Fatal? then r1 else Run(r1, steps[1..])
  }

  predicate IsSubsequence(a: seq<(Hash, string)>, b: seq<(Hash, string)>)
    decreases |b|
  {
    a == [] || (b != [] && ((a[0] == b[0] && IsSubsequence(a[1..], b[1..])) || IsSubsequence(a, b[1..])))
  }

  lemma SubsequenceOfLonger(a: seq<(Hash, string)>, x: (Hash, string), b: seq<(Hash, string)>)
    requires IsSubsequence(a, b)
    ensures IsSubsequence(a, [x] + b)
  {
    assert ([x] + b)[1..] == b;
  }

  /** The hash and message of each commit. */
  function Stamps(log: seq<Commit>): seq<(Hash, string)>
  {
    seq(|log|, i requires 0 <= i < |log| => (log[i].hash, log[i].message))
  }

  /** The hash and message each event would commit with. */
  function Expected(steps: seq<Step>): seq<(Hash, string)>
  {
    seq(|steps|, i requires 0 <= i < |steps| => (steps[i].hash, Message(steps[i].ev, Decode(steps[i].ev.obj).name)))
  }

  lemma SuffixOfAppend(a: seq<Commit>, b: seq<Commit>, c: seq<Commit>, log: seq<Commit>)
    requires log == (a + b) + c
    ensures log[|a|..] == b + c
  {
  }

  /** One event of `RunKeepsOrder`, on the logs alone: `log0` before the event, `log1` after
      it, `log` at the end of the run. */
  lemma GrowInOrder(log0: seq<Commit>, log1: seq<Commit>, log: seq<Commit>,
                    e: (Hash, string), rest: seq<(Hash, string)>, n: nat)
    requires log1 == log0 ||
      (|log1| == |log0| + 1 && log1[..|log0|] == log0 && (log1[|log0|].hash, log1[|log0|].message) == e)
    requires |log1| <= |log| <= |log1| + n && log[..|log1|] == log1
    requires IsSubsequence(Stamps(log[|log1|..]), rest)
    ensures |log0| <= |log| <= |log0| + n + 1 && log[..|log0|] == log0
    ensures IsSubsequence(Stamps(log[|log0|..]), [e] + rest)
  {
    var added := log1[|log0|..];
    var later := log[|log1|..];
    assert log1 == log0 + added;
    assert log == log1 + later by {
      assert log == log[..|log1|] + later;
    }
    SuffixOfAppend(log0, added, later, log);
    assert Stamps(added + later) == Stamps(added) + Stamps(later);
    if added == [] {
      assert added + later == later;
      SubsequenceOfLonger(Stamps(later), e, rest);
    } else {
      assert Stamps(added) + Stamps(later) == [e] + Stamps(later);
      assert ([e] + Stamps(later))[1..] == Stamps(later);
      assert ([e] + rest)[1..] == rest;
    }
  }

  /** The history only grows, by at most one commit per event, and the new commits are those
      of the events that committed, in the order the events came. */
  lemma {:induction false} RunKeepsOrder(r: Repo, steps: seq<Step>)
    ensures var r' := Run(r, steps);
      && |r.log| <= |r'.log| <= |r.log| + |steps|
      && r'.log[..|r.log|] == r.log
      && IsSubsequence(Stamps(r'.log[|r.log|..]), Expected(steps))
    decreases |steps|
  {
    if steps != [] {
      var s := steps[0];
      var res := Apply(r, s.ev, s.faults, s.hash);
      var e := (s.hash, Message(s.ev, Decode(s.ev.obj).name));
      assert Expected(steps) == [e] + Expected(steps[1..]);
      if res.1.Fatal? {
        assert Run(r, steps) == res.0;
        GrowInOrder(r.log, res.0.log, res.0.log, e, Expected(steps[1..]), 0);
      } else {
        assert Run(r, steps) == Run(res.0, steps[1..]);
        RunKeepsOrder(res.0, steps[1..]);
        GrowInOrder(r.log, res.0.log, Run(res.0, steps[1..]).log, e, Expected(steps[1..]), |steps| - 1);
      }
    }
  }

  // ---- Properties of particular event sequences ----

  /** Every file in the working tree is tracked by the last commit. */
  predicate Tracked(r: Repo)
  {
    r.tree.Keys <= HeadTree(r.log).Keys
  }

  /** An event that meets no failure before the index step leaves the tree equal to HEAD's tree. */
  lemma {:induction false} CleanEventCommitsEverything(r: Repo, ev: Event, faults: set<Op>, hash: Hash)
    requires Tracked(r) && Decode(ev.obj).content.Some?
    requires faults <= {References, WriteRefs}
    requires ev.Deleted? ==> Decode(ev.obj).name in r.tree
    ensures var r' := Apply(r, ev, faults, hash).0; r'.tree == HeadTree(r'.log) && Tracked(r')
  {
    var d := Decode(ev.obj);
    var w := FileStep(r.tree, ev, d.name, d.content.value, faults);
    assert w.err.None?;
    assert w.tree.Keys <= HeadTree(r.log).Keys + {d.name};
    var c := CommitStep(r.(tree := w.tree), d.name, COMPONENT, Message(ev, d.name), faults, hash);
    assert c.err.None? && c.repo.tree == w.tree;
    assert CommitTree(w.tree, HeadTree(r.log), d.name) == w.tree;
    assert HeadTree(c.repo.log) == w.tree;
    assert Apply(r, ev, faults, hash).0 == c.repo.(infoRefs := Apply(r, ev, faults, hash).0.infoRefs);
  }

  /** Writing what the tree already holds, such as the same update twice, changes nothing:
      no commit, no reference moves, and the index stays as it was. */
  lemma RepeatedUpdateIsNoOp(r: Repo, first: Event, obj: Object, h1: Hash, h2: Hash)
    requires Tracked(r) && !first.Deleted? && first.obj == obj && obj.yaml.Some?
    ensures var (r1, _) := Apply(r, first, {}, h1);
      Apply(r1, Updated(obj, obj), {}, h2) == (r1, Published("", None))
  {
    var (r1, o1) := Apply(r, first, {}, h1);
    var d := Decode(obj);
    assert r1.tree == HeadTree(r1.log) by {
      CleanEventCommitsEverything(r, first, {}, h1);
    }
    assert IndexCurrent(r1) && d.name in r1.tree && r1.tree[d.name] == d.content.value by {
      CompletedEvent(r, first, {}, h1);
    }
    UnchangedWriteIsNoOp(r1, Updated(obj, obj), h2);
  }

  /** `RepeatedUpdateIsNoOp` needs every file to be tracked: a file in the working tree that
      HEAD lacks and that was never staged (its write failed after `Create`, or its commit
      stopped at or before `Add`) keeps the status dirty, so even an update that changes
      nothing commits again, repeating HEAD's tree, and the file stays untracked. */
  lemma UntrackedFileForcesCommit(r: Repo, obj: Object, stray: string, h: Hash)
    requires obj.yaml.Some?
    requires var name := ResourceFilename(obj.gvk);
      name in r.tree && r.tree[name] == obj.yaml.value && name in HeadTree(r.log)
    requires forall f :: f in HeadTree(r.log) ==> f in r.tree && r.tree[f] == HeadTree(r.log)[f]
    requires stray in r.tree && stray !in HeadTree(r.log)
    ensures var (r1, o1) := Apply(r, Updated(obj, obj), {}, h);
      && o1 == Published(h, None)
      && r1.tree == r.tree
      && |r1.log| == |r.log| + 1
      && HeadTree(r1.log) == HeadTree(r.log)
      && stray !in HeadTree(r1.log)
  {
    var name := ResourceFilename(obj.gvk);
    var head := HeadTree(r.log);
    var w := WriteTree(r.tree, name, obj.yaml.value, {});
    assert w.tree == r.tree;
    assert r.tree != head by {
      assert stray in r.tree;
    }
    assert CommitTree(r.tree, head, name) == head;
  }

  /** On a clean tree with a current index, writing what the file already holds changes nothing. */
  lemma UnchangedWriteIsNoOp(r: Repo, ev: Event, h: Hash)
    requires r.tree == HeadTree(r.log) && IndexCurrent(r) && !ev.Deleted? && ev.obj.yaml.Some?
    requires var d := Decode(ev.obj); d.name in r.tree && r.tree[d.name] == d.content.value
    ensures Apply(r, ev, {}, h) == (r, Published("", None))
  {
    var d := Decode(ev.obj);
    assert r.tree[d.name := d.content.value] == r.tree;
  }

  /** Deleting a file HEAD tracks commits the removal, with the tree that lacks the file. */
  lemma DeleteTrackedFile(r: Repo, gone: Object, h: Hash)
    requires Tracked(r) && gone.yaml.Some? && ResourceFilename(gone.gvk) in r.tree
    ensures var name := ResourceFilename(gone.gvk);
      var (r1, o1) := Apply(r, Deleted(gone), {}, h);
      && o1 == Published(h, None)
      && r1.tree == r.tree - {name}
      && r1.log == r.log + [Commit(h, Quote(name) + " removed", AUTHOR, Committer(COMPONENT), r1.tree)]
      && r1.refs == SetRef(r.refs, HeadTarget(r.refs), h) && IndexCurrent(r1)
  {
    var name := ResourceFilename(gone.gvk);
    var w := DeleteTree(r.tree, name, {});
    assert w.tree == r.tree - {name};
    assert name in HeadTree(r.log);
    assert w.tree != HeadTree(r.log);
    assert CommitTree(w.tree, HeadTree(r.log), name) == w.tree;
  }

  /** On a clean tree, an add or update that changes the file (or creates it) commits once,
      with the event's message and the new tree. */
  lemma ChangingWriteCommits(r: Repo, ev: Event, h: Hash)
    requires r.tree == HeadTree(r.log) && !ev.Deleted? && ev.obj.yaml.Some?
    requires var name := ResourceFilename(ev.obj.gvk);
      name !in r.tree || r.tree[name] != ev.obj.yaml.value
    ensures var name := ResourceFilename(ev.obj.gvk);
      var (r2, o2) := Apply(r, ev, {}, h);
      && o2 == Published(h, None)
      && r2.tree == r.tree[name := ev.obj.yaml.value]
      && r2.log == r.log + [Commit(h, Message(ev, name), AUTHOR, Committer(COMPONENT), r2.tree)]
      && r2.refs == SetRef(r.refs, HeadTarget(r.refs), h) && IndexCurrent(r2)
  {
    var name := ResourceFilename(ev.obj.gvk);
    var w := WriteTree(r.tree, name, ev.obj.yaml.value, {});
    assert w.tree == r.tree[name := ev.obj.yaml.value];
    assert name !in HeadTree(r.log) || w.tree[name] != HeadTree(r.log)[name];
    assert w.tree != HeadTree(r.log);
    assert CommitTree(w.tree, HeadTree(r.log), name) == w.tree;
  }

  /** Deleting a tracked type and adding it back records a removal and then an addition, and
      the file ends up holding exactly the new content. */
  lemma DeleteThenAdd(r: Repo, gone: Object, back: Object, h1: Hash, h2: Hash)
    requires Tracked(r)
    requires gone.gvk == back.gvk && gone.yaml.Some? && back.yaml.Some?
    requires ResourceFilename(gone.gvk) in r.tree
    ensures var name := ResourceFilename(gone.gvk);
      var (r1, o1) := Apply(r, Deleted(gone), {}, h1);
      var (r2, o2) := Apply(r1, Added(back), {}, h2);
      && o1 == Published(h1, None) && o2 == Published(h2, None)
      && r2.tree == r.tree[name := back.yaml.value]
      && r2.log == r.log + [
           Commit(h1, Quote(name) + " removed", AUTHOR, Committer(COMPONENT), r.tree - {name}),
           Commit(h2, name + " added", AUTHOR, Committer(COMPONENT), r2.tree)]
  {
    var name := ResourceFilename(gone.gvk);
    var (r1, o1) := Apply(r, Deleted(gone), {}, h1);
    var (r2, o2) := Apply(r1, Added(back), {}, h2);
    var c1 := Commit(h1, Quote(name) + " removed", AUTHOR, Committer(COMPONENT), r.tree - {name});
    assert o1 == Published(h1, None) && r1.tree == r.tree - {name} && r1.log == r.log + [c1] by {
      DeleteTrackedFile(r, gone, h1);
    }
    var c2 := Commit(h2, name + " added", AUTHOR, Committer(COMPONENT), r2.tree);
    assert o2 == Published(h2, None) && r2.tree == r1.tree[name := back.yaml.value] &&
           r2.log == r1.log + [c2] by {
      assert r1.tree == HeadTree(r1.log) && name !in r1.tree;
      ChangingWriteCommits(r1, Added(back), h2);
    }
    Rewrite(r.tree, name, back.yaml.value);
  }

  /** Removing a file and writing it again is writing it. */
  lemma Rewrite(tree: Tree, name: string, content: Bytes)
    ensures (tree - {name})[name := content] == tree[name := content]
  {
    assert ((tree - {name})[name := content]).Keys == tree[name := content].Keys;
  }

  predicate AllWellFormed(refs: seq<Reference>)
  {
    forall ref :: ref in refs ==> WellFormedRef(ref)
  }

  /** After an event that regenerated the index, the index reads back as the hash references,
      and lists the last commit against the branch `HEAD` resolves to. */
  lemma PublishedIndexNamesTip(r: Repo, ev: Event, faults: set<Op>, hash: Hash)
    requires TipMatches(r) && AllWellFormed(r.refs) && UniqueNames(r.refs)
    requires '\t' !in hash && '\n' !in hash
    ensures var (r', out) := Apply(r, ev, faults, hash);
      out.Published? && r'.log != [] ==>
        && r'.infoRefs.Some?
        && ParseRefs(r'.infoRefs.value) == Some(HashRefPairs(r'.refs))
        && (r'.log[|r'.log| - 1].hash, HeadTarget(r'.refs)) in HashRefPairs(r'.refs)
        && (forall p :: p in HashRefPairs(r'.refs) && p.1 == HeadTarget(r'.refs) ==> p.0 == r'.log[|r'.log| - 1].hash)
  {
    var (r', out) := Apply(r, ev, faults, hash);
    if out.Published? && r'.log != [] {
      assert TipMatches(r') && IndexCurrent(r') by {
        CompletedEvent(r, ev, faults, hash);
      }
      EventMovesAtMostTheBranch(r, ev, faults, hash);
      IndexAfterEvent(r, r', hash);
    }
  }

  /** An event either leaves the references alone or moves the branch `HEAD` resolves to. */
  lemma EventMovesAtMostTheBranch(r: Repo, ev: Event, faults: set<Op>, hash: Hash)
    ensures var refs := Apply(r, ev, faults, hash).0.refs;
      refs == r.refs || refs == SetRef(r.refs, HeadTarget(r.refs), hash)
  {
    var d := Decode(ev.obj);
    if d.content.Some? {
      var w := FileStep(r.tree, ev, d.name, d.content.value, faults);
      if w.err.None? {
        var c := CommitStep(r.(tree := w.tree), d.name, COMPONENT, Message(ev, d.name), faults, hash);
        assert Apply(r, ev, faults, hash).0.refs == c.repo.refs;
      }
    }
  }

  /** The index facts of `IndexNamesTip`, for references the event left alone or moved. */
  lemma IndexAfterEvent(r: Repo, r': Repo, hash: Hash)
    requires AllWellFormed(r.refs) && UniqueNames(r.refs) && '\t' !in hash && '\n' !in hash
    requires TipMatches(r') && IndexCurrent(r') && r'.log != []
    requires r'.refs == r.refs || r'.refs == SetRef(r.refs, HeadTarget(r.refs), hash)
    ensures ParseRefs(r'.infoRefs.value) == Some(HashRefPairs(r'.refs))
    ensures (r'.log[|r'.log| - 1].hash, HeadTarget(r'.refs)) in HashRefPairs(r'.refs)
    ensures forall p :: p in HashRefPairs(r'.refs) && p.1 == HeadTarget(r'.refs) ==> p.0 == r'.log[|r'.log| - 1].hash
  {
    MovedRefsWellFormed(r.refs, hash);
    SetRefKeepsUniqueNames(r.refs, HeadTarget(r.refs), hash);
    IndexNamesTip(r');
  }

  /** Moving the branch to a hash without tabs or newlines keeps every reference well formed. */
  lemma MovedRefsWellFormed(refs: seq<Reference>, hash: Hash)
    requires AllWellFormed(refs) && '\t' !in hash && '\n' !in hash
    ensures AllWellFormed(SetRef(refs, HeadTarget(refs), hash))
  {
    var t := HeadTarget(refs);
    var head := Lookup(refs, "HEAD");
    assert WellFormedRef(HashReference(t, hash)) by {
      if head.Some? && head.value.SymbolicReference? {
        assert WellFormedRef(head.value);
      }
    }
  }
}
