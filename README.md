# Config history recorder: the git-backed storage

This project models `GitStorage`, the event handler that records every change to a cluster
configuration resource as a commit in a git repository. An added, updated or deleted resource
turns into a write or a removal of one YAML file in the working tree. A commit follows whenever
the tree differs from HEAD. Then the `.git/info/refs` index is regenerated for clients that
clone over HTTP.

The repository is modelled abstractly as a `Repository.Repo`:

- the working tree is a map from file name to bytes;
- the history is a sequence of commits, oldest first, and each commit carries its hash, message,
  author, committer and tree;
- the references are a sequence in the order the storer enumerates them, each hash-typed or
  symbolic; the store keys them by name, so the store's invariant keeps their names unique;
- the contents of `.git/info/refs` are kept, if that file was ever written.

Failures of the filesystem and of go-git are an input: a `set<Op>` of the operations that fail
during the event. An operation in the set fails at every call during that event, so a failure of
only a later call (`Worktree()` in `commit` after `write` opened it, or `Lstat` in the recursive
`write` call) cannot be expressed; each such case ends the event the way a modelled failure does,
with a different error. The hash go-git would compute for a new commit is an input as well.

Modules:

- `Common`: an option type, bytes, and a first-index search.
- `Naming`: the file name of a resource type (`resourceFilename`), with a parser as its partner.
  It also has Go's `%q` quoting of a name, with an unquoting partner.
- `Repository`: the abstract repository and each step of an event as a pure function of the old
  state. The steps are `write`, `delete`, `commit` and `updateRefsFile`.
- `Events`: `decodeUnstructuredObject` (name part), one handler call as `Apply`, a sequence of
  calls as `Run`, and what follows from running them.
- `Storage`: the class `GitStorage`, whose methods run the same steps in place, in the source's
  order and with its early returns. `write` retries through recursion after the delete, and
  `updateRefsFile` builds its buffer in a loop. Each method is proved to have exactly the effect
  of the matching step function, so every lemma of `Repository` and `Events` holds of the
  handlers.
- `Scenario`: one ConfigMap's life from a freshly initialised repository, event by event, with
  the exact repository after each event.

## Model

| member | source | states |
|---|---|---|
| Naming.ToLower | pkg/storage/git_store.go:130 | Lower-casing keeps the length, lowers each upper-case ASCII letter pointwise and leaves no upper-case letter. |
| Naming.ToLowerAppend | pkg/storage/git_store.go:130 | Lower-casing distributes over concatenation. |
| Naming.ResourceFilename | pkg/storage/git_store.go:129-131 | The file name is the lower-cased kind, version and group joined by dots, followed by `.yaml`. It has no upper-case letter, its length is the sum of the three parts plus 7, and it ends in `.yaml`. |
| Naming.FilenameParts | pkg/storage/git_store.go:130 | Lower-casing the whole formatted name equals formatting the lower-cased parts. |
| Naming.FilenameParsesBack | pkg/storage/git_store.go:129-131 | For a kind and a version without dots, parsing the file name gives back the type, lower-cased. |
| Naming.FilenameFormatsBack | pkg/storage/git_store.go:129-131 | Any name that parses is reproduced, lower-cased, by formatting the parsed type. |
| Naming.SameFileIffSameType | pkg/storage/git_store.go:129-131 | For dot-free kinds and versions, two types share a file if and only if they agree up to case. |
| Naming.CoreGroupFilename | pkg/storage/git_store.go:129-131 | A core-group ConfigMap (empty group, version v1) is stored in `configmap.v1..yaml`. |
| Naming.EscapeChar | pkg/storage/git_store.go:107 | `%q` writes a character as itself exactly when it is neither a quote, a backslash nor a control character; otherwise it writes a backslash escape. |
| Naming.Quote | pkg/storage/git_store.go:107 | The quoted name starts and ends with a double quote. |
| Naming.UnescapeEscapeChar | pkg/storage/git_store.go:107 | Reading back the escape of one character gives that character, whatever follows. |
| Naming.UnescapeEscape | pkg/storage/git_store.go:107 | Reading back an escaped string gives the string. |
| Naming.UnquoteQuote | pkg/storage/git_store.go:107 | Quoting loses nothing: unquoting the quoted name gives the name back. |
| Naming.EscapePlain | pkg/storage/git_store.go:107 | A string with only printable characters and no quote or backslash escapes to itself. |
| Naming.QuotePlain | pkg/storage/git_store.go:107 | Such a name is quoted by putting double quotes around it. |
| Repository.Committer | pkg/storage/git_store.go:155-159 | The committer is named after the component and has the e-mail `<component>@openshift.io`. |
| Repository.Lookup | pkg/storage/git_store.go:148-160 | The reference found has the name asked for; when none is found, no reference has that name. |
| Repository.SetRef | pkg/storage/git_store.go:148-160 | After a commit the moved reference points at the new hash. Every other name resolves as before, and no other reference appears. |
| Repository.HeadTargetStays | pkg/storage/git_store.go:148-160 | Moving the branch leaves `HEAD` resolving to the same name. |
| Repository.SetRefNames | pkg/storage/git_store.go:148-160 | Moving a branch keeps every reference's name where it stands; a reference is added, at the end, only for a name not yet present. |
| Repository.SetRefKeepsUniqueNames | pkg/storage/git_store.go:148-160 | The reference store is keyed by name: if no two references share a name, none do after the branch moves. |
| Repository.RefLine | pkg/storage/git_store.go:209 | Definition: the index line of one hash reference, `<hash>\t<name>\n`, the hash first (`s[1]`) and the name second (`s[0]`). Its partner is `Repository.ParseRefLine`. |
| Repository.RefText | pkg/storage/git_store.go:207-210 | Definition: a hash reference contributes its `RefLine`, a symbolic one nothing. |
| Repository.RefsText | pkg/storage/git_store.go:204-212 | Definition: the buffer built by the `ForEach` loop, the references' lines in enumeration order. `Repository.RefsTextParsesBack` reads it back and `Storage.GitStorage.UpdateRefsFile` is proved to build it. |
| Repository.RefsTextAppend | pkg/storage/git_store.go:206-212 | The index text of the references with one more appended is the old text followed by that reference's line. |
| Repository.HashRefListed | pkg/storage/git_store.go:206-212 | Every hash reference appears among the pairs the index lists. |
| Repository.ParseRefLine | pkg/storage/git_store.go:209 | A `<hash>\t<name>\n` line whose hash and name hold no tab or newline reads back as its pair, followed by whatever the rest reads as. |
| Repository.RefsTextParsesBack | pkg/storage/git_store.go:203-221 | The index lists exactly the hash references, in order, with symbolic ones skipped: reading it back gives their `(hash, name)` pairs. |
| Repository.CreateFile | pkg/storage/git_store.go:185-192 | Create, write and close succeed exactly when none of the three fails, and then the file holds the content. A failed `Close` leaves the content written, a failed `Write` leaves the file created but empty, a failed `Create` leaves the tree as it was. No other file changes. |
| Repository.DeleteTree | pkg/storage/git_store.go:167-173 | Removal succeeds exactly when the worktree opens, the file exists and removal works. On success only that file is gone; on failure the tree is unchanged; an absent file gives NotExist. |
| Repository.WriteTree | pkg/storage/git_store.go:175-200 | A write succeeds exactly when none of its steps fails, and then the file holds exactly the new content, whether or not it existed and whatever it held. No other file ever changes. An Lstat error other than not-exist leaves the tree unchanged. A create failure after the delete leaves the file removed. |
| Repository.CommitTree | pkg/storage/git_store.go:145-160 | A file enters the commit exactly when the working tree holds it and HEAD tracks it or it is `name` (`Add(name)` plus `All: true`); untracked files stay out. Each file keeps the working tree's bytes. When every file is tracked or is `name`, the commit is the whole working tree. |
| Repository.CommitStep | pkg/storage/git_store.go:133-165 | The working tree and the index are untouched. A clean status gives `("", nil)` and no change. A commit is appended exactly when no step fails and the tree is dirty. It carries the message, the fixed author, the component as committer and the staged tree, and it moves the branch HEAD resolves to. When no commit is appended the repository is unchanged and the hash is `""`. The branch keeps naming the last commit. |
| Repository.RefsFileStep | pkg/storage/git_store.go:203-222 | The index is regenerated exactly when neither listing nor writing fails (otherwise it panics), and then it holds the index text of the current references. |
| Repository.IndexNamesTip | pkg/storage/git_store.go:203-222 | With reference names unique, a current index reads back as the hash references, lists the last commit's hash against the branch HEAD resolves to, and every line for that branch carries that hash. |
| Events.Message | pkg/storage/git_store.go:65-107 | The three commit messages `"%s added"` (line 65), `"%s modified"` (line 87) and `"%q removed"` (line 107). An add or update message starts with the file name; a removal message ends with ` removed` and what precedes it unquotes to the file name. |
| Events.Decode | pkg/storage/git_store.go:115-127 | The file name comes from the type alone and is returned even when encoding fails; the content is the encoder's YAML, when there is one. |
| Events.Apply | pkg/storage/git_store.go:51-113 | A handler call either leaves the history alone or appends exactly one commit. That commit has the event's message, the fixed author, the `operator` committer and the staged tree. The branch keeps naming the last commit. |
| Events.FailuresStopEvent | pkg/storage/git_store.go:54-62 | The event fails to decode exactly when there is no YAML, and then nothing changes. A write or delete failure stops the event before the commit and the index; only the event's own file may differ. Whenever the write or delete fails the event ends as `WriteFailed` with that error, with no commit and no index update, and the tree is what the failed step left. Deleting an absent file is such a failure. |
| Events.CompletedEvent | pkg/storage/git_store.go:59-69 | An event that completes holds the written content in the tree, or lacks the deleted file. A published index lists the current references. A published commit failure leaves the history alone. |
| Events.EventReachesIndex | pkg/storage/git_store.go:59-69 | Once the file step succeeds the event always reaches the index step, whatever the commit does. It ends in the panic exactly when listing or writing the references fails; otherwise it is published with a current index. |
| Events.FailedAddStillPublishes | pkg/storage/git_store.go:64-69 | When `Add` fails on a dirty tree, the commit error is only reported: history and references stay, the tree keeps the written file, and the index is regenerated from the references. |
| Events.SubsequenceOfLonger | pkg/storage/git_store.go:51-113 | A subsequence stays one when the sequence gains a head. |
| Events.SuffixOfAppend | pkg/storage/git_store.go:51-113 | The part of a log after a prefix is what was appended to it. |
| Events.GrowInOrder | pkg/storage/git_store.go:51-113 | One event followed by the rest of a run keeps the old log as a prefix and the new commits in event order. |
| Events.RunKeepsOrder | pkg/storage/git_store.go:51-113 | Over any sequence of events the history only grows, by at most one commit per event. The new commits' hashes and messages are a subsequence of the events' own, in event order. |
| Events.CleanEventCommitsEverything | pkg/storage/git_store.go:133-165 | When every file is tracked and nothing fails before the index step, the event leaves the tree equal to HEAD's tree, still fully tracked. |
| Events.RepeatedUpdateIsNoOp | pkg/storage/git_store.go:138-144 | When every file of the working tree is tracked by HEAD, writing again what an event has just written (the same update twice) commits nothing and changes nothing, the index included. |
| Events.UntrackedFileForcesCommit | pkg/storage/git_store.go:138-144 | With a file in the working tree that HEAD lacks and that was never staged, the status is never clean: an update that changes nothing still commits, repeating HEAD's tree, and the file stays untracked. |
| Events.UnchangedWriteIsNoOp | pkg/storage/git_store.go:138-144 | On a clean tree with a current index, an add or update that writes what the file already holds commits nothing and leaves the repository exactly as it was. |
| Events.EventMovesAtMostTheBranch | pkg/storage/git_store.go:51-113 | An event either leaves the references alone or moves the branch HEAD resolves to onto the new hash. |
| Events.MovedRefsWellFormed | pkg/storage/git_store.go:148-160 | Moving the branch to a hash without tabs or newlines keeps every reference free of them. |
| Events.DeleteTrackedFile | pkg/storage/git_store.go:95-113 | Deleting a tracked file removes it and commits `%q removed` with the tree that lacks it. The branch moves to the new commit and the index is current. |
| Events.ChangingWriteCommits | pkg/storage/git_store.go:51-93 | On a clean tree, an add or update that creates or changes the file commits once with the event's message and the new tree. The branch moves to the new commit and the index is current. |
| Events.DeleteThenAdd | pkg/storage/git_store.go:51-113 | Deleting a tracked type and adding it back records a removal and then an addition, and the file ends up holding exactly the new content. |
| Events.PublishedIndexNamesTip | pkg/storage/git_store.go:51-113 | With reference names unique, after an event that regenerated the index, the index reads back as the hash references, lists the last commit against the branch HEAD resolves to, and gives that branch no other hash. |
| Storage.GitStorage.Init | pkg/storage/git_store.go:36-41 | A freshly initialised repository has an empty tree, no commits, `HEAD` naming a branch not yet created, and no index file. |
| Storage.GitStorage.Delete | pkg/storage/git_store.go:167-173 | The method has exactly the effect and the error of `DeleteTree`. |
| Storage.GitStorage.Write | pkg/storage/git_store.go:175-200 | The recursive write has exactly the effect and the error of `WriteTree`. |
| Storage.GitStorage.Commit | pkg/storage/git_store.go:133-165 | The method has exactly the new log, references, hash and error of `CommitStep`. |
| Storage.GitStorage.UpdateRefsFile | pkg/storage/git_store.go:203-222 | The loop's buffer is the index text. The method panics exactly when `RefsFileStep` does and otherwise writes that text over the file. |
| Storage.GitStorage.Record | pkg/storage/git_store.go:59-69 | The tail the three handlers share (file step, commit, index; also lines 81-91 and 103-111): the new state and outcome are those of `Apply` on the decoded event, and the invariant (tip matches, unique reference names) is kept. |
| Storage.GitStorage.OnAdd | pkg/storage/git_store.go:51-71 | The new state and the outcome are those of `Apply` on an add event (delegating to `Record` once the object decodes), and the branch keeps naming the last commit with reference names still unique. |
| Storage.GitStorage.OnUpdate | pkg/storage/git_store.go:73-93 | The new state and the outcome are those of `Apply` on an update event (delegating to `Record` once the object decodes), and the branch keeps naming the last commit with reference names still unique. |
| Storage.GitStorage.OnDelete | pkg/storage/git_store.go:95-113 | The new state and the outcome are those of `Apply` on a delete event (delegating to `Record` once the object decodes), and the branch keeps naming the last commit with reference names still unique. |
| Scenario.Added1 | pkg/storage/git_store.go:51-71 | Adding a ConfigMap to a fresh repository writes `configmap.v1..yaml`, commits `configmap.v1..yaml added`, creates `master` and writes one index line. |
| Scenario.SameUpdate | pkg/storage/git_store.go:73-93 | Then updating it with the same content commits nothing and changes nothing. |
| Scenario.NewUpdate | pkg/storage/git_store.go:73-93 | Updating it with new content commits `configmap.v1..yaml modified` and moves `master`. |
| Scenario.DeletedParts | pkg/storage/git_store.go:95-113 | Deleting it empties the tree, commits `%q removed`, moves the branch and leaves the index current. |
| Scenario.Deleted1 | pkg/storage/git_store.go:95-113 | Deleting it commits `"configmap.v1..yaml" removed`, moves `master` and rewrites the index line. |

## Left out

- `NewGitStorage` (opening or initialising the repository on disk) is library and filesystem plumbing; the constructor starts from the state `git init` leaves.
- The mutex only makes each handler call atomic; the model runs one call at a time.
- Logging, `time.Now()` timestamps in the signatures, file permissions and the creation of `.git/info` are not modelled. A failure of the directory creation is folded into the `WriteRefs` failure.
- go-git itself is not modelled: object hashing, the real status computation, the index format, and the order in which the storer lists references. The hash of a new commit is an input, a status is clean when the working tree equals HEAD's tree, and the reference order is the order of the sequence.
- The storer's staging index is not modelled. The commit tree follows `Add(name)` with `All: true`: the files HEAD tracks, as the working tree has them, plus `name`.
- `Events.Decode`: the `*unstructured.Unstructured` type assertion (a panic on any other object), `runtime.Encode` and `yaml.JSONToYAML` are library calls. The YAML the encoder would produce is part of the object, absent when encoding fails.
- `Naming.ToLower`: lowers ASCII letters only; Go's Unicode case mapping is not modelled.
- `Naming.Quote`: escapes quotes, backslashes and ASCII control characters as `strconv.Quote` does. Non-ASCII characters are treated as printable, so Go's `\u` escapes for non-printable runes are not modelled.
- `Naming.EscapeChar`: a non-ASCII character that Go does not consider printable (U+00A0, say) is written as itself, where `%q` writes `\u00a0`; only quotes, backslashes and ASCII control characters are escaped.
- `Events.RepeatedUpdateIsNoOp`: holds only when every file of the working tree is tracked by HEAD. A file whose `Add` failed (or whose commit stopped before `Add`), or whose write failed after `Create`, keeps the status dirty, and then a repeated update does commit again, as `Events.UntrackedFileForcesCommit` shows.
- `Repository.CommitTree`: go-git's next commit includes a file staged by a successful `Add` whose commit then failed, because `Commit` builds its tree from the staging index; the model has no staging index and leaves such a file out of every later commit until an event names it again.
- `Events.UntrackedFileForcesCommit`: its conclusion that the stray file stays untracked holds in the program only for a file never staged; a file staged by a successful `Add` whose commit failed is taken into the next commit by go-git, which the model does not capture (see `Repository.CommitTree`).
- `Repository.WriteTree`: a failing `Write` is modelled as writing nothing, so a partial write is not modelled. The file handle that such a failure leaves unclosed is not modelled either.
- `Repository.RefsFileStep`: a panic leaves the index unchanged in the model; a write that fails part-way could leave a truncated file. The byte buffer is modelled as a string.
- `Events.Run`: the panic ends the process, so a run stops at the first fatal event; restarting the process is not modelled.
